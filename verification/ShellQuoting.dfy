/**
 Shell quoting of build values, against the quoting rules of the POSIX.1-2017 shell
 (sections 2.2.1 to 2.2.3). The lexer below knows words, quotes, escapes and newlines, and
 refuses what would be an operator, a comment, an expansion or a NUL.
 */
module ShellQuoting {
  import opened Common

  /** A character of a word after quote removal, with whether it was quoted. */
  datatype Mark = Mark(c: char, quoted: bool)

  datatype Token = Word(marks: seq<Mark>) | Newline

  datatype Mode = Plain | InSingle

  const NUL := 0 as char

  function Marked(s: string, quoted: bool): seq<Mark> {
    seq(|s|, i requires 0 <= i < |s| => Mark(s[i], quoted))
  }

  function Text(marks: seq<Mark>): string {
    seq(|marks|, i requires 0 <= i < |marks| => marks[i].c)
  }

  /** Characters that end a word or mean more than themselves outside quotes. */
  predicate Special(c: char) {
    c in {'|', '&', ';', '<', '>', '(', ')', '$', '`', '"', '#', '*', '?', '[', '~', NUL}
  }

  function Flush(marks: seq<Mark>, open: bool): seq<Token> {
    if open then [Word(marks)] else []
  }

  /** What was read: the complete tokens, whether that was all of the text, and else what it stopped at. */
  datatype Lexed = Lexed(tokens: seq<Token>, all: bool, left: string)

  function Before(tokens: seq<Token>, rest: Lexed): Lexed {
    rest.(tokens := tokens + rest.tokens)
  }

  /** Splits shell text into words and newlines; `marks` is the word so far, `open` whether one has begun. */
  function Lex(mode: Mode, s: string, marks: seq<Mark>, open: bool): Lexed
    decreases |s|
  {
    match mode
    case InSingle =>
      if s == "" || s[0] == NUL then Lexed([], false, s)
      else if s[0] == '\'' then Lex(Plain, s[1..], marks, true)
      else Lex(InSingle, s[1..], marks + [Mark(s[0], true)], true)
    case Plain =>
      if s == "" then Lexed(Flush(marks, open), true, "")
      else if s[0] == '\'' then Lex(InSingle, s[1..], marks, true)
      else if s[0] == '\\' then
        if |s| == 1 || s[1] == NUL then Lexed([], false, s)
        else if s[1] == '\n' then Lex(Plain, s[2..], marks, open)
        else Lex(Plain, s[2..], marks + [Mark(s[1], true)], true)
      else if s[0] == ' ' || s[0] == '\t' then Before(Flush(marks, open), Lex(Plain, s[1..], [], false))
      else if s[0] == '\n' then Before(Flush(marks, open) + [Newline], Lex(Plain, s[1..], [], false))
      else if Special(s[0]) then Lexed([], false, s)
      else Lex(Plain, s[1..], marks + [Mark(s[0], false)], true)
  }

  // ---------------------------------------------------------------- single quotes

  /** strings.ReplaceAll(s, "'", `'\''`) */
  function EscapeSingle(s: string): string {
    if s == "" then ""
    else (if s[0] == '\'' then "'\\''" else [s[0]]) + EscapeSingle(s[1..])
  }

  function ShellQuote(s: string): string {
    "'" + EscapeSingle(s) + "'"
  }

  lemma LexQuote(rest: string, marks: seq<Mark>)
    ensures Lex(InSingle, "'\\''" + rest, marks, true) == Lex(InSingle, rest, marks + [Mark('\'', true)], true)
  {
    var t := "'\\''" + rest;
    assert t[1..] == "\\''" + rest;
    assert t[1..][2..] == "'" + rest;
    assert ("'" + rest)[1..] == rest;
    var next := marks + [Mark('\'', true)];
    assert Lex(InSingle, t, marks, true) == Lex(Plain, t[1..], marks, true);
    assert Lex(Plain, t[1..], marks, true) == Lex(Plain, "'" + rest, next, true);
    assert Lex(Plain, "'" + rest, next, true) == Lex(InSingle, rest, next, true);
  }

  /** `r` stopped at a NUL without having completed a word. */
  predicate Refused(r: Lexed) {
    r.tokens == [] && !r.all && r.left != "" && r.left[0] == NUL
  }

  /** Inside single quotes the escaped text adds exactly its own characters, all quoted; a NUL is refused. */
  lemma {:induction false} LexEscaped(s: string, rest: string, marks: seq<Mark>)
    ensures var r := Lex(InSingle, EscapeSingle(s) + "'" + rest, marks, true);
            if NUL in s then Refused(r) else r == Lex(Plain, rest, marks + Marked(s, true), true)
  {
    var t := EscapeSingle(s) + "'" + rest;
    if s == "" {
      assert t == "'" + rest && t[1..] == rest;
      assert marks + Marked(s, true) == marks;
    } else {
      var tail := EscapeSingle(s[1..]) + "'" + rest;
      assert s == [s[0]] + s[1..];
      assert marks + [Mark(s[0], true)] + Marked(s[1..], true) == marks + Marked(s, true);
      LexEscaped(s[1..], rest, marks + [Mark(s[0], true)]);
      if s[0] == '\'' {
        assert t == "'\\''" + tail;
        LexQuote(tail, marks);
      } else {
        assert t == [s[0]] + tail && t[1..] == tail;
      }
    }
  }

  /** A quoted string continues the current word by exactly its own characters. */
  lemma LexShellQuote(s: string, rest: string, marks: seq<Mark>, open: bool)
    ensures var r := Lex(Plain, ShellQuote(s) + rest, marks, open);
            if NUL in s then Refused(r) else r == Lex(Plain, rest, marks + Marked(s, true), true)
  {
    var t := ShellQuote(s) + rest;
    assert t[0] == '\'' && t[1..] == EscapeSingle(s) + "'" + rest;
    LexEscaped(s, rest, marks);
  }

  /** A POSIX lexer reads shellQuote(s) as one word whose text is s, fully quoted, exactly when s has no NUL. */
  lemma QuotedIsOneWord(s: string)
    ensures Lex(Plain, ShellQuote(s), [], false) == Lexed([Word(Marked(s, true))], true, "") <==> NUL !in s
    ensures Text(Marked(s, true)) == s
  {
    LexShellQuote(s, "", [], false);
    assert ShellQuote(s) + "" == ShellQuote(s);
    assert [] + Marked(s, true) == Marked(s, true);
  }

  // ---------------------------------------------------------------- the assignment block

  predicate NameChar(c: char) {
    'a' <= c <= 'z' || 'A' <= c <= 'Z' || '0' <= c <= '9' || c == '_'
  }

  predicate ShellName(s: string) {
    s != "" && !('0' <= s[0] <= '9') && forall i :: 0 <= i < |s| ==> NameChar(s[i])
  }

  /** A word is an assignment when an unquoted name and an unquoted '=' lead it. */
  function AssignmentAt(marks: seq<Mark>, i: nat): Option<(string, string)>
    requires i <= |marks|
    decreases |marks| - i
  {
    if i == |marks| || marks[i].quoted then None
    else if marks[i].c == '=' then
      if ShellName(Text(marks[..i])) then Some((Text(marks[..i]), Text(marks[i + 1..]))) else None
    else AssignmentAt(marks, i + 1)
  }

  /** Lines of one assignment each. */
  function Assignments(tokens: seq<Token>): Option<seq<(string, string)>> {
    if tokens == [] then Some([])
    else if |tokens| == 1 || tokens[0].Newline? || tokens[1].Word? then None
    else
      match (AssignmentAt(tokens[0].marks, 0), Assignments(tokens[2..]))
      case (Some(a), Some(rest)) => Some([a] + rest)
      case _ => None
  }

  function Line(name: string, value: string): string {
    name + "=" + ShellQuote(value) + "\n"
  }

  function Block(vars: seq<(string, string)>): string {
    if vars == [] then "" else Line(vars[0].0, vars[0].1) + Block(vars[1..])
  }

  function LineMarks(name: string, value: string): seq<Mark> {
    Marked(name, false) + [Mark('=', false)] + Marked(value, true)
  }

  function BlockTokens(vars: seq<(string, string)>): seq<Token> {
    if vars == [] then [] else [Word(LineMarks(vars[0].0, vars[0].1)), Newline] + BlockTokens(vars[1..])
  }

  predicate Named(vars: seq<(string, string)>) {
    forall i :: 0 <= i < |vars| ==> ShellName(vars[i].0)
  }

  predicate NulFree(vars: seq<(string, string)>) {
    forall i :: 0 <= i < |vars| ==> NUL !in vars[i].1
  }

  /** Unquoted name characters are read as themselves. */
  lemma {:induction false} LexName(name: string, rest: string, marks: seq<Mark>, open: bool)
    requires (forall i :: 0 <= i < |name| ==> NameChar(name[i])) && name != ""
    ensures Lex(Plain, name + rest, marks, open) == Lex(Plain, rest, marks + Marked(name, false), true)
  {
    var t := name + rest;
    assert t[0] == name[0] && t[1..] == name[1..] + rest;
    assert !Special(name[0]);
    var next := marks + [Mark(name[0], false)];
    if |name| == 1 {
      assert Marked(name, false) == [Mark(name[0], false)];
      assert name[1..] + rest == rest;
    } else {
      LexName(name[1..], rest, next, true);
      assert next + Marked(name[1..], false) == marks + Marked(name, false);
    }
  }

  lemma LexEquals(rest: string, marks: seq<Mark>)
    ensures Lex(Plain, "=" + rest, marks, true) == Lex(Plain, rest, marks + [Mark('=', false)], true)
  {
  }

  lemma LexNewline(rest: string, marks: seq<Mark>)
    ensures Lex(Plain, "\n" + rest, marks, true) == Before([Word(marks), Newline], Lex(Plain, rest, [], false))
  {
    assert ("\n" + rest)[1..] == rest;
    assert Flush(marks, true) + [Newline] == [Word(marks), Newline];
  }

  lemma LexLine(name: string, value: string, rest: string)
    requires ShellName(name) && NUL !in value
    ensures Lex(Plain, Line(name, value) + rest, [], false) ==
            Before([Word(LineMarks(name, value)), Newline], Lex(Plain, rest, [], false))
  {
    var afterValue := "\n" + rest;
    var afterEquals := ShellQuote(value) + afterValue;
    assert Line(name, value) + rest == name + ("=" + afterEquals);
    LexName(name, "=" + afterEquals, [], false);
    assert [] + Marked(name, false) == Marked(name, false);
    LexEquals(afterEquals, Marked(name, false));
    LexShellQuote(value, afterValue, Marked(name, false) + [Mark('=', false)], true);
    LexNewline(rest, LineMarks(name, value));
  }

  lemma {:induction false} LexBlock(vars: seq<(string, string)>, rest: string)
    requires Named(vars) && NulFree(vars)
    ensures Lex(Plain, Block(vars) + rest, [], false) == Before(BlockTokens(vars), Lex(Plain, rest, [], false))
  {
    if vars == [] {
      assert Block(vars) + rest == rest;
      assert [] + Lex(Plain, rest, [], false).tokens == Lex(Plain, rest, [], false).tokens;
    } else {
      var tail := Block(vars[1..]) + rest;
      assert Block(vars) + rest == Line(vars[0].0, vars[0].1) + tail;
      LexLine(vars[0].0, vars[0].1, tail);
      LexBlock(vars[1..], rest);
      var after := Lex(Plain, rest, [], false).tokens;
      assert BlockTokens(vars) + after == [Word(LineMarks(vars[0].0, vars[0].1)),
          Newline] + (BlockTokens(vars[1..]) + after);
    }
  }

  lemma {:induction false} FindsAssignment(name: string, value: string, i: nat)
    requires ShellName(name) && i <= |name|
    ensures AssignmentAt(LineMarks(name, value), i) == Some((name, value))
    decreases |name| - i
  {
    var marks := LineMarks(name, value);
    if i < |name| {
      assert marks[i] == Mark(name[i], false) && NameChar(name[i]);
      FindsAssignment(name, value, i + 1);
    } else {
      assert marks[i] == Mark('=', false);
      assert Text(marks[..i]) == name && Text(marks[i + 1..]) == value;
    }
  }

  lemma {:induction false} BlockAssigns(vars: seq<(string, string)>)
    requires Named(vars) && NulFree(vars)
    ensures Assignments(BlockTokens(vars)) == Some(vars)
  {
    if vars != [] {
      BlockAssigns(vars[1..]);
      FindsAssignment(vars[0].0, vars[0].1, 0);
      assert BlockTokens(vars)[2..] == BlockTokens(vars[1..]);
      assert vars == [vars[0]] + vars[1..];
    }
  }

  /** A block with a NUL in some value is not read to its end, whatever follows it. */
  lemma {:induction false} NulIsRefused(vars: seq<(string, string)>, rest: string)
    requires Named(vars) && !NulFree(vars)
    ensures !Lex(Plain, Block(vars) + rest, [], false).all
  {
    var tail := Block(vars[1..]) + rest;
    var name, value := vars[0].0, vars[0].1;
    assert Block(vars) + rest == Line(name, value) + tail;
    if NUL in value {
      NulLineIsRefused(name, value, tail);
    } else {
      assert !NulFree(vars[1..]) by {
        var i :| 0 <= i < |vars| && NUL in vars[i].1;
        assert vars[1..][i - 1] == vars[i];
      }
      NulIsRefused(vars[1..], rest);
      LexLine(name, value, tail);
    }
  }

  lemma NulLineIsRefused(name: string, value: string, rest: string)
    requires ShellName(name) && NUL in value
    ensures !Lex(Plain, Line(name, value) + rest, [], false).all
  {
    var afterEquals := ShellQuote(value) + ("\n" + rest);
    assert Line(name, value) + rest == name + ("=" + afterEquals);
    LexName(name, "=" + afterEquals, [], false);
    assert [] + Marked(name, false) == Marked(name, false);
    LexEquals(afterEquals, Marked(name, false));
    LexShellQuote(value, "\n" + rest, Marked(name, false) + [Mark('=', false)], true);
  }

  /** `script` in front of any text: lexing it emits lines that assign `vars` and goes on at that text afresh. */
  ghost predicate AssignsBefore(script: string, vars: seq<(string, string)>) {
    exists tokens :: Assignments(tokens) == Some(vars) && Emits(script, tokens)
  }

  ghost predicate Emits(script: string, tokens: seq<Token>) {
    forall rest: string {:trigger script + rest} ::
      Lex(Plain, script + rest, [], false) == Before(tokens, Lex(Plain, rest, [], false))
  }

  /**
   copyScript's loop: in front of any text, whatever that holds, the block it writes is read
   as lines that assign exactly the given values; with a NUL in a value it is never read to
   its end.
   */
  method WriteBlock(vars: seq<(string, string)>) returns (script: string)
    requires Named(vars)
    ensures NulFree(vars) ==> AssignsBefore(script, vars)
    ensures !NulFree(vars) ==> forall rest: string :: !Lex(Plain, script + rest, [], false).all
  {
    script := "";
    assert vars[0..] == vars;
    for i := 0 to |vars|
      invariant script + Block(vars[i..]) == Block(vars)
    {
      assert vars[i..][1..] == vars[i + 1..];
      script := script + (vars[i].0 + "=" + ShellQuote(vars[i].1) + "\n");
    }
    assert script == script + Block([]);
    assert vars[|vars|..] == [];
    if NulFree(vars) {
      BlockAssigns(vars);
      forall rest: string
        ensures Lex(Plain, script + rest, [], false) == Before(BlockTokens(vars), Lex(Plain, rest, [], false))
      {
        LexBlock(vars, rest);
      }
      assert Emits(script, BlockTokens(vars));
    } else {
      forall rest: string
        ensures !Lex(Plain, script + rest, [], false).all
      {
        NulIsRefused(vars, rest);
      }
    }
  }

  /** A COPY step's owner: the given one, doubled when it names no group, else the current user. */
  function OwnerOf(user: string, given: string): (owner: string)
    ensures ':' in owner
    ensures given == "" ==> owner == user + ":" + user
    ensures given != "" ==> owner == given || (':' !in given && owner == given + ":" + given)
  {
    if given == "" then user + ":" + user
    else if ':' in given then given
    else given + ":" + given
  }

  /** The variables of a COPY step; `source` is the path inside the unpacked archive. */
  function CopyVars(user: string, workdir: string, hash: string, args: seq<string>,
          source: string): (vars: seq<(string, string)>)
    requires |args| >= 2
    ensures Named(vars)
  {
    [("archive", "/tmp/" + hash + ".tar"),
     ("scratch", "/tmp/" + hash),
     ("unpack", "/tmp/" + hash + "/unpack"),
     ("src", args[0]),
     ("source", source),
     ("target", args[1]),
     ("owner", OwnerOf(user, if |args| > 2 then args[2] else "")),
     ("mode", if |args| > 3 then args[3] else ""),
     ("workdir", workdir),
     ("user", user)]
  }

  /** What a variable holds after assignments in order: the last one counts. */
  function ValueOf(vars: seq<(string, string)>, name: string): Option<string> {
    if vars == [] then None
    else if vars[|vars| - 1].0 == name then Some(vars[|vars| - 1].1)
    else ValueOf(vars[..|vars| - 1], name)
  }

  lemma {:induction false} ValueIsOwn(vars: seq<(string, string)>, i: nat)
    requires i < |vars| && forall j :: i < j < |vars| ==> vars[j].0 != vars[i].0
    ensures ValueOf(vars, vars[i].0) == Some(vars[i].1)
  {
    if i < |vars| - 1 {
      ValueIsOwn(vars[..|vars| - 1], i);
    }
  }

  /** No two of a COPY step's variables share a name. */
  lemma CopyNamesDistinct(vars: seq<(string, string)>, i: nat, j: nat)
    requires |vars| == 10 && i < j < 10
    requires
      && vars[0].0 == "archive" && vars[1].0 == "scratch" && vars[2].0 == "unpack" && vars[3].0 == "src"
      && vars[4].0 == "source" && vars[5].0 == "target" && vars[6].0 == "owner" && vars[7].0 == "mode"
      && vars[8].0 == "workdir" && vars[9].0 == "user"
    ensures vars[i].0 != vars[j].0
  {
    var lengths := [7, 7, 6, 3, 6, 6, 5, 4, 7, 4];
    var firsts := ['a', 's', 'u', 's', 's', 't', 'o', 'm', 'w', 'u'];
    assert forall k :: 0 <= k < 10 ==> |vars[k].0| == lengths[k] && vars[k].0[0] == firsts[k];
  }

  /** These ten assignments give every variable the move script uses the step's own value. */
  ghost predicate HoldsStep(vars: seq<(string, string)>, user: string, workdir: string, hash: string, args: seq<string>,
          source: string)
    requires |args| >= 2
  {
    && |vars| == 10
    && ValueOf(vars, "archive") == Some("/tmp/" + hash + ".tar") && ValueOf(vars, "scratch") == Some("/tmp/" + hash)
    && ValueOf(vars, "unpack") == Some("/tmp/" + hash + "/unpack") && ValueOf(vars, "src") == Some(args[0])
    && ValueOf(vars, "source") == Some(source) && ValueOf(vars, "target") == Some(args[1])
    && ValueOf(vars, "owner") == Some(OwnerOf(user, if |args| > 2 then args[2] else ""))
    && ValueOf(vars, "mode") == Some(if |args| > 3 then args[3] else "")
    && ValueOf(vars, "workdir") == Some(workdir) && ValueOf(vars, "user") == Some(user)
  }

  lemma CopyVarsHold(user: string, workdir: string, hash: string, args: seq<string>, source: string)
    requires |args| >= 2
    ensures HoldsStep(CopyVars(user, workdir, hash, args, source), user, workdir, hash, args, source)
  {
    var vars := CopyVars(user, workdir, hash, args, source);
    forall i | 0 <= i < 10
      ensures ValueOf(vars, vars[i].0) == Some(vars[i].1)
    {
      forall j | i < j < 10
        ensures vars[i].0 != vars[j].0
      {
        CopyNamesDistinct(vars, i, j);
      }
      ValueIsOwn(vars, i);
    }
    assert forall i :: 0 <= i < 10 ==> ValueOf(vars, vars[i].0) == Some(vars[i].1);
    assert vars[0].0 == "archive" && vars[1].0 == "scratch" && vars[2].0 == "unpack" && vars[3].0 == "src" &&
        vars[4].0 == "source";
    assert vars[5].0 == "target" && vars[6].0 == "owner" && vars[7].0 == "mode" && vars[8].0 == "workdir" &&
        vars[9].0 == "user";
  }

  /** `script` is a block in front of `move` that the shell reads as the assignments `vars`, if no value holds a NUL. */
  ghost predicate Prepends(script: string, move: string, block: string, vars: seq<(string, string)>) {
    && script == block + move
    && (if NulFree(vars) then AssignsBefore(block, vars) else !Lex(Plain, script, [], false).all)
  }

  /**
   copyScript: what it builds is read as assignments that give every variable of the move
   script the step's own value, and then as that script, whatever it is.
   */
  method CopyScript(user: string, workdir: string, hash: string, args: seq<string>, source: string, move: string)
    returns (script: string)
    requires |args| >= 2
    ensures exists block, vars ::
            Prepends(script, move, block, vars) && HoldsStep(vars, user, workdir, hash, args, source)
  {
    var vars := CopyVars(user, workdir, hash, args, source);
    var block := WriteBlock(vars);
    script := block + move;
    CopyVarsHold(user, workdir, hash, args, source);
    assert Prepends(script, move, block, vars);
  }

  // ---------------------------------------------------------------- double quotes

  /** What an unread text is inside of: double quotes, the braces of an expansion, or single quotes in those. */
  datatype Context = InDouble | InBrace | InQuote

  /**
   What the shell sees between double quotes: a character that stands for itself, a dollar with
   the character that starts its parameter, the ends of an expansion in braces, or a quote that
   opens or closes a quoted string in one.
   */
  datatype Piece = Char(c: char) | Param(c: char) | OpenBrace | CloseBrace | Delimiter(c: char)

  datatype Quoted = Closed(pieces: seq<Piece>, rest: string) | Substitution | Unterminated | NulRefused

  /** Contexts from the outside in; the outermost are the builder's double quotes. */
  predicate Nested(stack: seq<Context>) {
    stack != [] && stack[0].InDouble?
  }

  function Top(stack: seq<Context>): Context
    requires Nested(stack)
  {
    stack[|stack| - 1]
  }

  function Pop(stack: seq<Context>): (r: seq<Context>)
    requires Nested(stack) && |stack| > 1
    ensures Nested(r)
  {
    stack[..|stack| - 1]
  }

  function Prepend(pieces: seq<Piece>, q: Quoted): Quoted {
    if q.Closed? then Closed(pieces + q.pieces, q.rest) else q
  }

  /** A dollar before one of these names a parameter: a name, a position or a special parameter. */
  predicate StartsParam(c: char) {
    NameChar(c) || c in {'@', '*', '#', '?', '-', '$', '!'}
  }

  /** A backslash before one of these takes its special meaning away. */
  predicate Escapes(top: Context, c: char) {
    c in {'$', '`', '"', '\\'} || (top.InBrace? && c in {'{', '}'})
  }

  /**
   Reads the text after an opening double quote up to the one that closes it (section 2.2.3).
   From "${" to the matching brace, quoted strings are read as such, and a brace that is
   escaped, quoted or of an inner expansion does not match (section 2.6.2). A dollar that starts
   no expansion, of which section 2.6 leaves the result open, stands for itself.
   */
  function Scan(stack: seq<Context>, s: string): Quoted
    requires Nested(stack)
    decreases |s|
  {
    var top := Top(stack);
    if s == "" then Unterminated
    else if s[0] == NUL then NulRefused
    else if top.InQuote? then
      if s[0] == '\'' then Prepend([Delimiter('\'')], Scan(Pop(stack), s[1..]))
      else Prepend([Char(s[0])], Scan(stack, s[1..]))
    else if s[0] == '\\' && |s| > 1 && Escapes(top, s[1]) then Prepend([Char(s[1])], Scan(stack, s[2..]))
    else if s[0] == '\\' && |s| > 1 && s[1] == '\n' then Scan(stack, s[2..])
    else if s[0] == '`' then Substitution
    else if s[0] == '$' && |s| > 1 && s[1] == '(' then Substitution
    else if s[0] == '$' && |s| > 1 && s[1] == '{' then Prepend([OpenBrace], Scan(stack + [InBrace], s[2..]))
    else if s[0] == '$' && |s| > 1 && StartsParam(s[1]) then Prepend([Param(s[1])], Scan(stack, s[2..]))
    else if top.InBrace? && s[0] == '}' then Prepend([CloseBrace], Scan(Pop(stack), s[1..]))
    else if top.InBrace? && s[0] == '\'' then Prepend([Delimiter('\'')], Scan(stack + [InQuote], s[1..]))
    else if s[0] == '"' then
      if |stack| == 1 then Closed([], s[1..])
      else if top.InBrace? then Prepend([Delimiter('"')], Scan(stack + [InDouble], s[1..]))
      else Prepend([Delimiter('"')], Scan(Pop(stack), s[1..]))
    else Prepend([Char(s[0])], Scan(stack, s[1..]))
  }

  /** What a text begins with decides how the escaper writes it. */
  predicate Escaped(s: string) {
    s != "" && (s[0] in {'\\', '"', '`'} || (s[0] == '$' && |s| > 1 && s[1] == '('))
  }

  /** envEscaper: a backslash before each backslash, double quote, backquote and "$(". */
  function EnvEscape(s: string): string {
    if s == "" then ""
    else if s[0] == '\\' || s[0] == '"' || s[0] == '`' then ['\\', s[0]] + EnvEscape(s[1..])
    else if s[0] == '$' && |s| > 1 && s[1] == '(' then ['\\', '$', '('] + EnvEscape(s[2..])
    else [s[0]] + EnvEscape(s[1..])
  }

  /** The dollar a text begins with starts an expansion; in "$$(" the first one meets the backslash of the second. */
  predicate StartsExpansion(s: string) {
    |s| > 1 && s[0] == '$' && (s[1] == '{' || (StartsParam(s[1]) && !Escaped(s[1..])))
  }

  /** The backslash the escaper sets: read as itself in single quotes, else as taking the meaning away. */
  function Guard(top: Context): seq<Piece> {
    if top.InQuote? then [Char('\\')] else []
  }

  /** One step of reading a value by itself: how much of it, as what, and the contexts after it. */
  datatype Taken = Taken(n: nat, pieces: seq<Piece>, stack: seq<Context>)

  /**
   The front of a value. Backslashes, double quotes, backquotes and "$(" are plain text of it,
   with a backslash before them in a single-quoted string, where the escaper's own stands.
   */
  function Take(stack: seq<Context>, s: string): (t: Taken)
    requires Nested(stack) && s != ""
    ensures 1 <= t.n <= |s| && Nested(t.stack)
  {
    var top := Top(stack);
    if Escaped(s) then
      var n := if s[0] == '$' then 2 else 1;
      Taken(n, Guard(top) + Chars(s[..n]), stack)
    else if top.InQuote? then
      if s[0] == '\'' then Taken(1, [Delimiter('\'')], Pop(stack)) else Taken(1, [Char(s[0])], stack)
    else if StartsExpansion(s) then
      if s[1] == '{' then Taken(2, [OpenBrace], stack + [InBrace]) else Taken(2, [Param(s[1])], stack)
    else if top.InBrace? && s[0] == '}' then Taken(1, [CloseBrace], Pop(stack))
    else if top.InBrace? && s[0] == '\'' then Taken(1, [Delimiter('\'')], stack + [InQuote])
    else Taken(1, [Char(s[0])], stack)
  }

  /** A value as the shell will read it. */
  function Pieces(stack: seq<Context>, s: string): seq<Piece>
    requires Nested(stack)
    decreases |s|
  {
    if s == "" then [] else var t := Take(stack, s); t.pieces + Pieces(t.stack, s[t.n..])
  }

  /** The contexts a value leaves open. */
  function Left(stack: seq<Context>, s: string): (r: seq<Context>)
    requires Nested(stack)
    ensures Nested(r)
    decreases |s|
  {
    if s == "" then stack else var t := Take(stack, s); Left(t.stack, s[t.n..])
  }

  /** Every "${" of the value has its matching brace, and every single quote in between its partner. */
  predicate Matched(s: string) {
    Left([InDouble], s) == [InDouble]
  }

  function Chars(s: string): (r: seq<Piece>)
    ensures |r| == |s| && forall i :: 0 <= i < |r| ==> r[i] == Char(s[i])
  {
    seq(|s|, i requires 0 <= i < |s| => Char(s[i]))
  }

  /** What the escaper writes for the part of a value read in one step. */
  function Written(s: string, n: nat): string
    requires n <= |s|
  {
    if Escaped(s) then ['\\'] + s[..n] else s[..n]
  }

  /** What the text after the front of a value begins with, once the builder has closed the quotes. */
  lemma HeadOfEscape(s: string, rest: string)
    ensures var t := EnvEscape(s) + "\"" + rest;
            t[0] == if s == "" then '"' else if Escaped(s) then '\\' else s[0]
  {
  }

  /** Two characters are taken of what the escaper defuses, or of an expansion whose start it leaves alone. */
  lemma TakesTwo(stack: seq<Context>, s: string)
    requires Nested(stack) && s != ""
    ensures Take(stack, s).n == 2 && !Escaped(s) ==> |s| > 1 && !Escaped(s[1..])
    ensures Take(stack, s).n <= 2
  {
  }

  lemma EscapePlain(s: string)
    requires s != "" && !Escaped(s)
    ensures EnvEscape(s) == [s[0]] + EnvEscape(s[1..])
  {
  }

  /** The escaper writes a value step by step. */
  lemma EscapeFront(stack: seq<Context>, s: string)
    requires Nested(stack) && s != ""
    ensures var n := Take(stack, s).n;
            EnvEscape(s) == Written(s, n) + EnvEscape(s[n..])
  {
    TakesTwo(stack, s);
    if Escaped(s) {
      EscapedTake(stack, s);
    } else {
      EscapePlain(s);
      assert s[..1] == [s[0]];
      if Take(stack, s).n == 2 {
        EscapePlain(s[1..]);
        assert s[1..][1..] == s[2..] && s[..2] == [s[0], s[1]];
      }
    }
  }

  lemma ScanExpansion(stack: seq<Context>, s: string, tail: string)
    requires Nested(stack) && !Top(stack).InQuote? && StartsExpansion(s)
    ensures Scan(stack, s[..2] + tail) ==
            if s[1] == '{' then Prepend([OpenBrace], Scan(stack + [InBrace], tail))
            else Prepend([Param(s[1])], Scan(stack, tail))
  {
    var text := s[..2] + tail;
    assert text[0] == '$' && text[1] == s[1] && text[2..] == tail;
  }

  /** A character that is neither guarded nor starts an expansion, before the text that follows it. */
  lemma ScanSingle(stack: seq<Context>, s: string, tail: string)
    requires Nested(stack) && s != "" && s[0] != NUL && !Escaped(s) && tail != ""
    requires Take(stack, s).n == 1
    requires s[0] == '$' ==> tail[0] == if |s| == 1 then '"' else if Escaped(s[1..]) then '\\' else s[1]
    ensures Scan(stack, [s[0]] + tail) == Prepend(Take(stack, s).pieces, Scan(Take(stack, s).stack, tail))
  {
    var text := [s[0]] + tail;
    assert text[0] == s[0] && text[1..] == tail && text[1] == tail[0];
  }

  /** A step of the scan over what the escaper wrote for the front of a value. */
  lemma ScanFront(stack: seq<Context>, s: string, tail: string)
    requires Nested(stack) && s != "" && s[0] != NUL && tail != ""
    requires Take(stack, s).n == 1 && s[0] == '$' ==>
               tail[0] == if |s| == 1 then '"' else if Escaped(s[1..]) then '\\' else s[1]
    ensures var t := Take(stack, s);
            Scan(stack, Written(s, t.n) + tail) == Prepend(t.pieces, Scan(t.stack, tail))
  {
    if Escaped(s) {
      ScanEscapedFront(stack, s, tail);
    } else if Take(stack, s).n == 2 {
      ScanExpansion(stack, s, tail);
    } else {
      assert s[..1] == [s[0]];
      ScanSingle(stack, s, tail);
    }
  }

  lemma PrependTwice(a: seq<Piece>, b: seq<Piece>, q: Quoted)
    ensures Prepend(a, Prepend(b, q)) == Prepend(a + b, q)
  {
    if q.Closed? {
      assert a + (b + q.pieces) == a + b + q.pieces;
    }
  }

  lemma ScanPlain(stack: seq<Context>, c: char, tail: string)
    requires Nested(stack) && c != NUL
    requires if Top(stack).InQuote? then c != '\'' else c == '('
    ensures Scan(stack, [c] + tail) == Prepend([Char(c)], Scan(stack, tail))
  {
    assert ([c] + tail)[1..] == tail;
  }

  lemma ScanBackslash(stack: seq<Context>, c: char, tail: string)
    requires Nested(stack) && !Top(stack).InQuote? && c in {'$', '`', '"', '\\'}
    ensures Scan(stack, ['\\', c] + tail) == Prepend([Char(c)], Scan(stack, tail))
  {
    assert (['\\', c] + tail)[2..] == tail;
  }

  lemma ScanGuarded(stack: seq<Context>, c: char, tail: string)
    requires Nested(stack) && c in {'$', '`', '"', '\\'}
    ensures Scan(stack, ['\\', c] + tail) == Prepend(Guard(Top(stack)) + [Char(c)], Scan(stack, tail))
  {
    if Top(stack).InQuote? {
      assert ['\\', c] + tail == ['\\'] + ([c] + tail);
      ScanPlain(stack, '\\', [c] + tail);
      ScanPlain(stack, c, tail);
      PrependTwice([Char('\\')], [Char(c)], Scan(stack, tail));
    } else {
      ScanBackslash(stack, c, tail);
      assert Guard(Top(stack)) + [Char(c)] == [Char(c)];
    }
  }

  lemma ScanDefused(stack: seq<Context>, tail: string)
    requires Nested(stack)
    ensures Scan(stack, ['\\', '$', '('] + tail) ==
            Prepend(Guard(Top(stack)) + [Char('$'), Char('(')], Scan(stack, tail))
  {
    var guard := Guard(Top(stack));
    assert ['\\', '$', '('] + tail == ['\\', '$'] + (['('] + tail);
    ScanGuarded(stack, '$', ['('] + tail);
    ScanPlain(stack, '(', tail);
    PrependTwice(guard + [Char('$')], [Char('(')], Scan(stack, tail));
    assert guard + [Char('$')] + [Char('(')] == guard + [Char('$'), Char('(')];
  }

  /** Behind its backslash, what the escaper guards is plain text in any context. */
  lemma ScanEscapedFront(stack: seq<Context>, s: string, tail: string)
    requires Nested(stack) && Escaped(s)
    ensures var t := Take(stack, s);
            Scan(stack, Written(s, t.n) + tail) == Prepend(t.pieces, Scan(t.stack, tail))
  {
    EscapedTake(stack, s);
    if s[0] == '$' {
      ScanDefused(stack, tail);
    } else {
      ScanGuarded(stack, s[0], tail);
    }
  }

  lemma EscapedTake(stack: seq<Context>, s: string)
    requires Nested(stack) && Escaped(s)
    ensures var guard := Guard(Top(stack));
            Take(stack, s) == if s[0] == '$' then Taken(2, guard + [Char('$'), Char('(')], stack)
                              else Taken(1, guard + [Char(s[0])], stack)
    ensures Written(s, Take(stack, s).n) == if s[0] == '$' then ['\\', '$', '('] else ['\\', s[0]]
  {
    if s[0] == '$' {
      assert s[..2] == ['$', '('] && Chars(s[..2]) == [Char('$'), Char('(')];
    } else {
      assert s[..1] == [s[0]] && Chars(s[..1]) == [Char(s[0])];
    }
  }

  lemma Reassociate(a: string, b: string, c: string, d: string)
    ensures a + b + c + d == a + (b + c + d)
  {
  }

  /** How the escaped value is read in front of the builder's quote: nothing in it closes or substitutes. */
  function ReadOf(stack: seq<Context>, s: string, rest: string): Quoted
    requires Nested(stack)
  {
    if NUL in s then NulRefused else Prepend(Pieces(stack, s), Scan(Left(stack, s), "\"" + rest))
  }

  lemma ReadFront(stack: seq<Context>, s: string, rest: string)
    requires Nested(stack) && s != "" && s[0] != NUL
    ensures var t := Take(stack, s);
            ReadOf(stack, s, rest) == Prepend(t.pieces, ReadOf(t.stack, s[t.n..], rest))
  {
    var t := Take(stack, s);
    assert s == s[..t.n] + s[t.n..];
    assert NUL !in s[..t.n];
    PrependTwice(t.pieces, Pieces(t.stack, s[t.n..]), Scan(Left(stack, s), "\"" + rest));
  }

  /**
   For every value without a NUL the scan gets to the quote the builder wrote: nothing of the
   value closes the double quotes or opens a command substitution, and it is read exactly as
   Pieces says, with the contexts of Left open. A NUL is refused.
   */
  lemma {:induction false} EscapedStaysInside(stack: seq<Context>, s: string, rest: string)
    requires Nested(stack)
    ensures Scan(stack, EnvEscape(s) + "\"" + rest) == ReadOf(stack, s, rest)
    decreases |s|
  {
    if s == "" {
      assert EnvEscape(s) + "\"" + rest == "\"" + rest;
    } else if s[0] != NUL {
      var t := Take(stack, s);
      var tail := EnvEscape(s[t.n..]) + "\"" + rest;
      EscapeFront(stack, s);
      Reassociate(Written(s, t.n), EnvEscape(s[t.n..]), "\"", rest);
      HeadOfEscape(s[t.n..], rest);
      ScanFront(stack, s, tail);
      EscapedStaysInside(t.stack, s[t.n..], rest);
      ReadFront(stack, s, rest);
    }
  }

  /** A closing quote is found before the text that is left. */
  lemma {:induction false} ScanConsumes(stack: seq<Context>, s: string)
    requires Nested(stack)
    ensures Scan(stack, s).Closed? ==> |Scan(stack, s).rest| < |s|
    decreases |s|
  {
    if s != "" {
      var top := Top(stack);
      ScanConsumes(stack, s[1..]);
      ScanConsumes(stack + [InBrace], s[1..]);
      ScanConsumes(stack + [InQuote], s[1..]);
      ScanConsumes(stack + [InDouble], s[1..]);
      if |stack| > 1 {
        ScanConsumes(Pop(stack), s[1..]);
      }
      if |s| > 1 {
        ScanConsumes(stack, s[2..]);
        ScanConsumes(stack + [InBrace], s[2..]);
      }
    }
  }

  lemma OneContext(stack: seq<Context>)
    requires Nested(stack)
    ensures |stack| == 1 <==> stack == [InDouble]
  {
    if |stack| == 1 {
      assert stack == [stack[0]];
    }
  }

  /** With more contexts open than the builder's double quotes, its closing quote does not close them. */
  lemma OpenContextsStayOpen(stack: seq<Context>, rest: string)
    requires Nested(stack) && |stack| > 1
    ensures var q := Scan(stack, "\"" + rest);
            (q.Closed? ==> |q.rest| < |rest|) && (rest == "" ==> q == Unterminated)
  {
    assert ("\"" + rest)[1..] == rest;
    ScanConsumes(stack, rest);
    ScanConsumes(stack + [InDouble], rest);
    ScanConsumes(Pop(stack), rest);
  }

  /**
   The quote the builder wrote ends the value exactly when every "${" of it is matched, quotes in
   the braces paired, and it holds no NUL. With an unmatched one the line is never closed.
   */
  lemma ClosesIffMatched(value: string, rest: string)
    ensures var q := Scan([InDouble], EnvEscape(value) + "\"" + rest);
            && ((q.Closed? && q.rest == rest) <==> Matched(value) && NUL !in value)
            && (Matched(value) && NUL !in value ==> q == Closed(Pieces([InDouble], value), rest))
            && (!Matched(value) && NUL !in value && rest == "" ==> q == Unterminated)
  {
    EscapedStaysInside([InDouble], value, rest);
    assert ("\"" + rest)[1..] == rest;
    var left := Left([InDouble], value);
    OneContext(left);
    if left != [InDouble] {
      OpenContextsStayOpen(left, rest);
    }
  }

  /** An ENV value of just "${" leaves the shell without the closing quote. */
  lemma UnmatchedBraceStaysOpen()
    ensures !Matched("${") && Scan([InDouble], EnvEscape("${") + "\"") == Unterminated
  {
    var value := "${";
    var t := Take([InDouble], value);
    assert t == Taken(2, [OpenBrace], [InDouble] + [InBrace]);
    assert value[2..] == "";
    assert Left([InDouble], value) == Left(t.stack, "") == [InDouble, InBrace];
    ClosesIffMatched(value, "");
    assert EnvEscape(value) + "\"" + "" == EnvEscape(value) + "\"";
  }

  predicate ExpandsAt(s: string, i: int) {
    0 <= i < |s| && StartsExpansion(s[i..])
  }

  /** No dollar starts an expansion. */
  ghost predicate NoExpansion(s: string) {
    forall i {:trigger ExpandsAt(s, i)} :: !ExpandsAt(s, i)
  }

  lemma NoExpansionTail(s: string, n: nat)
    requires n <= |s| && forall i {:trigger ExpandsAt(s, i)} :: 0 <= i < n ==> !ExpandsAt(s, i)
    ensures NoExpansion(s) <==> NoExpansion(s[n..])
  {
    var t := s[n..];
    if NoExpansion(s) {
      forall i
        ensures !ExpandsAt(t, i)
      {
        assert !ExpandsAt(s, n + i);
        assert 0 <= i < |t| ==> t[i..] == s[n + i..];
      }
    }
    if NoExpansion(t) {
      forall i
        ensures !ExpandsAt(s, i)
      {
        assert !ExpandsAt(t, i - n);
        assert n <= i < |s| ==> t[i - n..] == s[i..];
      }
    }
  }

  lemma SamePieces(a: seq<Piece>, b: seq<Piece>, c: seq<Piece>, d: seq<Piece>)
    requires |a| == |c|
    ensures a + b == c + d <==> a == c && b == d
  {
    assert a == (a + b)[..|a|] && b == (a + b)[|a|..];
    assert c == (c + d)[..|c|] && d == (c + d)[|c|..];
  }

  /** Between the double quotes alone, a front that starts no expansion is read as its own characters. */
  lemma TakesItself(s: string)
    requires s != "" && !StartsExpansion(s)
    ensures var t := Take([InDouble], s);
            && t.pieces == Chars(s[..t.n]) && t.stack == [InDouble]
            && (NoExpansion(s) <==> NoExpansion(s[t.n..]))
  {
    var t := Take([InDouble], s);
    assert s[0..] == s && Guard(InDouble) == [];
    if Escaped(s) && s[0] == '$' {
      assert s[1..][0] == '(';
    }
    assert [] + Chars(s[..t.n]) == Chars(s[..t.n]);
    NoExpansionTail(s, t.n);
  }

  /** A value is read as its own characters exactly when no dollar of it starts an expansion; then it is matched. */
  lemma {:induction false} UnchangedIffNoExpansion(s: string)
    ensures Pieces([InDouble], s) == Chars(s) <==> NoExpansion(s)
    ensures NoExpansion(s) ==> Matched(s)
    decreases |s|
  {
    if s != "" {
      if StartsExpansion(s) {
        ExpansionShows(s);
      } else {
        TakesItself(s);
        UnchangedIffNoExpansion(s[Take([InDouble], s).n..]);
        ReadsOn(s);
      }
    }
  }

  lemma ExpansionShows(s: string)
    requires StartsExpansion(s)
    ensures Pieces([InDouble], s) != Chars(s) && !NoExpansion(s)
  {
    assert s[0..] == s && ExpandsAt(s, 0);
    assert Pieces([InDouble], s)[0] == Take([InDouble], s).pieces[0] != Chars(s)[0];
  }

  lemma ReadsOn(s: string)
    requires s != "" && !StartsExpansion(s)
    ensures var rest := s[Take([InDouble], s).n..];
            && (Pieces([InDouble], s) == Chars(s) <==> Pieces([InDouble], rest) == Chars(rest))
            && (Matched(s) <==> Matched(rest))
  {
    TakesItself(s);
    var n := Take([InDouble], s).n;
    CharsSplit(s, n);
    SamePieces(Chars(s[..n]), Pieces([InDouble], s[n..]), Chars(s[..n]), Chars(s[n..]));
  }

  lemma CharsSplit(s: string, n: nat)
    requires n <= |s|
    ensures Chars(s) == Chars(s[..n]) + Chars(s[n..])
  {
  }

  /**
   The value of the expand line is sure to be read back as itself exactly when no dollar of it
   starts an expansion and it holds no NUL.
   */
  lemma ExpandIsFaithful(value: string, rest: string)
    ensures Scan([InDouble], EnvEscape(value) + "\"" + rest) == Closed(Chars(value), rest) <==>
            NoExpansion(value) && NUL !in value
  {
    ClosesIffMatched(value, rest);
    UnchangedIffNoExpansion(value);
  }
}
