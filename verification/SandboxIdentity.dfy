/**
 The public sandbox id and the host a client derives from it: what the printers write, the
 parsers must read back. Strings are sequences of Unicode characters; `lower` stands for
 Unicode lower-casing, of which only the ASCII part is fixed.
 */
module SandboxIdentity {
  import opened Common

  type Lowering = char -> char

  predicate IsAscii(c: char) {
    c < 128 as char
  }

  function AsciiLower(c: char): char {
    if 'A' <= c <= 'Z' then c - 'A' + 'a' else c
  }

  /** `lower` agrees with ASCII on ASCII, as Go's does. */
  ghost predicate Lowers(lower: Lowering) {
    forall c :: IsAscii(c) ==> lower(c) == AsciiLower(c)
  }

  function Lower(lower: Lowering, s: string): string {
    seq(|s|, i requires 0 <= i < |s| => lower(s[i]))
  }

  predicate DnsSafe(c: char) {
    'a' <= c <= 'z' || '0' <= c <= '9' || c == '-'
  }

  /** Only characters that are legal inside a DNS label (section 2.1 of RFC 1123). */
  predicate LabelAlphabet(s: string) {
    forall i :: 0 <= i < |s| ==> DnsSafe(s[i])
  }

  // ---------------------------------------------------------------- ids

  function Safe(c: char): char {
    if DnsSafe(c) then c else '-'
  }

  /** Always a legal label alphabet, and the id itself when it already is one. */
  function PublicID(lower: Lowering, claimID: string): (id: string)
    ensures LabelAlphabet(id) && |id| == |claimID|
    ensures LabelAlphabet(claimID) ==> id == claimID
  {
    if LabelAlphabet(claimID) then claimID
    else
      var low := Lower(lower, claimID);
      seq(|low|, i requires 0 <= i < |low| => Safe(low[i]))
  }

  function ClaimID(sandboxID: string): string {
    if "sb-" <= sandboxID then "sb_" + sandboxID[3..] else sandboxID
  }

  /** Only the published prefix is taken back; any other id is returned as given. */
  lemma ClaimIDIs(sandboxID: string)
    ensures forall rest :: sandboxID == "sb-" + rest ==> ClaimID(sandboxID) == "sb_" + rest
    ensures (forall rest :: sandboxID != "sb-" + rest) ==> ClaimID(sandboxID) == sandboxID
  {
    if "sb-" <= sandboxID {
      assert sandboxID == "sb-" + sandboxID[3..];
    }
    forall rest | sandboxID == "sb-" + rest
      ensures ClaimID(sandboxID) == "sb_" + rest
    {
      assert sandboxID[3..] == rest;
    }
  }

  predicate LowerHex(s: string) {
    forall i :: 0 <= i < |s| ==> '0' <= s[i] <= '9' || 'a' <= s[i] <= 'f'
  }

  lemma PublicIDOfClaim(lower: Lowering, hex: string)
    requires Lowers(lower) && LowerHex(hex)
    ensures PublicID(lower, "sb_" + hex) == "sb-" + hex
  {
  }

  /** ClaimID inverts PublicID on every claim id a node issues. */
  lemma ClaimIDInverts(lower: Lowering, hex: string)
    requires Lowers(lower) && LowerHex(hex)
    ensures ClaimID(PublicID(lower, "sb_" + hex)) == "sb_" + hex
  {
    PublicIDOfClaim(lower, hex);
    assert ("sb-" + hex)[3..] == hex;
  }

  /** The rendering is compared in place, character by character, and never differs from building it. */
  method MatchesID(lower: Lowering, claimID: string, requested: string) returns (r: bool)
    requires Lowers(lower)
    ensures r <==> claimID != "" && requested != "" && (claimID == requested || PublicID(lower, claimID) == requested)
  {
    if claimID == "" || requested == "" {
      return false;
    }
    if claimID == requested {
      return true;
    }
    if !(forall i :: 0 <= i < |claimID| ==> IsAscii(claimID[i])) {
      return PublicID(lower, claimID) == requested;
    }
    if |claimID| != |requested| {
      return false;
    }
    var id := PublicID(lower, claimID);
    for i := 0 to |claimID|
      invariant forall k :: 0 <= k < i ==> requested[k] == id[k]
    {
      var c := claimID[i];
      if 'A' <= c <= 'Z' {
        c := c - 'A' + 'a';
      }
      if !DnsSafe(c) {
        c := '-';
      }
      assert c == id[i];
      if requested[i] != c {
        return false;
      }
    }
    assert requested == id;
    return true;
  }

  // ---------------------------------------------------------------- ports

  function Digit(d: nat): char
    requires d < 10
  {
    '0' + d as char
  }

  function FormatUint(n: nat): (s: string)
    ensures s != "" && forall i :: 0 <= i < |s| ==> '0' <= s[i] <= '9'
  {
    if n < 10 then [Digit(n)] else FormatUint(n / 10) + [Digit(n % 10)]
  }

  /** Decimal digits only; no sign, no separator, no empty text. */
  function ParseDigits(s: string): Option<nat> {
    if s == "" then None
    else
      var k := |s| - 1;
      if !('0' <= s[k] <= '9') then None
      else if k == 0 then Some((s[k] - '0') as int)
      else match ParseDigits(s[..k])
        case None => None
        case Some(n) => Some(n * 10 + (s[k] - '0') as int)
  }

  /** No sign, no separator: a number is read off exactly the texts of one or more digits. */
  lemma {:induction false} DigitsOnly(s: string)
    ensures ParseDigits(s).Some? <==> s != "" && forall i :: 0 <= i < |s| ==> '0' <= s[i] <= '9'
  {
    if |s| > 1 {
      DigitsOnly(s[..|s| - 1]);
      assert s == s[..|s| - 1] + [s[|s| - 1]];
    }
  }

  predicate IsSpace(c: char) {
    c in {'\t', '\n', '\U{b}', '\U{c}', '\r', ' ', '\U{85}', '\U{a0}', '\U{1680}', '\U{2028}', '\U{2029}', '\U{202f}',
        '\U{205f}', '\U{3000}'}
    || '\U{2000}' <= c <= '\U{200a}'
  }

  function TrimLeft(s: string): string {
    if s != "" && IsSpace(s[0]) then TrimLeft(s[1..]) else s
  }

  function TrimRight(s: string): string {
    if s != "" && IsSpace(s[|s| - 1]) then TrimRight(s[..|s| - 1]) else s
  }

  function TrimSpace(s: string): string {
    TrimRight(TrimLeft(s))
  }

  /** A bare 1-65535 in decimal. */
  function ParsePort(s: string): (p: Option<nat>)
    ensures p.Some? ==> 1 <= p.value <= 65535 && ParseDigits(TrimSpace(s)) == p
  {
    match ParseDigits(TrimSpace(s))
    case None => None
    case Some(n) => if 1 <= n <= 65535 then Some(n) else None
  }

  lemma {:induction false} FormatParses(n: nat)
    ensures ParseDigits(FormatUint(n)) == Some(n)
  {
    if n >= 10 {
      FormatParses(n / 10);
      var s := FormatUint(n);
      assert s[..|s| - 1] == FormatUint(n / 10);
    }
  }

  lemma DigitsNeedNoTrim(n: nat)
    ensures TrimSpace(FormatUint(n)) == FormatUint(n)
  {
  }

  lemma PortRoundTrip(port: nat)
    requires 1 <= port <= 65535
    ensures ParsePort(FormatUint(port)) == Some(port)
  {
    DigitsNeedNoTrim(port);
    FormatParses(port);
  }

  // ---------------------------------------------------------------- hosts

  datatype Route = Route(sandboxID: string, port: nat)

  function SandboxHost(rt: Route, domain: string): string {
    FormatUint(rt.port) + "-" + rt.sandboxID + "." + domain
  }

  function LastIndex(s: string, c: char): (i: Option<nat>)
    ensures i.None? ==> forall j :: 0 <= j < |s| ==> s[j] != c
    ensures i.Some? ==> i.value < |s| && s[i.value] == c && forall j :: i.value < j < |s| ==> s[j] != c
  {
    if s == "" then None
    else if s[|s| - 1] == c then Some(|s| - 1)
    else LastIndex(s[..|s| - 1], c)
  }

  /** net.SplitHostPort, host part only; None where Go reports an error. */
  function SplitHost(hostport: string): Option<string> {
    match LastIndex(hostport, ':')
    case None => None
    case Some(i) =>
      if hostport[0] == '[' then
        match IndexOf(hostport, ']')
        case None => None
        case Some(end) =>
          if end + 1 != i then None
          else if '[' in hostport[1..] || ']' in hostport[end + 1..] then None
          else Some(hostport[1..end])
      else if ':' in hostport[..i] || '[' in hostport || ']' in hostport then None
      else Some(hostport[..i])
  }

  predicate HasSuffix(s: string, suffix: string) {
    |suffix| <= |s| && s[|s| - |suffix|..] == suffix
  }

  /** The label of a sandbox host: what stands before ".domain" once the port is cut off and case is folded. */
  function LabelOf(lower: Lowering, host: string, domain: string): Option<string> {
    var bare := Lower(lower, if SplitHost(host).Some? then SplitHost(host).value else host);
    var suffix := "." + Lower(lower, domain);
    if HasSuffix(bare, suffix) then Some(bare[..|bare| - |suffix|]) else None
  }

  /** routeOfHost: only "{port}-{id}" right under the domain, split at the first hyphen. */
  function RouteOfHost(lower: Lowering, host: string, domain: string): (r: Option<Route>)
    ensures r.Some? ==> 1 <= r.value.port <= 65535 && r.value.sandboxID != "" && '.' !in r.value.sandboxID
  {
    match LabelOf(lower, host, domain)
    case None => None
    case Some(head) =>
      if head == "" || '.' in head then None
      else match IndexOf(head, '-')
        case None => None
        case Some(i) =>
          assert head == head[..i] + ['-'] + head[i + 1..];
          if i + 1 == |head| then None
          else match ParsePort(head[..i])
            case None => None
            case Some(port) => Some(Route(head[i + 1..], port))
  }

  lemma LowerConcat(lower: Lowering, a: string, b: string)
    ensures Lower(lower, a + b) == Lower(lower, a) + Lower(lower, b)
  {
  }

  lemma LowerKeepsLabel(lower: Lowering, s: string)
    requires Lowers(lower) && LabelAlphabet(s)
    ensures Lower(lower, s) == s
  {
  }

  lemma HostLabel(lower: Lowering, head: string, domain: string)
    requires Lowers(lower) && LabelAlphabet(head) && ':' !in domain
    ensures LabelOf(lower, head + "." + domain, domain) == Some(head)
  {
    var host := head + "." + domain;
    assert forall i :: 0 <= i < |host| ==> host[i] != ':' by {
      forall i | 0 <= i < |host|
        ensures host[i] != ':'
      {
        if i > |head| {
          assert host[i] == domain[i - |head| - 1];
        } else if i < |head| {
          assert DnsSafe(head[i]) && host[i] == head[i];
        }
      }
    }
    assert ':' !in host && SplitHost(host).None?;
    LowerConcat(lower, head, "." + domain);
    LowerConcat(lower, ".", domain);
    LowerKeepsLabel(lower, head);
    assert Lower(lower, ".") == "." by { assert lower('.') == '.'; }
    assert host == head + ("." + domain);
    var bare, suffix := Lower(lower, host), "." + Lower(lower, domain);
    assert bare == head + suffix;
    assert bare[|bare| - |suffix|..] == suffix && bare[..|bare| - |suffix|] == head;
  }

  lemma HeadAlphabet(port: nat, id: string)
    requires LabelAlphabet(id)
    ensures LabelAlphabet(FormatUint(port) + "-" + id) && '.' !in FormatUint(port) + "-" + id &&
            '-' !in FormatUint(port)
  {
  }

  /** Every id over the label alphabet survives the host: the first hyphen is the one after the port. */
  lemma HostRoundTrip(lower: Lowering, rt: Route, domain: string)
    requires Lowers(lower) && 1 <= rt.port <= 65535 && rt.sandboxID != "" && LabelAlphabet(rt.sandboxID) &&
             ':' !in domain
    ensures RouteOfHost(lower, SandboxHost(rt, domain), domain) == Some(rt)
  {
    var head := FormatUint(rt.port) + "-" + rt.sandboxID;
    HeadAlphabet(rt.port, rt.sandboxID);
    HostLabel(lower, head, domain);
    CutAtFirst(FormatUint(rt.port), '-', rt.sandboxID);
    PortRoundTrip(rt.port);
  }

  /** A port on the host itself is cut off: what is left of the last colon, if that holds no colon or bracket. */
  lemma SplitHostCuts(host: string, port: string)
    requires Unbracketed(host) && Unbracketed(port)
    ensures SplitHost(host + ":" + port) == Some(host)
    ensures SplitHost(host).None?
  {
    var text := host + ":" + port;
    assert text[|host|] == ':' && text[..|host|] == host && text[|host| + 1..] == port;
    assert forall i :: |host| < i < |text| ==> text[i] == port[i - |host| - 1];
    assert forall i :: 0 <= i < |host| ==> text[i] == host[i];
    assert LastIndex(text, ':') == Some(|host|);
    assert '[' !in text && ']' !in text;
  }

  /** And brackets around a host that may hold colons are taken off. */
  lemma SplitHostUnbrackets(host: string, port: string)
    requires '[' !in host && ']' !in host && Unbracketed(port)
    ensures SplitHost("[" + host + "]:" + port) == Some(host)
  {
    var text := "[" + host + "]:" + port;
    var end := |host| + 1;
    assert text[0] == '[' && text[end] == ']' && text[end + 1] == ':' && text[1..end] == host;
    assert forall i :: 1 <= i < end ==> text[i] == host[i - 1];
    assert forall i :: end + 1 < i < |text| ==> text[i] == port[i - end - 2];
    assert LastIndex(text, ':') == Some(end + 1) && IndexOf(text, ']') == Some(end);
    assert text[1..] == host + "]:" + port && text[end + 1..] == ":" + port;
    assert '[' !in text[1..] && ']' !in text[end + 1..];
  }

  /** Free of the characters that structure a host and port. */
  predicate Unbracketed(s: string) {
    ':' !in s && '[' !in s && ']' !in s
  }

  /** The round trip with a port on the host, as a client's Host header carries it. */
  lemma HostPortRoundTrip(lower: Lowering, rt: Route, domain: string, port: string)
    requires Lowers(lower) && 1 <= rt.port <= 65535 && rt.sandboxID != "" && LabelAlphabet(rt.sandboxID)
    requires Unbracketed(domain) && Unbracketed(port)
    ensures RouteOfHost(lower, SandboxHost(rt, domain) + ":" + port, domain) == Some(rt)
  {
    var host, head := SandboxHost(rt, domain), FormatUint(rt.port) + "-" + rt.sandboxID;
    HeadAlphabet(rt.port, rt.sandboxID);
    LabelUnbracketed(head);
    assert host == head + "." + domain;
    SplitHostCuts(host, port);
    HostRoundTrip(lower, rt, domain);
  }

  lemma LabelUnbracketed(s: string)
    requires LabelAlphabet(s)
    ensures Unbracketed(s)
  {
  }

  /**
   Nothing else is accepted: a route is read only off a host that spells its port, a hyphen, its id
   and the domain.
   */
  lemma RouteIsSpelledOut(lower: Lowering, host: string, domain: string)
    requires RouteOfHost(lower, host, domain).Some?
    ensures var rt := RouteOfHost(lower, host, domain).value;
            var bare := Lower(lower, if SplitHost(host).Some? then SplitHost(host).value else host);
            exists port: string :: ParsePort(port) == Some(rt.port) && '-' !in port &&
              bare == port + "-" + rt.sandboxID + "." + Lower(lower, domain)
  {
    var rt := RouteOfHost(lower, host, domain).value;
    var bare := Lower(lower, if SplitHost(host).Some? then SplitHost(host).value else host);
    var suffix := "." + Lower(lower, domain);
    var head := LabelOf(lower, host, domain).value;
    var i := IndexOf(head, '-').value;
    assert bare == head + suffix;
    assert head == head[..i] + "-" + rt.sandboxID;
    assert bare == head[..i] + "-" + rt.sandboxID + "." + Lower(lower, domain);
  }

  /** The claim, its public id, the host and back: the port, the id and the claim all return. */
  lemma ClaimHostRoundTrip(lower: Lowering, hex: string, port: nat, domain: string)
    requires Lowers(lower) && LowerHex(hex) && 1 <= port <= 65535 && ':' !in domain
    ensures var id := PublicID(lower, "sb_" + hex);
            && RouteOfHost(lower, SandboxHost(Route(id, port), domain), domain) == Some(Route(id, port))
            && ClaimID(id) == "sb_" + hex
  {
    PublicIDOfClaim(lower, hex);
    ClaimIDInverts(lower, hex);
    HostRoundTrip(lower, Route("sb-" + hex, port), domain);
  }
}
