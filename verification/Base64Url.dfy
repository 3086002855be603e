/**
 Unpadded base64url (section 5 of RFC 4648) as Go's RawURLEncoding reads and writes it; a string is
 a sequence of bytes.
 */
module Base64Url {
  import opened Common

  type Byte = x: int | 0 <= x < 256
  type Sextet = x: int | 0 <= x < 64

  function Symbol(v: Sextet): char {
    if v < 26 then 'A' + v as char
    else if v < 52 then 'a' + (v - 26) as char
    else if v < 62 then '0' + (v - 52) as char
    else if v == 62 then '-'
    else '_'
  }

  function Value(c: char): Option<Sextet> {
    if 'A' <= c <= 'Z' then Some((c - 'A') as int)
    else if 'a' <= c <= 'z' then Some((c - 'a') as int + 26)
    else if '0' <= c <= '9' then Some((c - '0') as int + 52)
    else if c == '-' then Some(62)
    else if c == '_' then Some(63)
    else None
  }

  predicate IsBytes(s: string) {
    forall i :: 0 <= i < |s| ==> s[i] as int < 256
  }

  function BytesOf(s: string): seq<Byte>
    requires IsBytes(s)
  {
    seq(|s|, i requires 0 <= i < |s| => s[i] as int)
  }

  function StringOf(bytes: seq<Byte>): string {
    seq(|bytes|, i requires 0 <= i < |bytes| => bytes[i] as char)
  }

  datatype Quad = Quad(p: Sextet, q: Sextet, r: Sextet, u: Sextet)
  datatype Triple = Triple(a: Byte, b: Byte, c: Byte)

  /** The 24 bits of three bytes as four sextets, and back. */
  function ToQuad(t: Triple): Quad {
    Quad(t.a / 4, t.a % 4 * 16 + t.b / 16, t.b % 16 * 4 + t.c / 64, t.c % 64)
  }

  function ToTriple(v: Quad): Triple {
    var p: int, q: int, r: int, u: int := v.p, v.q, v.r, v.u;
    Triple(p * 4 + q / 16, q % 16 * 16 + r / 4, r % 4 * 64 + u)
  }

  /** Groups of three bytes to four sextets; a tail of one or two bytes, zero-filled, to two or three. */
  function Split(enc: Triple -> Quad, bytes: seq<Byte>): seq<Sextet> {
    if bytes == [] then []
    else if |bytes| == 1 then
      var v := enc(Triple(bytes[0], 0, 0));
      [v.p, v.q]
    else if |bytes| == 2 then
      var v := enc(Triple(bytes[0], bytes[1], 0));
      [v.p, v.q, v.r]
    else
      var v := enc(Triple(bytes[0], bytes[1], bytes[2]));
      [v.p, v.q, v.r, v.u] + Split(enc, bytes[3..])
  }

  /**
   Groups of four sextets to three bytes; a tail of two or three to one or two, spare bits ignored;
   a tail of one is an error.
   */
  function Join(dec: Quad -> Triple, v: seq<Sextet>): Option<seq<Byte>> {
    if v == [] then Some([])
    else if |v| == 1 then None
    else if |v| == 2 then Some([dec(Quad(v[0], v[1], 0, 0)).a])
    else if |v| == 3 then
      var t := dec(Quad(v[0], v[1], v[2], 0));
      Some([t.a, t.b])
    else
      match Join(dec, v[4..])
      case None => None
      case Some(rest) =>
        var t := dec(Quad(v[0], v[1], v[2], v[3]));
        Some([t.a, t.b, t.c] + rest)
  }

  function Encode(s: string): string
    requires IsBytes(s)
  {
    var v := Split(ToQuad, BytesOf(s));
    seq(|v|, i requires 0 <= i < |v| => Symbol(v[i]))
  }

  /** The symbols of a text; line breaks are skipped, anything else outside the alphabet is an error. */
  function Values(t: string): Option<seq<Sextet>> {
    if t == "" then Some([])
    else if t[0] == '\r' || t[0] == '\n' then Values(t[1..])
    else
      match (Value(t[0]), Values(t[1..]))
      case (Some(v), Some(rest)) => Some([v] + rest)
      case _ => None
  }

  function Decode(t: string): Option<string> {
    match Values(t)
    case None => None
    case Some(v) =>
      match Join(ToTriple, v)
      case None => None
      case Some(bytes) => Some(StringOf(bytes))
  }

  /** `dec` inverts `enc`, and zero bytes at the end give zero sextets. */
  ghost predicate Inverts(enc: Triple -> Quad, dec: Quad -> Triple) {
    && (forall t :: dec(enc(t)) == t)
    && (forall a: Byte :: enc(Triple(a, 0, 0)).r == 0 && enc(Triple(a, 0, 0)).u == 0)
    && (forall a: Byte, b: Byte :: enc(Triple(a, b, 0)).u == 0)
  }

  lemma {:induction false} JoinSplit(enc: Triple -> Quad, dec: Quad -> Triple, bytes: seq<Byte>)
    requires Inverts(enc, dec)
    ensures Join(dec, Split(enc, bytes)) == Some(bytes)
  {
    if |bytes| == 1 {
      var v := enc(Triple(bytes[0], 0, 0));
      assert v == Quad(v.p, v.q, 0, 0) && dec(v) == Triple(bytes[0], 0, 0);
      assert bytes == [bytes[0]];
    } else if |bytes| == 2 {
      var v := enc(Triple(bytes[0], bytes[1], 0));
      assert v == Quad(v.p, v.q, v.r, 0) && dec(v) == Triple(bytes[0], bytes[1], 0);
      assert Split(enc, bytes) == [v.p, v.q, v.r];
      assert bytes == [bytes[0], bytes[1]];
    } else if |bytes| > 2 {
      var v := enc(Triple(bytes[0], bytes[1], bytes[2]));
      JoinSplit(enc, dec, bytes[3..]);
      assert Split(enc, bytes)[4..] == Split(enc, bytes[3..]);
      assert dec(v) == Triple(bytes[0], bytes[1], bytes[2]);
      assert bytes == [bytes[0], bytes[1], bytes[2]] + bytes[3..];
    }
  }

  /** The four sextets are the 24 bits of the three bytes, in order. */
  lemma QuadIsTheBits(t: Triple)
    ensures var v := ToQuad(t); ((v.p * 64 + v.q) * 64 + v.r) * 64 + v.u == (t.a * 256 + t.b) * 256 + t.c
  {
  }

  /** The alphabet of table 2: A to Z, a to z, 0 to 9, a hyphen and an underscore. */
  lemma AlphabetIs(v: Sextet)
    ensures Symbol(0) == 'A' && Symbol(25) == 'Z' && Symbol(26) == 'a' && Symbol(51) == 'z'
    ensures Symbol(52) == '0' && Symbol(61) == '9' && Symbol(62) == '-' && Symbol(63) == '_'
    ensures v !in {25, 51, 61, 62, 63} ==> Symbol(v + 1) as int == Symbol(v) as int + 1
  {
  }

  /** No padding: each byte takes eight bits of six, rounded up. */
  lemma {:induction false} EncodedLength(enc: Triple -> Quad, bytes: seq<Byte>)
    ensures |Split(enc, bytes)| == (8 * |bytes| + 5) / 6
  {
    if |bytes| > 2 {
      EncodedLength(enc, bytes[3..]);
    }
  }

  /** What is refused: a tail of one sextet. */
  lemma {:induction false} JoinsIff(dec: Quad -> Triple, v: seq<Sextet>)
    ensures Join(dec, v).Some? <==> |v| % 4 != 1
  {
    if |v| > 3 {
      JoinsIff(dec, v[4..]);
    }
  }

  /** And any character outside the alphabet. */
  lemma OnlySymbols(c: char)
    ensures Value(c).Some? ==> Symbol(Value(c).value) == c
  {
  }

  lemma TripleRoundTrip(t: Triple)
    ensures ToTriple(ToQuad(t)) == t
  {
  }

  lemma QuadsInvert()
    ensures Inverts(ToQuad, ToTriple)
  {
    forall t: Triple
      ensures ToTriple(ToQuad(t)) == t
    {
      TripleRoundTrip(t);
    }
  }

  lemma SymbolRoundTrip(v: Sextet)
    ensures Value(Symbol(v)) == Some(v) && Symbol(v) != '\r' && Symbol(v) != '\n'
  {
  }

  lemma {:induction false} SymbolsRoundTrip(v: seq<Sextet>, t: string)
    requires |t| == |v| && forall i :: 0 <= i < |v| ==> t[i] == Symbol(v[i])
    ensures Values(t) == Some(v)
  {
    if v != [] {
      SymbolRoundTrip(v[0]);
      SymbolsRoundTrip(v[1..], t[1..]);
      assert v == [v[0]] + v[1..];
    }
  }

  /** What was encoded decodes to itself, for every byte string. */
  lemma RoundTrip(s: string)
    requires IsBytes(s)
    ensures Decode(Encode(s)) == Some(s)
  {
    var bytes := BytesOf(s);
    SymbolsRoundTrip(Split(ToQuad, bytes), Encode(s));
    QuadsInvert();
    JoinSplit(ToQuad, ToTriple, bytes);
    assert StringOf(bytes) == s;
  }
}
