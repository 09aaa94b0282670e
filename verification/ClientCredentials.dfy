/**
 The Basic credential of the introspection client: both halves percent-encoded, joined by a colon,
 base64-encoded. The decoders are the ones a server applies: base64 (section 4 of RFC 4648), split at
 the first colon (section 2 of RFC 7617), percent-decoding (section 2.1 of RFC 3986).
 */
module ClientCredentials {
  import opened Results
  import opened Strings

  // -------------------------------------------------------------- encoder

  predicate Unreserved(b: Byte) {
    'A' as int <= b <= 'Z' as int || 'a' as int <= b <= 'z' as int || '0' as int <= b <= '9' as int
    || b == '-' as int || b == '_' as int || b == '.' as int || b == '~' as int
  }

  function HexDigit(n: int): char
    requires 0 <= n < 16
  {
    if n < 10 then '0' + (n as char) else 'A' + ((n - 10) as char)
  }

  function PercentByte(b: Byte): string { ['%', HexDigit(b / 16), HexDigit(b % 16)] }

  /** url.QueryEscape: a space becomes '+'. */
  function QueryEscape(s: seq<Byte>): string {
    if s == [] then ""
    else
      (if s[0] == ' ' as int then "+" else if Unreserved(s[0]) then [s[0] as char] else PercentByte(s[0]))
      + QueryEscape(s[1..])
  }

  function PercentEncode(s: seq<Byte>): string { ReplaceAll(QueryEscape(s), "+", "%20") }

  predicate Ascii(s: string) { forall i | 0 <= i < |s| :: s[i] as int < 128 }

  function Bytes(s: string): seq<Byte>
    requires Ascii(s)
  {
    seq(|s|, i requires 0 <= i < |s| => s[i] as int)
  }

  function Sextet(n: Sixbit): char {
    if n < 26 then 'A' + (n as char)
    else if n < 52 then 'a' + ((n - 26) as char)
    else if n < 62 then '0' + ((n - 52) as char)
    else if n == 62 then '+' else '/'
  }

  type Sixbit = v: int | 0 <= v < 64

  /** Three bytes as four six-bit values. */
  function Sextets(b0: Byte, b1: Byte, b2: Byte): (q: (Sixbit, Sixbit, Sixbit, Sixbit))
    ensures b2 == 0 ==> q.3 == 0
    ensures b1 == 0 && b2 == 0 ==> q.2 == 0
  {
    (b0 / 4, b0 % 4 * 16 + b1 / 16, b1 % 16 * 4 + b2 / 64, b2 % 64)
  }

  /** base64.StdEncoding.EncodeToString */
  function Base64(b: seq<Byte>): string {
    if b == [] then ""
    else if |b| == 1 then
      var q := Sextets(b[0], 0, 0);
      [Sextet(q.0), Sextet(q.1), '=', '=']
    else if |b| == 2 then
      var q := Sextets(b[0], b[1], 0);
      [Sextet(q.0), Sextet(q.1), Sextet(q.2), '=']
    else
      var q := Sextets(b[0], b[1], b[2]);
      [Sextet(q.0), Sextet(q.1), Sextet(q.2), Sextet(q.3)] + Base64(b[3..])
  }

  /** The value of the Authorization header set by WithClientCredentials. */
  function BasicValue(clientID: seq<Byte>, clientSecret: seq<Byte>): string {
    EncodedIsPlain(clientID);
    EncodedIsPlain(clientSecret);
    "Basic " + Base64(Bytes(PercentEncode(clientID) + ":" + PercentEncode(clientSecret)))
  }

  // ------------------------------------------------------------- decoders

  function SextetValue(c: char): Option<Sixbit> {
    if 'A' <= c <= 'Z' then Some(c as int - 'A' as int)
    else if 'a' <= c <= 'z' then Some(c as int - 'a' as int + 26)
    else if '0' <= c <= '9' then Some(c as int - '0' as int + 52)
    else if c == '+' then Some(62) else if c == '/' then Some(63) else None
  }

  function Unbase64(s: string): Option<seq<Byte>> {
    if s == "" then Some([])
    else if |s| < 4 then None
    else
      var v0, v1, v2, v3 := SextetValue(s[0]), SextetValue(s[1]), SextetValue(s[2]), SextetValue(s[3]);
      if v0.None? || v1.None? then None
      else if |s| == 4 && s[2] == '=' && s[3] == '=' then Some(Group(v0.value, v1.value, 0, 0)[..1])
      else if v2.None? then None
      else if |s| == 4 && s[3] == '=' then Some(Group(v0.value, v1.value, v2.value, 0)[..2])
      else if v3.None? then None
      else
        match Unbase64(s[4..])
        case None => None
        case Some(rest) => Some(Group(v0.value, v1.value, v2.value, v3.value) + rest)
  }

  /** Four six-bit values as three bytes. */
  function Group(v0: Sixbit, v1: Sixbit, v2: Sixbit, v3: Sixbit): (g: seq<Byte>)
    ensures |g| == 3
  {
    [v0 * 4 + v1 / 16, v1 % 16 * 16 + v2 / 4, v2 % 4 * 64 + v3]
  }

  function HexValue(c: char): Option<int> {
    if '0' <= c <= '9' then Some(c as int - '0' as int)
    else if 'A' <= c <= 'F' then Some(c as int - 'A' as int + 10)
    else if 'a' <= c <= 'f' then Some(c as int - 'a' as int + 10)
    else None
  }

  function PercentDecode(b: seq<Byte>): Option<seq<Byte>>
    decreases |b|
  {
    if b == [] then Some([])
    else if b[0] == '%' as int then
      if |b| < 3 then None
      else
        var h, l := HexValue(b[1] as char), HexValue(b[2] as char);
        if h.None? || l.None? then None
        else
          match PercentDecode(b[3..])
          case None => None
          case Some(rest) => Some([(h.value * 16 + l.value) % 256] + rest)
    else
      match PercentDecode(b[1..])
      case None => None
      case Some(rest) => Some([b[0]] + rest)
  }

  function FirstColon(b: seq<Byte>): (i: nat)
    ensures i <= |b|
  {
    if b == [] || b[0] == ':' as int then 0 else 1 + FirstColon(b[1..])
  }

  /** What the server reads back: client id and secret. */
  function ReadBasic(value: string): Option<(seq<Byte>, seq<Byte>)> {
    if !("Basic " <= value) then None
    else
      match Unbase64(value[6..])
      case None => None
      case Some(b) => ReadPair(b)
  }

  /** The decoded bytes, split at the first colon. */
  function ReadPair(b: seq<Byte>): Option<(seq<Byte>, seq<Byte>)> {
    var i := FirstColon(b);
    if i == |b| then None
    else
      match (PercentDecode(b[..i]), PercentDecode(b[i + 1..]))
      case (Some(id), Some(secret)) => Some((id, secret))
      case _ => None
  }

  // ------------------------------------------------------------ round trip

  /** The percent-encoding of one byte, with a space as %20. */
  function EncodeByte(b: Byte): (r: string)
    ensures Ascii(r) && '+' !in r && ':' !in r && 1 <= |r|
  {
    if Unreserved(b) then [b as char] else PercentByte(b)
  }

  function EncodeAll(s: seq<Byte>): (r: string)
    ensures Ascii(r) && '+' !in r && ':' !in r
  {
    if s == [] then "" else EncodeByte(s[0]) + EncodeAll(s[1..])
  }

  /** QueryEscape followed by the '+' replacement percent-encodes byte by byte. */
  lemma {:induction false} PercentEncodeBytewise(s: seq<Byte>)
    ensures PercentEncode(s) == EncodeAll(s)
  {
    if s == [] {
    } else {
      PercentEncodeBytewise(s[1..]);
      var rest := QueryEscape(s[1..]);
      if s[0] == ' ' as int {
        assert QueryEscape(s) == "+" + rest && (("+" + rest)[1..]) == rest;
        assert PercentByte(s[0]) == "%20";
      } else {
        ReplaceSkips(EncodeByte(s[0]), rest, "+", "%20");
      }
    }
  }

  /** Neither half of the credential contains a colon or a plus. */
  lemma EncodedIsPlain(s: seq<Byte>)
    ensures Ascii(PercentEncode(s)) && ':' !in PercentEncode(s) && '+' !in PercentEncode(s)
  {
    PercentEncodeBytewise(s);
  }

  lemma SextetReadsBack(n: Sixbit)
    ensures SextetValue(Sextet(n)) == Some(n) && Sextet(n) != '='
  {}

  /** Packing a high and a low part and taking them apart again. */
  lemma Repack(high: nat, low: nat, k: nat)
    requires k in {4, 16} && low < k
    ensures (high * k + low) / k == high && (high * k + low) % k == low
  {}

  lemma GroupReadsBack(b0: Byte, b1: Byte, b2: Byte)
    ensures
      var q := Sextets(b0, b1, b2);
      Group(q.0, q.1, q.2, q.3) == [b0, b1, b2]
  {
    Repack(b0 % 4, b1 / 16, 16);
    Repack(b1 % 16, b2 / 64, 4);
  }

  lemma QuadReadsBack(q: (Sixbit, Sixbit, Sixbit, Sixbit))
    ensures SextetValue(Sextet(q.0)) == Some(q.0) && SextetValue(Sextet(q.1)) == Some(q.1)
    ensures SextetValue(Sextet(q.2)) == Some(q.2) && SextetValue(Sextet(q.3)) == Some(q.3)
    ensures Sextet(q.2) != '=' && Sextet(q.3) != '='
  {
    SextetReadsBack(q.0);
    SextetReadsBack(q.1);
    SextetReadsBack(q.2);
    SextetReadsBack(q.3);
  }

  lemma {:induction false} Base64RoundTrip(b: seq<Byte>)
    ensures Unbase64(Base64(b)) == Some(b)
  {
    if b == [] {
    } else {
      var b1, b2 := if |b| > 1 then b[1] else 0, if |b| > 2 then b[2] else 0;
      QuadReadsBack(Sextets(b[0], b1, b2));
      GroupReadsBack(b[0], b1, b2);
      if |b| >= 3 {
        Base64RoundTrip(b[3..]);
        assert b == [b[0], b1, b2] + b[3..];
        assert Base64(b)[4..] == Base64(b[3..]);
      } else {
        assert b == [b[0], b1, b2][..|b|];
      }
    }
  }

  lemma BytesConcat(a: string, b: string)
    requires Ascii(a) && Ascii(b)
    ensures Ascii(a + b) && Bytes(a + b) == Bytes(a) + Bytes(b)
  {}

  lemma HexReadsBack(n: int)
    requires 0 <= n < 16
    ensures HexValue(HexDigit(n)) == Some(n) && HexDigit(n) as int < 128
  {}

  lemma {:induction false} PercentRoundTrip(s: seq<Byte>)
    ensures PercentDecode(Bytes(EncodeAll(s))) == Some(s)
  {
    if s == [] {
    } else {
      var b, rest := s[0], EncodeAll(s[1..]);
      PercentRoundTrip(s[1..]);
      BytesConcat(EncodeByte(b), rest);
      assert s == [b] + s[1..];
      if Unreserved(b) {
        assert Bytes([b as char]) == [b];
        assert ([b] + Bytes(rest))[1..] == Bytes(rest);
      } else {
        PercentTriple(b, Bytes(rest));
      }
    }
  }

  lemma PercentTriple(b: Byte, rest: seq<Byte>)
    requires PercentDecode(rest).Some?
    ensures Ascii(PercentByte(b))
    ensures PercentDecode(Bytes(PercentByte(b)) + rest) == Some([b] + PercentDecode(rest).value)
  {
    HexReadsBack(b / 16);
    HexReadsBack(b % 16);
    var t := PercentByte(b);
    var all := Bytes(t) + rest;
    assert Bytes(t) == [t[0] as int, t[1] as int, t[2] as int];
    assert all[3..] == rest;
  }

  lemma {:induction false} FirstColonAfter(a: string, rest: seq<Byte>)
    requires Ascii(a) && ':' !in a
    ensures FirstColon(Bytes(a) + ([':' as int] + rest)) == |a| == |Bytes(a)|
  {
    if a == "" {
      assert Bytes(a) + ([':' as int] + rest) == [':' as int] + rest;
    } else {
      FirstColonAfter(a[1..], rest);
      assert Bytes(a)[1..] == Bytes(a[1..]);
      var all := Bytes(a) + ([':' as int] + rest);
      assert all[1..] == Bytes(a[1..]) + ([':' as int] + rest);
    }
  }

  /** Decoding the header value returns the client id and secret, whatever bytes they hold. */
  lemma CredentialsRoundTrip(clientID: seq<Byte>, clientSecret: seq<Byte>)
    ensures ReadBasic(BasicValue(clientID, clientSecret)) == Some((clientID, clientSecret))
  {
    PercentEncodeBytewise(clientID);
    PercentEncodeBytewise(clientSecret);
    var joined := EncodeAll(clientID) + ":" + EncodeAll(clientSecret);
    assert BasicValue(clientID, clientSecret)[6..] == Base64(Bytes(joined));
    Base64RoundTrip(Bytes(joined));
    PairRoundTrip(clientID, clientSecret);
  }

  /** The bytes under the base64 encoding are split and decoded back. */
  lemma PairRoundTrip(clientID: seq<Byte>, clientSecret: seq<Byte>)
    ensures ReadPair(Bytes(EncodeAll(clientID) + ":" + EncodeAll(clientSecret))) == Some((clientID, clientSecret))
  {
    var id, secret := EncodeAll(clientID), EncodeAll(clientSecret);
    JoinedBytes(id, secret);
    FirstColonAfter(id, Bytes(secret));
    PercentRoundTrip(clientID);
    PercentRoundTrip(clientSecret);
    PairReads(Bytes(id), Bytes(secret));
  }

  lemma PairReads(x: seq<Byte>, y: seq<Byte>)
    requires FirstColon(x + ([':' as int] + y)) == |x| && PercentDecode(x).Some? && PercentDecode(y).Some?
    ensures ReadPair(x + ([':' as int] + y)) == Some((PercentDecode(x).value, PercentDecode(y).value))
  {
    var b := x + ([':' as int] + y);
    assert b[..|x|] == x && b[|x| + 1..] == y;
  }

  lemma JoinedBytes(id: string, secret: string)
    requires Ascii(id) && Ascii(secret)
    ensures Ascii(id + ":" + secret)
    ensures Bytes(id + ":" + secret) == Bytes(id) + ([':' as int] + Bytes(secret))
  {
    BytesConcat(":", secret);
    BytesConcat(id, ":" + secret);
    assert id + ":" + secret == id + (":" + secret);
    assert Bytes(":") == [':' as int];
  }
}
