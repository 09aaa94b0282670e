/**
 The two authorization-header parsers: parseAuthorization (split at the first space, trim) of
 token introspection, and getToken (split into fields) of the verifier endpoints.
 */
module AuthorizationHeader {
  import opened Results
  import opened Strings

  type Metadata = Option<map<string, seq<string>>>

  datatype Token = Token(tokenType: string, value: string)

  // ------------------------------------------------------------- parsers

  function IndexOfSpace(s: string): (i: nat)
    ensures i <= |s| && (i < |s| ==> s[i] == ' ')
    ensures forall j | 0 <= j < i :: s[j] != ' '
  {
    if s == "" || s[0] == ' ' then 0 else 1 + IndexOfSpace(s[1..])
  }

  function TrimLeft(s: string): string {
    if s != "" && IsSpace(s[0]) then TrimLeft(s[1..]) else s
  }

  function TrimRight(s: string): string {
    if s != "" && IsSpace(s[|s| - 1]) then TrimRight(s[..|s| - 1]) else s
  }

  /** strings.TrimSpace */
  function TrimSpace(s: string): string { TrimRight(TrimLeft(s)) }

  /** strings.SplitN(value, " ", 2), when it yields two parts. */
  function SplitAtSpace(value: string): (parts: Option<(string, string)>)
    ensures parts.Some? ==> value == parts.value.0 + " " + parts.value.1
  {
    var i := IndexOfSpace(value);
    if i == |value| then None else Some((value[..i], value[i + 1..]))
  }

  /** parseAuthorization: the lowercased scheme and the credential, or two empty strings. */
  function ParseAuthorization(value: string): (string, string) {
    match SplitAtSpace(value)
    case None => ("", "")
    case Some(parts) => Parsed(parts.0, TrimSpace(parts.1))
  }

  function Parsed(scheme: string, credential: string): (string, string) {
    if credential == "" then ("", "") else (ToLower(scheme), credential)
  }

  function WordLen(s: string): (n: nat)
    ensures n <= |s| && (n < |s| ==> IsSpace(s[n]))
    ensures forall i | 0 <= i < n :: !IsSpace(s[i])
  {
    if s == "" || IsSpace(s[0]) then 0 else 1 + WordLen(s[1..])
  }

  /** strings.Fields */
  function Fields(s: string): seq<string>
    decreases |s|
  {
    if s == "" then []
    else if IsSpace(s[0]) then Fields(s[1..])
    else [s[..WordLen(s)]] + Fields(s[WordLen(s)..])
  }

  /** getToken */
  function GetToken(md: Metadata): Result<Token, string> {
    if md.None? then Err("no metadata")
    else if "authorization" !in md.value || |md.value["authorization"]| == 0 then Err("no header")
    else
      var parts := Fields(md.value["authorization"][0]);
      if |parts| < 2 then Err("bad header") else Ok(Token(parts[0], parts[1]))
  }

  // ----------------------------------------------------------- agreement

  predicate Blank(s: string) { forall i | 0 <= i < |s| :: IsSpace(s[i]) }

  predicate Word(s: string) { s != "" && forall i | 0 <= i < |s| :: !IsSpace(s[i]) }

  /** Text that begins and ends with something other than whitespace. */
  predicate Trimmed(s: string) { s != "" && !IsSpace(s[0]) && !IsSpace(s[|s| - 1]) }

  /** A scheme as parseAuthorization returns it. */
  predicate HeaderScheme(s: string) { s != "" && ' ' !in s && ToLower(s) == s }

  /** Both parsers accept, with the same credential and the same scheme up to lowercasing. */
  predicate Agree(value: string) {
    var (scheme, credential) := ParseAuthorization(value);
    var token := GetToken(Some(map["authorization" := [value]]));
    scheme != "" && credential != "" && token.Ok?
    && scheme == ToLower(token.value.tokenType) && credential == token.value.value
  }

  /** `Agree` in terms of the header's fields. */
  lemma AgreeOnFields(value: string)
    ensures Agree(value) <==>
            var (scheme, credential) := ParseAuthorization(value);
            && scheme != "" && credential != "" && |Fields(value)| >= 2
            && scheme == ToLower(Fields(value)[0]) && credential == Fields(value)[1]
  {
    var md: Metadata := Some(map["authorization" := [value]]);
    assert md.value["authorization"] == [value];
  }

  /** Scheme, one space, optional whitespace, credential, optional whitespace. */
  ghost predicate Canonical(value: string) {
    exists scheme, w1, credential, w2 :: IsHeader(value, scheme, w1, credential, w2)
  }

  predicate IsHeader(value: string, scheme: string, w1: string, credential: string, w2: string) {
    && Word(scheme) && Blank(w1) && Word(credential) && Blank(w2)
    && value == scheme + " " + (w1 + credential + w2)
  }

  lemma {:induction false} FieldsSkipBlank(w: string, s: string)
    requires Blank(w)
    ensures Fields(w + s) == Fields(s)
  {
    if w == "" {
      assert w + s == s;
    } else {
      assert (w + s)[1..] == w[1..] + s;
      FieldsSkipBlank(w[1..], s);
    }
  }

  lemma FieldsTakeWord(a: string, s: string)
    requires Word(a) && (s == "" || IsSpace(s[0]))
    ensures Fields(a + s) == [a] + Fields(s)
  {
    var t := a + s;
    assert forall i | 0 <= i < |a| :: t[i] == a[i];
    assert s != "" ==> t[|a|] == s[0];
    assert WordLen(t) == |a|;
    assert t[..|a|] == a && t[|a|..] == s;
  }

  lemma {:induction false} FieldsAreWords(s: string, i: nat)
    requires i < |Fields(s)|
    ensures Word(Fields(s)[i])
    decreases |s|
  {
    if IsSpace(s[0]) {
      FieldsAreWords(s[1..], i);
    } else if i == 0 {
    } else {
      FieldsAreWords(s[WordLen(s)..], i - 1);
    }
  }

  lemma {:induction false} TrimLeftSplits(s: string) returns (w: string)
    ensures Blank(w) && s == w + TrimLeft(s)
  {
    if s != "" && IsSpace(s[0]) {
      w := TrimLeftSplits(s[1..]);
      w := [s[0]] + w;
    } else {
      w := "";
    }
  }

  lemma {:induction false} TrimRightSplits(s: string) returns (w: string)
    ensures Blank(w) && s == TrimRight(s) + w
  {
    if s != "" && IsSpace(s[|s| - 1]) {
      w := TrimRightSplits(s[..|s| - 1]);
      w := w + [s[|s| - 1]];
    } else {
      w := "";
    }
  }

  lemma TrimSplits(s: string) returns (w1: string, w2: string)
    ensures Blank(w1) && Blank(w2) && s == w1 + TrimSpace(s) + w2
  {
    w1 := TrimLeftSplits(s);
    w2 := TrimRightSplits(TrimLeft(s));
  }

  lemma {:induction false} TrimLeftDrops(w: string, s: string)
    requires Blank(w) && s != "" && !IsSpace(s[0])
    ensures TrimLeft(w + s) == s
  {
    if w == "" {
      assert w + s == s;
    } else {
      assert (w + s)[1..] == w[1..] + s;
      TrimLeftDrops(w[1..], s);
    }
  }

  lemma {:induction false} TrimRightDrops(s: string, w: string)
    requires Blank(w) && s != "" && !IsSpace(s[|s| - 1])
    ensures TrimRight(s + w) == s
  {
    if w == "" {
      assert s + w == s;
    } else {
      assert (s + w)[..|s + w| - 1] == s + w[..|w| - 1];
      TrimRightDrops(s, w[..|w| - 1]);
    }
  }

  lemma TrimDrops(w1: string, c: string, w2: string)
    requires Blank(w1) && Trimmed(c) && Blank(w2)
    ensures TrimSpace(w1 + c + w2) == c
  {
    assert w1 + c + w2 == w1 + (c + w2);
    TrimLeftDrops(w1, c + w2);
    TrimRightDrops(c, w2);
  }

  lemma SplitAfterScheme(a: string, s: string)
    requires ' ' !in a
    ensures SplitAtSpace(a + " " + s) == Some((a, s))
  {
    var v := a + " " + s;
    assert v[|a|] == ' ';
    assert forall j | 0 <= j < |a| :: v[j] == a[j];
    assert IndexOfSpace(v) == |a|;
    assert v[..|a|] == a && v[|a| + 1..] == s;
  }

  lemma SplitParsesHeader(scheme: string, w1: string, credential: string, w2: string)
    requires Word(scheme) && Blank(w1) && Word(credential) && Blank(w2)
    ensures ParseAuthorization(scheme + " " + (w1 + credential + w2)) == (ToLower(scheme), credential)
  {
    SplitAfterScheme(scheme, w1 + credential + w2);
    TrimDrops(w1, credential, w2);
  }

  lemma FieldsParseTail(w: string, credential: string, w2: string)
    requires Blank(w) && Word(credential) && Blank(w2)
    ensures Fields(w + (credential + w2)) == [credential]
  {
    FieldsSkipBlank(w, credential + w2);
    FieldsTakeWord(credential, w2);
    FieldsSkipBlank(w2, "");
    assert w2 + "" == w2;
  }

  lemma FieldsParseHeader(scheme: string, w1: string, credential: string, w2: string)
    requires Word(scheme) && Blank(w1) && Word(credential) && Blank(w2)
    ensures Fields(scheme + " " + (w1 + credential + w2)) == [scheme, credential]
  {
    var tail := " " + (w1 + credential + w2);
    assert scheme + " " + (w1 + credential + w2) == scheme + tail;
    assert tail == (" " + w1) + (credential + w2);
    FieldsTakeWord(scheme, tail);
    FieldsParseTail(" " + w1, credential, w2);
  }

  /** Both parsers read a canonical header, and read the same from it. */
  lemma CanonicalParses(value: string, scheme: string, w1: string, credential: string, w2: string)
    requires IsHeader(value, scheme, w1, credential, w2)
    ensures ParseAuthorization(value) == (ToLower(scheme), credential)
    ensures Fields(value) == [scheme, credential]
  {
    SplitParsesHeader(scheme, w1, credential, w2);
    FieldsParseHeader(scheme, w1, credential, w2);
  }

  lemma SameLowerSameSpaces(a: string, b: string)
    requires ToLower(a) == ToLower(b) && Word(b)
    ensures Word(a)
  {
    forall i | 0 <= i < |a|
      ensures !IsSpace(a[i])
    {
      LowerAt(a, i);
      LowerAt(b, i);
    }
  }

  lemma AgreedParts(value: string)
    requires Agree(value)
    ensures
      var parts := SplitAtSpace(value);
      parts.Some? && Word(parts.value.0) && Word(TrimSpace(parts.value.1))
  {
    AgreeOnFields(value);
    var parts := SplitAtSpace(value).value;
    PartsAreWords(parts.0, TrimSpace(parts.1), value);
  }

  lemma PartsAreWords(scheme: string, credential: string, value: string)
    requires |Fields(value)| >= 2 && ToLower(scheme) == ToLower(Fields(value)[0]) && credential == Fields(value)[1]
    ensures Word(scheme) && Word(credential)
  {
    FieldsAreWords(value, 0);
    FieldsAreWords(value, 1);
    SameLowerSameSpaces(scheme, Fields(value)[0]);
  }

  /** Parsers that agree have read a canonical header. */
  lemma AgreementIsCanonical(value: string)
    requires Agree(value)
    ensures Canonical(value)
  {
    AgreedParts(value);
    var (scheme, rest) := SplitAtSpace(value).value;
    var w1, w2 := TrimSplits(rest);
    assert IsHeader(value, scheme, w1, TrimSpace(rest), w2);
  }

  /** The two parsers agree exactly on the canonical headers. */
  lemma ParsersAgreeExactly(value: string)
    ensures Agree(value) <==> Canonical(value)
  {
    AgreeOnFields(value);
    if Agree(value) {
      AgreementIsCanonical(value);
    }
    if scheme, w1, credential, w2 :| IsHeader(value, scheme, w1, credential, w2) {
      CanonicalParses(value, scheme, w1, credential, w2);
    }
  }

  // ------------------------------------- what parseAuthorization can yield

  lemma LowerIsLower(s: string)
    ensures ToLower(ToLower(s)) == ToLower(s)
    ensures ' ' !in s ==> ' ' !in ToLower(s)
  {
    forall i | 0 <= i < |s|
      ensures ToLower(ToLower(s))[i] == ToLower(s)[i]
      ensures ToLower(s)[i] == ' ' ==> s[i] == ' '
    {
      LowerAt(s, i);
      LowerAt(ToLower(s), i);
    }
  }

  lemma {:induction false} TrimLeftIsTrimmed(s: string)
    ensures TrimLeft(s) == "" || !IsSpace(TrimLeft(s)[0])
  {
    if s != "" && IsSpace(s[0]) {
      TrimLeftIsTrimmed(s[1..]);
    } else {
    }
  }

  lemma {:induction false} TrimRightIsTrimmed(s: string)
    ensures TrimRight(s) <= s
    ensures TrimRight(s) == "" || !IsSpace(TrimRight(s)[|TrimRight(s)| - 1])
  {
    if s != "" && IsSpace(s[|s| - 1]) {
      TrimRightIsTrimmed(s[..|s| - 1]);
    } else {
    }
  }

  /** A header parseAuthorization accepts yields a lowercased scheme without space and a trimmed credential. */
  lemma ParseYields(value: string)
    ensures
      var (scheme, credential) := ParseAuthorization(value);
      scheme != "" && credential != "" ==> HeaderScheme(scheme) && Trimmed(credential)
  {
    if SplitAtSpace(value).Some? {
      var (scheme, rest) := SplitAtSpace(value).value;
      LowerIsLower(scheme);
      TrimLeftIsTrimmed(rest);
      TrimRightIsTrimmed(TrimLeft(rest));
    }
  }

  lemma ParseReaches(scheme: string, credential: string)
    requires HeaderScheme(scheme) && Trimmed(credential)
    ensures ParseAuthorization(scheme + " " + credential) == (scheme, credential)
  {
    SplitAfterScheme(scheme, credential);
    TrimDrops("", credential, "");
    assert "" + credential + "" == credential;
  }

  /** Exactly these schemes and credentials come from a header that is not rejected as malformed. */
  lemma ParsesExactly(scheme: string, credential: string)
    requires scheme != "" && credential != ""
    ensures (exists value :: ParseAuthorization(value) == (scheme, credential)) <==>
            HeaderScheme(scheme) && Trimmed(credential)
  {
    if value :| ParseAuthorization(value) == (scheme, credential) {
      ParseYields(value);
    }
    if HeaderScheme(scheme) && Trimmed(credential) {
      ParseReaches(scheme, credential);
    }
  }

  /** Header text: a scheme without a space, a space, whitespace, a trimmed credential, whitespace. */
  predicate Reads(value: string, scheme: string, w1: string, credential: string, w2: string) {
    && scheme != "" && ' ' !in scheme && Blank(w1) && Trimmed(credential) && Blank(w2)
    && value == scheme + " " + (w1 + credential + w2)
  }

  /** parseAuthorization accepts exactly such text, and yields its lowercased scheme and its credential. */
  lemma AcceptsExactly(value: string)
    ensures forall scheme, w1, credential, w2 | Reads(value, scheme, w1, credential, w2) ::
              ParseAuthorization(value) == (ToLower(scheme), credential)
    ensures ParseAuthorization(value).0 != "" && ParseAuthorization(value).1 != "" <==>
            exists scheme, w1, credential, w2 :: Reads(value, scheme, w1, credential, w2)
  {
    forall scheme, w1, credential, w2 | Reads(value, scheme, w1, credential, w2)
      ensures ParseAuthorization(value) == (ToLower(scheme), credential)
    {
      SplitAfterScheme(scheme, w1 + credential + w2);
      TrimDrops(w1, credential, w2);
    }
    if ParseAuthorization(value).0 != "" && ParseAuthorization(value).1 != "" {
      ParseYields(value);
      var (scheme, rest) := SplitAtSpace(value).value;
      var w1, w2 := TrimSplits(rest);
      assert Reads(value, scheme, w1, TrimSpace(rest), w2);
    }
  }

  /** Text whose first two whitespace-separated words are `a` and `b`. */
  predicate StartsWithWords(value: string, w0: string, a: string, w1: string, b: string, rest: string) {
    && Blank(w0) && Word(a) && w1 != "" && Blank(w1) && Word(b) && (rest == "" || IsSpace(rest[0]))
    && value == w0 + (a + (w1 + (b + rest)))
  }

  lemma {:induction false} FirstWord(s: string) returns (w: string, a: string, rest: string)
    requires Fields(s) != []
    ensures Blank(w) && Word(a) && (rest == "" || IsSpace(rest[0])) && s == w + (a + rest)
    ensures Fields(s) == [a] + Fields(rest)
    decreases |s|
  {
    if IsSpace(s[0]) {
      w, a, rest := FirstWord(s[1..]);
      w := [s[0]] + w;
    } else {
      w, a, rest := "", s[..WordLen(s)], s[WordLen(s)..];
    }
  }

  /** getToken succeeds exactly when the first authorization value has two words, and returns the first two. */
  lemma TokenExactly(md: Metadata, a: string, b: string)
    ensures GetToken(md) == Ok(Token(a, b)) <==>
            && md.Some? && "authorization" in md.value && md.value["authorization"] != []
            && exists w0, w1, rest :: StartsWithWords(md.value["authorization"][0], w0, a, w1, b, rest)
  {
    if md.Some? && "authorization" in md.value && md.value["authorization"] != [] {
      var value := md.value["authorization"][0];
      forall w0, w1, rest | StartsWithWords(value, w0, a, w1, b, rest)
        ensures |Fields(value)| >= 2 && Fields(value)[0] == a && Fields(value)[1] == b
      {
        WordsAreFields(w0, a, w1, b, rest);
      }
      if GetToken(md) == Ok(Token(a, b)) {
        var w0, a', rest1 := FirstWord(value);
        var w1, b', rest := FirstWord(rest1);
        assert rest1[0] == (w1 + (b' + rest))[0];
        assert StartsWithWords(value, w0, a, w1, b, rest);
      }
    }
  }

  lemma WordsAreFields(w0: string, a: string, w1: string, b: string, rest: string)
    requires Blank(w0) && Word(a) && w1 != "" && Blank(w1) && Word(b) && (rest == "" || IsSpace(rest[0]))
    ensures Fields(w0 + (a + (w1 + (b + rest)))) == [a] + ([b] + Fields(rest))
  {
    FieldsSkipBlank(w0, a + (w1 + (b + rest)));
    FieldsTakeWord(a, w1 + (b + rest));
    FieldsSkipBlank(w1, b + rest);
    FieldsTakeWord(b, rest);
  }
}
