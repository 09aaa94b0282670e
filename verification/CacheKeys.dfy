/** The cache key: a digest of "scheme:credential". SHA-256 is taken as an injective function. */
module CacheKeys {
  import opened Strings
  import opened AuthorizationHeader

  ghost predicate Injective(digest: string -> string) {
    forall a, b :: digest(a) == digest(b) ==> a == b
  }

  function CacheKey(digest: string -> string, scheme: string, credential: string): string {
    digest(scheme + ":" + credential)
  }

  /** `longer` is `shorter`, a colon, and text that could start a credential. */
  predicate Extends(longer: string, shorter: string) {
    shorter + ":" <= longer && (|longer| == |shorter| + 1 || !IsSpace(longer[|shorter| + 1]))
  }

  /** Headers of the two schemes can ask for one cache key: one scheme must extend the other. */
  predicate Clash(s1: string, s2: string) {
    HeaderScheme(s1) && HeaderScheme(s2) && (Extends(s1, s2) || Extends(s2, s1))
  }

  lemma ColonFreeNeverClashes(s1: string, s2: string)
    requires ':' !in s1 && ':' !in s2
    ensures !Clash(s1, s2)
  {
    assert (s1 + ":")[|s1|] == ':' && (s2 + ":")[|s2|] == ':';
  }

  lemma ShorterSchemeExtends(s1: string, c1: string, s2: string, c2: string)
    requires s1 + ":" + c1 == s2 + ":" + c2 && |s1| < |s2| && Trimmed(c1)
    ensures Extends(s2, s1)
  {
    var whole := s1 + ":" + c1;
    assert whole[..|s1| + 1] == s1 + ":";
    assert (s2 + ":" + c2)[..|s1| + 1] == s2[..|s1| + 1];
    if |s2| > |s1| + 1 {
      assert s2[|s1| + 1] == (s2 + ":" + c2)[|s1| + 1] == whole[|s1| + 1] == c1[0];
    }
  }

  lemma KeyDeterminesCall(digest: string -> string, s1: string, c1: string, s2: string, c2: string)
    requires Injective(digest) && !Clash(s1, s2)
    requires HeaderScheme(s1) && HeaderScheme(s2) && Trimmed(c1) && Trimmed(c2)
    requires CacheKey(digest, s1, c1) == CacheKey(digest, s2, c2)
    ensures s1 == s2 && c1 == c2
  {
    var whole := s1 + ":" + c1;
    assert whole == s2 + ":" + c2;
    if |s1| < |s2| {
      ShorterSchemeExtends(s1, c1, s2, c2);
    } else if |s2| < |s1| {
      ShorterSchemeExtends(s2, c2, s1, c1);
    } else {
      assert s1 == whole[..|s1|] && c1 == whole[|s1| + 1..];
      assert s2 == whole[..|s2|] && c2 == whole[|s2| + 1..];
    }
  }

  /** Two header credentials that give the extended scheme and the shorter one the same key. */
  lemma ExtensionCollides(digest: string -> string, longer: string, shorter: string) returns (c: string)
    requires Extends(longer, shorter)
    ensures Trimmed(c) && CacheKey(digest, shorter, c) == CacheKey(digest, longer, "x")
  {
    c := longer[|shorter| + 1..] + ":x";
    assert shorter + ":" + c == longer + ":" + "x";
  }

  /** A header that parseAuthorization accepts with scheme `s`. */
  predicate HeaderFor(value: string, s: string) {
    ParseAuthorization(value).0 == s != "" && ParseAuthorization(value).1 != ""
  }

  function HeaderKey(digest: string -> string, value: string): string {
    CacheKey(digest, ParseAuthorization(value).0, ParseAuthorization(value).1)
  }

  /** Headers of two schemes share a cache key only when they parse alike, exactly when the schemes do not clash. */
  lemma KeysSeparateExactly(digest: string -> string, s1: string, s2: string)
    requires Injective(digest)
    ensures !Clash(s1, s2) <==>
            forall v1, v2 | HeaderFor(v1, s1) && HeaderFor(v2, s2) && HeaderKey(digest, v1) == HeaderKey(digest, v2) ::
              ParseAuthorization(v1) == ParseAuthorization(v2)
  {
    if !Clash(s1, s2) {
      forall v1, v2 | HeaderFor(v1, s1) && HeaderFor(v2, s2) && HeaderKey(digest, v1) == HeaderKey(digest, v2)
        ensures ParseAuthorization(v1) == ParseAuthorization(v2)
      {
        ParseYields(v1);
        ParseYields(v2);
        KeyDeterminesCall(digest, s1, ParseAuthorization(v1).1, s2, ParseAuthorization(v2).1);
      }
    } else {
      var v1, v2 := ClashingHeaders(digest, s1, s2);
    }
  }

  /** Clashing schemes have headers, accepted by the parser, that share a cache key. */
  lemma ClashingHeaders(digest: string -> string, s1: string, s2: string) returns (v1: string, v2: string)
    requires Clash(s1, s2)
    ensures s1 != s2 && HeaderFor(v1, s1) && HeaderFor(v2, s2) && HeaderKey(digest, v1) == HeaderKey(digest, v2)
  {
    var c1, c2 := "x", "x";
    if Extends(s1, s2) {
      c2 := ExtensionCollides(digest, s1, s2);
    } else {
      c1 := ExtensionCollides(digest, s2, s1);
    }
    ParseReaches(s1, c1);
    ParseReaches(s2, c2);
    v1, v2 := s1 + " " + c1, s2 + " " + c2;
  }

  /** The smallest case: headers "a:b c" and "a b:c" parse differently and share a key. */
  lemma ColonInSchemeExample(digest: string -> string)
    ensures ParseAuthorization("a:b c") == ("a:b", "c") && ParseAuthorization("a b:c") == ("a", "b:c")
    ensures HeaderKey(digest, "a:b c") == HeaderKey(digest, "a b:c")
  {
    ParseReaches("a:b", "c");
    ParseReaches("a", "b:c");
    assert "a:b" + " " + "c" == "a:b c" && "a" + " " + "b:c" == "a b:c";
    assert "a:b" + ":" + "c" == "a" + ":" + "b:c";
  }
}
