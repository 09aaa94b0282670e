/** Result types and the gRPC status errors every interceptor returns. */
module Results {

  datatype Option<+T> = None | Some(value: T)

  datatype Result<+T, +E> = Ok(value: T) | Err(error: E)

  datatype Code = Unauthenticated | PermissionDenied | Internal | OtherCode

  type Byte = b: int | 0 <= b < 256

  /** An error value: a gRPC status, or any other Go error. */
  datatype Error = Status(code: Code, message: string) | Plain(message: string)
}

/** The functions of Go's strings package that the repository relies on. */
module Strings {

  /** strings.Contains */
  predicate Contains(s: string, sub: string) {
    sub <= s || (s != "" && Contains(s[1..], sub))
  }

  /** strings.ReplaceAll: non-overlapping occurrences, left to right. */
  function ReplaceAll(s: string, needle: string, fill: string): string
    requires needle != ""
  {
    if s == "" then ""
    else if needle <= s then fill + ReplaceAll(s[|needle|..], needle, fill)
    else [s[0]] + ReplaceAll(s[1..], needle, fill)
  }

  /** strings.ToLower on the ASCII range, which is all that gRPC metadata carries. */
  function ToLower(s: string): (r: string)
    ensures |r| == |s|
  {
    if s == "" then "" else [LowerChar(s[0])] + ToLower(s[1..])
  }

  function LowerChar(c: char): char {
    if 'A' <= c <= 'Z' then c - 'A' + 'a' else c
  }

  /** unicode.IsSpace */
  predicate IsSpace(c: char) {
    || c == ' ' || '\t' <= c <= '\r' || c == '\U{85}' || c == '\U{A0}'
    || c == '\U{1680}' || '\U{2000}' <= c <= '\U{200A}' || c == '\U{2028}'
    || c == '\U{2029}' || c == '\U{202F}' || c == '\U{205F}' || c == '\U{3000}'
  }

  lemma {:induction false} ContainsAt(a: string, sub: string, b: string)
    ensures Contains(a + sub + b, sub)
  {
    if a == "" {
      assert sub <= a + sub + b;
    } else {
      assert (a + sub + b)[1..] == a[1..] + sub + b;
      ContainsAt(a[1..], sub, b);
    }
  }

  lemma {:induction false} ContainsSplits(s: string, sub: string) returns (a: string, b: string)
    requires Contains(s, sub)
    ensures s == a + sub + b
  {
    if sub <= s {
      a, b := "", s[|sub|..];
    } else {
      a, b := ContainsSplits(s[1..], sub);
      a := [s[0]] + a;
    }
  }

  lemma {:induction false} LowerAt(s: string, i: nat)
    requires i < |s|
    ensures ToLower(s)[i] == LowerChar(s[i])
  {
    if i == 0 {
    } else {
      LowerAt(s[1..], i - 1);
    }
  }

  /** Text without the first character of the needle is copied unchanged. */
  lemma {:induction false} ReplaceSkips(p: string, s: string, needle: string, fill: string)
    requires needle != "" && needle[0] !in p
    ensures ReplaceAll(p + s, needle, fill) == p + ReplaceAll(s, needle, fill)
  {
    if p == "" {
      assert p + s == s;
    } else {
      assert (p + s)[1..] == p[1..] + s;
      ReplaceSkips(p[1..], s, needle, fill);
    }
  }

  /** Deleting an occurring needle makes the string shorter. */
  lemma {:induction false} ReplaceShrinks(s: string, needle: string)
    requires needle != ""
    ensures |ReplaceAll(s, needle, "")| <= |s|
    ensures Contains(s, needle) ==> |ReplaceAll(s, needle, "")| < |s|
    decreases |s|
  {
    if s == "" {
    } else if needle <= s {
      ReplaceShrinks(s[|needle|..], needle);
    } else {
      ReplaceShrinks(s[1..], needle);
    }
  }
}
