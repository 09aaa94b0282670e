/**
 Templates with holes: text in which `<name>` stands for a value.

 Filling in all holes at once is `Substitute`. The lemmas say how one Contains/ReplaceAll round
 relates to it, and when filling in twice is the same as filling in once.
 */
module HoleSubstitution {
  import opened Strings

  function Bracketed(name: string): string { "<" + name + ">" }

  // ------------------------------------------- simultaneous substitution

  predicate IsBracket(c: char) { c == '<' || c == '>' }

  /** Length of the longest bracket-free prefix. */
  function NameLen(s: string): (n: nat)
    ensures n <= |s| && (n < |s| ==> IsBracket(s[n]))
    ensures forall i | 0 <= i < n :: !IsBracket(s[i])
  {
    if s == "" || IsBracket(s[0]) then 0 else 1 + NameLen(s[1..])
  }

  predicate NameFree(n: string) { forall i | 0 <= i < |n| :: !IsBracket(n[i]) }

  /** The first angle bracket of `s` exists and is a closing one. */
  predicate ClosesNext(s: string) { NameLen(s) < |s| && s[NameLen(s)] == '>' }

  /** `s` starts with a hole `<name>` whose name has no angle bracket. */
  predicate HoleFirst(s: string) { s != "" && s[0] == '<' && ClosesNext(s[1..]) }

  function HoleName(s: string): string
    requires HoleFirst(s)
  { s[1..NameLen(s[1..]) + 1] }

  function AfterHole(s: string): (r: string)
    requires HoleFirst(s)
    ensures |r| < |s| && s == Bracketed(HoleName(s)) + r
  { s[NameLen(s[1..]) + 2..] }

  /** What a hole becomes under `env`. */
  function Fill(n: string, env: map<string, string>): string {
    if n in env then env[n] else Bracketed(n)
  }

  /** Every hole with a name in `env` is replaced at once; all other text is kept. */
  function Substitute(s: string, env: map<string, string>): string
    decreases |s|
  {
    if s == "" then ""
    else if HoleFirst(s) then Fill(HoleName(s), env) + Substitute(AfterHole(s), env)
    else [s[0]] + Substitute(s[1..], env)
  }

  function Holes(s: string): set<string>
    decreases |s|
  {
    if s == "" then {}
    else if HoleFirst(s) then {HoleName(s)} + Holes(AfterHole(s))
    else Holes(s[1..])
  }

  /** The last angle bracket of `s`, if any, is not an opening one. */
  predicate Closed(s: string) {
    s == "" || (Closed(s[1..]) && (s[0] == '<' ==> NameLen(s[1..]) < |s[1..]|))
  }

  /** Values that may be inserted anywhere: they neither carry nor open a mappable hole. */
  predicate Safe(v: string) { Closed(v) && Holes(v) <= {""} }

  /** No stray `<` of the template is followed, as next bracket, by a hole a mapping could name. */
  predicate Tidy(s: string)
    decreases |s|
  {
    if s == "" then true
    else if HoleFirst(s) then Tidy(AfterHole(s))
    else Tidy(s[1..]) && (s[0] == '<' ==> !MappableNext(s[1..]))
  }

  predicate MappableNext(s: string) {
    HoleFirst(s[NameLen(s)..]) && HoleName(s[NameLen(s)..]) != ""
  }

  // -------------------------------------------------- lexing lemmas

  lemma NameLenIs(n: string, rest: string)
    requires NameFree(n) && (rest == "" || IsBracket(rest[0]))
    ensures NameLen(n + rest) == |n|
  {
    assert forall i | 0 <= i < |n| :: (n + rest)[i] == n[i];
    assert rest != "" ==> (n + rest)[|n|] == rest[0];
  }

  /** A bracketed name is read back as the hole of that name. */
  lemma HoleReadsBack(n: string, rest: string)
    requires NameFree(n)
    ensures HoleFirst(Bracketed(n) + rest)
    ensures HoleName(Bracketed(n) + rest) == n && AfterHole(Bracketed(n) + rest) == rest
  {
    var s := Bracketed(n) + rest;
    assert s[1..] == n + (">" + rest);
    NameLenIs(n, ">" + rest);
    assert s[1..|n| + 1] == n;
    assert s[|n| + 2..] == rest;
  }

  lemma NeedleIsHole(s: string, n: string)
    requires NameFree(n)
    ensures Bracketed(n) <= s <==> HoleFirst(s) && HoleName(s) == n
    ensures Bracketed(n) <= s ==> AfterHole(s) == s[|Bracketed(n)|..]
  {
    if Bracketed(n) <= s {
      assert s == Bracketed(n) + s[|Bracketed(n)|..];
      HoleReadsBack(n, s[|Bracketed(n)|..]);
    }
  }

  lemma HoleNameFree(s: string)
    requires HoleFirst(s)
    ensures NameFree(HoleName(s))
  {}

  lemma {:induction false} ContainsSkips(p: string, s: string, needle: string)
    requires needle != "" && needle[0] !in p
    ensures Contains(p + s, needle) == Contains(s, needle)
  {
    if p == "" {
      assert p + s == s;
    } else {
      assert (p + s)[1..] == p[1..] + s;
      assert (p + s)[0] == p[0];
      ContainsSkips(p[1..], s, needle);
    }
  }

  /** A round for `n` leaves a hole of another name alone. */
  lemma RoundSkipsOther(m: string, rest: string, n: string, v: string)
    requires NameFree(m) && NameFree(n) && m != n
    ensures ReplaceAll(Bracketed(m) + rest, Bracketed(n), v) == Bracketed(m) + ReplaceAll(rest, Bracketed(n), v)
    ensures Contains(Bracketed(m) + rest, Bracketed(n)) == Contains(rest, Bracketed(n))
  {
    var s, tail := Bracketed(m) + rest, m + ">";
    HoleReadsBack(m, rest);
    NeedleIsHole(s, n);
    assert s[1..] == tail + rest && '<' !in tail;
    ReplaceSkips(tail, rest, Bracketed(n), v);
    ContainsSkips(tail, rest, Bracketed(n));
    assert Bracketed(m) == ['<'] + tail;
  }

  /** One Contains/ReplaceAll round is a one-name substitution, on every string. */
  lemma {:induction false} ReplaceIsSubstitute(s: string, n: string, v: string)
    requires NameFree(n)
    ensures ReplaceAll(s, Bracketed(n), v) == Substitute(s, map[n := v])
    ensures Contains(s, Bracketed(n)) <==> n in Holes(s)
    decreases |s|
  {
    NeedleIsHole(s, n);
    if s == "" {
    } else if HoleFirst(s) {
      ReplaceIsSubstitute(AfterHole(s), n, v);
      if HoleName(s) != n {
        HoleNameFree(s);
        RoundSkipsOther(HoleName(s), AfterHole(s), n, v);
      }
    } else {
      ReplaceIsSubstitute(s[1..], n, v);
    }
  }

  lemma {:induction false} SubstituteOutside(s: string, env: map<string, string>)
    requires Holes(s) !! env.Keys
    ensures Substitute(s, env) == s
    decreases |s|
  {
    if s == "" {
    } else if HoleFirst(s) {
      SubstituteOutside(AfterHole(s), env);
    } else {
      SubstituteOutside(s[1..], env);
    }
  }

  /** A first bracket found inside `a` is also the first bracket of `a + b`. */
  lemma NameLenConcat(a: string, b: string)
    ensures NameLen(a) < |a| ==> NameLen(a + b) == NameLen(a)
    ensures NameLen(a) == |a| ==> NameLen(a + b) == |a| + NameLen(b)
  {
    if a == "" {
      assert a + b == b;
    } else if IsBracket(a[0]) {
    } else {
      assert (a + b)[1..] == a[1..] + b;
      NameLenConcat(a[1..], b);
    }
  }

  lemma HoleFirstConcat(a: string, b: string)
    requires a != "" && Closed(a)
    ensures HoleFirst(a + b) <==> HoleFirst(a)
    ensures HoleFirst(a) ==> HoleName(a + b) == HoleName(a) && AfterHole(a + b) == AfterHole(a) + b
  {
    assert (a + b)[1..] == a[1..] + b;
    NameLenConcat(a[1..], b);
  }

  lemma {:induction false} ClosedAfterHole(s: string)
    requires HoleFirst(s) && Closed(s)
    ensures Closed(AfterHole(s))
  {
    ClosedDrop(s, NameLen(s[1..]) + 2);
  }

  lemma {:induction false} ClosedDrop(s: string, k: nat)
    requires Closed(s) && k <= |s|
    ensures Closed(s[k..])
  {
    if k == 0 {
    } else {
      ClosedDrop(s[1..], k - 1);
      assert s[1..][k-1..] == s[k..];
    }
  }

  lemma Assoc(a: string, b: string, c: string)
    ensures (a + b) + c == a + (b + c)
  {}

  /** Closed text does not merge with what follows it. */
  lemma {:induction false} SubstituteConcat(a: string, b: string, env: map<string, string>)
    requires Closed(a)
    ensures Substitute(a + b, env) == Substitute(a, env) + Substitute(b, env)
    ensures Holes(a + b) == Holes(a) + Holes(b)
    decreases |a|
  {
    if a == "" {
      assert a + b == b;
    } else {
      HoleFirstConcat(a, b);
      if HoleFirst(a) {
        ClosedAfterHole(a);
        SubstituteConcat(AfterHole(a), b, env);
        Assoc(Fill(HoleName(a), env), Substitute(AfterHole(a), env), Substitute(b, env));
      } else {
        assert (a + b)[1..] == a[1..] + b;
        SubstituteConcat(a[1..], b, env);
        Assoc([a[0]], Substitute(a[1..], env), Substitute(b, env));
      }
    }
  }

  lemma BracketedIsClosed(n: string)
    requires NameFree(n)
    ensures Closed(Bracketed(n)) && Holes(Bracketed(n)) == {n}
  {
    HoleReadsBack(n, "");
    assert Bracketed(n) + "" == Bracketed(n);
    assert Bracketed(n)[1..] == n + ">";
    NameLenIs(n, ">");
    TextIsClosed(n + ">");
  }

  lemma {:induction false} TextIsClosed(s: string)
    requires '<' !in s
    ensures Closed(s) && Holes(s) == {}
  {
    if s == "" {
    } else {
      TextIsClosed(s[1..]);
    }
  }

  // ------------------------------------------- substituting twice

  ghost predicate SafeEnv(env: map<string, string>) {
    "" !in env && forall n | n in env :: Safe(env[n])
  }

  lemma FillIsClosed(n: string, e1: map<string, string>, e2: map<string, string>)
    requires NameFree(n) && SafeEnv(e1) && "" !in e2
    ensures Closed(Fill(n, e1))
    ensures Substitute(Fill(n, e1), e2) == Fill(n, e2 + e1)
    ensures forall x | x != "" :: x in Holes(Fill(n, e1)) <==> x == n && n !in e1
  {
    if n in e1 {
      SubstituteOutside(e1[n], e2);
    } else {
      BracketedIsClosed(n);
      HoleReadsBack(n, "");
      assert Bracketed(n) + "" == Bracketed(n);
    }
  }

  /** Filling in safe values does not close a stray `<` in front of a tidy rest. */
  lemma {:induction false} StrayStays(s: string, env: map<string, string>)
    requires !ClosesNext(s) && !MappableNext(s) && "" !in env
    ensures !ClosesNext(Substitute(s, env))
    decreases |s|
  {
    if s == "" {
    } else if s[0] == '<' {
      assert s[NameLen(s)..] == s;
      assert Substitute(s, env)[0] == '<';
    } else {
      var t := s[1..];
      assert s[NameLen(s)..] == t[NameLen(t)..];
      StrayStays(t, env);
      assert Substitute(s, env)[1..] == Substitute(t, env);
    }
  }

  lemma {:induction false} SubstituteTwice(s: string, e1: map<string, string>, e2: map<string, string>)
    requires Tidy(s) && SafeEnv(e1) && "" !in e2
    ensures Substitute(Substitute(s, e1), e2) == Substitute(s, e2 + e1)
    ensures forall x | x != "" :: x in Holes(Substitute(s, e1)) <==> x in Holes(s) && x !in e1
    decreases |s|
  {
    if s == "" {
    } else if HoleFirst(s) {
      var n, rest := HoleName(s), AfterHole(s);
      HoleNameFree(s);
      SubstituteTwice(rest, e1, e2);
      FillIsClosed(n, e1, e2);
      SubstituteConcat(Fill(n, e1), Substitute(rest, e1), e2);
    } else {
      var rest := s[1..];
      SubstituteTwice(rest, e1, e2);
      var r := Substitute(s, e1);
      assert r == [s[0]] + Substitute(rest, e1) && r[1..] == Substitute(rest, e1);
      if s[0] == '<' { StrayStays(rest, e1); }
    }
  }

  lemma {:induction false} SubstituteAgrees(s: string, e1: map<string, string>, e2: map<string, string>)
    requires forall n | n in Holes(s) :: Fill(n, e1) == Fill(n, e2)
    ensures Substitute(s, e1) == Substitute(s, e2)
    decreases |s|
  {
    if s == "" {
    } else if HoleFirst(s) {
      assert Fill(HoleName(s), e1) == Fill(HoleName(s), e2);
      SubstituteAgrees(AfterHole(s), e1, e2);
    } else {
      SubstituteAgrees(s[1..], e1, e2);
    }
  }

  // ------------------------------------------------- tidiness is kept

  lemma {:induction false} MappableNextIsHole(s: string)
    requires MappableNext(s)
    ensures HoleName(s[NameLen(s)..]) in Holes(s)
  {
    if NameLen(s) == 0 {
      assert s[0..] == s;
    } else {
      assert s[1..][NameLen(s[1..])..] == s[NameLen(s)..];
      MappableNextIsHole(s[1..]);
    }
  }

  lemma {:induction false} SafeIsTidy(v: string)
    requires Holes(v) <= {""}
    ensures Tidy(v)
    decreases |v|
  {
    if v == "" {
    } else if HoleFirst(v) {
      SafeIsTidy(AfterHole(v));
    } else {
      SafeIsTidy(v[1..]);
      if MappableNext(v[1..]) { MappableNextIsHole(v[1..]); }
    }
  }

  /** What follows a bracket of closed text: the same with or without more text. */
  lemma MappableConcat(a: string, b: string)
    requires Closed(a) && NameLen(a) < |a|
    ensures MappableNext(a + b) <==> MappableNext(a)
  {
    var k := NameLen(a);
    NameLenConcat(a, b);
    assert (a + b)[k..] == a[k..] + b;
    assert Closed(a[k..]) by { ClosedDrop(a, k); }
    HoleFirstConcat(a[k..], b);
  }

  lemma {:induction false} TidyConcat(a: string, b: string)
    requires Closed(a)
    ensures Tidy(a + b) <==> Tidy(a) && Tidy(b)
    decreases |a|
  {
    if a == "" {
      assert a + b == b;
    } else {
      HoleFirstConcat(a, b);
      if HoleFirst(a) {
        ClosedAfterHole(a);
        TidyConcat(AfterHole(a), b);
      } else {
        assert (a + b)[1..] == a[1..] + b;
        TidyConcat(a[1..], b);
        if a[0] == '<' { MappableConcat(a[1..], b); }
      }
    }
  }

  /** Filling in does not bring a mappable hole next to a stray `<`. */
  lemma {:induction false} StrayStaysTidy(s: string, env: map<string, string>)
    requires Tidy(s) && !ClosesNext(s) && !MappableNext(s) && "" !in env
    ensures !MappableNext(Substitute(s, env))
    decreases |s|
  {
    if s == "" {
    } else if s[0] == '<' {
      StrayBracketStays(s, env);
    } else {
      var t := s[1..];
      assert s[NameLen(s)..] == t[NameLen(t)..];
      StrayStaysTidy(t, env);
      var r := Substitute(s, env);
      assert r[1..] == Substitute(t, env);
      assert r[NameLen(r)..] == r[1..][NameLen(r[1..])..];
    }
  }

  lemma StrayBracketStays(s: string, env: map<string, string>)
    requires s != "" && s[0] == '<' && Tidy(s) && !MappableNext(s) && "" !in env
    ensures !MappableNext(Substitute(s, env))
  {
    var r := Substitute(s, env);
    assert s[NameLen(s)..] == s;
    if HoleFirst(s) {
      assert r == Bracketed("") + Substitute(AfterHole(s), env);
      HoleReadsBack("", Substitute(AfterHole(s), env));
    } else {
      StrayStays(s[1..], env);
      assert r[1..] == Substitute(s[1..], env);
    }
    assert r[NameLen(r)..] == r;
  }

  /** Filling safe values into a tidy template leaves it tidy. */
  lemma {:induction false} SubstituteKeepsTidy(s: string, env: map<string, string>)
    requires Tidy(s) && SafeEnv(env)
    ensures Tidy(Substitute(s, env))
    decreases |s|
  {
    if s == "" {
    } else if HoleFirst(s) {
      HoleNameFree(s);
      FillIsClosed(HoleName(s), env, map[]);
      FillIsTidy(HoleName(s), env);
      SubstituteKeepsTidy(AfterHole(s), env);
      TidyConcat(Fill(HoleName(s), env), Substitute(AfterHole(s), env));
    } else {
      SubstituteKeepsTidy(s[1..], env);
      assert Substitute(s, env)[1..] == Substitute(s[1..], env);
      if s[0] == '<' {
        StrayStays(s[1..], env);
        StrayStaysTidy(s[1..], env);
      }
    }
  }

  lemma FillIsTidy(n: string, env: map<string, string>)
    requires NameFree(n) && SafeEnv(env)
    ensures Tidy(Fill(n, env))
  {
    if n in env {
      SafeIsTidy(env[n]);
    } else {
      BracketedIsTidy(n);
    }
  }

  lemma BracketedIsTidy(n: string)
    requires NameFree(n)
    ensures Tidy(Bracketed(n))
  {
    HoleReadsBack(n, "");
    assert Bracketed(n) + "" == Bracketed(n);
  }

  /** Whatever starts with a bracket is read on its own, whatever precedes it. */
  lemma {:induction false} TidySuffix(a: string, t: string)
    requires t != "" && t[0] == '<' && Tidy(a + t)
    ensures Tidy(t)
    decreases |a|
  {
    if a == "" {
      assert a + t == t;
    } else if HoleFirst(a + t) {
      assert (a + t)[1..] == a[1..] + t;
      NameLenConcat(a[1..], t);
      var k := NameLen(a[1..]) + 2;
      assert AfterHole(a + t) == a[k..] + t;
      TidySuffix(a[k..], t);
    } else {
      assert (a + t)[1..] == a[1..] + t;
      TidySuffix(a[1..], t);
    }
  }

  lemma {:induction false} ClosingIsClosed(x: string)
    ensures Closed(x + ">")
  {
    if x == "" {
      assert x + ">" == ">";
    } else {
      var s := x + ">";
      assert s[1..] == x[1..] + ">";
      ClosingIsClosed(x[1..]);
      assert s[1..][|s[1..]| - 1] == '>';
    }
  }

  /** A tidy text does not contain an untidy bracketed placeholder. */
  lemma UntidyNameAbsent(s: string, n: string)
    requires Tidy(s) && !Tidy(Bracketed(n))
    ensures !Contains(s, Bracketed(n)) && !NameFree(n)
  {
    if NameFree(n) { BracketedIsTidy(n); }
    if Contains(s, Bracketed(n)) {
      var a, b := ContainsSplits(s, Bracketed(n));
      assert s == a + (Bracketed(n) + b);
      TidySuffix(a, Bracketed(n) + b);
      ClosingIsClosed("<" + n);
      TidyConcat(Bracketed(n), b);
      assert false;
    }
  }

  lemma {:induction false} HolesAreShortNames(s: string)
    ensures forall n | n in Holes(s) :: |n| < |s| && NameFree(n)
    decreases |s|
  {
    if s == "" {
    } else if HoleFirst(s) {
      HoleNameFree(s);
      HolesAreShortNames(AfterHole(s));
    } else {
      HolesAreShortNames(s[1..]);
    }
  }

  lemma {:induction false} TextIsTidy(s: string)
    requires '<' !in s
    ensures Tidy(s)
  {
    if s == "" {
    } else {
      TextIsTidy(s[1..]);
    }
  }
}
