/**
  Models of the java.lang.String operations the application manager relies on:
  toLowerCase, contains, equalsIgnoreCase and split("\\b"). Characters are
  treated as ASCII: only 'A'..'Z' have a lower-case form, and the word
  characters of the regular expression `\b` are `[A-Za-z0-9_]`.
*/
module JavaStrings {

  predicate IsUpper(c: char) {
    'A' <= c <= 'Z'
  }

  /** A character of the class `\w`, the one `\b` separates from the others. */
  predicate IsWordChar(c: char) {
    IsUpper(c) || ('a' <= c <= 'z') || ('0' <= c <= '9') || c == '_'
  }

  function LowerChar(c: char): (d: char)
    ensures !IsUpper(d)
    ensures !IsUpper(c) ==> d == c
    ensures IsWordChar(d) == IsWordChar(c)
  {
    if IsUpper(c) then (c as int - 'A' as int + 'a' as int) as char else c
  }

  /** `s.toLowerCase()`. */
  function Lower(s: string): (r: string)
    ensures |r| == |s|
    ensures forall i :: 0 <= i < |r| ==> !IsUpper(r[i])
    ensures forall i :: 0 <= i < |r| ==> !IsUpper(s[i]) ==> r[i] == s[i]
  {
    seq(|s|, i requires 0 <= i < |s| => LowerChar(s[i]))
  }

  /** `t` occurs in `s` starting at index `i`. */
  predicate OccursAt(s: string, t: string, i: int) {
    0 <= i && i + |t| <= |s| && s[i..i + |t|] == t
  }

  /** `s.contains(t)`. */
  function Contains(s: string, t: string): bool
    decreases |s|
  {
    if |s| < |t| then false
    else if s[..|t|] == t then true
    else Contains(s[1..], t)
  }

  /** `s.contains(t)` holds exactly when `t` occurs somewhere in `s`. */
  lemma {:induction false} ContainsIffOccurs(s: string, t: string)
    ensures Contains(s, t) <==> exists i :: OccursAt(s, t, i)
    decreases |s|
  {
    if |s| < |t| {
    } else if s[..|t|] == t {
      assert OccursAt(s, t, 0);
    } else {
      ContainsIffOccurs(s[1..], t);
      assert forall i :: OccursAt(s[1..], t, i) ==> OccursAt(s, t, i + 1);
      assert forall i :: OccursAt(s, t, i) && i != 0 ==> OccursAt(s[1..], t, i - 1);
    }
  }

  /** What a part of a string contains, the whole string contains. */
  lemma {:induction false} ContainsInPart(a: string, b: string, c: string, t: string)
    requires Contains(b, t)
    ensures Contains(a + b + c, t)
  {
    ContainsIffOccurs(b, t);
    var i :| OccursAt(b, t, i);
    var w := a + b + c;
    assert w[|a| + i..|a| + i + |t|] == b[i..i + |t|];
    assert OccursAt(w, t, |a| + i);
    ContainsIffOccurs(w, t);
  }

  /** `a.equalsIgnoreCase(b)`: same length, and the characters agree once case is ignored. */
  predicate EqualsIgnoreCase(a: string, b: string) {
    |a| == |b| && forall i :: 0 <= i < |a| ==> LowerChar(a[i]) == LowerChar(b[i])
  }

  /** Equality ignoring case is equality of the lower-cased strings. */
  lemma EqualsIgnoreCaseIsLowerEquality(a: string, b: string)
    ensures EqualsIgnoreCase(a, b) <==> Lower(a) == Lower(b)
  {
    if Lower(a) == Lower(b) {
      forall i | 0 <= i < |a| ensures LowerChar(a[i]) == LowerChar(b[i]) {
        assert Lower(a)[i] == Lower(b)[i];
      }
    }
  }

  /** A string does not contain a string whose first character it lacks. */
  lemma {:induction false} ContainsNeedsFirstChar(s: string, t: string)
    requires t != [] && forall i :: 0 <= i < |s| ==> s[i] != t[0]
    ensures !Contains(s, t)
  {
    forall i | 0 <= i && i + |t| <= |s| ensures !OccursAt(s, t, i) {
      assert s[i..i + |t|][0] == s[i];
    }
    ContainsIffOccurs(s, t);
  }

  /** A lower-cased string never contains a string that starts with an upper-case letter. */
  lemma LowerHasNoUpperStart(s: string, t: string)
    requires t != [] && IsUpper(t[0])
    ensures !Contains(Lower(s), t)
  {
    ContainsNeedsFirstChar(Lower(s), t);
  }

  /** All characters of `t` are word characters, or all are not. */
  predicate Uniform(t: string) {
    forall i :: 0 <= i < |t| ==> IsWordChar(t[i]) == IsWordChar(t[0])
  }

  /** The strings of `ts` joined end to end. */
  function Concat(ts: seq<string>): string {
    if ts == [] then [] else ts[0] + Concat(ts[1..])
  }

  /** The length of the longest prefix of `s` lying between two word boundaries. */
  function RunLength(s: string): (n: nat)
    requires s != []
    ensures 1 <= n <= |s|
    ensures Uniform(s[..n])
    ensures n < |s| ==> IsWordChar(s[n]) != IsWordChar(s[0])
    decreases |s|
  {
    if |s| == 1 || IsWordChar(s[1]) != IsWordChar(s[0]) then 1
    else 1 + RunLength(s[1..])
  }

  /** The maximal runs of word and of non-word characters of `s`, in order. */
  function Runs(s: string): (r: seq<string>)
    ensures Concat(r) == s
    ensures r == [] <==> s == []
    decreases |s|
  {
    if s == [] then []
    else
      var n := RunLength(s);
      assert s[..n] + s[n..] == s;
      assert ([s[..n]] + Runs(s[n..]))[1..] == Runs(s[n..]);
      [s[..n]] + Runs(s[n..])
  }

  /**
    The runs are non-empty and uniform, and neighbouring runs differ in class:
    every cut falls on a word boundary and every word boundary is a cut.
  */
  lemma {:induction false} RunsAreMaximal(s: string)
    ensures forall k :: 0 <= k < |Runs(s)| ==> Runs(s)[k] != [] && Uniform(Runs(s)[k])
    ensures forall k :: 0 <= k < |Runs(s)| - 1 ==> IsWordChar(Runs(s)[k][0]) != IsWordChar(Runs(s)[k + 1][0])
    decreases |s|
  {
    if s != [] {
      var n := RunLength(s);
      var rest := Runs(s[n..]);
      RunsAreMaximal(s[n..]);
      var r := [s[..n]] + rest;
      assert Runs(s) == r;
      if rest != [] {
        assert Concat(rest) == rest[0] + Concat(rest[1..]);
        assert rest[0][0] == s[n];
      }
      forall k | 0 < k < |r| ensures r[k] != [] && Uniform(r[k]) {
        assert r[k] == rest[k - 1];
      }
      forall k | 0 < k < |r| - 1 ensures IsWordChar(r[k][0]) != IsWordChar(r[k + 1][0]) {
        assert r[k] == rest[k - 1] && r[k + 1] == rest[k];
      }
    }
  }

  /**
    `s.split("\\b")`. Java splits at every word boundary, drops the empty piece a
    boundary at index 0 would produce and the empty pieces at the end; when the
    pattern matches nowhere, as in "", the result is the input alone.
  */
  function SplitWordBoundaries(s: string): (r: seq<string>)
    ensures |r| >= 1 && Concat(r) == s
  {
    if s == [] then [""] else Runs(s)
  }

  /** A non-empty uniform run followed by a change of character class is split off first. */
  lemma {:induction false} RunsOfPrefixedRun(a: string, rest: string)
    requires a != [] && Uniform(a)
    requires rest != [] ==> IsWordChar(rest[0]) != IsWordChar(a[0])
    ensures Runs(a + rest) == [a] + Runs(rest)
  {
    var s := a + rest;
    var n := RunLength(s);
    assert s[..|a|] == a;
    assert rest != [] ==> s[|a|] == rest[0];
    assert n == |a|;
    assert s[..n] == a && s[n..] == rest;
  }
}
