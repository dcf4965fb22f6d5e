/** String helpers shared by the exporter model: occurrence of a pattern, the left-to-right
    `replaceAll` of JavaScript strings, and ASCII upper-casing. */
module Strings {

  /** `p` occurs in `s` starting at index `i`. */
  predicate IsInfixAt(p: string, s: string, i: int) {
    0 <= i && i + |p| <= |s| && s[i..i + |p|] == p
  }

  /** Reading one character of an occurrence. */
  lemma InfixAtChar(p: string, s: string, i: int, k: int)
    ensures IsInfixAt(p, s, i) && 0 <= k < |p| ==> s[i + k] == p[k]
  {
    if IsInfixAt(p, s, i) && 0 <= k < |p| {
      assert s[i..i + |p|][k] == s[i + k];
    }
  }

  /** An occurrence after a prefix `q` is an occurrence in what follows `q`. */
  lemma InfixAfterPrefix(q: string, t: string, p: string, i: int)
    ensures IsInfixAt(p, q + t, i) && i >= |q| ==> IsInfixAt(p, t, i - |q|)
  {
    if IsInfixAt(p, q + t, i) && i >= |q| {
      assert (q + t)[i..i + |p|] == t[i - |q|..i - |q| + |p|];
    }
  }

  /** Regrouping a concatenation of three strings. */
  lemma Assoc(a: string, b: string, c: string)
    ensures a + b + c == a + (b + c)
  {
  }

  /** The empty string is a unit of concatenation. */
  lemma EmptyUnit(s: string)
    ensures s + "" == s && "" + s == s
  {
  }

  /** `p` occurs somewhere in `s`. */
  predicate Contains(s: string, p: string) {
    exists i | 0 <= i <= |s| :: IsInfixAt(p, s, i)
  }

  /** `String.prototype.replaceAll` with a non-empty string pattern: the occurrences are found
      from left to right, each search resuming right after the previous match, so matches never
      overlap and the replacement text is never searched again. */
  function ReplaceAll(s: string, pat: string, rep: string): (r: string)
    requires |pat| > 0
    ensures |rep| <= |pat| ==> |r| <= |s|
    ensures |rep| > 0 && |s| > 0 ==> |r| > 0
    decreases |s|
  {
    if |s| < |pat| then s
    else if s[..|pat|] == pat then rep + ReplaceAll(s[|pat|..], pat, rep)
    else [s[0]] + ReplaceAll(s[1..], pat, rep)
  }

  /** An occurrence in the tail of `s` is an occurrence in `s`, one position further right. */
  lemma InfixInTail(p: string, s: string, i: int)
    requires |s| > 0 && IsInfixAt(p, s[1..], i)
    ensures IsInfixAt(p, s, i + 1)
  {
    assert s[1..][i..i + |p|] == s[i + 1..i + 1 + |p|];
  }

  /** A string without the pattern in it comes back from `ReplaceAll` unchanged. */
  lemma {:induction false} ReplaceAllWithoutMatch(s: string, pat: string, rep: string)
    requires |pat| > 0 && !Contains(s, pat)
    ensures ReplaceAll(s, pat, rep) == s
    decreases |s|
  {
    if |s| >= |pat| {
      assert !IsInfixAt(pat, s, 0);
      assert s[0..|pat|] == s[..|pat|];
      forall i | IsInfixAt(pat, s[1..], i) ensures false {
        InfixInTail(pat, s, i);
      }
      ReplaceAllWithoutMatch(s[1..], pat, rep);
      assert [s[0]] + s[1..] == s;
    }
  }

  /** A prefix that does not contain the pattern's first character is copied through, and the
      replacing goes on in what follows it. */
  lemma {:induction false} ReplaceAllAfterPrefix(p: string, t: string, pat: string, rep: string)
    requires |pat| > 0 && pat[0] !in p
    ensures ReplaceAll(p + t, pat, rep) == p + ReplaceAll(t, pat, rep)
    decreases |p|
  {
    var q := p + t;
    if p == [] {
      assert q == t;
      EmptyUnit(ReplaceAll(t, pat, rep));
    } else if |q| >= |pat| {
      assert q[..|pat|][0] == p[0];
      assert q[1..] == p[1..] + t;
      ReplaceAllAfterPrefix(p[1..], t, pat, rep);
      Assoc([p[0]], p[1..], ReplaceAll(t, pat, rep));
      assert [p[0]] + p[1..] == p;
    }
  }

  /** Deleting every occurrence of one character: none is left, every other character is kept
      as often as it occurred, and the length drops by the number of occurrences. */
  lemma {:induction false} ReplaceAllDeletesChar(s: string, c: char)
    ensures c !in ReplaceAll(s, [c], "")
    ensures multiset(ReplaceAll(s, [c], "")) == multiset(s)[c := 0]
    ensures |ReplaceAll(s, [c], "")| == |s| - multiset(s)[c]
    decreases |s|
  {
    if |s| > 0 {
      ReplaceAllDeletesChar(s[1..], c);
      assert s == [s[0]] + s[1..];
      assert multiset(s) == multiset{s[0]} + multiset(s[1..]);
      if s[..1] == [c] {
        assert s[0] == c;
        assert ReplaceAll(s, [c], "") == ReplaceAll(s[1..], [c], "");
      } else {
        assert s[0] != c;
        assert ReplaceAll(s, [c], "") == [s[0]] + ReplaceAll(s[1..], [c], "");
      }
    }
  }

  predicate IsLower(c: char) { 'a' <= c <= 'z' }

  predicate IsUpper(c: char) { 'A' <= c <= 'Z' }

  /** The characters of `/[a-zA-Z]/` plus the underscore. */
  predicate IsIdentChar(c: char) { IsLower(c) || IsUpper(c) || c == '_' }

  /** `toUpperCase` restricted to ASCII: lower-case letters map to upper-case ones, every other
      character is left as it is. No lower-case letter is left, so a second call changes
      nothing; letters stay letters, and an underscore neither appears nor disappears. */
  function UpperChar(c: char): (u: char)
    ensures IsLower(c) ==> IsUpper(u) && u as int == c as int - 32
    ensures !IsLower(c) ==> u == c
    ensures !IsLower(u)
    ensures IsUpper(u) <==> IsLower(c) || IsUpper(c)
    ensures u == '_' <==> c == '_'
  {
    if IsLower(c) then (c as int - 32) as char else c
  }

  /** `toUpperCase` on a whole string, character by character: the result has no lower-case
      letter and its underscores are exactly where the input's are. */
  function UpperString(s: string): (u: string)
    ensures |u| == |s|
    ensures forall i :: 0 <= i < |s| ==> u[i] == UpperChar(s[i])
    ensures forall i :: 0 <= i < |u| ==> !IsLower(u[i])
    ensures forall i :: 0 <= i < |u| ==> (u[i] == '_' <==> s[i] == '_')
  {
    seq(|s|, i requires 0 <= i < |s| => UpperChar(s[i]))
  }

  /** Upper-casing is idempotent. */
  lemma {:induction false} UpperStringIdempotent(s: string)
    ensures UpperString(UpperString(s)) == UpperString(s)
  {
    var u := UpperString(s);
    forall i | 0 <= i < |u| ensures UpperString(u)[i] == u[i] {
      assert !IsLower(u[i]);
    }
  }
}
