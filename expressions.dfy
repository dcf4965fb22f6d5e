/** `fixValues`: the rewriting of one Molang expression into a Java expression. Each
    `query.<ident>` becomes a lookup in the `modifiers` map, an empty result becomes `0`, and
    `Math` becomes `Mth`. */
module Expressions {
  import opened Strings

  const QueryToken := "query."
  const LookupOpen := "modifiers.get(\""
  const LookupClose := "\") "

  /** Length of the maximal run of identifier characters at the front of `s`: the run stops
      at the end of `s` or at a character that is not an identifier character. */
  function IdentLength(s: string): (n: nat)
    ensures n <= |s|
    ensures n == |s| || !IsIdentChar(s[n])
    decreases |s|
  {
    if s == [] || !IsIdentChar(s[0]) then 0 else 1 + IdentLength(s[1..])
  }

  /** Every character that `IdentLength` counts is an identifier character. */
  lemma {:induction false} IdentLengthIsRun(s: string)
    ensures forall k :: 0 <= k < IdentLength(s) ==> IsIdentChar(s[k])
    decreases |s|
  {
    if s != [] && IsIdentChar(s[0]) {
      IdentLengthIsRun(s[1..]);
      assert forall k :: 1 <= k < IdentLength(s) ==> s[k] == s[1..][k - 1];
    }
  }

  /** A run of identifier characters that stops at the end or at a non-identifier character is
      the one `IdentLength` measures. */
  lemma {:induction false} IdentLengthUnique(s: string, n: nat)
    requires n <= |s|
    requires forall k :: 0 <= k < n ==> IsIdentChar(s[k])
    requires n == |s| || !IsIdentChar(s[n])
    ensures IdentLength(s) == n
    decreases n
  {
    if n > 0 {
      IdentLengthUnique(s[1..], n - 1);
    }
  }

  predicate StartsWithQuery(s: string) {
    |s| >= |QueryToken| && s[..|QueryToken|] == QueryToken
  }

  /** The text written for the query whose name starts `rest` (the input just after
      `query.`): the lookup with the identifier run R, closed by `") ` only when some
      character follows R. */
  function QueryLookup(rest: string): string {
    var n := IdentLength(rest);
    LookupOpen + rest[..n] + (if n < |rest| then LookupClose else "")
  }

  /** Where the scan resumes after that query: past R and past the one character that ended
      it, which is dropped. */
  function AfterQuery(rest: string): string {
    var n := IdentLength(rest);
    if n < |rest| then rest[n + 1..] else []
  }

  /** The query rewriting of `fixValues`, stated on the remaining input. */
  function RewriteQueries(s: string): string
    decreases |s|
  {
    if s == [] then []
    else if StartsWithQuery(s) then
      QueryLookup(s[|QueryToken|..]) + RewriteQueries(AfterQuery(s[|QueryToken|..]))
    else [s[0]] + RewriteQueries(s[1..])
  }

  /** An empty result, or one that is a single line break, becomes the literal `0`. */
  function ZeroIfBlank(t: string): string {
    if t == "" || t == "\n" then "0" else t
  }

  /** What `fixValues` returns for `value`. */
  function FixedValue(value: string): string {
    ReplaceAll(ZeroIfBlank(RewriteQueries(value)), "Math", "Mth")
  }

  /** The scan of `fixValues` from index `i` onward, `text` being what it has written so far:
      one iteration of the source's loop per call, with the index stepping one past the
      character that ended a query. */
  function ScanFrom(value: string, i: nat, text: string): string
    decreases |value| - i
  {
    if i >= |value| then text
    else if StartsWithQuery(value[i..]) then
      var rest := value[i + |QueryToken|..];
      ScanFrom(value, i + |QueryToken| + IdentLength(rest) + 1, text + QueryLookup(rest))
    else ScanFrom(value, i + 1, text + [value[i]])
  }

  /** A string without an `M` cannot contain `Math`. */
  lemma WithoutMNoMath(s: string)
    requires 'M' !in s
    ensures !Contains(s, "Math")
  {
    forall i | 0 <= i <= |s| && IsInfixAt("Math", s, i) ensures false {
      InfixAtChar("Math", s, i, 0);
    }
  }

  /** If the result of `Math` -> `Mth` starts with a text that has no `M` in it, the input
      started with the same text: no replacement can have produced it. */
  lemma {:induction false} MthPrefixWithoutM(t: string, p: string)
    ensures var r := ReplaceAll(t, "Math", "Mth");
      'M' !in p && |p| <= |r| && r[..|p|] == p ==> |p| <= |t| && t[..|p|] == p
    decreases |t|
  {
    var r := ReplaceAll(t, "Math", "Mth");
    if p != [] && |t| >= 4 && |p| <= |r| && r[..|p|] == p {
      if t[..4] == "Math" {
        assert p[0] == r[0] == 'M';
      } else {
        var r' := ReplaceAll(t[1..], "Math", "Mth");
        assert r == [t[0]] + r';
        assert r'[..|p| - 1] == p[1..];
        MthPrefixWithoutM(t[1..], p[1..]);
        assert 'M' !in p ==> t[..|p|] == [t[0]] + t[1..][..|p| - 1];
      }
    }
  }

  /** `Math` at the front of `[c] + t` means `c` is `M` and `t` starts with `ath`. */
  lemma MathAtStart(c: char, t: string)
    ensures IsInfixAt("Math", [c] + t, 0) ==> c == 'M' && |t| >= 3 && t[..3] == "ath"
  {
    if IsInfixAt("Math", [c] + t, 0) {
      var r := [c] + t;
      assert t[..3] == r[1..4];
      assert r[1..4] == r[0..4][1..];
      assert r[0] == r[0..4][0];
    }
  }

  /** After `replaceAll("Math", "Mth")` no `Math` is left: no occurrence can overlap an `Mth`
      that was written, and the text between replacements had none. */
  lemma {:induction false} ReplaceMathLeavesNoMath(s: string)
    ensures !Contains(ReplaceAll(s, "Math", "Mth"), "Math")
    decreases |s|
  {
    var r := ReplaceAll(s, "Math", "Mth");
    if |s| >= 4 {
      if s[..4] == "Math" {
        var r' := ReplaceAll(s[4..], "Math", "Mth");
        ReplaceMathLeavesNoMath(s[4..]);
        assert r == "Mth" + r';
        forall i | 0 <= i <= |r| && IsInfixAt("Math", r, i) ensures false {
          InfixAtChar("Math", r, i, 0);
          InfixAtChar("Math", r, i, 1);
          InfixAfterPrefix("Mth", r', "Math", i);
        }
      } else {
        var r' := ReplaceAll(s[1..], "Math", "Mth");
        ReplaceMathLeavesNoMath(s[1..]);
        assert r == [s[0]] + r';
        assert s[..4] == [s[0]] + s[1..][..3];
        assert 'M' !in "ath";
        MthPrefixWithoutM(s[1..], "ath");
        MathAtStart(s[0], r');
        forall i | 0 <= i <= |r| && IsInfixAt("Math", r, i) ensures false {
          InfixAfterPrefix([s[0]], r', "Math", i);
        }
      }
    }
  }

  /** `fixValues` never returns an empty expression, and nothing in its result names `Math`. */
  lemma FixedValueNonEmptyWithoutMath(value: string)
    ensures |FixedValue(value)| > 0
    ensures !Contains(FixedValue(value), "Math")
  {
    ReplaceMathLeavesNoMath(ZeroIfBlank(RewriteQueries(value)));
  }

  /** An empty value and a value that is one line break both become `0`. */
  lemma FixedValueOfBlank()
    ensures FixedValue("") == "0"
    ensures FixedValue("\n") == "0"
  {
    assert RewriteQueries("\n") == "\n";
  }

  /** `query.` starts `s` exactly when it occurs in `s` at index 0. */
  lemma StartsWithQueryAt(s: string)
    ensures StartsWithQuery(s) <==> IsInfixAt(QueryToken, s, 0)
  {
    assert |s| >= |QueryToken| ==> s[..|QueryToken|] == s[0..|QueryToken|];
  }

  /** Text in which no `query.` starts is copied through by the scan, character by
      character. */
  lemma {:induction false} PlainPrefix(p: string, t: string)
    requires forall j :: 0 <= j < |p| ==> !IsInfixAt(QueryToken, p + t, j)
    ensures RewriteQueries(p + t) == p + RewriteQueries(t)
    decreases |p|
  {
    if p != [] {
      var q := p + t;
      StartsWithQueryAt(q);
      assert !IsInfixAt(QueryToken, q, 0);
      assert q[0] == p[0] && q[1..] == p[1..] + t;
      assert RewriteQueries(q) == [p[0]] + RewriteQueries(p[1..] + t);
      forall j | 0 <= j < |p| - 1 && IsInfixAt(QueryToken, p[1..] + t, j) ensures false {
        InfixInTail(QueryToken, p + t, j);
      }
      PlainPrefix(p[1..], t);
      Assoc([p[0]], p[1..], RewriteQueries(t));
      assert [p[0]] + p[1..] == p;
    } else {
      assert p + t == t;
      EmptyUnit(RewriteQueries(t));
    }
  }

  /** A string in which `query.` never occurs is left as it is by the scan. */
  lemma RewriteWithoutQuery(s: string)
    requires !Contains(s, QueryToken)
    ensures RewriteQueries(s) == s
  {
    assert s + [] == s;
    PlainPrefix(s, []);
  }

  /** A value that has neither `query.` nor `Math` in it, and is neither empty nor a single
      line break, is returned unchanged. */
  lemma FixedValuePassthrough(value: string)
    requires !Contains(value, QueryToken) && !Contains(value, "Math")
    requires value != "" && value != "\n"
    ensures FixedValue(value) == value
  {
    RewriteWithoutQuery(value);
    ReplaceAllWithoutMatch(value, "Math", "Mth");
  }

  /** `query.` in front of `r` is a query token, and what follows the token is `r`. */
  lemma QueryTokenThen(r: string)
    ensures StartsWithQuery(QueryToken + r)
    ensures (QueryToken + r)[|QueryToken|..] == r
  {
    assert (QueryToken + r)[..|QueryToken|] == QueryToken;
  }

  /** An identifier run to the end of the input is looked up whole, left unclosed, and the
      scan stops after it. */
  lemma QueryLookupOfRun(r: string)
    requires forall k :: 0 <= k < |r| ==> IsIdentChar(r[k])
    ensures QueryLookup(r) == LookupOpen + r
    ensures AfterQuery(r) == []
  {
    IdentLengthUnique(r, |r|);
    assert r[..|r|] == r;
    EmptyUnit(LookupOpen + r);
  }

  /** `query.` followed by an identifier run R that reaches the end of the input becomes
      `modifiers.get("R`, and nothing closes the call. */
  lemma QueryRunToEnd(r: string)
    requires forall k :: 0 <= k < |r| ==> IsIdentChar(r[k])
    ensures RewriteQueries(QueryToken + r) == LookupOpen + r
  {
    QueryTokenThen(r);
    QueryLookupOfRun(r);
    assert RewriteQueries(QueryToken + r) == QueryLookup(r) + RewriteQueries(AfterQuery(r));
    EmptyUnit(QueryLookup(r));
  }

  /** `query.` followed by an identifier run R and a character `c` that ends it becomes
      `modifiers.get("R") `: `c` itself is dropped, and the scan goes on after it. */
  lemma QueryRunEndedBy(r: string, c: char, t: string)
    requires forall k :: 0 <= k < |r| ==> IsIdentChar(r[k])
    requires !IsIdentChar(c)
    ensures RewriteQueries(QueryToken + r + [c] + t) == LookupOpen + r + LookupClose + RewriteQueries(t)
  {
    var s := QueryToken + r + [c] + t;
    var rest := r + [c] + t;
    assert s[..|QueryToken|] == QueryToken && s[|QueryToken|..] == rest;
    IdentLengthUnique(rest, |r|);
    assert rest[..|r|] == r && rest[|r| + 1..] == t;
  }

  /** At the level of `fixValues`: a value that is `query.` and an identifier run R comes out
      as `modifiers.get("` followed by R with its `Math` renamed, and no closing `")`; when R
      has no `M` in it, R is copied as it is. */
  lemma FixedValueOfTrailingQuery(r: string)
    requires forall k :: 0 <= k < |r| ==> IsIdentChar(r[k])
    ensures FixedValue(QueryToken + r) == LookupOpen + ReplaceAll(r, "Math", "Mth")
    ensures 'M' !in r ==> FixedValue(QueryToken + r) == LookupOpen + r
  {
    QueryRunToEnd(r);
    assert ZeroIfBlank(LookupOpen + r) == LookupOpen + r;
    assert 'M' !in LookupOpen;
    ReplaceAllAfterPrefix(LookupOpen, r, "Math", "Mth");
    if 'M' !in r {
      WithoutMNoMath(r);
      ReplaceAllWithoutMatch(r, "Math", "Mth");
    }
  }

  /** The loop-shaped scan writes exactly what the query rewriting turns the rest of the input
      into. */
  lemma {:induction false} ScanFromRewrites(value: string, i: nat, text: string)
    ensures i <= |value| ==> ScanFrom(value, i, text) == text + RewriteQueries(value[i..])
    ensures i > |value| ==> ScanFrom(value, i, text) == text
    decreases |value| - i
  {
    if i < |value| {
      var tail := value[i..];
      if StartsWithQuery(tail) {
        var rest := value[i + |QueryToken|..];
        assert tail[|QueryToken|..] == rest;
        var next := i + |QueryToken| + IdentLength(rest) + 1;
        ScanFromRewrites(value, next, text + QueryLookup(rest));
        if next <= |value| {
          assert AfterQuery(rest) == value[next..];
        } else {
          assert AfterQuery(rest) == [];
        }
        Assoc(text, QueryLookup(rest), RewriteQueries(AfterQuery(rest)));
      } else {
        assert tail[1..] == value[i + 1..];
        ScanFromRewrites(value, i + 1, text + [value[i]]);
        Assoc(text, [value[i]], RewriteQueries(tail[1..]));
      }
    }
  }

  /** The inner loop of `fixValues` at a `query.` token starting at `i`: it collects the
      identifier run after the token and closes the lookup only when a character ends the run.
      `queryLength` counts the token and the run. */
  method ReadQuery(value: string, i: nat) returns (query: string, queryLength: nat)
    requires i + |QueryToken| <= |value|
    ensures queryLength == |QueryToken| + IdentLength(value[i + |QueryToken|..])
    ensures query == QueryLookup(value[i + |QueryToken|..])
  {
    queryLength := 6;
    query := LookupOpen;
    var i2 := i + 6;
    while i2 < |value|
      invariant i + 6 <= i2 <= |value|
      invariant queryLength == i2 - i
      invariant query == LookupOpen + value[i + 6..i2]
      invariant forall k :: i + 6 <= k < i2 ==> IsIdentChar(value[k])
    {
      if IsIdentChar(value[i2]) {
        queryLength := queryLength + 1;
        assert value[i + 6..i2 + 1] == value[i + 6..i2] + [value[i2]];
        query := query + [value[i2]];
      } else {
        query := query + LookupClose;
        break;
      }
      i2 := i2 + 1;
    }
    ghost var rest := value[i + 6..];
    IdentLengthUnique(rest, queryLength - 6);
    assert rest[..queryLength - 6] == value[i + 6..i + queryLength];
  }

  /** `fixValues`, with its index loop and its manual advance of `i` past the query and past
      the character that ended it. */
  method FixValues(value: string) returns (text: string)
    ensures text == FixedValue(value)
  {
    text := "";
    var i := 0;
    while i < |value|
      invariant ScanFrom(value, i, text) == ScanFrom(value, 0, "")
    {
      // `value.substring(i, i + 6)` is shorter than the token near the end of the input.
      if i + 6 <= |value| && value[i..i + 6] == QueryToken {
        assert value[i..][..6] == value[i..i + 6];
        var query, queryLength := ReadQuery(value, i);
        text := text + query;
        i := i + queryLength;
      } else {
        assert !StartsWithQuery(value[i..]);
        text := text + [value[i]];
      }
      i := i + 1;
    }
    ScanFromRewrites(value, 0, "");
    ScanFromRewrites(value, i, text);
    assert "" + RewriteQueries(value[0..]) == RewriteQueries(value);
    if |text| <= 0 || text == "" || text == "\n" {
      text := "0";
    }
    text := ReplaceAll(text, "Math", "Mth");
  }
}
