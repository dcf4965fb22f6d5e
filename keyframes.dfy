/** Keyframes and the ordering `createTarget` puts them in: `Array.prototype.sort` with the
    comparator `(a, b) => a.time - b.time`, which is a stable sort by time. */
module Keyframes {

  /** A keyframe: its time, the x, y and z expressions of its first data point (already turned
      into strings by `toString`), and its interpolation mode. */
  datatype Keyframe = Keyframe(time: real, x: string, y: string, z: string, interpolation: string)

  /** Times never decrease from left to right. */
  predicate SortedByTime(s: seq<Keyframe>) {
    forall i, j :: 0 <= i < j < |s| ==> s[i].time <= s[j].time
  }

  /** The keyframes of `s` whose time is `t`, in the order they have in `s`. */
  function AtTime(s: seq<Keyframe>, t: real): seq<Keyframe>
    decreases |s|
  {
    if s == [] then []
    else AtTime(s[..|s| - 1], t) + (if s[|s| - 1].time == t then [s[|s| - 1]] else [])
  }

  /** `r` is `s` stably sorted by time: sorted, and for every time the keyframes that have it
      appear in `r` in the same order as in `s` (so `r` is also a permutation of `s`). */
  ghost predicate IsStableSortOf(r: seq<Keyframe>, s: seq<Keyframe>) {
    SortedByTime(r) && forall t :: AtTime(r, t) == AtTime(s, t)
  }

  /** Inserts `k` into sorted `s` after every keyframe whose time is not greater than its own. */
  function Insert(s: seq<Keyframe>, k: Keyframe): seq<Keyframe>
    decreases |s|
  {
    if s == [] then [k]
    else if s[|s| - 1].time <= k.time then s + [k]
    else Insert(s[..|s| - 1], k) + [s[|s| - 1]]
  }

  /** Insertion sort by time, taking the keyframes from left to right. */
  function SortByTime(s: seq<Keyframe>): seq<Keyframe>
    decreases |s|
  {
    if s == [] then [] else Insert(SortByTime(s[..|s| - 1]), s[|s| - 1])
  }

  lemma {:induction false} InsertPermutes(s: seq<Keyframe>, k: Keyframe)
    ensures multiset(Insert(s, k)) == multiset(s) + multiset{k}
    decreases |s|
  {
    if s != [] && s[|s| - 1].time > k.time {
      InsertPermutes(s[..|s| - 1], k);
      assert s == s[..|s| - 1] + [s[|s| - 1]];
    }
  }

  /** Appending a keyframe no earlier than any of `r`'s keeps `r` sorted. */
  lemma SortedAppend(r: seq<Keyframe>, x: Keyframe)
    requires SortedByTime(r)
    requires forall i :: 0 <= i < |r| ==> r[i].time <= x.time
    ensures SortedByTime(r + [x])
  {
    var q := r + [x];
    forall i, j | 0 <= i < j < |q| ensures q[i].time <= q[j].time {
      assert q[i] == r[i];
      if j < |r| {
        assert q[j] == r[j];
      }
    }
  }

  lemma {:induction false} InsertSorted(s: seq<Keyframe>, k: Keyframe)
    requires SortedByTime(s)
    ensures SortedByTime(Insert(s, k))
    decreases |s|
  {
    if s == [] {
      assert Insert(s, k) == [k];
    } else if s[|s| - 1].time <= k.time {
      assert Insert(s, k) == s + [k];
      SortedAppend(s, k);
    } else {
      var init, last := s[..|s| - 1], s[|s| - 1];
      assert SortedByTime(init);
      InsertSorted(init, k);
      InsertPermutes(init, k);
      var r := Insert(init, k);
      assert Insert(s, k) == r + [last];
      forall i | 0 <= i < |r| ensures r[i].time <= last.time {
        assert r[i] in multiset(r);
        if r[i] != k {
          assert r[i] in multiset(init);
          var m :| 0 <= m < |init| && init[m] == r[i];
          assert s[m] == r[i];
        }
      }
      SortedAppend(r, last);
    }
  }

  /** The keyframes of time `t` in `r + [x]`. */
  lemma AtTimeAppend(r: seq<Keyframe>, x: Keyframe, t: real)
    ensures AtTime(r + [x], t) == AtTime(r, t) + (if x.time == t then [x] else [])
  {
    var q := r + [x];
    assert q[..|q| - 1] == r && q[|q| - 1] == x;
  }

  /** Inserting `k` adds it at the end of the keyframes that share its time. */
  lemma {:induction false} InsertAtTime(s: seq<Keyframe>, k: Keyframe, t: real)
    ensures AtTime(Insert(s, k), t) == AtTime(s, t) + (if k.time == t then [k] else [])
    decreases |s|
  {
    if s == [] {
      assert Insert(s, k) == [] + [k];
      AtTimeAppend([], k, t);
    } else if s[|s| - 1].time <= k.time {
      assert Insert(s, k) == s + [k];
      AtTimeAppend(s, k, t);
    } else {
      var init, last := s[..|s| - 1], s[|s| - 1];
      InsertAtTime(init, k, t);
      assert Insert(s, k) == Insert(init, k) + [last];
      AtTimeAppend(Insert(init, k), last, t);
      assert s == init + [last];
      AtTimeAppend(init, last, t);
      assert k.time != t || last.time != t;
    }
  }

  lemma {:induction false} SortByTimeIsStableSort(s: seq<Keyframe>)
    ensures IsStableSortOf(SortByTime(s), s)
    ensures multiset(SortByTime(s)) == multiset(s)
    decreases |s|
  {
    if s != [] {
      var init, last := s[..|s| - 1], s[|s| - 1];
      var r0 := SortByTime(init);
      assert SortByTime(s) == Insert(r0, last);
      assert s == init + [last];
      SortByTimeIsStableSort(init);
      InsertSorted(r0, last);
      InsertPermutes(r0, last);
      forall t ensures AtTime(Insert(r0, last), t) == AtTime(s, t) {
        InsertAtTime(r0, last, t);
        AtTimeAppend(init, last, t);
      }
    }
  }

  lemma AtTimeMember(s: seq<Keyframe>, t: real, e: Keyframe)
    ensures e in AtTime(s, t) ==> e in s && e.time == t
    decreases |s|
  {
    if s != [] && e in AtTime(s, t) {
      AtTimeMember(s[..|s| - 1], t, e);
    }
  }

  /** The last keyframe of a sequence is among those of its own time. */
  lemma AtTimeOfLast(s: seq<Keyframe>)
    ensures s != [] ==> AtTime(s, s[|s| - 1].time) != []
  {
  }

  /** No keyframe of a sorted sequence is later than its last one. */
  lemma SortedLast(s: seq<Keyframe>, e: Keyframe)
    ensures SortedByTime(s) && e in s ==> e.time <= s[|s| - 1].time
  {
    if SortedByTime(s) && e in s {
      var i :| 0 <= i < |s| && s[i] == e;
      assert i < |s| - 1 ==> s[i].time <= s[|s| - 1].time;
    }
  }

  /** There is only one stable sort: two sequences that are both sorted by time and agree on
      the order of the keyframes of every time are equal. So `SortByTime` is what any stable
      sort by time, `Array.prototype.sort` among them, returns. */
  lemma {:induction false} StableSortUnique(r1: seq<Keyframe>, r2: seq<Keyframe>)
    requires SortedByTime(r1) && SortedByTime(r2)
    requires forall t :: AtTime(r1, t) == AtTime(r2, t)
    ensures r1 == r2
    decreases |r1|
  {
    if r1 == [] || r2 == [] {
      if r1 != [] {
        AtTimeOfLast(r1);
        assert false;
      } else if r2 != [] {
        AtTimeOfLast(r2);
        assert false;
      }
    } else {
      var a, b := r1[|r1| - 1], r2[|r2| - 1];
      var i1, i2 := r1[..|r1| - 1], r2[..|r2| - 1];
      assert AtTime(r1, a.time) == AtTime(i1, a.time) + [a];
      assert AtTime(r2, b.time) == AtTime(i2, b.time) + [b];
      AtTimeMember(r2, a.time, a);
      SortedLast(r2, a);
      AtTimeMember(r1, b.time, b);
      SortedLast(r1, b);
      assert a.time == b.time;
      var x1, x2 := AtTime(i1, a.time), AtTime(i2, a.time);
      assert x1 + [a] == x2 + [b];
      assert a == (x1 + [a])[|x1|] && b == (x2 + [b])[|x2|];
      assert a == b;
      forall t ensures AtTime(i1, t) == AtTime(i2, t) {
        var e := if a.time == t then [a] else [];
        var y1, y2 := AtTime(i1, t), AtTime(i2, t);
        assert AtTime(r1, t) == y1 + e;
        assert AtTime(r2, t) == y2 + e;
        assert y1 == (y1 + e)[..|y1|] && y2 == (y2 + e)[..|y2|];
      }
      StableSortUnique(i1, i2);
      assert r1 == i1 + [a] && r2 == i2 + [b];
    }
  }

  /** `SortByTime(s)` is the only stable sort of `s` by time. */
  lemma StableSortIsSortByTime(r: seq<Keyframe>, s: seq<Keyframe>)
    requires IsStableSortOf(r, s)
    ensures r == SortByTime(s)
  {
    SortByTimeIsStableSort(s);
    StableSortUnique(r, SortByTime(s));
  }

  /** `Insert` puts `k` right after the last keyframe that is not later than it. */
  lemma {:induction false} InsertPosition(p: seq<Keyframe>, k: Keyframe, j: nat)
    requires j <= |p|
    requires j == 0 || p[j - 1].time <= k.time
    requires forall m :: j <= m < |p| ==> p[m].time > k.time
    ensures Insert(p, k) == p[..j] + [k] + p[j..]
    decreases |p|
  {
    if j == |p| {
      assert p[..j] == p && p[j..] == [];
    } else {
      var init := p[..|p| - 1];
      assert p[|p| - 1].time > k.time;
      InsertPosition(init, k, j);
      assert init[..j] == p[..j];
      assert init[j..] + [p[|p| - 1]] == p[j..];
    }
  }

  /** A sequence holding `p[..j]`, then `k`, then `p[j..]` shifted one place right. */
  lemma Shifted(q: seq<Keyframe>, p: seq<Keyframe>, k: Keyframe, j: nat)
    requires |q| == |p| + 1 && j <= |p|
    requires forall m :: 0 <= m < j ==> q[m] == p[m]
    requires q[j] == k
    requires forall m :: j < m < |q| ==> q[m] == p[m - 1]
    ensures q == p[..j] + [k] + p[j..]
  {
    var r := p[..j] + [k] + p[j..];
    forall m | 0 <= m < |q| ensures q[m] == r[m] {
      if m < j {
        assert r[m] == p[m];
      } else if m > j {
        assert r[m] == p[m - 1];
      }
    }
  }

  /** One step of the insertion sort: the keyframe at index `i` moves left past every
      keyframe with a greater time, and each of those moves one place right. */
  method InsertInPlace(a: array<Keyframe>, i: nat)
    requires i < a.Length
    modifies a
    ensures a[..i + 1] == Insert(old(a[..i]), old(a[i]))
    ensures a[i + 1..] == old(a[i + 1..])
  {
    ghost var p := a[..i];
    var k := a[i];
    var j := i;
    while j > 0 && a[j - 1].time > k.time
      invariant 0 <= j <= i
      invariant forall m :: 0 <= m < j ==> a[m] == p[m]
      invariant forall m :: j < m <= i ==> a[m] == p[m - 1]
      invariant forall m :: i < m < a.Length ==> a[m] == old(a[m])
      invariant forall m :: j <= m < i ==> p[m].time > k.time
    {
      a[j] := a[j - 1];
      j := j - 1;
    }
    a[j] := k;
    InsertPosition(p, k, j);
    Shifted(a[..i + 1], p, k, j);
  }

  /** Stable sort of a keyframe array in place, by insertion. */
  method SortInPlace(a: array<Keyframe>)
    modifies a
    ensures a[..] == SortByTime(old(a[..]))
  {
    ghost var s := a[..];
    var i := 0;
    while i < a.Length
      invariant 0 <= i <= a.Length
      invariant a[..i] == SortByTime(s[..i])
      invariant a[i..] == s[i..]
    {
      assert s[..i + 1] == s[..i] + [s[i]];
      assert SortByTime(s[..i + 1]) == Insert(SortByTime(s[..i]), s[i]);
      assert a[i] == s[i] && a[i + 1..] == s[i + 1..] by {
        assert a[i..][0] == a[i] && a[i..][1..] == a[i + 1..];
        assert s[i..][0] == s[i] && s[i..][1..] == s[i + 1..];
      }
      InsertInPlace(a, i);
      i := i + 1;
    }
    assert s[..a.Length] == s;
  }
}
