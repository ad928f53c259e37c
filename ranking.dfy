/**
 * The leaderboard: completion records kept in ascending order of time by a stable sort
 * with the comparator `(a, b) => a.time - b.time`.
 */
module Ranking {

  datatype Entry = Entry(name: string, time: int)

  /** The record committed for a finished game; `playerName || "Anonymous"` replaces only the empty name. */
  function NewEntry(playerName: string, elapsed: int): (e: Entry)
    ensures e.time == elapsed
    ensures e.name != []
    ensures playerName != [] ==> e.name == playerName
  {
    Entry(if playerName == "" then "Anonymous" else playerName, elapsed)
  }

  /** The sort comparator: positive when `a` belongs after `b`. */
  function CompareTime(a: Entry, b: Entry): (c: int)
    ensures c > 0 <==> a.time > b.time
    ensures c == 0 <==> a.time == b.time
  {
    a.time - b.time
  }

  predicate SortedByTime(s: seq<Entry>)
  {
    forall i, j :: 0 <= i < j < |s| ==> s[i].time <= s[j].time
  }

  /** The entries of `s` whose time is `t`, in their order in `s`. */
  function WithTime(s: seq<Entry>, t: int): (r: seq<Entry>)
    ensures |r| <= |s|
    ensures forall x :: x in r ==> x in s && x.time == t
  {
    if s == [] then []
    else WithTime(s[..|s| - 1], t) + (if s[|s| - 1].time == t then [s[|s| - 1]] else [])
  }

  /** `r` orders the entries of `s` by time and keeps the relative order of equal times. */
  ghost predicate IsStableSortOf(r: seq<Entry>, s: seq<Entry>)
  {
    SortedByTime(r) && forall t :: WithTime(r, t) == WithTime(s, t)
  }

  /** One insertion step: `e` goes after every entry that the comparator does not put after it. */
  function Insert(s: seq<Entry>, e: Entry): (r: seq<Entry>)
    ensures |r| == |s| + 1
  {
    if s == [] || CompareTime(s[|s| - 1], e) <= 0 then s + [e]
    else Insert(s[..|s| - 1], e) + [s[|s| - 1]]
  }

  /** The stable sort by ascending time. */
  function SortByTime(s: seq<Entry>): (r: seq<Entry>)
    ensures |r| == |s|
  {
    if s == [] then [] else Insert(SortByTime(s[..|s| - 1]), s[|s| - 1])
  }

  lemma WithTimeAppend(s: seq<Entry>, x: Entry, t: int)
    ensures WithTime(s + [x], t) == WithTime(s, t) + (if x.time == t then [x] else [])
  {
    assert (s + [x])[..|s|] == s;
  }

  lemma {:induction false} InsertMultiset(s: seq<Entry>, e: Entry)
    ensures multiset(Insert(s, e)) == multiset(s) + multiset{e}
  {
    if !(s == [] || CompareTime(s[|s| - 1], e) <= 0) {
      var p, last := s[..|s| - 1], s[|s| - 1];
      assert s == p + [last];
      InsertMultiset(p, e);
    }
  }

  lemma {:induction false} InsertWithTime(s: seq<Entry>, e: Entry, t: int)
    ensures WithTime(Insert(s, e), t) == WithTime(s, t) + (if e.time == t then [e] else [])
  {
    if s == [] || CompareTime(s[|s| - 1], e) <= 0 {
      WithTimeAppend(s, e, t);
    } else {
      var p, last := s[..|s| - 1], s[|s| - 1];
      assert s == p + [last];
      InsertWithTime(p, e, t);
      WithTimeAppend(Insert(p, e), last, t);
      WithTimeAppend(p, last, t);
    }
  }

  /** Appending an entry no faster than every entry keeps a sequence sorted. */
  lemma AppendSorted(q: seq<Entry>, last: Entry)
    requires SortedByTime(q)
    requires forall x | x in q :: x.time <= last.time
    ensures SortedByTime(q + [last])
  {
    forall i, j | 0 <= i < j < |q + [last]| ensures (q + [last])[i].time <= (q + [last])[j].time {
      if j == |q| {
        assert q[i] in q;
      }
    }
  }

  lemma {:induction false} InsertSorted(s: seq<Entry>, e: Entry)
    requires SortedByTime(s)
    ensures SortedByTime(Insert(s, e))
  {
    if s == [] || CompareTime(s[|s| - 1], e) <= 0 {
      AppendSorted(s, e);
    } else {
      var p, last := s[..|s| - 1], s[|s| - 1];
      assert s == p + [last];
      InsertSorted(p, e);
      InsertMultiset(p, e);
      var q := Insert(p, e);
      forall x | x in q ensures x.time <= last.time {
        assert x in multiset(q);
        if x != e {
          assert x in p;
        }
      }
      AppendSorted(q, last);
    }
  }

  /** The sort orders by time, loses and invents nothing, and keeps equal times in their input order. */
  lemma {:induction false} SortByTimeIsStableSort(s: seq<Entry>)
    ensures IsStableSortOf(SortByTime(s), s)
    ensures multiset(SortByTime(s)) == multiset(s)
  {
    if s != [] {
      var p, last := s[..|s| - 1], s[|s| - 1];
      assert s == p + [last];
      SortByTimeIsStableSort(p);
      InsertSorted(SortByTime(p), last);
      InsertMultiset(SortByTime(p), last);
      forall t ensures WithTime(SortByTime(s), t) == WithTime(s, t) {
        InsertWithTime(SortByTime(p), last, t);
        WithTimeAppend(p, last, t);
      }
    }
  }

  /** Equal per-time selections stay equal when the same last entry is dropped from both sides. */
  lemma WithTimeDropLast(p1: seq<Entry>, p2: seq<Entry>, x: Entry, t: int)
    requires WithTime(p1 + [x], t) == WithTime(p2 + [x], t)
    ensures WithTime(p1, t) == WithTime(p2, t)
  {
    WithTimeAppend(p1, x, t);
    WithTimeAppend(p2, x, t);
    if t == x.time {
      var v1, v2 := WithTime(p1, t) + [x], WithTime(p2, t) + [x];
      assert v1[..|v1| - 1] == WithTime(p1, t);
      assert v2[..|v2| - 1] == WithTime(p2, t);
    } else {
      assert WithTime(p1, t) + [] == WithTime(p1, t);
      assert WithTime(p2, t) + [] == WithTime(p2, t);
    }
  }

  /** In a time-ordered sequence the last entry is at least as slow as any entry. */
  lemma LastIsSlowest(r: seq<Entry>, z: Entry)
    requires SortedByTime(r) && z in r
    ensures z.time <= r[|r| - 1].time
  {
  }

  /** The last entry of `r2` also occurs in `r1`, so it is no slower than the last entry of `r1`. */
  lemma LastNoSlower(r1: seq<Entry>, r2: seq<Entry>)
    requires SortedByTime(r1) && r2 != []
    requires WithTime(r1, r2[|r2| - 1].time) == WithTime(r2, r2[|r2| - 1].time)
    ensures r1 != [] && r2[|r2| - 1].time <= r1[|r1| - 1].time
  {
    var y := r2[|r2| - 1];
    assert WithTime(r2, y.time) == WithTime(r2[..|r2| - 1], y.time) + [y];
    LastIsSlowest(r1, y);
  }

  /** Two time-ordered sequences with the same entries of each time end with the same entry. */
  lemma SameLast(r1: seq<Entry>, r2: seq<Entry>)
    requires SortedByTime(r1) && SortedByTime(r2) && r1 != []
    requires forall t :: WithTime(r1, t) == WithTime(r2, t)
    ensures r2 != [] && r1[|r1| - 1] == r2[|r2| - 1]
  {
    var x := r1[|r1| - 1];
    assert WithTime(r2, x.time) == WithTime(r1, x.time);
    LastNoSlower(r2, r1);
    var y := r2[|r2| - 1];
    assert WithTime(r1, y.time) == WithTime(r2, y.time);
    SameLastOfTime(r1, r2);
  }

  /** `SameLast` for the two times that matter: those of the two last entries. */
  lemma SameLastOfTime(r1: seq<Entry>, r2: seq<Entry>)
    requires SortedByTime(r1) && SortedByTime(r2) && r1 != [] && r2 != []
    requires WithTime(r1, r1[|r1| - 1].time) == WithTime(r2, r1[|r1| - 1].time)
    requires WithTime(r1, r2[|r2| - 1].time) == WithTime(r2, r2[|r2| - 1].time)
    ensures r1[|r1| - 1] == r2[|r2| - 1]
  {
    var x, y := r1[|r1| - 1], r2[|r2| - 1];
    LastNoSlower(r2, r1);
    LastNoSlower(r1, r2);
    var w1 := WithTime(r1, x.time);
    var w2 := WithTime(r2, x.time);
    assert w1 == WithTime(r1[..|r1| - 1], x.time) + [x];
    assert w2 == WithTime(r2[..|r2| - 1], x.time) + [y];
    assert x == w1[|w1| - 1] == w2[|w2| - 1] == y;
  }

  /** Every stable sort gives the same result: two time-ordered sequences with the same entries of each time are equal. */
  lemma {:induction false} StableSortUnique(r1: seq<Entry>, r2: seq<Entry>)
    requires SortedByTime(r1) && SortedByTime(r2)
    requires forall t :: WithTime(r1, t) == WithTime(r2, t)
    ensures r1 == r2
  {
    if r1 == [] {
      if r2 != [] {
        LastNoSlower(r1, r2);
      }
    } else {
      SameLast(r1, r2);
      var p1, p2, x := r1[..|r1| - 1], r2[..|r2| - 1], r1[|r1| - 1];
      assert r1 == p1 + [x] && r2 == p2 + [x];
      forall t ensures WithTime(p1, t) == WithTime(p2, t) {
        WithTimeDropLast(p1, p2, x, t);
      }
      StableSortUnique(p1, p2);
    }
  }

  /** The stable sort is the only ordering the stable comparator sort can produce. */
  lemma StableSortIsSortByTime(r: seq<Entry>, s: seq<Entry>)
    requires IsStableSortOf(r, s)
    ensures r == SortByTime(s)
  {
    SortByTimeIsStableSort(s);
    StableSortUnique(r, SortByTime(s));
  }

  /** Sorting a sequence that is already in order leaves it as it is. */
  lemma {:induction false} SortSortedIsIdentity(s: seq<Entry>)
    requires SortedByTime(s)
    ensures SortByTime(s) == s
  {
    if s != [] {
      var p := s[..|s| - 1];
      assert s == p + [s[|s| - 1]];
      SortSortedIsIdentity(p);
    }
  }

  /**
   * Recording into a sorted leaderboard: the new entry lands after every entry with a time
   * not above its own and before every slower one, and nothing else moves.
   */
  lemma {:induction false} RecordPosition(lb: seq<Entry>, e: Entry)
    requires SortedByTime(lb)
    ensures exists k :: (0 <= k <= |lb|
      && SortByTime(lb + [e]) == lb[..k] + [e] + lb[k..]
      && (forall i :: 0 <= i < k ==> lb[i].time <= e.time)
      && (forall i :: k <= i < |lb| ==> lb[i].time > e.time))
  {
    assert (lb + [e])[..|lb|] == lb;
    SortSortedIsIdentity(lb);
    var k := InsertPosition(lb, e);
  }

  lemma {:induction false} InsertPosition(s: seq<Entry>, e: Entry) returns (k: nat)
    requires SortedByTime(s)
    ensures k <= |s|
    ensures Insert(s, e) == s[..k] + [e] + s[k..]
    ensures forall i :: 0 <= i < k ==> s[i].time <= e.time
    ensures forall i :: k <= i < |s| ==> s[i].time > e.time
  {
    if s == [] || CompareTime(s[|s| - 1], e) <= 0 {
      k := |s|;
      assert s[..k] == s && s[k..] == [];
    } else {
      var p := s[..|s| - 1];
      k := InsertPosition(p, e);
      assert p[..k] == s[..k];
      assert p[k..] + [s[|s| - 1]] == s[k..];
    }
  }

  /**
   * Inserting a key into a prefix whose entries from j on are all slower than the key, and
   * whose entry before j is not, puts the key at position j.
   */
  lemma {:induction false} InsertAt(p: seq<Entry>, key: Entry, j: nat)
    requires j <= |p|
    requires j == 0 || p[j - 1].time <= key.time
    requires forall k :: j <= k < |p| ==> p[k].time > key.time
    ensures Insert(p, key) == p[..j] + [key] + p[j..]
    decreases |p|
  {
    if j == |p| {
      assert p[..j] == p && p[j..] == [];
    } else {
      var q := p[..|p| - 1];
      InsertAt(q, key, j);
      assert q[..j] == p[..j];
      assert q[j..] + [p[|p| - 1]] == p[j..];
    }
  }

  /** The array contents after the loop, read as a sequence: the prefix with the key at position j. */
  lemma Assemble(x: seq<Entry>, p: seq<Entry>, key: Entry, j: nat)
    requires j <= |p| && |x| == |p| + 1
    requires forall k :: 0 <= k < j ==> x[k] == p[k]
    requires x[j] == key
    requires forall k :: j < k < |x| ==> x[k] == p[k - 1]
    ensures x == p[..j] + [key] + p[j..]
  {
    var y := p[..j] + [key] + p[j..];
    assert |x| == |y|;
    forall k | 0 <= k < |x|
      ensures x[k] == y[k]
    {
      if k < j {
        assert y[k] == p[k];
      } else if k > j {
        assert y[k] == p[k - 1];
      }
    }
  }

  /** Shift the entries before index i that sort after a[i] one place up and drop a[i] into the gap. */
  method InsertInPlace(a: array<Entry>, i: nat)
    requires i < a.Length
    modifies a
    ensures a[..i + 1] == Insert(old(a[..i]), old(a[i]))
    ensures a[i + 1..] == old(a[i + 1..])
  {
    var key := a[i];
    ghost var prefix := a[..i];
    var j := i;
    while j > 0 && CompareTime(a[j - 1], key) > 0
      invariant 0 <= j <= i
      invariant forall k :: 0 <= k < j ==> a[k] == prefix[k]
      invariant forall k :: j < k <= i ==> a[k] == prefix[k - 1]
      invariant forall k :: i < k < a.Length ==> a[k] == old(a[k])
      invariant forall k :: j <= k < i ==> prefix[k].time > key.time
    {
      a[j] := a[j - 1];
      j := j - 1;
    }
    InsertAt(prefix, key, j);
    a[j] := key;
    Assemble(a[..i + 1], prefix, key, j);
  }

  /** One step of the in-place sort: inserting entry i into the sorted first i entries sorts the first i+1. */
  lemma SortStep(cur: seq<Entry>, input: seq<Entry>, i: nat)
    requires i < |cur| == |input|
    requires cur[..i] == SortByTime(input[..i]) && cur[i..] == input[i..]
    ensures Insert(cur[..i], cur[i]) == SortByTime(input[..i + 1])
    ensures cur[i + 1..] == input[i + 1..]
  {
    assert input[..i + 1][..i] == input[..i];
    assert cur[i] == cur[i..][0] == input[i..][0] == input[i];
    assert cur[i + 1..] == cur[i..][1..];
    assert input[i + 1..] == input[i..][1..];
  }

  /**
   * The in-place sort that the reset handler applies to the extended leaderboard:
   * an insertion sort calling the comparator, equal to the stable sort.
   */
  method SortInPlace(a: array<Entry>)
    modifies a
    ensures a[..] == SortByTime(old(a[..]))
  {
    ghost var input := a[..];
    var i := 0;
    while i < a.Length
      invariant 0 <= i <= a.Length
      invariant a[..i] == SortByTime(input[..i])
      invariant a[i..] == input[i..]
    {
      SortStep(a[..], input, i);
      InsertInPlace(a, i);
      i := i + 1;
    }
    assert a[..] == a[..a.Length] && input == input[..a.Length];
  }

  /** `[...leaderboard, newEntry].sort(compare)`: copy into a new array, then sort that array in place. */
  method SortedWith(leaderboard: seq<Entry>, newEntry: Entry) returns (updated: seq<Entry>)
    ensures updated == SortByTime(leaderboard + [newEntry])
  {
    var all := leaderboard + [newEntry];
    var a := new Entry[|all|](i requires 0 <= i < |all| => all[i]);
    assert a[..] == all;
    SortInPlace(a);
    updated := a[..];
  }
}
