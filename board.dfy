/**
 * The three rods of the puzzle and the single move rule of the click handler.
 * A rod lists disk sizes bottom first, so its top disk is its last element;
 * rod 2 is the target rod.
 */
module Board {
  import opened Wrappers

  type Rod = seq<int>
  type Rods = seq<Rod>

  /** The starting rod: sizes n, n-1, ..., 1 from the bottom up. */
  function InitialRod(n: nat): (r: Rod)
    ensures |r| == n
    ensures n > 0 ==> r[0] == n && r[n - 1] == 1
  {
    seq(n, i requires 0 <= i < n => n - i)
  }

  /** The starting board: every disk on rod 0, rods 1 and 2 empty. */
  function InitialRods(n: nat): (b: Rods)
    ensures WellFormed(b, n)
    ensures |b[0]| == n && b[1] == [] && b[2] == []
  {
    InitialRodDescending(n);
    [InitialRod(n), [], []]
  }

  /** The starting rod is stacked largest first, with every size between 1 and n. */
  lemma InitialRodDescending(n: nat)
    ensures StrictlyDescending(InitialRod(n))
    ensures forall i :: 0 <= i < n ==> 1 <= InitialRod(n)[i] <= n
  {
  }

  /** No disk lies on a disk that is not larger than itself. */
  predicate StrictlyDescending(r: Rod)
  {
    forall i, j :: 0 <= i < j < |r| ==> r[i] > r[j]
  }

  /** Every disk on the board, whatever rod it is on. */
  function Disks(b: Rods): (d: multiset<int>)
    requires |b| == 3
    ensures |d| == |b[0]| + |b[1]| + |b[2]|
  {
    multiset(b[0]) + multiset(b[1]) + multiset(b[2])
  }

  /** Three strictly descending rods that hold between them exactly the disks 1..n. */
  ghost predicate WellFormed(b: Rods, n: nat)
  {
    |b| == 3
    && StrictlyDescending(b[0]) && StrictlyDescending(b[1]) && StrictlyDescending(b[2])
    && Disks(b) == multiset(InitialRod(n))
  }

  /**
   * The top disk of a rod; reading past the end of an empty array gives `undefined` in the source.
   * On a properly stacked rod the top is the smallest disk.
   */
  function Top(r: Rod): (t: Option<int>)
    ensures t.None? <==> r == []
    ensures t.Some? ==> t.value == r[|r| - 1]
    ensures t.Some? && StrictlyDescending(r) ==> forall x :: x in r ==> t.value <= x
  {
    TopIsSmallest(r);
    if r == [] then None else Some(r[|r| - 1])
  }

  /**
   * The legality test of the click handler: the destination is empty or its top disk is larger.
   * On a properly stacked destination that is the same as the moving disk being smaller than
   * every disk already there.
   */
  predicate Legal(b: Rods, from: nat, to: nat): (ok: bool)
    requires |b| == 3 && from < 3 && to < 3 && b[from] != []
    ensures StrictlyDescending(b[to]) ==> (ok <==> forall x :: x in b[to] ==> b[from][|b[from]| - 1] < x)
  {
    TopIsSmallest(b[to]);
    var disk := b[from][|b[from]| - 1];
    match Top(b[to])
    case None => true
    case Some(dest) => disk < dest
  }

  /** On a properly stacked rod the top disk is the smallest. */
  lemma TopIsSmallest(r: Rod)
    ensures r != [] ==> r[|r| - 1] in r
    ensures StrictlyDescending(r) && r != [] ==> forall x :: x in r ==> r[|r| - 1] <= x
  {
  }

  /**
   * Pop the top disk of `from` and push it onto `to`: the source loses its top, the
   * destination gains it, and the third rod stays.
   */
  function MoveTop(b: Rods, from: nat, to: nat): (r: Rods)
    requires |b| == 3 && from < 3 && to < 3 && from != to && b[from] != []
    ensures |r| == 3 && r[3 - from - to] == b[3 - from - to]
    ensures b[from] == r[from] + [b[from][|b[from]| - 1]]
    ensures r[to] == b[to] + [b[from][|b[from]| - 1]]
  {
    var disk := b[from][|b[from]| - 1];
    var r := b[from := b[from][..|b[from]| - 1]][to := b[to] + [disk]];
    assert b[from] == r[from] + [disk];
    r
  }

  /** Each of 1..n is on the starting rod exactly once, and nothing else is. */
  lemma {:induction false} InitialRodCounts(n: nat)
    ensures forall k :: multiset(InitialRod(n))[k] == if 1 <= k <= n then 1 else 0
  {
    if n > 0 {
      assert InitialRod(n) == [n] + InitialRod(n - 1);
      InitialRodCounts(n - 1);
    }
  }

  /** The starting board holds each of 1..n once, and nothing else. */
  lemma InitialDisks(n: nat)
    ensures forall k :: Disks(InitialRods(n))[k] == if 1 <= k <= n then 1 else 0
  {
    InitialRodCounts(n);
  }

  /** Removing the top disk keeps a rod strictly descending. */
  lemma PopDescending(r: Rod)
    requires StrictlyDescending(r) && r != []
    ensures StrictlyDescending(r[..|r| - 1])
  {
  }

  /** Placing a disk smaller than the top (or on an empty rod) keeps a rod strictly descending. */
  lemma PushDescending(r: Rod, disk: int)
    requires StrictlyDescending(r)
    requires r == [] || disk < r[|r| - 1]
    ensures StrictlyDescending(r + [disk])
  {
    if r != [] {
      assert forall i :: 0 <= i < |r| ==> r[i] >= r[|r| - 1];
    }
  }

  /** The disks of the board, grouped as the two named rods and the third one. */
  lemma DisksByRods(b: Rods, x: nat, y: nat)
    requires |b| == 3 && x < 3 && y < 3 && x != y
    ensures 3 - x - y < 3 && 3 - x - y != x && 3 - x - y != y
    ensures Disks(b) == multiset(b[x]) + multiset(b[y]) + multiset(b[3 - x - y])
  {
    if (x == 0 && y == 2) || (x == 2 && y == 0) {
      assert 3 - x - y == 1;
    }
  }

  /** A legal move puts the disk on an empty rod or on a larger top disk. */
  lemma LegalOnTop(b: Rods, from: nat, to: nat)
    requires |b| == 3 && from < 3 && to < 3 && b[from] != []
    requires Legal(b, from, to)
    ensures b[to] == [] || b[from][|b[from]| - 1] < b[to][|b[to]| - 1]
  {
  }

  /** A move between two different rods neither creates nor destroys a disk. */
  lemma MovePreservesDisks(b: Rods, from: nat, to: nat)
    requires |b| == 3 && from < 3 && to < 3 && from != to && b[from] != []
    ensures Disks(MoveTop(b, from, to)) == Disks(b)
  {
    var r := MoveTop(b, from, to);
    var disk := b[from][|b[from]| - 1];
    assert multiset(b[from]) == multiset(r[from]) + multiset{disk};
    assert multiset(r[to]) == multiset(b[to]) + multiset{disk};
    DisksByRods(b, from, to);
    DisksByRods(r, from, to);
  }

  /** Every rod of a well-formed board is properly stacked. */
  lemma RodDescending(b: Rods, n: nat, k: nat)
    requires WellFormed(b, n) && k < 3
    ensures StrictlyDescending(b[k])
  {
  }

  /** Restacking the same disks into three properly stacked rods keeps the board well formed. */
  lemma SameDisksWellFormed(b: Rods, r: Rods, n: nat, x: nat, y: nat)
    requires WellFormed(b, n) && |r| == 3 && Disks(r) == Disks(b)
    requires x < 3 && y < 3 && x != y
    requires StrictlyDescending(r[x]) && StrictlyDescending(r[y]) && StrictlyDescending(r[3 - x - y])
    ensures WellFormed(r, n)
  {
    if (x == 0 && y == 2) || (x == 2 && y == 0) {
      assert 3 - x - y == 1;
    }
  }

  /** After a legal move all three rods are still properly stacked. */
  lemma MoveKeepsStacking(b: Rods, n: nat, from: nat, to: nat)
    requires WellFormed(b, n) && from < 3 && to < 3 && from != to && b[from] != []
    requires Legal(b, from, to)
    ensures var r := MoveTop(b, from, to);
      StrictlyDescending(r[from]) && StrictlyDescending(r[to]) && StrictlyDescending(r[3 - from - to])
  {
    RodDescending(b, n, from);
    RodDescending(b, n, to);
    RodDescending(b, n, 3 - from - to);
    PopDescending(b[from]);
    LegalOnTop(b, from, to);
    PushDescending(b[to], b[from][|b[from]| - 1]);
  }

  /**
   * A legal move keeps every rod strictly descending and keeps the disks 1..n,
   * and it changes only the source rod (which loses its top) and the destination (which gains it).
   */
  lemma MovePreservesWellFormed(b: Rods, n: nat, from: nat, to: nat)
    requires WellFormed(b, n) && from < 3 && to < 3 && from != to && b[from] != []
    requires Legal(b, from, to)
    ensures WellFormed(MoveTop(b, from, to), n)
    ensures var r := MoveTop(b, from, to);
      && (forall k :: 0 <= k < 3 && k != from && k != to ==> r[k] == b[k])
      && b[from] == r[from] + [b[from][|b[from]| - 1]]
      && r[to] == b[to] + [b[from][|b[from]| - 1]]
  {
    var r := MoveTop(b, from, to);
    var disk := b[from][|b[from]| - 1];
    var third := 3 - from - to;
    MoveKeepsStacking(b, n, from, to);
    MovePreservesDisks(b, from, to);
    SameDisksWellFormed(b, r, n, from, to);
    forall k | 0 <= k < 3 && k != from && k != to
      ensures r[k] == b[k]
    {
      assert k == third;
    }
  }

  /** Between them the rods hold exactly n disks. */
  lemma DiskCount(b: Rods, n: nat)
    requires WellFormed(b, n)
    ensures |b[0]| + |b[1]| + |b[2]| == n
  {
    calc {
      |b[0]| + |b[1]| + |b[2]|;
      |multiset(b[0])| + |multiset(b[1])| + |multiset(b[2])|;
      |Disks(b)|;
      |multiset(InitialRod(n))|;
    }
  }

  /** Two strictly descending rods holding the same disks are the same rod. */
  lemma {:induction false} DescendingUnique(s: Rod, t: Rod)
    requires StrictlyDescending(s) && StrictlyDescending(t)
    requires multiset(s) == multiset(t)
    ensures s == t
  {
    assert |s| == |multiset(s)| == |multiset(t)| == |t|;
    if s != [] {
      assert s[0] in multiset(t) && t[0] in multiset(s);
      assert s[0] in t && t[0] in s;
      assert s[0] == t[0];
      assert s == [s[0]] + s[1..] && t == [t[0]] + t[1..];
      assert multiset(s) == multiset{s[0]} + multiset(s[1..]);
      assert multiset(t) == multiset{s[0]} + multiset(t[1..]);
      forall x ensures multiset(s[1..])[x] == multiset(t[1..])[x] {
        assert multiset(s)[x] == multiset(t)[x];
      }
      assert multiset(s[1..]) == multiset(t[1..]);
      DescendingUnique(s[1..], t[1..]);
    }
  }

  /** The target rod holds n disks exactly when the other rods are empty and it holds the starting stack. */
  lemma SolvedBoard(b: Rods, n: nat)
    requires WellFormed(b, n)
    ensures |b[2]| == n <==> b[0] == [] && b[1] == [] && b[2] == InitialRod(n)
  {
    DiskCount(b, n);
    if |b[2]| == n {
      assert b[0] == [] && b[1] == [];
      assert multiset(b[2]) == multiset(InitialRod(n));
      DescendingUnique(b[2], InitialRod(n));
    }
  }

  /** A move is pinned down by its three rods: the popped source, the pushed destination, the untouched third. */
  lemma MoveTopIs(b: Rods, from: nat, to: nat, r: Rods)
    requires |b| == 3 && from < 3 && to < 3 && from != to && b[from] != []
    requires |r| == 3
    requires r[from] == b[from][..|b[from]| - 1] && r[to] == b[to] + [b[from][|b[from]| - 1]]
    requires r[3 - from - to] == b[3 - from - to]
    ensures MoveTop(b, from, to) == r
  {
    var m := MoveTop(b, from, to);
    assert {from, to, 3 - from - to} == {0, 1, 2};
    assert forall k :: 0 <= k < 3 ==> m[k] == r[k];
  }
}
