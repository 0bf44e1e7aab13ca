/**
 * `sortRoots` (src/extension.ts:367-375): lodash `sortBy`, a stable sort, of
 * the workspace roots by their position in a desired-order list; a root not
 * in the list ranks as the number of roots.
 */
module Ranking {
  import opened Types
  import opened Sequences

  /** The sort key: the root's index in `desiredOrder`, or `n` (the number of roots) when it is not listed. */
  function Rank(root: WorkspaceRoot, desiredOrder: seq<string>, n: nat): nat {
    var i := IndexOf(desiredOrder, root.rootPath);
    if i >= 0 then i else n
  }

  /** `x` placed before the first element whose rank is not smaller. */
  function Insert(x: WorkspaceRoot, ys: seq<WorkspaceRoot>, desiredOrder: seq<string>, n: nat): seq<WorkspaceRoot> {
    if ys == [] || Rank(x, desiredOrder, n) <= Rank(ys[0], desiredOrder, n) then [x] + ys
    else [ys[0]] + Insert(x, ys[1..], desiredOrder, n)
  }

  function SortByRank(xs: seq<WorkspaceRoot>, desiredOrder: seq<string>, n: nat): seq<WorkspaceRoot> {
    if xs == [] then [] else Insert(xs[0], SortByRank(xs[1..], desiredOrder, n), desiredOrder, n)
  }

  /** `sortBy(roots, rank)`: the roots reordered by rank. */
  function SortRoots(roots: seq<WorkspaceRoot>, desiredOrder: seq<string>): (r: seq<WorkspaceRoot>)
    ensures multiset(r) == multiset(roots)
    ensures SortedByRank(r, desiredOrder, |roots|)
  {
    SortByRankSortedPermutation(roots, desiredOrder, |roots|);
    SortByRank(roots, desiredOrder, |roots|)
  }

  predicate SortedByRank(xs: seq<WorkspaceRoot>, desiredOrder: seq<string>, n: nat) {
    forall i, j :: 0 <= i < j < |xs| ==> Rank(xs[i], desiredOrder, n) <= Rank(xs[j], desiredOrder, n)
  }

  /** The roots of rank `k`, in their order. */
  function WithRank(xs: seq<WorkspaceRoot>, desiredOrder: seq<string>, n: nat, k: nat): seq<WorkspaceRoot> {
    if xs == [] then []
    else (if Rank(xs[0], desiredOrder, n) == k then [xs[0]] else []) + WithRank(xs[1..], desiredOrder, n, k)
  }

  lemma {:induction false} InsertPermutes(x: WorkspaceRoot, ys: seq<WorkspaceRoot>, d: seq<string>, n: nat)
    ensures multiset(Insert(x, ys, d, n)) == multiset(ys) + multiset{x}
  {
    if ys != [] && Rank(x, d, n) > Rank(ys[0], d, n) {
      InsertPermutes(x, ys[1..], d, n);
      assert ys == [ys[0]] + ys[1..];
    }
  }

  predicate AllRankAtLeast(xs: seq<WorkspaceRoot>, d: seq<string>, n: nat, lo: nat) {
    forall i :: 0 <= i < |xs| ==> lo <= Rank(xs[i], d, n)
  }

  lemma {:induction false} InsertRankAtLeast(x: WorkspaceRoot, ys: seq<WorkspaceRoot>, d: seq<string>, n: nat, lo: nat)
    requires lo <= Rank(x, d, n) && AllRankAtLeast(ys, d, n, lo)
    ensures AllRankAtLeast(Insert(x, ys, d, n), d, n, lo)
  {
    if ys != [] && Rank(x, d, n) > Rank(ys[0], d, n) {
      InsertRankAtLeast(x, ys[1..], d, n, lo);
    }
  }

  lemma {:induction false} InsertSorted(x: WorkspaceRoot, ys: seq<WorkspaceRoot>, d: seq<string>, n: nat)
    requires SortedByRank(ys, d, n)
    ensures SortedByRank(Insert(x, ys, d, n), d, n)
  {
    if ys == [] || Rank(x, d, n) <= Rank(ys[0], d, n) {
      assert forall j :: 0 <= j < |ys| ==> Rank(x, d, n) <= Rank(ys[j], d, n) by {
        forall j | 0 <= j < |ys| ensures Rank(x, d, n) <= Rank(ys[j], d, n) {
          if j > 0 { assert Rank(ys[0], d, n) <= Rank(ys[j], d, n); }
        }
      }
    } else {
      var rest := Insert(x, ys[1..], d, n);
      InsertSorted(x, ys[1..], d, n);
      InsertRankAtLeast(x, ys[1..], d, n, Rank(ys[0], d, n));
      assert Insert(x, ys, d, n) == [ys[0]] + rest;
    }
  }

  lemma {:induction false} SortByRankSortedPermutation(xs: seq<WorkspaceRoot>, d: seq<string>, n: nat)
    ensures multiset(SortByRank(xs, d, n)) == multiset(xs)
    ensures SortedByRank(SortByRank(xs, d, n), d, n)
    ensures |SortByRank(xs, d, n)| == |xs|
  {
    if xs != [] {
      SortByRankSortedPermutation(xs[1..], d, n);
      InsertPermutes(xs[0], SortByRank(xs[1..], d, n), d, n);
      InsertSorted(xs[0], SortByRank(xs[1..], d, n), d, n);
      assert xs == [xs[0]] + xs[1..];
    }
  }

  lemma {:induction false} InsertWithRank(x: WorkspaceRoot, ys: seq<WorkspaceRoot>, d: seq<string>, n: nat, k: nat)
    ensures WithRank(Insert(x, ys, d, n), d, n, k)
         == (if Rank(x, d, n) == k then [x] else []) + WithRank(ys, d, n, k)
  {
    if ys == [] || Rank(x, d, n) <= Rank(ys[0], d, n) {
      WithRankCons(x, ys, d, n, k);
    } else {
      InsertWithRank(x, ys[1..], d, n, k);
      WithRankCons(ys[0], Insert(x, ys[1..], d, n), d, n, k);
      WithRankCons(ys[0], ys[1..], d, n, k);
      assert [ys[0]] + ys[1..] == ys;
      var here := if Rank(x, d, n) == k then [x] else [];
      var head := if Rank(ys[0], d, n) == k then [ys[0]] else [];
      assert here == [] || head == [];
    }
  }

  lemma {:induction false} WithRankCons(x: WorkspaceRoot, ys: seq<WorkspaceRoot>, d: seq<string>, n: nat, k: nat)
    ensures WithRank([x] + ys, d, n, k) == (if Rank(x, d, n) == k then [x] else []) + WithRank(ys, d, n, k)
  {
    assert ([x] + ys)[0] == x && ([x] + ys)[1..] == ys;
  }

  /** Stability: for every rank, the roots of that rank keep their relative order. */
  lemma {:induction false} SortRootsStable(roots: seq<WorkspaceRoot>, desiredOrder: seq<string>, k: nat)
    ensures WithRank(SortRoots(roots, desiredOrder), desiredOrder, |roots|, k) == WithRank(roots, desiredOrder, |roots|, k)
  {
    SortByRankStable(roots, desiredOrder, |roots|, k);
  }

  lemma {:induction false} SortByRankStable(xs: seq<WorkspaceRoot>, d: seq<string>, n: nat, k: nat)
    ensures WithRank(SortByRank(xs, d, n), d, n, k) == WithRank(xs, d, n, k)
  {
    if xs != [] {
      SortByRankStable(xs[1..], d, n, k);
      InsertWithRank(xs[0], SortByRank(xs[1..], d, n), d, n, k);
    }
  }

  /** With an empty desired order every root has the same rank, and the order is unchanged. */
  lemma {:induction false} SortRootsWithoutPreference(roots: seq<WorkspaceRoot>)
    ensures SortRoots(roots, []) == roots
  {
    AllUnlistedUnchanged(roots, |roots|);
  }

  lemma {:induction false} AllUnlistedUnchanged(xs: seq<WorkspaceRoot>, n: nat)
    ensures SortByRank(xs, [], n) == xs
  {
    if xs != [] {
      AllUnlistedUnchanged(xs[1..], n);
      assert xs == [xs[0]] + xs[1..];
    }
  }

  /**
   * When every listed index is below the number of roots (for instance when the
   * list is no longer than the roots), listed roots come first, in the list's
   * order, and unlisted roots after them.
   */
  lemma ListedFirstInDesiredOrder(roots: seq<WorkspaceRoot>, desiredOrder: seq<string>, i: nat, j: nat)
    requires |desiredOrder| <= |roots|
    requires i < j < |SortRoots(roots, desiredOrder)|
    ensures var s := SortRoots(roots, desiredOrder);
      && (s[j].rootPath in desiredOrder ==> s[i].rootPath in desiredOrder)
      && (s[i].rootPath in desiredOrder && s[j].rootPath in desiredOrder ==>
            IndexOf(desiredOrder, s[i].rootPath) <= IndexOf(desiredOrder, s[j].rootPath))
  {
  }

  /**
   * The rank of an unlisted root is the number of roots, not the length of the
   * list: with two roots, one listed at index 3 and one unlisted, the unlisted
   * root sorts first.
   */
  lemma UnlistedBeforeLateListed(a: WorkspaceRoot, b: WorkspaceRoot, other: string)
    requires a.rootPath != b.rootPath && other != b.rootPath && other != a.rootPath
    ensures SortRoots([b, a], [other, other, other, b.rootPath]) == [a, b]
  {
    var d := [other, other, other, b.rootPath];
    assert Rank(a, d, 2) == 2;
    assert Rank(b, d, 2) == 3;
    assert [a][1..] == [];
    assert SortByRank([a], d, 2) == Insert(a, [], d, 2) == [a];
    assert [b, a][1..] == [a];
    assert SortByRank([b, a], d, 2) == Insert(b, [a], d, 2);
    assert Insert(b, [a], d, 2) == [a] + Insert(b, [], d, 2);
  }
}
