/**
 * Recording the user's choice in the cache and reading it back
 * (`cacheSelection` and `lastSelection`, src/extension.ts:254-266, 349-365).
 */
module Selection {
  import opened Wrappers
  import opened Sequences
  import opened Types
  import opened Json
  import opened ExpiringCache

  const LAST_KEY: string := "last"
  const RECENT_ROOTS_KEY: string := "recentRoots"

  /** `recentRoots` after choosing `x`: its first occurrence spliced out, then `x` unshifted. */
  function Promote<T(==)>(xs: seq<T>, x: T): (r: seq<T>)
    ensures |r| > 0 && r[0] == x
    ensures |r| == if x in xs then |xs| else |xs| + 1
  {
    var i := IndexOf(xs, x);
    [x] + (if i >= 0 then RemoveAt(xs, i) else xs)
  }

  /** Nothing is lost or invented: only `x` is added, and only when it was absent. */
  lemma PromoteMultiset<T>(xs: seq<T>, x: T)
    ensures multiset(Promote(xs, x)) == if x in xs then multiset(xs) else multiset(xs) + multiset{x}
  {
    var i := IndexOf(xs, x);
    if i >= 0 {
      assert xs == xs[..i] + [xs[i]] + xs[i + 1..];
      assert multiset(RemoveAt(xs, i)) == multiset(xs) - multiset{x};
    }
  }

  /** Apart from `x`, the list keeps its elements in their relative order. */
  lemma {:induction false} PromoteKeepsOthersInOrder<T>(xs: seq<T>, x: T)
    ensures Without(Promote(xs, x), x) == Without(xs, x)
  {
    var i := IndexOf(xs, x);
    var rest := if i >= 0 then RemoveAt(xs, i) else xs;
    WithoutCons(x, rest, x);
    if i >= 0 {
      WithoutRemoveAt(xs, i, x);
    }
  }

  lemma {:induction false} WithoutCons<T>(y: T, ys: seq<T>, x: T)
    ensures Without([y] + ys, x) == (if y == x then [] else [y]) + Without(ys, x)
  {
    assert ([y] + ys)[0] == y && ([y] + ys)[1..] == ys;
  }

  lemma {:induction false} WithoutRemoveAt<T>(xs: seq<T>, i: nat, x: T)
    requires i < |xs| && xs[i] == x
    ensures Without(RemoveAt(xs, i), x) == Without(xs, x)
  {
    assert xs == xs[..i] + ([xs[i]] + xs[i + 1..]);
    WithoutConcat(xs[..i], [xs[i]] + xs[i + 1..], x);
    WithoutCons(xs[i], xs[i + 1..], x);
    WithoutConcat(xs[..i], xs[i + 1..], x);
  }

  /** A list without repeats stays without repeats, and the previous occurrence is gone. */
  lemma {:induction false} PromoteKeepsNoDuplicates<T>(xs: seq<T>, x: T)
    requires NoDuplicates(xs)
    ensures NoDuplicates(Promote(xs, x))
    ensures x !in Promote(xs, x)[1..]
  {
    var r := Promote(xs, x);
    var i := IndexOf(xs, x);
    var rest := if i >= 0 then RemoveAt(xs, i) else xs;
    assert r == [x] + rest;
    if i >= 0 {
      OmittingKeepsNoDuplicates(xs, i);
    }
    ConsKeepsNoDuplicates(x, rest);
    assert r[1..] == rest;
  }

  lemma {:induction false} ConsKeepsNoDuplicates<T>(x: T, xs: seq<T>)
    requires NoDuplicates(xs) && x !in xs
    ensures NoDuplicates([x] + xs)
  {
    var r := [x] + xs;
    forall a, b | 0 <= a < b < |r| ensures r[a] != r[b] {
      assert r[b] == xs[b - 1];
      if a > 0 { assert r[a] == xs[a - 1]; }
    }
  }

  /** Leaving out the element at `i` of a duplicate-free list keeps it duplicate-free and drops that element entirely. */
  lemma {:induction false} OmittingKeepsNoDuplicates<T>(xs: seq<T>, i: nat)
    requires NoDuplicates(xs) && i < |xs|
    ensures var rest := xs[..i] + xs[i + 1..];
      NoDuplicates(rest) && xs[i] !in rest
  {
    var rest := xs[..i] + xs[i + 1..];
    forall k | 0 <= k < |rest| ensures rest[k] != xs[i] {
      if k < i { assert rest[k] == xs[k]; } else { assert rest[k] == xs[k + 1]; }
    }
    forall a, b | 0 <= a < b < |rest| ensures rest[a] != rest[b] {
      var a' := if a < i then a else a + 1;
      var b' := if b < i then b else b + 1;
      assert rest[a] == xs[a'] && rest[b] == xs[b'];
    }
  }

  /** Two promotions in a row: [B, C] with A gives [A, B, C]; then C gives [C, A, B]. */
  lemma PromoteExamples(a: string, b: string, c: string)
    requires a != b && b != c && a != c
    ensures Promote([b, c], a) == [a, b, c]
    ensures Promote([a, b, c], c) == [c, a, b]
  {
    assert IndexOf([b, c], a) == -1;
    assert IndexOf([a, b, c], c) == 2;
    assert RemoveAt([a, b, c], 2) == [a, b];
  }

  /**
   * `cache.get('recentRoots') || []` followed by array operations: a falsy value
   * becomes the empty list, an array is used as it is, and any other value
   * makes `splice` or `unshift` throw (None).
   */
  function RecentRootsList(v: Value): (r: Option<seq<Value>>)
    ensures r.None? <==> IsTruthy(v) && !v.Arr?
    ensures v.Arr? ==> r == Some(v.elems)
    ensures !IsTruthy(v) ==> r == Some([])
  {
    if !IsTruthy(v) then Some([])
    else if v.Arr? then Some(v.elems)
    else None
  }

  /**
   * Stores `dir` under "last" and moves the chosen root's path to the front of
   * "recentRoots". `ok` is false when "recentRoots" held a value that is
   * neither falsy nor an array, where the source throws after storing "last".
   */
  method CacheSelection(c: Cache, dir: DirectoryOption, root: WorkspaceRoot, now: int) returns (ok: bool)
    requires c.Valid()
    modifies c
    ensures c.Valid() && c.persisted == Some(c.cache)
    ensures var prior := RecentRootsList(old(c.Get(RECENT_ROOTS_KEY, Undefined, now)));
      && ok == prior.Some?
      && c.cache == if ok
         then old(c.cache)[LAST_KEY := Entry(EncodeOption(dir), None)]
                          [RECENT_ROOTS_KEY := Entry(Arr(Promote(prior.value, Str(root.rootPath))), None)]
         else old(c.cache)[LAST_KEY := Entry(EncodeOption(dir), None)]
    ensures forall t :: c.Has(LAST_KEY, t) && c.Get(LAST_KEY, Undefined, t) == EncodeOption(dir)
  {
    var _ := c.Put(Str(LAST_KEY), EncodeOption(dir), None, now);
    var stored := c.Get(RECENT_ROOTS_KEY, Undefined, now);
    var recentRoots: seq<Value>;
    if !IsTruthy(stored) {
      recentRoots := [];
    } else if stored.Arr? {
      recentRoots := stored.elems;
    } else {
      return false;
    }
    var rootIndex := IndexOf(recentRoots, Str(root.rootPath));
    if rootIndex >= 0 {
      recentRoots := RemoveAt(recentRoots, rootIndex);
    }
    recentRoots := [Str(root.rootPath)] + recentRoots;
    var _ := c.Put(Str(RECENT_ROOTS_KEY), Arr(recentRoots), None, now);
    ok := true;
  }

  /**
   * The live "last" value when it is an object (null and arrays included);
   * a live value of any other kind is forgotten and nothing is returned.
   */
  method LastSelection(c: Cache, now: int) returns (v: Option<Value>)
    requires c.Valid()
    modifies c
    ensures c.Valid()
    ensures !old(c.Has(LAST_KEY, now)) ==>
      v == None && c.cache == old(c.cache) && c.persisted == old(c.persisted)
    ensures old(c.Has(LAST_KEY, now)) && IsObject(old(c.cache)[LAST_KEY].value) ==>
      v == Some(old(c.cache)[LAST_KEY].value) && c.cache == old(c.cache) && c.persisted == old(c.persisted)
    ensures old(c.Has(LAST_KEY, now)) && !IsObject(old(c.cache)[LAST_KEY].value) ==>
      v == None && c.cache == old(c.cache) - {LAST_KEY} && c.persisted == Some(c.cache)
  {
    if !c.Has(LAST_KEY, now) {
      return None;
    }
    var value := c.Get(LAST_KEY, Undefined, now);
    if IsObject(value) {
      v := Some(value);
    } else {
      var _ := c.Forget(LAST_KEY);
      v := None;
    }
  }

  /** A selection recorded at one time is what `lastSelection` gives back at any later time. */
  method RecallAfterSelection(c: Cache, dir: DirectoryOption, root: WorkspaceRoot, selectedAt: int, recalledAt: int)
    returns (recalled: Option<DirectoryOption>)
    requires c.Valid()
    modifies c
    ensures recalled == Some(dir)
  {
    var _ := CacheSelection(c, dir, root, selectedAt);
    var last := LastSelection(c, recalledAt);
    DecodeEncode(dir);
    recalled := if last.Some? then DecodeOption(last.value) else None;
  }
}
