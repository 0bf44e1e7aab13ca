/**
 * The ignore list handed to the directory scan (src/extension.ts:31-80): the
 * `.gitignore` files found walking up from the root, their patterns with the
 * negation marker dropped and the first doubled separator collapsed, followed
 * by the keys the exclude settings set to `true`.
 */
module IgnoreRules {
  import opened Wrappers
  import opened Sequences
  import opened Paths
  import opened Json

  const GITIGNORE: string := ".gitignore"

  // ---------------------------------------------------------------------------
  // Pattern normalisation

  /** `pattern.replace(/^!/, '')`: one leading '!' removed, if there is one. */
  function InvertGlob(pattern: string): (r: string)
    ensures pattern == r || pattern == "!" + r
    ensures |pattern| > 0 && pattern[0] == '!' <==> pattern == "!" + r
  {
    if |pattern| > 0 && pattern[0] == '!' then pattern[1..] else pattern
  }

  /** Only one marker goes: a doubly negated pattern keeps one. */
  lemma InvertGlobStripsOnce(p: string)
    ensures InvertGlob("!!" + p) == "!" + p
    ensures InvertGlob(InvertGlob("!!" + p)) == p
  {
    assert ("!!" + p)[1..] == "!" + p;
    assert ("!" + p)[1..] == p;
  }

  predicate DoubleSepAt(s: string, i: int) {
    0 <= i && i + 1 < |s| && s[i] == SEP && s[i + 1] == SEP
  }

  /** The first index at which "//" occurs in `s`. */
  function FindDoubleSep(s: string): (r: Option<nat>)
    ensures r.Some? ==> DoubleSepAt(s, r.value) && forall j :: 0 <= j < r.value ==> !DoubleSepAt(s, j)
    ensures r.None? ==> forall j :: !DoubleSepAt(s, j)
  {
    if |s| < 2 then None
    else if s[0] == SEP && s[1] == SEP then Some(0)
    else match FindDoubleSep(s[1..])
      case None =>
        assert forall j :: DoubleSepAt(s, j) && j > 0 ==> DoubleSepAt(s[1..], j - 1);
        None
      case Some(i) =>
        assert forall j :: 0 < j <= i ==> (DoubleSepAt(s, j) ==> DoubleSepAt(s[1..], j - 1));
        Some(i + 1)
  }

  /** `s.replace('//', '/')`: a string pattern replaces its first occurrence only. */
  function CollapseFirstDoubleSep(s: string): (r: string)
    ensures FindDoubleSep(s).None? ==> r == s
    ensures FindDoubleSep(s).Some? ==>
      var i := FindDoubleSep(s).value;
      |r| == |s| - 1 && r[..i + 1] == s[..i + 1] && r[i + 1..] == s[i + 2..]
  {
    match FindDoubleSep(s)
    case None => s
    case Some(i) => s[..i] + SEP_STRING + s[i + 2..]
  }

  /** A second doubled separator survives the replacement. */
  lemma CollapseOnlyFirst()
    ensures CollapseFirstDoubleSep("a//b//c") == "a/b//c"
  {
    assert DoubleSepAt("a//b//c", 1);
    assert !DoubleSepAt("a//b//c", 0);
    assert FindDoubleSep("a//b//c") == Some(1);
  }

  /** One gitignore-derived pattern as it enters the ignore list. */
  function NormalizeGitignoreGlob(pattern: string): (r: string)
    ensures |r| <= |pattern|
    ensures (|pattern| == 0 || pattern[0] != '!') && FindDoubleSep(pattern).None? ==> r == pattern
  {
    CollapseFirstDoubleSep(InvertGlob(pattern))
  }

  // ---------------------------------------------------------------------------
  // Upward walk

  /** A parent function that, unless it has reached a fixed point, gives a strictly shorter path. */
  ghost predicate Shrinks(parent: string -> string) {
    forall p :: parent(p) == p || |parent(p)| < |p|
  }

  lemma ParentShrinks()
    ensures Shrinks(Parent)
  {
  }

  /** The directories the upward walk visits: `dir`, then parents until the parent is the directory itself. */
  function Visited(parent: string -> string, dir: string): (vs: seq<string>)
    requires Shrinks(parent)
    decreases |dir|
  {
    [dir] + if parent(dir) == dir then [] else Visited(parent, parent(dir))
  }

  /** The walk starts at `dir`, goes one parent at a time, and ends at a fixed point of `parent`. */
  lemma {:induction false} VisitedSteps(parent: string -> string, dir: string)
    requires Shrinks(parent)
    ensures var vs := Visited(parent, dir);
      && vs[0] == dir
      && parent(vs[|vs| - 1]) == vs[|vs| - 1]
      && forall i :: 0 <= i < |vs| - 1 ==> vs[i + 1] == parent(vs[i]) && vs[i + 1] != vs[i]
    decreases |dir|
  {
    if parent(dir) != dir {
      VisitedSteps(parent, parent(dir));
      var tail := Visited(parent, parent(dir));
      assert Visited(parent, dir) == [dir] + tail;
    }
  }

  /** Paths get strictly shorter along the walk, so no directory is visited twice. */
  lemma {:induction false} VisitedShrinks(parent: string -> string, dir: string)
    requires Shrinks(parent)
    ensures forall i :: 0 <= i < |Visited(parent, dir)| ==> |Visited(parent, dir)[i]| <= |dir|
    ensures forall i, j :: 0 <= i < j < |Visited(parent, dir)| ==>
      |Visited(parent, dir)[j]| < |Visited(parent, dir)[i]|
    decreases |dir|
  {
    var vs := Visited(parent, dir);
    if parent(dir) != dir {
      var next := parent(dir);
      VisitedShrinks(parent, next);
      var tail := Visited(parent, next);
      assert vs == [dir] + tail;
      assert |next| < |dir|;
      forall i | 0 < i < |vs| ensures |vs[i]| < |dir| {
        assert vs[i] == tail[i - 1];
      }
      forall i, j | 0 <= i < j < |vs| ensures |vs[j]| < |vs[i]| {
        assert vs[j] == tail[j - 1];
        if i > 0 { assert vs[i] == tail[i - 1]; }
      }
    } else {
      assert vs == [dir];
    }
  }

  /** From "/a/b" the walk visits "/a/b", "/a" and "/", and the nearer `.gitignore` comes first. */
  lemma WalkupExample()
    ensures Shrinks(Parent)
    ensures Visited(Parent, "/a/b") == ["/a/b", "/a", "/"]
    ensures GitignoresOf(["/a/b", "/a", "/"], {"/.gitignore", "/a/b/.gitignore"}) == ["/a/b/.gitignore", "/.gitignore"]
  {
    ParentShrinks();
    ParentExamples();
    assert Visited(Parent, "/") == ["/"];
    assert Visited(Parent, "/a") == ["/a"] + Visited(Parent, "/");
    assert Visited(Parent, "/a/b") == ["/a/b"] + Visited(Parent, "/a");
    GitignoreExamples();
    var onDisk := {"/.gitignore", "/a/b/.gitignore"};
    assert GitignoresOf(["/"], onDisk) == ["/.gitignore"];
    assert GitignoresOf(["/a", "/"], onDisk) == GitignoresOf(["/"], onDisk);
    assert ["/a/b", "/a", "/"][1..] == ["/a", "/"];
  }

  /** The parents along the walk from "/a/b". */
  lemma ParentExamples()
    ensures Parent("/a/b") == "/a" && Parent("/a") == "/" && Parent("/") == "/"
  {
    assert LastSep("/a/b") == Some(2);
    assert LastSep("/a") == Some(0);
  }

  /** The `.gitignore` paths of the directories on that walk. */
  lemma GitignoreExamples()
    ensures Join("/a/b", GITIGNORE) == "/a/b/.gitignore"
    ensures Join("/a", GITIGNORE) == "/a/.gitignore"
    ensures Join("/", GITIGNORE) == "/.gitignore"
  {
  }

  /** The `.gitignore` paths of `dirs` that exist, in the order of `dirs`. */
  function GitignoresOf(dirs: seq<string>, onDisk: set<string>): seq<string> {
    if dirs == [] then []
    else
      var g := Join(dirs[0], GITIGNORE);
      (if g in onDisk then [g] else []) + GitignoresOf(dirs[1..], onDisk)
  }

  /**
   * The positions in `dirs` of the directories whose `.gitignore` exists: one
   * per found path, strictly increasing, each naming the directory that path
   * belongs to, and every directory with a `.gitignore` among them. So the
   * found paths are those directories' `.gitignore` files, one per directory,
   * in walk order (nearest first).
   */
  function FoundAt(dirs: seq<string>, onDisk: set<string>): (idx: seq<nat>)
    ensures |idx| == |GitignoresOf(dirs, onDisk)|
    ensures forall k :: 0 <= k < |idx| ==> idx[k] < |dirs|
    ensures forall k, l :: 0 <= k < l < |idx| ==> idx[k] < idx[l]
    ensures forall k :: 0 <= k < |idx| ==> GitignoresOf(dirs, onDisk)[k] == Join(dirs[idx[k]], GITIGNORE)
    ensures forall i :: 0 <= i < |dirs| && Join(dirs[i], GITIGNORE) in onDisk ==> i in idx
  {
    if dirs == [] then []
    else
      var rest := FoundAt(dirs[1..], onDisk);
      FoundAtStep(dirs, onDisk, rest);
      if Join(dirs[0], GITIGNORE) in onDisk then [0] + Shift(rest) else Shift(rest)
  }

  /** Every position moved one place on, as when the first directory is put back in front. */
  function Shift(xs: seq<nat>): (ys: seq<nat>)
    ensures |ys| == |xs| && forall k :: 0 <= k < |xs| ==> ys[k] == xs[k] + 1
  {
    seq(|xs|, k requires 0 <= k < |xs| => xs[k] + 1)
  }

  /** The positions found in the rest of the walk, moved on by one and led by the first directory when its `.gitignore` exists. */
  lemma {:induction false} FoundAtStep(dirs: seq<string>, onDisk: set<string>, rest: seq<nat>)
    requires |dirs| > 0
    requires |rest| == |GitignoresOf(dirs[1..], onDisk)|
    requires forall k :: 0 <= k < |rest| ==> rest[k] < |dirs| - 1
    requires forall k, l :: 0 <= k < l < |rest| ==> rest[k] < rest[l]
    requires forall k :: 0 <= k < |rest| ==> GitignoresOf(dirs[1..], onDisk)[k] == Join(dirs[1..][rest[k]], GITIGNORE)
    requires forall i :: 0 <= i < |dirs| - 1 && Join(dirs[1..][i], GITIGNORE) in onDisk ==> i in rest
    ensures var idx := if Join(dirs[0], GITIGNORE) in onDisk then [0] + Shift(rest) else Shift(rest);
      && |idx| == |GitignoresOf(dirs, onDisk)|
      && (forall k :: 0 <= k < |idx| ==> idx[k] < |dirs|)
      && (forall k, l :: 0 <= k < l < |idx| ==> idx[k] < idx[l])
      && (forall k :: 0 <= k < |idx| ==> GitignoresOf(dirs, onDisk)[k] == Join(dirs[idx[k]], GITIGNORE))
      && (forall i :: 0 <= i < |dirs| && Join(dirs[i], GITIGNORE) in onDisk ==> i in idx)
  {
    FoundAtStepOrdered(dirs, onDisk, rest);
    FoundAtStepPaths(dirs, onDisk, rest);
    FoundAtStepComplete(dirs, onDisk, rest);
  }

  lemma {:induction false} FoundAtStepOrdered(dirs: seq<string>, onDisk: set<string>, rest: seq<nat>)
    requires |dirs| > 0
    requires |rest| == |GitignoresOf(dirs[1..], onDisk)|
    requires forall k :: 0 <= k < |rest| ==> rest[k] < |dirs| - 1
    requires forall k, l :: 0 <= k < l < |rest| ==> rest[k] < rest[l]
    ensures var idx := if Join(dirs[0], GITIGNORE) in onDisk then [0] + Shift(rest) else Shift(rest);
      && |idx| == |GitignoresOf(dirs, onDisk)|
      && (forall k :: 0 <= k < |idx| ==> idx[k] < |dirs|)
      && (forall k, l :: 0 <= k < l < |idx| ==> idx[k] < idx[l])
  {
    var g := Join(dirs[0], GITIGNORE);
    assert GitignoresOf(dirs, onDisk) == (if g in onDisk then [g] else []) + GitignoresOf(dirs[1..], onDisk);
    ShiftOrdered(rest, |dirs| - 1);
  }

  /** Moving strictly increasing positions below `n` on by one, with or without a leading 0, keeps them strictly increasing and below `n + 1`. */
  lemma {:induction false} ShiftOrdered(rest: seq<nat>, n: nat)
    requires forall k :: 0 <= k < |rest| ==> rest[k] < n
    requires forall k, l :: 0 <= k < l < |rest| ==> rest[k] < rest[l]
    ensures forall k :: 0 <= k < |rest| ==> Shift(rest)[k] < n + 1
    ensures forall k, l :: 0 <= k < l < |rest| ==> Shift(rest)[k] < Shift(rest)[l]
    ensures var led := [0] + Shift(rest);
      && (forall k :: 0 <= k < |led| ==> led[k] < n + 1)
      && (forall k, l :: 0 <= k < l < |led| ==> led[k] < led[l])
  {
    var led := [0] + Shift(rest);
    forall k, l | 0 <= k < l < |led| ensures led[k] < led[l] {
      assert led[l] == rest[l - 1] + 1;
      if k > 0 { assert led[k] == rest[k - 1] + 1; }
    }
  }

  lemma {:induction false} FoundAtStepPaths(dirs: seq<string>, onDisk: set<string>, rest: seq<nat>)
    requires |dirs| > 0
    requires |rest| == |GitignoresOf(dirs[1..], onDisk)|
    requires forall k :: 0 <= k < |rest| ==> rest[k] < |dirs| - 1
    requires forall k :: 0 <= k < |rest| ==> GitignoresOf(dirs[1..], onDisk)[k] == Join(dirs[1..][rest[k]], GITIGNORE)
    ensures var idx := if Join(dirs[0], GITIGNORE) in onDisk then [0] + Shift(rest) else Shift(rest);
      forall k :: 0 <= k < |idx| ==> GitignoresOf(dirs, onDisk)[k] == Join(dirs[idx[k]], GITIGNORE)
  {
    var g := Join(dirs[0], GITIGNORE);
    var tail := GitignoresOf(dirs[1..], onDisk);
    assert GitignoresOf(dirs, onDisk) == (if g in onDisk then [g] else []) + tail;
    ShiftedPaths(dirs, tail, rest);
  }

  /** Positions in `dirs[1..]` name the same directories once moved on by one. */
  lemma {:induction false} ShiftedPaths(dirs: seq<string>, tail: seq<string>, rest: seq<nat>)
    requires |dirs| > 0 && |rest| == |tail|
    requires forall k :: 0 <= k < |rest| ==> rest[k] < |dirs| - 1
    requires forall k :: 0 <= k < |rest| ==> tail[k] == Join(dirs[1..][rest[k]], GITIGNORE)
    ensures forall k :: 0 <= k < |rest| ==> Shift(rest)[k] < |dirs| && tail[k] == Join(dirs[Shift(rest)[k]], GITIGNORE)
    ensures forall k :: 0 < k <= |rest| ==> ([0] + Shift(rest))[k] == Shift(rest)[k - 1]
  {
    forall k | 0 <= k < |rest| ensures Shift(rest)[k] < |dirs| && tail[k] == Join(dirs[Shift(rest)[k]], GITIGNORE) {
      assert dirs[1..][rest[k]] == dirs[rest[k] + 1];
    }
  }

  lemma {:induction false} FoundAtStepComplete(dirs: seq<string>, onDisk: set<string>, rest: seq<nat>)
    requires |dirs| > 0
    requires forall i :: 0 <= i < |dirs| - 1 && Join(dirs[1..][i], GITIGNORE) in onDisk ==> i in rest
    ensures var idx := if Join(dirs[0], GITIGNORE) in onDisk then [0] + Shift(rest) else Shift(rest);
      forall i :: 0 <= i < |dirs| && Join(dirs[i], GITIGNORE) in onDisk ==> i in idx
  {
    var g := Join(dirs[0], GITIGNORE);
    var shifted := Shift(rest);
    var idx := if g in onDisk then [0] + shifted else shifted;
    forall i | 0 <= i < |dirs| && Join(dirs[i], GITIGNORE) in onDisk ensures i in idx {
      if i > 0 {
        assert dirs[i] == dirs[1..][i - 1];
        ShiftContains(rest, i - 1);
        assert i in shifted;
      } else {
        assert idx[0] == 0;
      }
    }
  }

  lemma {:induction false} ShiftContains(xs: seq<nat>, j: nat)
    requires j in xs
    ensures j + 1 in Shift(xs)
  {
    var k :| 0 <= k < |xs| && xs[k] == j;
    assert Shift(xs)[k] == j + 1;
  }

  /** Every path found exists and belongs to a visited directory; every existing one is found; no more paths than directories. */
  lemma {:induction false} GitignoresOfSoundComplete(dirs: seq<string>, onDisk: set<string>)
    ensures var found := GitignoresOf(dirs, onDisk);
      && |found| <= |dirs|
      && (forall g :: g in found ==> g in onDisk && exists i :: 0 <= i < |dirs| && g == Join(dirs[i], GITIGNORE))
      && (forall i :: 0 <= i < |dirs| && Join(dirs[i], GITIGNORE) in onDisk ==> Join(dirs[i], GITIGNORE) in found)
  {
    if dirs != [] {
      GitignoresOfSoundComplete(dirs[1..], onDisk);
      var found := GitignoresOf(dirs, onDisk);
      var g := Join(dirs[0], GITIGNORE);
      assert found == (if g in onDisk then [g] else []) + GitignoresOf(dirs[1..], onDisk);
      forall x | x in found ensures x in onDisk && exists i :: 0 <= i < |dirs| && x == Join(dirs[i], GITIGNORE) {
        if x != g || g !in onDisk {
          assert x in GitignoresOf(dirs[1..], onDisk);
          var i :| 0 <= i < |dirs[1..]| && x == Join(dirs[1..][i], GITIGNORE);
          assert dirs[1..][i] == dirs[i + 1];
        } else {
          assert x == Join(dirs[0], GITIGNORE);
        }
      }
      forall i | 0 <= i < |dirs| && Join(dirs[i], GITIGNORE) in onDisk ensures Join(dirs[i], GITIGNORE) in found {
        if i > 0 { assert dirs[i] == dirs[1..][i - 1]; }
      }
    }
  }

  /**
   * `walkupGitignores`: pushes each existing `.gitignore` path into `found`,
   * nearest directory first, stopping when the parent is the directory itself.
   * `onDisk` holds the paths for which the file-system test succeeds.
   */
  method WalkupGitignores(dir: string, onDisk: set<string>) returns (found: seq<string>)
    ensures Shrinks(Parent) && found == GitignoresOf(Visited(Parent, dir), onDisk)
  {
    ParentShrinks();
    found := [];
    var current := dir;
    while true
      invariant found + GitignoresOf(Visited(Parent, current), onDisk) == GitignoresOf(Visited(Parent, dir), onDisk)
      decreases |current|
    {
      var gitignore := Join(current, GITIGNORE);
      var parentDir := Parent(current);
      ghost var rest := if parentDir == current then [] else Visited(Parent, parentDir);
      ghost var step := if gitignore in onDisk then [gitignore] else [];
      assert Visited(Parent, current) == [current] + rest;
      GitignoresOfCons(current, rest, onDisk);
      assert GitignoresOf(Visited(Parent, current), onDisk) == step + GitignoresOf(rest, onDisk);
      ConcatAssoc(found, step, GitignoresOf(rest, onDisk));
      if gitignore in onDisk {
        found := found + [gitignore];
      } else {
        ConcatEmpty(found);
      }
      if current == parentDir {
        ConcatEmpty(found);
        return;
      }
      current := parentDir;
    }
  }

  lemma GitignoresOfCons(d: string, rest: seq<string>, onDisk: set<string>)
    ensures var g := Join(d, GITIGNORE);
      GitignoresOf([d] + rest, onDisk) == (if g in onDisk then [g] else []) + GitignoresOf(rest, onDisk)
  {
    assert ([d] + rest)[0] == d && ([d] + rest)[1..] == rest;
  }

  // ---------------------------------------------------------------------------
  // Patterns from the gitignore files

  /** lodash `flatten` of an array of arrays: one level of concatenation. */
  function Flatten(groups: seq<seq<string>>): (r: seq<string>)
    ensures |groups| == 1 ==> r == groups[0]
  {
    if groups == [] then [] else groups[0] + Flatten(groups[1..])
  }

  lemma {:induction false} FlattenAppend(groups: seq<seq<string>>, g: seq<string>)
    ensures Flatten(groups + [g]) == Flatten(groups) + g
  {
    if groups == [] {
      assert groups + [g] == [g];
    } else {
      assert (groups + [g])[1..] == groups[1..] + [g];
      FlattenAppend(groups[1..], g);
    }
  }

  /** `gitignoreGlobs`: the patterns of every file, file by file; `toGlob` stands for the gitignore-to-glob converter. */
  function GitignoreGlobs(files: seq<string>, toGlob: string -> seq<string>): (r: seq<string>)
    ensures |files| == 1 ==> r == toGlob(files[0])
  {
    Flatten(seq(|files|, i requires 0 <= i < |files| => toGlob(files[i])))
  }

  /** The patterns come file by file, in the order of the files: one more file appends its patterns. */
  lemma GitignoreGlobsAppend(files: seq<string>, f: string, toGlob: string -> seq<string>)
    ensures GitignoreGlobs(files + [f], toGlob) == GitignoreGlobs(files, toGlob) + toGlob(f)
  {
    var gs := seq(|files|, i requires 0 <= i < |files| => toGlob(files[i]));
    assert seq(|files + [f]|, i requires 0 <= i < |files + [f]| => toGlob((files + [f])[i])) == gs + [toGlob(f)];
    FlattenAppend(gs, toGlob(f));
  }

  // ---------------------------------------------------------------------------
  // Exclude settings

  /** A settings object: its keys in insertion order with their values; a JavaScript object has no repeated key. */
  type Record = seq<(string, Value)>

  predicate DistinctKeys(rec: Record) {
    forall i, j :: 0 <= i < j < |rec| ==> rec[i].0 != rec[j].0
  }

  function Lookup(rec: Record, key: string): Option<Value> {
    if rec == [] then None else if rec[0].0 == key then Some(rec[0].1) else Lookup(rec[1..], key)
  }

  /** `target[key] = value`: overwritten in place if present, appended otherwise. */
  function SetKey(target: Record, key: string, value: Value): (r: Record)
    ensures forall k :: Lookup(r, k) == if k == key then Some(value) else Lookup(target, k)
    ensures DistinctKeys(target) ==> DistinctKeys(r)
    ensures forall i :: 0 <= i < |r| ==> r[i].0 == key || exists j :: 0 <= j < |target| && target[j].0 == r[i].0
  {
    if target == [] then [(key, value)]
    else if target[0].0 == key then [(key, value)] + target[1..]
    else
      var rest := SetKey(target[1..], key, value);
      assert forall i :: 0 <= i < |rest| && rest[i].0 != key ==> exists j :: 0 <= j < |target| && target[j].0 == rest[i].0 by {
        forall i | 0 <= i < |rest| && rest[i].0 != key ensures exists j :: 0 <= j < |target| && target[j].0 == rest[i].0 {
          var j :| 0 <= j < |target[1..]| && target[1..][j].0 == rest[i].0;
          assert target[j + 1] == target[1..][j];
        }
      }
      [target[0]] + rest
  }

  /** `Object.assign(target, source)`: the source's entries set one by one, so the source wins on a shared key. */
  function Assign(target: Record, source: Record): (r: Record)
    ensures DistinctKeys(target) ==> DistinctKeys(r)
    decreases |source|
  {
    if source == [] then target else Assign(SetKey(target, source[0].0, source[0].1), source[1..])
  }

  lemma {:induction false} LookupAssign(target: Record, source: Record, k: string)
    requires DistinctKeys(source)
    ensures Lookup(Assign(target, source), k) == if Lookup(source, k).Some? then Lookup(source, k) else Lookup(target, k)
    decreases |source|
  {
    if source != [] {
      LookupAssign(SetKey(target, source[0].0, source[0].1), source[1..], k);
      if source[0].0 == k {
        assert Lookup(source[1..], k).None? by { LookupAbsent(source[1..], k); }
      }
    }
  }

  lemma {:induction false} LookupAbsent(rec: Record, k: string)
    requires forall i :: 0 <= i < |rec| ==> rec[i].0 != k
    ensures Lookup(rec, k).None?
  {
    if rec != [] { LookupAbsent(rec[1..], k); }
  }

  /** `Object.keys(rec).filter(key => rec[key] === true)`. */
  function TrueKeys(rec: Record): seq<string> {
    if rec == [] then []
    else (if rec[0].1 == Bool(true) then [rec[0].0] else []) + TrueKeys(rec[1..])
  }

  lemma {:induction false} TrueKeysExact(rec: Record, k: string)
    requires DistinctKeys(rec)
    ensures k in TrueKeys(rec) <==> Lookup(rec, k) == Some(Bool(true))
    ensures NoDuplicates(TrueKeys(rec))
  {
    if rec != [] {
      TrueKeysExact(rec[1..], k);
      TrueKeysSubset(rec[1..]);
      if rec[0].0 == k {
        LookupAbsent(rec[1..], k);
        TrueKeysExact(rec[1..], k);
      }
      var head := if rec[0].1 == Bool(true) then [rec[0].0] else [];
      var tail := TrueKeys(rec[1..]);
      assert rec[0].0 !in tail;
      assert TrueKeys(rec) == head + tail;
      forall a, b | 0 <= a < b < |head + tail| ensures (head + tail)[a] != (head + tail)[b] {
        if a >= |head| { assert (head + tail)[a] == tail[a - |head|] && (head + tail)[b] == tail[b - |head|]; }
        else { assert (head + tail)[b] in tail; }
      }
    }
  }

  lemma {:induction false} TrueKeysSubset(rec: Record)
    ensures forall k :: k in TrueKeys(rec) ==> exists j :: 0 <= j < |rec| && rec[j].0 == k
  {
    if rec != [] {
      TrueKeysSubset(rec[1..]);
      forall k | k in TrueKeys(rec) ensures exists j :: 0 <= j < |rec| && rec[j].0 == k {
        if k != rec[0].0 {
          assert k in TrueKeys(rec[1..]);
          var j :| 0 <= j < |rec[1..]| && rec[1..][j].0 == k;
          assert rec[j + 1].0 == k;
        }
      }
    }
  }

  /**
   * `configIgnoredGlobs`: `Object.assign([], nuovoExclude, filesExclude)`, then
   * the keys whose value is `true`. `nuovoExclude` is the `nuovoFile.exclude`
   * setting and `filesExclude` the root-scoped `files.exclude` setting.
   */
  function ConfigIgnoredGlobs(nuovoExclude: Record, filesExclude: Record): seq<string> {
    TrueKeys(Assign(Assign([], nuovoExclude), filesExclude))
  }

  /**
   * A key is ignored exactly when its merged value is `true`, a `files.exclude`
   * entry overriding the `nuovoFile.exclude` entry of the same key; no key is
   * listed twice.
   */
  lemma ConfigIgnoredGlobsExact(nuovoExclude: Record, filesExclude: Record, k: string)
    requires DistinctKeys(nuovoExclude) && DistinctKeys(filesExclude)
    ensures k in ConfigIgnoredGlobs(nuovoExclude, filesExclude) <==>
      if Lookup(filesExclude, k).Some? then Lookup(filesExclude, k) == Some(Bool(true))
      else Lookup(nuovoExclude, k) == Some(Bool(true))
    ensures NoDuplicates(ConfigIgnoredGlobs(nuovoExclude, filesExclude))
  {
    LookupAssign([], nuovoExclude, k);
    LookupAssign(Assign([], nuovoExclude), filesExclude, k);
    assert DistinctKeys(Assign([], nuovoExclude));
    TrueKeysExact(Assign(Assign([], nuovoExclude), filesExclude), k);
  }

  // ---------------------------------------------------------------------------
  // The assembled list (src/extension.ts:75-80)

  /** The normalised gitignore patterns, in order, followed by the settings' patterns. */
  function AssembleIgnore(gitignorePatterns: seq<string>, configPatterns: seq<string>): (ignore: seq<string>)
    ensures |ignore| == |gitignorePatterns| + |configPatterns|
    ensures forall i :: 0 <= i < |gitignorePatterns| ==> ignore[i] == NormalizeGitignoreGlob(gitignorePatterns[i])
    ensures ignore[|gitignorePatterns|..] == configPatterns
  {
    seq(|gitignorePatterns|, i requires 0 <= i < |gitignorePatterns| => NormalizeGitignoreGlob(gitignorePatterns[i]))
      + configPatterns
  }

  /** The ignore list of one root: walk, convert, normalise, then append the settings' patterns. */
  method IgnoreGlobs(root: string, onDisk: set<string>, toGlob: string -> seq<string>,
                     nuovoExclude: Record, filesExclude: Record) returns (ignore: seq<string>)
    ensures ignore == AssembleIgnore(GitignoreGlobs(GitignoresOf(Visited(Parent, root), onDisk), toGlob),
                                     ConfigIgnoredGlobs(nuovoExclude, filesExclude))
  {
    var gitignoreFiles := WalkupGitignores(root, onDisk);
    var fromGitignores := GitignoreGlobs(gitignoreFiles, toGlob);
    ignore := AssembleIgnore(fromGitignores, ConfigIgnoredGlobs(nuovoExclude, filesExclude));
  }
}
