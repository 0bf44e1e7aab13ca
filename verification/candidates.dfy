/**
 * The list the quick pick shows (`convenienceOptions` and `dirQuickPickItems`,
 * src/extension.ts:96-122, 335-347): the configured convenience entries, then
 * the scanned sub-directories.
 *
 * Both combine their groups with `reduce(flatten)`. lodash's `flatten` takes a
 * single array, so as a reducer it returns its accumulator flattened one level
 * and ignores the group passed next; the accumulator's elements are items,
 * never arrays, so each step returns the accumulator unchanged. The result is
 * the FIRST group alone, and `reduce` without a seed throws a TypeError on an
 * empty list. This is the behaviour modelled here.
 */
module Candidates {
  import opened Wrappers
  import opened Types
  import opened Paths
  import opened Json
  import opened ExpiringCache
  import opened Selection
  import opened DirectoryOptions

  /**
   * An entry of the `convenienceOptions` setting. `Other` is any other entry:
   * `optionsByName[c]` is then undefined, which the reduction turns into no
   * items when it comes first (`flatten(undefined)` and `compact(undefined)`
   * are both empty) and ignores anywhere else.
   */
  datatype ConvenienceKind = Last | Current | Root | Other

  const LAST_DESCRIPTION: string := "- last selection"
  const CURRENT_DESCRIPTION: string := "- current file"
  const ROOT_DESCRIPTION: string := "- workspace root"

  /** `flatten(acc, cur)` called by `reduce`: only `acc` is read. */
  function FlattenFirstArgument<T>(acc: seq<T>, cur: seq<T>): seq<T> {
    acc
  }

  /** The steps of `reduce(flatten)` after its first group. */
  function FoldFlatten<T>(acc: seq<T>, rest: seq<seq<T>>): seq<T>
    decreases |rest|
  {
    if rest == [] then acc else FoldFlatten(FlattenFirstArgument(acc, rest[0]), rest[1..])
  }

  /** `groups.reduce(flatten)`: no seed, so the first group starts the fold. */
  function ReduceFlatten<T>(groups: seq<seq<T>>): (r: Result<seq<T>>)
    ensures r.TypeError? <==> groups == []
  {
    if groups == [] then TypeError else Ok(FoldFlatten(groups[0], groups[1..]))
  }

  lemma {:induction false} FoldKeepsAccumulator<T>(acc: seq<T>, rest: seq<seq<T>>)
    ensures FoldFlatten(acc, rest) == acc
    decreases |rest|
  {
    if rest != [] {
      FoldKeepsAccumulator(FlattenFirstArgument(acc, rest[0]), rest[1..]);
    }
  }

  /** `reduce(flatten)` throws on no groups and otherwise yields the first group alone. */
  lemma ReduceFlattenKeepsFirstGroup<T>(groups: seq<seq<T>>)
    ensures ReduceFlatten(groups).TypeError? <==> groups == []
    ensures groups != [] ==> ReduceFlatten(groups) == Ok(groups[0])
  {
    if groups != [] {
      FoldKeepsAccumulator(groups[0], groups[1..]);
    }
  }

  /** Later groups are dropped, not appended. */
  lemma ReduceFlattenDropsLaterGroups<T>(a: seq<T>, b: seq<T>)
    requires b != []
    ensures ReduceFlatten([a, b]) != Ok(a + b)
  {
    ReduceFlattenKeepsFirstGroup([a, b]);
    assert |a + b| > |a|;
  }

  /** `x ? [x] : []` */
  function ListOf<T>(x: Option<T>): seq<T> {
    if x.Some? then [x.value] else []
  }

  /**
   * The "last" option as `lastSelection` reads it from `cache` at time `now`,
   * when it holds a stored directory option.
   */
  function StoredLast(cache: map<string, Entry>, now: int): Option<DirectoryOption> {
    if LAST_KEY in cache && Live(cache[LAST_KEY], now) && IsObject(cache[LAST_KEY].value)
    then DecodeOption(cache[LAST_KEY].value)
    else None
  }

  /** The items `optionsByName[kind]` holds: one per root for `Root`, at most one otherwise. */
  function ConvenienceGroup(kind: ConvenienceKind, last: Option<DirectoryOption>, currentDir: Option<string>,
                            roots: seq<WorkspaceRoot>): (items: seq<QuickPickItem>)
    ensures kind.Root? ==> |items| == |roots|
    ensures !kind.Root? ==> |items| <= 1
    ensures kind.Other? ==> items == []
  {
    match kind
    case Last => ListOf(BuildQuickPickItem(last, Some(LAST_DESCRIPTION)))
    case Current => ListOf(BuildQuickPickItem(CurrentEditorPathOption(roots, currentDir), Some(CURRENT_DESCRIPTION)))
    case Root =>
      var opts := RootOptions(roots);
      seq(|opts|, i requires 0 <= i < |opts| => QuickPickItem(opts[i].displayText, Some(ROOT_DESCRIPTION), opts[i]))
    case Other => []
  }

  /**
   * `convenienceOptions` once the last selection is known. A missing setting
   * is the empty list (`?? []`). `compact` has nothing to remove: every group
   * holds items only.
   */
  function ConvenienceItems(config: Option<seq<ConvenienceKind>>, last: Option<DirectoryOption>,
                            currentDir: Option<string>, roots: seq<WorkspaceRoot>): (r: Result<seq<QuickPickItem>>)
    ensures r.TypeError? <==> config.None? || config.value == []
  {
    var kinds := if config.Some? then config.value else [];
    ReduceFlatten(seq(|kinds|, i requires 0 <= i < |kinds| => ConvenienceGroup(kinds[i], last, currentDir, roots)))
  }

  /**
   * Only the first configured kind contributes; an absent or empty setting
   * throws. What each kind contributes: the last selection and the current
   * file at most once each, with their descriptions, and one item per root.
   */
  lemma ConvenienceFirstKindOnly(config: Option<seq<ConvenienceKind>>, last: Option<DirectoryOption>,
                                 currentDir: Option<string>, roots: seq<WorkspaceRoot>)
    ensures var r := ConvenienceItems(config, last, currentDir, roots);
      && (r.TypeError? <==> config.None? || config.value == [])
      && (r.Ok? ==> r.value == ConvenienceGroup(config.value[0], last, currentDir, roots))
    ensures ConvenienceGroup(Last, last, currentDir, roots)
      == if last.Some? then [QuickPickItem(last.value.displayText, Some(LAST_DESCRIPTION), last.value)] else []
    ensures var cur := CurrentEditorPathOption(roots, currentDir);
      ConvenienceGroup(Current, last, currentDir, roots)
      == if cur.Some? then [QuickPickItem(cur.value.displayText, Some(CURRENT_DESCRIPTION), cur.value)] else []
    ensures var items := ConvenienceGroup(Root, last, currentDir, roots);
      && |items| == |roots|
      && forall i :: 0 <= i < |roots| ==>
           items[i].option == RootOptions(roots)[i] && items[i].description == Some(ROOT_DESCRIPTION)
  {
    var kinds := if config.Some? then config.value else [];
    ReduceFlattenKeepsFirstGroup(seq(|kinds|, i requires 0 <= i < |kinds| => ConvenienceGroup(kinds[i], last, currentDir, roots)));
  }

  /**
   * `convenienceOptions(roots, cache)`: reads the last selection (which may
   * forget a "last" value that is not an object) and builds the configured items.
   */
  method ConvenienceOptions(c: Cache, config: Option<seq<ConvenienceKind>>, currentDir: Option<string>,
                            roots: seq<WorkspaceRoot>, now: int)
    returns (r: Result<seq<QuickPickItem>>)
    requires c.Valid()
    modifies c
    ensures c.Valid()
    ensures r == ConvenienceItems(config, StoredLast(old(c.cache), now), currentDir, roots)
    ensures if old(c.Has(LAST_KEY, now)) && !IsObject(old(c.cache)[LAST_KEY].value)
            then c.cache == old(c.cache) - {LAST_KEY} && c.persisted == Some(c.cache)
            else c.cache == old(c.cache) && c.persisted == old(c.persisted)
  {
    var lastValue := LastSelection(c, now);
    var last := if lastValue.Some? then DecodeOption(lastValue.value) else None;
    r := ConvenienceItems(config, last, currentDir, roots);
  }

  /** The items `buildQuickPickItem(o)` makes for scanned directories: no description. */
  function PlainItems(opts: seq<DirectoryOption>): (items: seq<QuickPickItem>)
    ensures |items| == |opts|
    ensures forall i :: 0 <= i < |opts| ==> items[i].option == opts[i] && items[i].description == None
  {
    seq(|opts|, i requires 0 <= i < |opts| => BuildQuickPickItem(Some(opts[i]), None).value)
  }

  /**
   * What `dirQuickPickItems` returns, given the convenience items: a TypeError
   * when there are no roots, else the convenience items followed by the
   * scanned directories of the roots combined by `reduce(flatten)`.
   * `scan(rootPath)` is the list of directories the glob walker finds.
   */
  function PickItems(roots: seq<WorkspaceRoot>, scan: string -> seq<string>,
                     convenience: Result<seq<QuickPickItem>>): (r: Result<seq<QuickPickItem>>)
    ensures r.Ok? <==> |roots| > 0 && convenience.Ok?
    ensures r.Ok? ==> convenience.value <= r.value
  {
    var dirOptions := seq(|roots|, i requires 0 <= i < |roots| => SubdirOptionsForRoot(roots[i], scan(roots[i].rootPath)));
    match ReduceFlatten(dirOptions)
    case TypeError => TypeError
    case Ok(opts) =>
      match convenience
      case TypeError => TypeError
      case Ok(conv) => Ok(conv + PlainItems(opts))
  }

  /** Items made from a root's scanned directories, after any prefix, lie under that root and follow the display rule. */
  lemma ScannedItemsUnderRoot(root: WorkspaceRoot, matches: seq<string>, conv: seq<QuickPickItem>)
    ensures var items := conv + PlainItems(SubdirOptionsForRoot(root, matches));
      forall i :: |conv| <= i < |items| ==>
        Join(root.rootPath, items[i].option.fsLocation.relative) == items[i].option.fsLocation.absolute
        && ShowsRoot(root, items[i].option)
  {
    var opts := SubdirOptionsForRoot(root, matches);
    var items := conv + PlainItems(opts);
    SubdirOptionsShowRoot(root, matches);
    forall i | |conv| <= i < |items|
      ensures Join(root.rootPath, items[i].option.fsLocation.relative) == items[i].option.fsLocation.absolute
      ensures ShowsRoot(root, items[i].option)
    {
      assert items[i].option == opts[i - |conv|];
      assert opts[i - |conv|] in opts;
    }
  }

  /**
   * The convenience items lead, and only the FIRST root's directories follow,
   * each lying under that root; the other roots' directories are missing.
   */
  lemma PickItemsFirstRootOnly(roots: seq<WorkspaceRoot>, scan: string -> seq<string>,
                               convenience: Result<seq<QuickPickItem>>)
    ensures var r := PickItems(roots, scan, convenience);
      r.Ok? <==> |roots| > 0 && convenience.Ok?
    ensures var r := PickItems(roots, scan, convenience);
      r.Ok? ==>
        var n := |convenience.value|;
        && r.value == convenience.value + PlainItems(SubdirOptionsForRoot(roots[0], scan(roots[0].rootPath)))
        && |r.value| == n + |scan(roots[0].rootPath)|
        && forall i :: n <= i < |r.value| ==>
             Join(roots[0].rootPath, r.value[i].option.fsLocation.relative) == r.value[i].option.fsLocation.absolute
             && ShowsRoot(roots[0], r.value[i].option)
  {
    var dirOptions := seq(|roots|, i requires 0 <= i < |roots| => SubdirOptionsForRoot(roots[i], scan(roots[i].rootPath)));
    ReduceFlattenKeepsFirstGroup(dirOptions);
    if |roots| > 0 && convenience.Ok? {
      ScannedItemsUnderRoot(roots[0], scan(roots[0].rootPath), convenience.value);
    }
  }

  /**
   * `dirQuickPickItems(roots, cache)`. With no roots `reduce` throws before
   * the convenience items are built, so the cache is left alone.
   */
  method DirQuickPickItems(c: Cache, roots: seq<WorkspaceRoot>, scan: string -> seq<string>,
                           config: Option<seq<ConvenienceKind>>, currentDir: Option<string>, now: int)
    returns (r: Result<seq<QuickPickItem>>)
    requires c.Valid()
    modifies c
    ensures c.Valid()
    ensures |roots| == 0 ==> r == TypeError && c.cache == old(c.cache) && c.persisted == old(c.persisted)
    ensures |roots| > 0 ==>
      r == PickItems(roots, scan, ConvenienceItems(config, StoredLast(old(c.cache), now), currentDir, roots))
    ensures |roots| > 0 ==>
      if old(c.Has(LAST_KEY, now)) && !IsObject(old(c.cache)[LAST_KEY].value)
      then c.cache == old(c.cache) - {LAST_KEY} && c.persisted == Some(c.cache)
      else c.cache == old(c.cache) && c.persisted == old(c.persisted)
  {
    var dirOptions := seq(|roots|, i requires 0 <= i < |roots| => SubdirOptionsForRoot(roots[i], scan(roots[i].rootPath)));
    var reduced := ReduceFlatten(dirOptions);
    if reduced.TypeError? {
      return TypeError;
    }
    var quickPickItems := PlainItems(reduced.value);
    var convenience := ConvenienceOptions(c, config, currentDir, roots, now);
    if convenience.TypeError? {
      return TypeError;
    }
    quickPickItems := convenience.value + quickPickItems;
    r := Ok(quickPickItems);
  }
}
