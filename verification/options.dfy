/**
 * The directory options the quick pick offers: one per workspace root, one per
 * scanned sub-directory, and one for the directory of the file being edited
 * (`rootOptions`, `subdirOptionsForRoot`, `currentEditorPathOption`), the
 * quick-pick items built from them, and the way a chosen option is traced
 * back to its root (`rootForDir`).
 */
module DirectoryOptions {
  import opened Wrappers
  import opened Paths
  import opened Types

  /** An entry of the quick pick; `labelText` is its `label` (a reserved word here) and `option` the directory it stands for. */
  datatype QuickPickItem = QuickPickItem(labelText: string, description: Option<string>, option: DirectoryOption)

  /** `buildQuickPickItem`: no item without an option; otherwise the option labelled with its display text. */
  function BuildQuickPickItem(o: Option<DirectoryOption>, description: Option<string>): (r: Option<QuickPickItem>)
    ensures r.Some? <==> o.Some?
    ensures r.Some? ==> r.value.option == o.value && r.value.labelText == o.value.displayText
    ensures r.Some? ==> r.value.description == description
  {
    match o
    case None => None
    case Some(opt) => Some(QuickPickItem(opt.displayText, description, opt))
  }

  /**
   * `path.join(path.sep, root.baseName, relative)` when several roots are
   * open, so the root's name leads; the relative path alone otherwise.
   */
  function DisplayText(root: WorkspaceRoot, relative: string): (text: string)
    ensures !root.multi ==> text == relative
    ensures root.multi ==> DropTrailingSep(Join(SEP_STRING, root.baseName)) + SEP_STRING <= text
  {
    if root.multi then Join(Join(SEP_STRING, root.baseName), relative) else relative
  }

  /**
   * The display rule every option follows: with several roots open the text
   * starts with "/" and the root's name; with one root it is the relative path.
   */
  predicate ShowsRoot(root: WorkspaceRoot, o: DirectoryOption) {
    if root.multi then DropTrailingSep(Join(SEP_STRING, root.baseName)) <= o.displayText
    else o.displayText == o.fsLocation.relative
  }

  lemma PrefixOfPrefix(a: string, b: string, s: string)
    requires a + b <= s
    ensures a <= s
  {
    assert s[..|a|] == (a + b)[..|a|] == a;
  }

  lemma DisplayTextShowsRoot(root: WorkspaceRoot, loc: FSLocation)
    ensures ShowsRoot(root, DirectoryOption(DisplayText(root, loc.relative), loc))
  {
    var text := DisplayText(root, loc.relative);
    if root.multi {
      PrefixOfPrefix(DropTrailingSep(Join(SEP_STRING, root.baseName)), SEP_STRING, text);
    }
  }

  /** Sample display texts for a root named "web" holding "/src". */
  lemma DisplayTextExamples()
    ensures DisplayText(WorkspaceRoot("/home/u/web", "web", true), "/src") == "/web/src"
    ensures DisplayText(WorkspaceRoot("/home/u/web", "web", false), "/src") == "/src"
  {
    assert Join(SEP_STRING, "web") == "/web";
    assert DropTrailingSep("/web") == "/web";
    assert DropLeadingSep("/src") == "src";
  }

  /**
   * The locations of the directories a scan of `root` found (src/extension.ts:88-93):
   * each match joined to "/" for the relative path and to the root for the absolute one.
   */
  function LocationsOf(root: string, matches: seq<string>): (locs: seq<FSLocation>)
    ensures |locs| == |matches|
  {
    seq(|matches|, i requires 0 <= i < |matches| =>
      FSLocation(Join(SEP_STRING, matches[i]), Join(root, matches[i])))
  }

  /** Every scanned location's absolute path is its root joined with its relative path. */
  lemma LocationsAgree(root: string, matches: seq<string>)
    ensures forall loc :: loc in LocationsOf(root, matches) ==> Join(root, loc.relative) == loc.absolute
  {
    forall loc | loc in LocationsOf(root, matches) ensures Join(root, loc.relative) == loc.absolute {
      var i :| 0 <= i < |matches| && LocationsOf(root, matches)[i] == loc;
      var f := matches[i];
      assert DropLeadingSep(Join(SEP_STRING, f)) == DropLeadingSep(f);
    }
  }

  /** `subdirOptionsForRoot` over the directories a scan of the root found, in scan order. */
  function SubdirOptionsForRoot(root: WorkspaceRoot, matches: seq<string>): (opts: seq<DirectoryOption>)
    ensures |opts| == |matches|
    ensures forall i :: 0 <= i < |opts| ==> opts[i].fsLocation == LocationsOf(root.rootPath, matches)[i]
  {
    var locs := LocationsOf(root.rootPath, matches);
    seq(|locs|, i requires 0 <= i < |locs| => DirectoryOption(DisplayText(root, locs[i].relative), locs[i]))
  }

  /** Sub-directory options follow the display rule and lie under their root. */
  lemma SubdirOptionsShowRoot(root: WorkspaceRoot, matches: seq<string>)
    ensures forall o :: o in SubdirOptionsForRoot(root, matches) ==>
      ShowsRoot(root, o) && Join(root.rootPath, o.fsLocation.relative) == o.fsLocation.absolute
  {
    LocationsAgree(root.rootPath, matches);
    var opts := SubdirOptionsForRoot(root, matches);
    forall o | o in opts
      ensures ShowsRoot(root, o) && Join(root.rootPath, o.fsLocation.relative) == o.fsLocation.absolute
    {
      var i :| 0 <= i < |opts| && opts[i] == o;
      assert o.fsLocation in LocationsOf(root.rootPath, matches);
      DisplayTextShowsRoot(root, o.fsLocation);
    }
  }

  /** `rootOptions`: one option per root, for the root directory itself. */
  function RootOptions(roots: seq<WorkspaceRoot>): (opts: seq<DirectoryOption>)
    ensures |opts| == |roots|
    ensures forall i :: 0 <= i < |roots| ==> opts[i].fsLocation == FSLocation(SEP_STRING, roots[i].rootPath)
  {
    seq(|roots|, i requires 0 <= i < |roots| =>
      DirectoryOption(
        if roots[i].multi then Join(SEP_STRING, roots[i].baseName) else SEP_STRING,
        FSLocation(SEP_STRING, roots[i].rootPath)))
  }

  /** Root options follow the same display rule as every other option. */
  lemma RootOptionsShowRoot(roots: seq<WorkspaceRoot>)
    ensures forall i :: 0 <= i < |roots| ==> ShowsRoot(roots[i], RootOptions(roots)[i])
  {
    forall i | 0 <= i < |roots| ensures ShowsRoot(roots[i], RootOptions(roots)[i]) {
      var j := Join(SEP_STRING, roots[i].baseName);
      assert j == DropTrailingSep(j) || j == DropTrailingSep(j) + SEP_STRING;
    }
  }

  /**
   * The index of the first root whose path is a prefix of `p` (the test both
   * `startsWith(p, rootPath)` and `p.indexOf(rootPath) === 0` make), or -1.
   */
  function FirstRootOf(roots: seq<WorkspaceRoot>, p: string): (i: int)
    ensures -1 <= i < |roots|
    ensures i == -1 <==> forall j :: 0 <= j < |roots| ==> !(roots[j].rootPath <= p)
    ensures 0 <= i ==> roots[i].rootPath <= p && forall j :: 0 <= j < i ==> !(roots[j].rootPath <= p)
  {
    if |roots| == 0 then -1
    else if roots[0].rootPath <= p then 0
    else
      var k := FirstRootOf(roots[1..], p);
      if k == -1 then -1 else k + 1
  }

  /** `rootForDir`: the first root the option's absolute path lies under, if any. */
  function RootForDir(roots: seq<WorkspaceRoot>, dir: DirectoryOption): (r: Option<WorkspaceRoot>)
    ensures r.None? <==> forall j :: 0 <= j < |roots| ==> !(roots[j].rootPath <= dir.fsLocation.absolute)
    ensures r.Some? ==> exists i :: 0 <= i < |roots| && roots[i] == r.value
                          && r.value.rootPath <= dir.fsLocation.absolute
                          && forall j :: 0 <= j < i ==> !(roots[j].rootPath <= dir.fsLocation.absolute)
  {
    var i := FirstRootOf(roots, dir.fsLocation.absolute);
    if i < 0 then None else Some(roots[i])
  }

  /**
   * A root option traces back to its own root, or to an earlier root whose
   * path is a prefix of it.
   */
  lemma RootOptionFindsRoot(roots: seq<WorkspaceRoot>, i: nat)
    requires i < |roots|
    ensures var k := FirstRootOf(roots, RootOptions(roots)[i].fsLocation.absolute);
      0 <= k <= i && roots[k].rootPath <= roots[i].rootPath
    ensures RootForDir(roots, RootOptions(roots)[i]).Some?
  {
    assert roots[i].rootPath <= RootOptions(roots)[i].fsLocation.absolute;
  }

  /**
   * `currentEditorPathOption` for the directory of the active editor's file
   * (None when no editor is open): the option for that directory under the
   * first root containing it.
   */
  function CurrentEditorPathOption(roots: seq<WorkspaceRoot>, current: Option<string>): (r: Option<DirectoryOption>)
    ensures r.None? <==> current.None? || current.value == "" || FirstRootOf(roots, current.value) == -1
    ensures r.Some? ==>
      var root := roots[FirstRootOf(roots, current.value)];
      && r.value.fsLocation.absolute == current.value
      && if current.value == root.rootPath then r.value.fsLocation.relative == SEP_STRING
         else root.rootPath + r.value.fsLocation.relative == current.value
  {
    if current.None? || current.value == "" then None
    else
      var dir := current.value;
      var i := FirstRootOf(roots, dir);
      if i < 0 then None
      else
        var root := roots[i];
        var stripped := dir[|root.rootPath|..];
        var relative := if stripped == "" then SEP_STRING else stripped;
        Some(DirectoryOption(DisplayText(root, relative), FSLocation(relative, dir)))
  }

  /**
   * The current-file option follows the display rule, and choosing it records
   * the root it was built from.
   */
  lemma CurrentOptionShowsRoot(roots: seq<WorkspaceRoot>, current: Option<string>)
    requires CurrentEditorPathOption(roots, current).Some?
    ensures var o := CurrentEditorPathOption(roots, current).value;
      var root := roots[FirstRootOf(roots, current.value)];
      ShowsRoot(root, o) && RootForDir(roots, o) == Some(root)
  {
    var o := CurrentEditorPathOption(roots, current).value;
    DisplayTextShowsRoot(roots[FirstRootOf(roots, current.value)], o.fsLocation);
  }
}
