/**
 * POSIX paths as strings whose separator is '/'. `Join` is Node's `path.join`
 * for two arguments whose only redundant separators sit at the junction;
 * `Parent` is `path.resolve(p, '..')` for absolute paths.
 */
module Paths {
  import opened Wrappers

  const SEP: char := '/'
  const SEP_STRING: string := [SEP]

  /** `s` without one trailing separator, if it has one. */
  function DropTrailingSep(s: string): (r: string)
    ensures s == r || s == r + SEP_STRING
  {
    if |s| > 0 && s[|s| - 1] == SEP then s[..|s| - 1] else s
  }

  /** `s` without one leading separator, if it has one. */
  function DropLeadingSep(s: string): (r: string)
    ensures s == r || s == SEP_STRING + r
  {
    if |s| > 0 && s[0] == SEP then s[1..] else s
  }

  /** `path.join(a, b)`: the two parts with a single separator between them. */
  function Join(a: string, b: string): (r: string)
    ensures DropTrailingSep(a) + SEP_STRING <= r
    ensures (|a| == 0 || a[|a| - 1] != SEP) && (|b| == 0 || b[0] != SEP) ==> r == a + SEP_STRING + b
    ensures |a| + |b| - 1 <= |r| <= |a| + |b| + 1
  {
    DropTrailingSep(a) + SEP_STRING + DropLeadingSep(b)
  }

  /** A path that ends in a separator names a folder to create (src/extension.ts:27-29). */
  predicate IsFolderDescriptor(p: string) {
    // charAt(-1) of the empty string is '', which is not the separator
    |p| > 0 && p[|p| - 1] == SEP
  }

  /** Exactly the paths made by appending a separator are folder descriptors. */
  lemma FolderDescriptorIsTrailingSep(s: string, c: char)
    ensures IsFolderDescriptor(s + [c]) <==> c == SEP
    ensures IsFolderDescriptor(s) <==> exists t :: s == t + SEP_STRING
  {
    assert (s + [c])[|s + [c]| - 1] == c;
    if IsFolderDescriptor(s) {
      assert s == s[..|s| - 1] + SEP_STRING;
    }
  }

  /** The index of the last separator in `s`, if any. */
  function LastSep(s: string): (r: Option<nat>)
    ensures r.Some? ==> r.value < |s| && s[r.value] == SEP
  {
    if |s| == 0 then None
    else if s[|s| - 1] == SEP then Some(|s| - 1)
    else LastSep(s[..|s| - 1])
  }

  /**
   * `path.resolve(p, '..')`: `p` (without a trailing separator) cut before its
   * last separator. The file-system root "/" is its own parent; so is a path
   * with no separator at all (it is never absolute).
   */
  function Parent(p: string): (q: string)
    ensures q == p || |q| < |p|
  {
    var t := if |p| > 1 then DropTrailingSep(p) else p;
    match LastSep(t)
    case None => p
    case Some(i) =>
      if i == 0 then
        assert |p| == 1 ==> p == SEP_STRING;
        SEP_STRING
      else t[..i]
  }

  lemma RootIsOwnParent()
    ensures Parent(SEP_STRING) == SEP_STRING
  {
  }
}
