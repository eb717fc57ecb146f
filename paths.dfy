/**
 * Paths as sequences of name components relative to the scan root, standing in for
 * the strings `node:path` joins and splits. The empty sequence is the root, ".".
 */
module Paths {

  type Path = seq<string>

  /** `dirname(p)` */
  function Parent(p: Path): Path
    requires p != []
  {
    p[..|p| - 1]
  }

  /** `basename(p)` */
  function BaseName(p: Path): string
    requires p != []
  {
    p[|p| - 1]
  }

  /** `join(dir, name)`: an empty name contributes no component, leaving `dir` itself. */
  function Join(dir: Path, name: string): Path {
    if name == "" then dir else dir + [name]
  }

  /** A child path splits back into its directory and its name. */
  lemma ChildPath(dir: Path, name: string)
    ensures Parent(dir + [name]) == dir && BaseName(dir + [name]) == name
  {
    assert (dir + [name])[..|dir|] == dir;
  }

  /** `a` names a directory strictly above `b`. */
  predicate IsAncestor(a: Path, b: Path) {
    |a| < |b| && a == b[..|a|]
  }

  /** A path strictly below a child of `dir` is strictly below `dir` too. */
  lemma AncestorOfChild(dir: Path, name: string, p: Path)
    requires IsAncestor(dir + [name], p)
    ensures IsAncestor(dir, p)
  {
    assert p[..|dir|] == p[..|dir| + 1][..|dir|];
    assert (dir + [name])[..|dir|] == dir;
  }
}
