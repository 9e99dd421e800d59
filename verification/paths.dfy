/** The slice of `pathlib` the converter relies on: a path is an absolute
    flag and a list of components; `name`, `stem`, `suffix`, `parent`, the
    `/` operator with a single component, rendering with `str()`, and the
    ancestor/descendant relation that `mkdir(parents=True)` and
    a recursive glob walks. */
module Paths {
  import Text

  datatype Path = Path(absolute: bool, parts: seq<string>)

  /** `p.name`: the last component, or "" for the root or ".". */
  function Name(p: Path): string
  {
    if |p.parts| == 0 then "" else p.parts[|p.parts| - 1]
  }

  /** `p.parent`: drop the last component; the root and "." are their own parent. */
  function Parent(p: Path): (r: Path)
    ensures r.absolute == p.absolute
    ensures |p.parts| > 0 ==> |r.parts| + 1 == |p.parts| && Child(r, Name(p)) == p
    ensures |p.parts| == 0 ==> r == p
  {
    if |p.parts| == 0 then p else Path(p.absolute, p.parts[..|p.parts| - 1])
  }

  /** `dir / name` for a single component `name`. */
  function Child(dir: Path, name: string): (r: Path)
    ensures Name(r) == name
    ensures |r.parts| == |dir.parts| + 1
  {
    Path(dir.absolute, dir.parts + [name])
  }

  lemma ParentOfChild(dir: Path, name: string)
    ensures Parent(Child(dir, name)) == dir
  {
    assert (dir.parts + [name])[..|dir.parts|] == dir.parts;
  }

  /** `s.rfind(c)`: the last index holding `c`, or -1. */
  function RFind(s: string, c: char): (r: int)
    ensures -1 <= r < |s|
    ensures r >= 0 ==> s[r] == c
    ensures forall j :: r < j < |s| ==> s[j] != c
  {
    if |s| == 0 then -1
    else if s[|s| - 1] == c then |s| - 1
    else RFind(s[..|s| - 1], c)
  }

  /** pathlib's rule: the name has a suffix when its last dot is neither the
      first nor the last character. */
  predicate HasSuffix(name: string)
  {
    0 < RFind(name, '.') < |name| - 1
  }

  /** `PurePath.suffix` of a name: from the last dot on, or "". There is
      one exactly when the name has a dot after its first character and
      does not end in a dot. */
  function Suffix(name: string): (r: string)
    ensures r == "" || (|r| >= 2 && r[0] == '.' && forall j :: 1 <= j < |r| ==> r[j] != '.')
    ensures |r| < |name| || r == ""
    ensures r != "" <==> |name| > 0 && name[|name| - 1] != '.' && exists i :: 0 < i < |name| && name[i] == '.'
    ensures r != "" ==> name[|name| - |r|..] == r
  {
    if HasSuffix(name) then
      assert name[RFind(name, '.')] == '.';
      name[RFind(name, '.')..]
    else ""
  }

  /** `PurePath.stem` of a name: everything before the suffix. */
  function Stem(name: string): (r: string)
    ensures r + Suffix(name) == name
    ensures |name| > 0 ==> |r| > 0
  {
    if HasSuffix(name) then name[..RFind(name, '.')] else name
  }

  /** `str(p)` with "/" as separator. */
  function PathStr(p: Path): string
  {
    if p.absolute then "/" + Text.Join(p.parts, "/")
    else if |p.parts| == 0 then "."
    else Text.Join(p.parts, "/")
  }

  /** The path made of the first `i` components of `p`. */
  function Prefix(p: Path, i: nat): (r: Path)
    requires i <= |p.parts|
    ensures r.absolute == p.absolute && |r.parts| == i
  {
    Path(p.absolute, p.parts[..i])
  }

  /** Every proper ancestor of `p` (its parent, the parent's parent, ...). */
  function Ancestors(p: Path): (r: set<Path>)
    ensures forall i :: 0 <= i < |p.parts| ==> Prefix(p, i) in r
    ensures forall a :: a in r ==> |a.parts| < |p.parts| && IsUnder(a, p)
  {
    set i | 0 <= i < |p.parts| :: Prefix(p, i)
  }

  /** `q` lies strictly inside the tree rooted at `root`. */
  predicate IsUnder(root: Path, q: Path)
  {
    root.absolute == q.absolute && |root.parts| < |q.parts| && q.parts[..|root.parts|] == root.parts
  }

  /** The output of a file lands directly in its directory: a path's parent
      is one of its ancestors. */
  lemma ParentIsAncestor(p: Path)
    requires |p.parts| > 0
    ensures Parent(p) in Ancestors(p)
  {
    assert Parent(p) == Prefix(p, |p.parts| - 1);
  }
}
