/** Game paths: a location id plus a relative path, split into components. */
module GamePaths {

  type LocationId = string

  /** `GamePath`: the relative path is kept as its list of components; the empty list is the location root. */
  datatype GamePath = GamePath(location: LocationId, parts: seq<string>)

  /** `GetRootComponent`: the location root the path lives under. */
  function Root(p: GamePath): GamePath {
    GamePath(p.location, [])
  }

  predicate IsRoot(p: GamePath) {
    p.parts == []
  }

  /** `Parent`: drops the last component; the parent of a location root is the root itself. */
  function Parent(p: GamePath): (r: GamePath)
    ensures r.location == p.location
    ensures IsRoot(p) ==> r == p
    ensures !IsRoot(p) ==> IsProperAncestor(r, p) && |r.parts| + 1 == |p.parts|
  {
    if |p.parts| == 0 then p else GamePath(p.location, p.parts[..|p.parts| - 1])
  }

  /** `a` is a directory strictly above `d` within the same location. */
  predicate IsProperAncestor(a: GamePath, d: GamePath) {
    a.location == d.location && |a.parts| < |d.parts| && a.parts == d.parts[..|a.parts|]
  }

  predicate IsAncestorOrSelf(a: GamePath, d: GamePath) {
    a.location == d.location && |a.parts| <= |d.parts| && a.parts == d.parts[..|a.parts|]
  }

  /** The last component of the path, or the empty string for a root. */
  function FileName(p: GamePath): string {
    if |p.parts| == 0 then "" else p.parts[|p.parts| - 1]
  }

  lemma AncestorTransitive(a: GamePath, b: GamePath, c: GamePath)
    requires IsAncestorOrSelf(a, b) && IsAncestorOrSelf(b, c)
    ensures IsAncestorOrSelf(a, c)
  {
    assert c.parts[..|b.parts|][..|a.parts|] == c.parts[..|a.parts|];
  }

  /** Two ancestors of the same path are comparable. */
  lemma AncestorsComparable(a: GamePath, b: GamePath, d: GamePath)
    requires IsAncestorOrSelf(a, d) && IsAncestorOrSelf(b, d)
    ensures IsAncestorOrSelf(a, b) || IsAncestorOrSelf(b, a)
  {
    if |a.parts| <= |b.parts| {
      assert d.parts[..|b.parts|][..|a.parts|] == d.parts[..|a.parts|];
    } else {
      assert d.parts[..|a.parts|][..|b.parts|] == d.parts[..|b.parts|];
    }
  }

  /** A proper ancestor of `d` is an ancestor of (or equal to) `d`'s parent. */
  lemma ProperAncestorOfParent(a: GamePath, d: GamePath)
    requires IsProperAncestor(a, d)
    ensures IsAncestorOrSelf(a, Parent(d))
  {
    assert d.parts[..|d.parts| - 1][..|a.parts|] == d.parts[..|a.parts|];
  }
}
