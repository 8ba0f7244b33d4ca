/**
 * `CleanDirectories`: after files are deleted, choose the roots of the
 * directory structures they left empty, never touching a location root or a
 * directory that still holds a file of the new disk state.
 */
module DirectoryReaper {
  import opened Wrappers
  import opened GamePaths

  /** Every proper ancestor of a file of the new state (`GetAllParents().Skip(1)` over its entries). */
  function NewStateDirs(files: set<GamePath>): (r: set<GamePath>)
    ensures forall d :: d in r <==> exists f :: f in files && IsProperAncestor(d, f)
  {
    var r := set f, k | f in files && 0 <= k < |f.parts| :: GamePath(f.location, f.parts[..k]);
    forall d | exists f :: f in files && IsProperAncestor(d, f)
      ensures d in r
    {
      var f :| f in files && IsProperAncestor(d, f);
      assert d == GamePath(f.location, f.parts[..|d.parts|]);
    }
    r
  }

  /** The directories of the new state are closed upwards. */
  lemma NewStateDirsClosed(files: set<GamePath>, a: GamePath, d: GamePath)
    requires d in NewStateDirs(files) && IsAncestorOrSelf(a, d)
    ensures a in NewStateDirs(files)
  {
    var f :| f in files && IsProperAncestor(d, f);
    AncestorTransitive(a, d, f);
  }

  /**
   * One iteration of the outer loop: walk from the deleted file's parent
   * towards its location root, stopping at a directory already seen or one
   * the new state still needs; `top` is the highest directory walked, unless
   * the walk ran into an already-seen directory.
   */
  method WalkUp(entry: GamePath, seen0: set<GamePath>, newDirs: set<GamePath>)
    returns (top: Option<GamePath>, seen: set<GamePath>, ghost stop: GamePath)
    requires forall d :: d in seen0 ==> !IsRoot(d)
    ensures seen0 <= seen
    ensures forall a :: a in seen - seen0 ==>
      !IsRoot(a) && a !in newDirs && IsProperAncestor(a, entry) && IsProperAncestor(stop, a)
    ensures IsAncestorOrSelf(stop, entry) && (IsRoot(stop) || stop in newDirs || stop in seen0)
    ensures forall a :: IsProperAncestor(a, entry) && !IsRoot(a) ==> a in seen - seen0 || IsAncestorOrSelf(a, stop)
    ensures top.Some? ==> && top.value in seen - seen0 && Parent(top.value) == stop && stop !in seen0
                          && forall a :: a in seen - seen0 ==> IsAncestorOrSelf(top.value, a)
    ensures top.None? ==> seen == seen0 || stop in seen0
  {
    var parent := Parent(entry);
    seen := seen0;
    top := None;
    while parent != Root(entry)
      invariant parent.location == entry.location && IsAncestorOrSelf(parent, entry)
      invariant IsRoot(entry) ==> parent == entry
      invariant !IsRoot(entry) ==> IsProperAncestor(parent, entry)
      invariant seen0 <= seen
      invariant forall a :: a in seen - seen0 ==>
        !IsRoot(a) && a !in newDirs && IsProperAncestor(a, entry) && IsProperAncestor(parent, a)
      invariant forall a :: IsProperAncestor(a, entry) && !IsRoot(a) ==> a in seen - seen0 || IsAncestorOrSelf(a, parent)
      invariant top.Some? ==> && top.value in seen - seen0 && Parent(top.value) == parent
                              && forall a :: a in seen - seen0 ==> IsAncestorOrSelf(top.value, a)
      invariant top.None? ==> seen == seen0 && parent == Parent(entry)
      decreases |parent.parts|
    {
      if parent in seen {
        top := None;
        stop := parent;
        return;
      }
      if parent in newDirs {
        break;
      }
      var next := Parent(parent);
      forall a | IsProperAncestor(a, entry) && !IsRoot(a) && !(a in seen - seen0) && a != parent
        ensures IsAncestorOrSelf(a, next)
      {
        assert IsAncestorOrSelf(a, parent);
        ProperAncestorOfParent(a, parent);
      }
      forall a | a in seen - seen0
        ensures IsProperAncestor(next, a)
      {
        AncestorTransitive(next, parent, a);
      }
      seen := seen + {parent};
      top := Some(parent);
      parent := next;
    }
    stop := parent;
  }

  /** No chosen root lies inside another. */
  ghost predicate NoNestedRoots(roots: set<GamePath>) {
    forall r1, r2 :: r1 in roots && r2 in roots && r1 != r2 ==> !IsAncestorOrSelf(r1, r2)
  }

  /** Every directory seen so far lies under some chosen root. */
  ghost predicate SeenCovered(seen: set<GamePath>, roots: set<GamePath>) {
    forall d :: d in seen ==> exists r :: r in roots && IsAncestorOrSelf(r, d)
  }

  /** A chosen root sits directly below a location root or a directory the new state needs. */
  ghost predicate RootsBounded(roots: set<GamePath>, newDirs: set<GamePath>) {
    forall r :: r in roots ==> IsRoot(Parent(r)) || Parent(r) in newDirs
  }

  /** A set of directories that contains every ancestor of its members. */
  ghost predicate UpwardClosed(dirs: set<GamePath>) {
    forall a, d :: d in dirs && IsAncestorOrSelf(a, d) ==> a in dirs
  }

  lemma NewStateDirsUpwardClosed(files: set<GamePath>)
    ensures UpwardClosed(NewStateDirs(files))
  {
    forall a, d | d in NewStateDirs(files) && IsAncestorOrSelf(a, d)
      ensures a in NewStateDirs(files)
    {
      NewStateDirsClosed(files, a, d);
    }
  }

  /** A directory that is neither a location root nor needed cannot lie above a chosen root. */
  lemma NotAboveRoot(newDirs: set<GamePath>, roots: set<GamePath>, r: GamePath, a: GamePath)
    requires UpwardClosed(newDirs) && RootsBounded(roots, newDirs) && r in roots
    requires !IsRoot(a) && a !in newDirs
    requires IsAncestorOrSelf(a, r)
    ensures a == r
  {
    if a != r {
      assert IsProperAncestor(a, r);
      ProperAncestorOfParent(a, r);
    }
  }

  /** What the outer loop knows of the directories it has walked through. */
  ghost predicate SeenValid(seen: set<GamePath>, newDirs: set<GamePath>, toDelete: seq<GamePath>, i: nat)
    requires i <= |toDelete|
  {
    forall d :: d in seen ==> !IsRoot(d) && d !in newDirs && exists j :: 0 <= j < i && IsProperAncestor(d, toDelete[j])
  }

  /** Every emptied directory above the first `i` deleted files lies under a chosen root. */
  ghost predicate Complete(roots: set<GamePath>, newDirs: set<GamePath>, toDelete: seq<GamePath>, i: nat)
    requires i <= |toDelete|
  {
    forall j, a :: 0 <= j < i && IsProperAncestor(a, toDelete[j]) && !IsRoot(a) && a !in newDirs
                   ==> exists r :: r in roots && IsAncestorOrSelf(r, a)
  }

  /** Adding the top of a fresh walk keeps the roots un-nested. */
  lemma AddRootKeepsNoNesting(newDirs: set<GamePath>, roots0: set<GamePath>, seen0: set<GamePath>, t: GamePath, stop: GamePath)
    requires UpwardClosed(newDirs)
    requires NoNestedRoots(roots0) && RootsBounded(roots0, newDirs) && roots0 <= seen0
    requires forall d :: d in seen0 ==> !IsRoot(d) && d !in newDirs
    requires t !in seen0 && !IsRoot(t) && t !in newDirs
    requires Parent(t) == stop && (IsRoot(stop) || stop in newDirs)
    ensures NoNestedRoots(roots0 + {t})
  {
    forall r | r in roots0
      ensures !IsAncestorOrSelf(r, t) && !IsAncestorOrSelf(t, r)
    {
      if IsAncestorOrSelf(r, t) {
        assert r != t;
        ProperAncestorOfParent(r, t);
      }
      if IsAncestorOrSelf(t, r) {
        NotAboveRoot(newDirs, roots0, r, t);
      }
    }
  }

  /** After one walk, every directory seen so far is still under a root. */
  lemma WalkKeepsCovered(roots0: set<GamePath>, roots: set<GamePath>, seen0: set<GamePath>, seen: set<GamePath>,
                         top: Option<GamePath>, stop: GamePath)
    requires SeenCovered(seen0, roots0) && roots0 <= roots && seen0 <= seen
    requires forall a :: a in seen - seen0 ==> IsProperAncestor(stop, a)
    requires top.Some? ==> top.value in roots && forall a :: a in seen - seen0 ==> IsAncestorOrSelf(top.value, a)
    requires top.None? ==> seen == seen0 || stop in seen0
    ensures SeenCovered(seen, roots)
  {
    forall d | d in seen
      ensures exists r :: r in roots && IsAncestorOrSelf(r, d)
    {
      if d in seen - seen0 {
        if top.Some? {
          assert IsAncestorOrSelf(top.value, d);
        } else {
          var r :| r in roots0 && IsAncestorOrSelf(r, stop);
          AncestorTransitive(r, stop, d);
        }
      }
    }
  }

  /** After the walk of `entry`, every emptied directory above it lies under a root. */
  lemma WalkCompletes(newDirs: set<GamePath>, roots0: set<GamePath>, roots: set<GamePath>, seen0: set<GamePath>,
                      seen: set<GamePath>, entry: GamePath, top: Option<GamePath>, stop: GamePath)
    requires UpwardClosed(newDirs)
    requires SeenCovered(seen0, roots0) && roots0 <= roots && RootsBounded(roots0, newDirs)
    requires IsAncestorOrSelf(stop, entry) && (IsRoot(stop) || stop in newDirs || stop in seen0)
    requires forall a :: IsProperAncestor(a, entry) && !IsRoot(a) ==> a in seen - seen0 || IsAncestorOrSelf(a, stop)
    requires top.Some? ==> top.value in roots && forall a :: a in seen - seen0 ==> IsAncestorOrSelf(top.value, a)
    requires top.None? ==> seen == seen0 || stop in seen0
    requires forall a :: a in seen - seen0 ==> IsProperAncestor(stop, a)
    ensures forall a :: IsProperAncestor(a, entry) && !IsRoot(a) && a !in newDirs
                        ==> exists r :: r in roots && IsAncestorOrSelf(r, a)
  {
    forall a | IsProperAncestor(a, entry) && !IsRoot(a) && a !in newDirs
      ensures exists r :: r in roots && IsAncestorOrSelf(r, a)
    {
      if a in seen - seen0 {
        if top.Some? {
          assert IsAncestorOrSelf(top.value, a);
        } else {
          var r :| r in roots0 && IsAncestorOrSelf(r, stop);
          AncestorTransitive(r, stop, a);
        }
      } else {
        assert IsAncestorOrSelf(a, stop);
        if stop !in newDirs {
          var r :| r in roots0 && IsAncestorOrSelf(r, stop);
          AncestorsComparable(a, r, stop);
          if !IsAncestorOrSelf(r, a) {
            NotAboveRoot(newDirs, roots0, r, a);
          }
        }
      }
    }
  }

  /** Completeness extends from the first `i` deleted files to the first `i + 1`. */
  lemma CompleteStep(roots0: set<GamePath>, roots: set<GamePath>, newDirs: set<GamePath>, toDelete: seq<GamePath>, i: nat)
    requires i < |toDelete|
    requires Complete(roots0, newDirs, toDelete, i) && roots0 <= roots
    requires forall a :: IsProperAncestor(a, toDelete[i]) && !IsRoot(a) && a !in newDirs
                         ==> exists r :: r in roots && IsAncestorOrSelf(r, a)
    ensures Complete(roots, newDirs, toDelete, i + 1)
  {
    forall j, a | 0 <= j < i + 1 && IsProperAncestor(a, toDelete[j]) && !IsRoot(a) && a !in newDirs
      ensures exists r :: r in roots && IsAncestorOrSelf(r, a)
    {
      if j < i {
        var r :| r in roots0 && IsAncestorOrSelf(r, a);
        assert r in roots;
      }
    }
  }

  /** The visited set stays valid once the directories of deleted file `i` are added. */
  lemma SeenValidStep(seen0: set<GamePath>, seen: set<GamePath>, newDirs: set<GamePath>, toDelete: seq<GamePath>, i: nat)
    requires i < |toDelete|
    requires SeenValid(seen0, newDirs, toDelete, i) && seen0 <= seen
    requires forall a :: a in seen - seen0 ==> IsProperAncestor(a, toDelete[i]) && !IsRoot(a) && a !in newDirs
    ensures SeenValid(seen, newDirs, toDelete, i + 1)
  {
    forall d | d in seen
      ensures !IsRoot(d) && d !in newDirs && exists j :: 0 <= j < i + 1 && IsProperAncestor(d, toDelete[j])
    {
      if d in seen0 {
        var j :| 0 <= j < i && IsProperAncestor(d, toDelete[j]);
      } else {
        assert IsProperAncestor(d, toDelete[i]);
      }
    }
  }

  /** What the reaper knows after visiting the first `i` deleted files. */
  ghost predicate ReapInv(toDelete: seq<GamePath>, newDirs: set<GamePath>, i: nat, seen: set<GamePath>, roots: set<GamePath>)
    requires i <= |toDelete|
  {
    && roots <= seen
    && |roots| <= i
    && SeenValid(seen, newDirs, toDelete, i)
    && RootsBounded(roots, newDirs)
    && SeenCovered(seen, roots)
    && NoNestedRoots(roots)
    && Complete(roots, newDirs, toDelete, i)
  }

  /** One walk from deleted file `i` keeps everything the reaper knows. */
  lemma ReapStep(toDelete: seq<GamePath>, newDirs: set<GamePath>, i: nat, seen0: set<GamePath>, roots0: set<GamePath>,
                 seen: set<GamePath>, roots: set<GamePath>, top: Option<GamePath>, stop: GamePath)
    requires i < |toDelete| && UpwardClosed(newDirs)
    requires ReapInv(toDelete, newDirs, i, seen0, roots0)
    requires seen0 <= seen
    requires forall a :: a in seen - seen0 ==>
      !IsRoot(a) && a !in newDirs && IsProperAncestor(a, toDelete[i]) && IsProperAncestor(stop, a)
    requires IsAncestorOrSelf(stop, toDelete[i]) && (IsRoot(stop) || stop in newDirs || stop in seen0)
    requires forall a :: IsProperAncestor(a, toDelete[i]) && !IsRoot(a) ==> a in seen - seen0 || IsAncestorOrSelf(a, stop)
    requires top.Some? ==> && top.value in seen - seen0 && Parent(top.value) == stop && stop !in seen0
                           && forall a :: a in seen - seen0 ==> IsAncestorOrSelf(top.value, a)
    requires top.None? ==> seen == seen0 || stop in seen0
    requires roots == if top.Some? then roots0 + {top.value} else roots0
    ensures ReapInv(toDelete, newDirs, i + 1, seen, roots)
  {
    WalkKeepsCovered(roots0, roots, seen0, seen, top, stop);
    WalkCompletes(newDirs, roots0, roots, seen0, seen, toDelete[i], top, stop);
    CompleteStep(roots0, roots, newDirs, toDelete, i);
    SeenValidStep(seen0, seen, newDirs, toDelete, i);
    if top.Some? {
      NewRootStep(toDelete, newDirs, i, seen0, roots0, seen, top.value, stop);
    }
  }

  /** The root a walk adds keeps the roots bounded, un-nested, and no more than the files visited. */
  lemma NewRootStep(toDelete: seq<GamePath>, newDirs: set<GamePath>, i: nat, seen0: set<GamePath>, roots0: set<GamePath>,
                    seen: set<GamePath>, t: GamePath, stop: GamePath)
    requires i < |toDelete| && UpwardClosed(newDirs)
    requires ReapInv(toDelete, newDirs, i, seen0, roots0)
    requires seen0 <= seen
    requires forall a :: a in seen - seen0 ==> !IsRoot(a) && a !in newDirs
    requires IsRoot(stop) || stop in newDirs || stop in seen0
    requires t in seen - seen0 && Parent(t) == stop && stop !in seen0
    ensures NoNestedRoots(roots0 + {t}) && RootsBounded(roots0 + {t}, newDirs)
    ensures roots0 + {t} <= seen && |roots0 + {t}| <= i + 1
  {
    AddRootKeepsNoNesting(newDirs, roots0, seen0, t, stop);
    assert |roots0 + {t}| <= |roots0| + 1;
  }

  method ChooseRoots(toDelete: seq<GamePath>, newDirs: set<GamePath>) returns (roots: set<GamePath>)
    requires UpwardClosed(newDirs)
    ensures forall r :: r in roots ==> !IsRoot(r) && r !in newDirs
    ensures forall r :: r in roots ==> exists i :: 0 <= i < |toDelete| && IsProperAncestor(r, toDelete[i])
    ensures NoNestedRoots(roots)
    ensures |roots| <= |toDelete|
    ensures Complete(roots, newDirs, toDelete, |toDelete|)
  {
    var seen: set<GamePath> := {};
    roots := {};
    var i := 0;
    while i < |toDelete|
      invariant 0 <= i <= |toDelete|
      invariant ReapInv(toDelete, newDirs, i, seen, roots)
    {
      var seen0 := seen;
      var roots0 := roots;
      var top: Option<GamePath>;
      ghost var stop: GamePath;
      top, seen, stop := WalkUp(toDelete[i], seen0, newDirs);
      if top.Some? {
        roots := roots + {top.value};
      }
      ReapStep(toDelete, newDirs, i, seen0, roots0, seen, roots, top, stop);
      i := i + 1;
    }
  }

  /**
   * `CleanDirectories`: the deletion roots. Each lies strictly above some
   * deleted file, is no location root and holds no file of the new state; no
   * root lies inside another; there is at most one per deleted file; and every
   * emptied directory is removed by one of them.
   */
  method CleanDirectories(toDelete: seq<GamePath>, newState: set<GamePath>) returns (roots: set<GamePath>)
    ensures forall r :: r in roots ==> !IsRoot(r)
    ensures forall r, f :: r in roots && f in newState ==> !IsProperAncestor(r, f)
    ensures forall r :: r in roots ==> exists i :: 0 <= i < |toDelete| && IsProperAncestor(r, toDelete[i])
    ensures NoNestedRoots(roots)
    ensures |roots| <= |toDelete|
    ensures forall i, a :: 0 <= i < |toDelete| && IsProperAncestor(a, toDelete[i]) && !IsRoot(a)
                           && (forall f :: f in newState ==> !IsProperAncestor(a, f))
                           ==> exists r :: r in roots && IsAncestorOrSelf(r, a)
  {
    var newDirs := NewStateDirs(newState);
    NewStateDirsUpwardClosed(newState);
    roots := ChooseRoots(toDelete, newDirs);
  }
}
