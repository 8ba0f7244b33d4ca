/**
 * The three-way merge: one node per game path in the union of the desired
 * rows, the previously applied disk state and the current disk state.
 */
module SyncTrees {
  import opened Wrappers
  import opened GamePaths
  import opened DiskStates
  import opened LoadoutFlattening

  /** `SyncTreeNode`: the Loadout, Previous and Disk slots of one path. */
  datatype SyncNode = SyncNode(path: GamePath, loadout: Option<LoadoutRow>, previous: Option<DiskEntry>, disk: Option<DiskEntry>)

  /** The file nodes of a `SyncTree`, by path. */
  type SyncTree = map<GamePath, SyncNode>

  /** `Dictionary.Add` throws on a second desired row for the same path. */
  datatype MergeError = DuplicateLoadoutPath(path: GamePath)

  function RowPaths(rows: seq<LoadoutRow>): (r: set<GamePath>)
    ensures forall p :: p in r <==> exists i :: 0 <= i < |rows| && rows[i].path == p
  {
    set i | 0 <= i < |rows| :: rows[i].path
  }

  /** The last row for `p`; with distinct paths, the only one. */
  function RowAt(rows: seq<LoadoutRow>, p: GamePath): (r: Option<LoadoutRow>)
    ensures r.Some? <==> p in RowPaths(rows)
    ensures r.Some? ==> r.value in rows && r.value.path == p
  {
    if |rows| == 0 then None
    else if rows[|rows| - 1].path == p then Some(rows[|rows| - 1])
    else
      var r := RowAt(rows[..|rows| - 1], p);
      assert forall i :: 0 <= i < |rows| - 1 ==> rows[..|rows| - 1][i] == rows[i];
      r
  }

  function Lookup(s: DiskState, p: GamePath): Option<DiskEntry> {
    if p in s then Some(s[p]) else None
  }

  /** The merged tree, stated declaratively: each slot holds exactly what its input has at that path. */
  function Merge(current: DiskState, previous: DiskState, rows: seq<LoadoutRow>): SyncTree {
    map p | p in RowPaths(rows) + previous.Keys + current.Keys :: SyncNode(p, RowAt(rows, p), Lookup(previous, p), Lookup(current, p))
  }

  /** Every node of the merge has at least one slot set, and each slot is set exactly when its input holds the path. */
  lemma MergeSlots(current: DiskState, previous: DiskState, rows: seq<LoadoutRow>, p: GamePath)
    ensures var t := Merge(current, previous, rows);
      p in t <==> (p in RowPaths(rows) || p in previous || p in current)
    ensures var t := Merge(current, previous, rows);
      p in t ==> && t[p].path == p
                 && (t[p].loadout.Some? <==> p in RowPaths(rows))
                 && (t[p].previous.Some? <==> p in previous)
                 && (t[p].disk.Some? <==> p in current)
                 && (t[p].loadout.Some? || t[p].previous.Some? || t[p].disk.Some?)
                 && (p in previous ==> t[p].previous.value == previous[p])
                 && (p in current ==> t[p].disk.value == current[p])
                 && (t[p].loadout.Some? ==> t[p].loadout.value in rows && t[p].loadout.value.path == p)
  {
  }

  /** The tree after inserting the desired rows alone. */
  function RowsOnly(rows: seq<LoadoutRow>): SyncTree {
    map p | p in RowPaths(rows) :: SyncNode(p, RowAt(rows, p), None, None)
  }

  /** `tree` with the previous state overlaid: matching nodes get their Previous slot, other paths get new nodes. */
  function WithPrevious(tree: SyncTree, previous: DiskState): SyncTree {
    map p | p in tree.Keys + previous.Keys ::
      if p !in previous then tree[p]
      else if p in tree then tree[p].(previous := Some(previous[p]))
      else SyncNode(p, None, Some(previous[p]), None)
  }

  /** `tree` with the current state overlaid into the Disk slots. */
  function WithDisk(tree: SyncTree, current: DiskState): SyncTree {
    map p | p in tree.Keys + current.Keys ::
      if p !in current then tree[p]
      else if p in tree then tree[p].(disk := Some(current[p]))
      else SyncNode(p, None, None, Some(current[p]))
  }

  /** Inserting one more row with a new path adds exactly its node. */
  lemma RowsOnlySnoc(rows: seq<LoadoutRow>, row: LoadoutRow)
    requires row.path !in RowsOnly(rows)
    ensures RowsOnly(rows + [row]) == RowsOnly(rows)[row.path := SyncNode(row.path, Some(row), None, None)]
  {
    var a := RowsOnly(rows + [row]);
    var b := RowsOnly(rows)[row.path := SyncNode(row.path, Some(row), None, None)];
    assert (rows + [row])[..|rows|] == rows;
    assert RowPaths(rows + [row]) == RowPaths(rows) + {row.path} by {
      forall p | p in RowPaths(rows + [row]) ensures p in RowPaths(rows) + {row.path} {
        var i :| 0 <= i < |rows + [row]| && (rows + [row])[i].path == p;
        if i < |rows| { assert rows[i].path == p; }
      }
      forall p | p in RowPaths(rows) ensures p in RowPaths(rows + [row]) {
        var i :| 0 <= i < |rows| && rows[i].path == p;
        assert (rows + [row])[i].path == p;
      }
      assert (rows + [row])[|rows|].path == row.path;
    }
    assert a.Keys == b.Keys;
    forall p | p in a.Keys ensures a[p] == b[p] {
      if p != row.path {
        assert RowAt(rows + [row], p) == RowAt(rows, p);
      }
    }
  }

  /** A row whose path is new keeps the rows' paths distinct. */
  lemma DistinctSnoc(rows: seq<LoadoutRow>, row: LoadoutRow)
    requires PathsDistinct(rows) && row.path !in RowsOnly(rows)
    ensures PathsDistinct(rows + [row])
  {
    forall i, j | 0 <= i < j < |rows + [row]| ensures (rows + [row])[i].path != (rows + [row])[j].path {
      if j == |rows| {
        assert rows[i].path in RowPaths(rows);
      } else {
        assert (rows + [row])[i] == rows[i] && (rows + [row])[j] == rows[j];
      }
    }
  }

  /** The first loop: `Dictionary.Add` of every row, throwing at the first repeated path. */
  method InsertRows(rows: seq<LoadoutRow>) returns (r: Result<SyncTree, MergeError>)
    ensures r.Success? <==> PathsDistinct(rows)
    ensures r.Success? ==> r.value == RowsOnly(rows)
    ensures r.Failure? ==> exists i, j :: 0 <= i < j < |rows| && rows[i].path == rows[j].path == r.error.path
  {
    var tree: SyncTree := map[];
    var i := 0;
    while i < |rows|
      invariant 0 <= i <= |rows|
      invariant PathsDistinct(rows[..i])
      invariant tree == RowsOnly(rows[..i])
    {
      var row := rows[i];
      assert rows[..i + 1] == rows[..i] + [row];
      if row.path in tree {
        var k :| 0 <= k < i && rows[..i][k].path == row.path;
        assert rows[k].path == rows[i].path;
        return Failure(DuplicateLoadoutPath(row.path));
      }
      RowsOnlySnoc(rows[..i], row);
      DistinctSnoc(rows[..i], row);
      tree := tree[row.path := SyncNode(row.path, Some(row), None, None)];
      i := i + 1;
    }
    assert rows[..i] == rows;
    return Success(tree);
  }

  /** The second loop: fill the Previous slot of every path of the previous state. */
  method OverlayPrevious(tree0: SyncTree, previous: DiskState) returns (tree: SyncTree)
    ensures tree == WithPrevious(tree0, previous)
  {
    tree := tree0;
    var todo := previous.Keys;
    while todo != {}
      invariant todo <= previous.Keys
      invariant tree == WithPrevious(tree0, previous - todo)
      decreases todo
    {
      var p :| p in todo;
      if p in tree {
        tree := tree[p := tree[p].(previous := Some(previous[p]))];
      } else {
        tree := tree[p := SyncNode(p, None, Some(previous[p]), None)];
      }
      todo := todo - {p};
    }
    assert previous - {} == previous;
  }

  /** The third loop: fill the Disk slot of every path of the current state. */
  method OverlayCurrent(tree0: SyncTree, current: DiskState) returns (tree: SyncTree)
    ensures tree == WithDisk(tree0, current)
  {
    tree := tree0;
    var todo := current.Keys;
    while todo != {}
      invariant todo <= current.Keys
      invariant tree == WithDisk(tree0, current - todo)
      decreases todo
    {
      var p :| p in todo;
      if p in tree {
        tree := tree[p := tree[p].(disk := Some(current[p]))];
      } else {
        tree := tree[p := SyncNode(p, None, None, Some(current[p]))];
      }
      todo := todo - {p};
    }
    assert current - {} == current;
  }

  /** The three overlays in sequence give the declarative merge. */
  lemma OverlaysMerge(current: DiskState, previous: DiskState, rows: seq<LoadoutRow>)
    ensures WithDisk(WithPrevious(RowsOnly(rows), previous), current) == Merge(current, previous, rows)
  {
    var a := WithDisk(WithPrevious(RowsOnly(rows), previous), current);
    var b := Merge(current, previous, rows);
    OverlaysKeys(current, previous, rows);
    forall p | p in a.Keys
      ensures a[p] == b[p]
    {
      OverlaysAt(current, previous, rows, p);
    }
  }

  lemma OverlaysKeys(current: DiskState, previous: DiskState, rows: seq<LoadoutRow>)
    ensures WithDisk(WithPrevious(RowsOnly(rows), previous), current).Keys == Merge(current, previous, rows).Keys
  {
  }

  lemma OverlaysAt(current: DiskState, previous: DiskState, rows: seq<LoadoutRow>, p: GamePath)
    requires p in Merge(current, previous, rows)
    ensures var a := WithDisk(WithPrevious(RowsOnly(rows), previous), current);
            p in a && a[p] == Merge(current, previous, rows)[p]
  {
  }

  /**
   * The generic `BuildSyncTree<T>`: insert every desired row (failing on a
   * repeated path), then overlay the previous state, then the current state.
   */
  method BuildSyncTree(current: DiskState, previous: DiskState, rows: seq<LoadoutRow>) returns (r: Result<SyncTree, MergeError>)
    ensures r.Success? <==> PathsDistinct(rows)
    ensures r.Success? ==> r.value == Merge(current, previous, rows)
    ensures r.Failure? ==> exists i, j :: 0 <= i < j < |rows| && rows[i].path == rows[j].path == r.error.path
  {
    var inserted := InsertRows(rows);
    if inserted.Failure? {
      return Failure(inserted.error);
    }
    var tree := OverlayPrevious(inserted.value, previous);
    tree := OverlayCurrent(tree, current);
    OverlaysMerge(current, previous, rows);
    return Success(tree);
  }

  /**
   * `BuildSyncTree(current, previous, loadoutItems)`: flatten the loadout, then
   * merge; the flattened rows never repeat a path, so the merge cannot fail.
   */
  method BuildSyncTreeFromItems(current: DiskState, previous: DiskState, items: seq<LoadoutItem>) returns (t: SyncTree)
    ensures t == Merge(current, previous, Desired(items))
    ensures forall p :: p in t ==> (t[p].loadout.Some? <==> exists row :: row in Desired(items) && row.path == p)
  {
    DesiredPathsDistinct(items);
    var r := BuildSyncTree(current, previous, Desired(items));
    t := r.value;
    forall p | p in t
      ensures t[p].loadout.Some? <==> exists row :: row in Desired(items) && row.path == p
    {
      MergeSlots(current, previous, Desired(items), p);
      var rows := Desired(items);
      if exists row :: row in rows && row.path == p {
        var row :| row in rows && row.path == p;
        var i :| 0 <= i < |rows| && rows[i] == row;
      }
    }
  }
}
