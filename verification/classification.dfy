/**
 * `ProcessSyncTree`: each file node gets a signature (the three hashes, which
 * of them are archived, whether the path is backup-ignored) and the action
 * set that `ActionMapping.MapActions` assigns to it. The mapping table is not
 * part of this model and is passed in as `mapActions`.
 */
module Classification {
  import opened Wrappers
  import opened GamePaths
  import opened DiskStates
  import opened LoadoutFlattening
  import opened SyncTrees

  /** The named values of the `Actions` flags enum; their numeric values are not part of this model. */
  datatype Action =
    | DoNothing | BackupFile | IngestFromDisk | DeleteFromDisk | ExtractToDisk
    | AddReifiedDelete | WarnOfUnableToExtract | WarnOfConflict

  /** The inputs of `SignatureBuilder`, before it packs them into bits. */
  datatype Signature = Signature(
    diskHash: Option<Hash>, prevHash: Option<Hash>, loadoutHash: Option<Hash>,
    diskArchived: bool, prevArchived: bool, loadoutArchived: bool,
    pathIsIgnored: bool)

  /** A file node with the signature and actions `ProcessSyncTree` stored on it. */
  datatype ClassifiedNode = ClassifiedNode(node: SyncNode, signature: Signature, actions: set<Action>)

  function DiskHashOf(n: SyncNode): Option<Hash> {
    if n.disk.Some? then Some(n.disk.value.hash) else None
  }

  function PrevHashOf(n: SyncNode): Option<Hash> {
    if n.previous.Some? then Some(n.previous.value.hash) else None
  }

  function LoadoutHashOf(n: SyncNode): Option<Hash> {
    if n.loadout.Some? then Some(n.loadout.value.hash) else None
  }

  /** `HaveArchive`: the content store holds the hash. */
  predicate Archived(h: Option<Hash>, store: set<Hash>) {
    h.Some? && h.value in store
  }

  /** The signature of one node; `store` is the content store's set of hashes. */
  function BuildSignature(n: SyncNode, store: set<Hash>, ignoredBackup: GamePath -> bool): (s: Signature)
    ensures s.diskHash.Some? <==> n.disk.Some?
    ensures s.prevHash.Some? <==> n.previous.Some?
    ensures s.loadoutHash.Some? <==> n.loadout.Some?
    ensures n.disk.Some? ==> s.diskHash.value == n.disk.value.hash
    ensures n.previous.Some? ==> s.prevHash.value == n.previous.value.hash
    ensures n.loadout.Some? ==> s.loadoutHash.value == n.loadout.value.hash
    ensures s.diskArchived <==> n.disk.Some? && n.disk.value.hash in store
    ensures s.prevArchived <==> n.previous.Some? && n.previous.value.hash in store
    ensures s.loadoutArchived <==> n.loadout.Some? && n.loadout.value.hash in store
    ensures s.pathIsIgnored <==> ignoredBackup(n.path)
  {
    var d := DiskHashOf(n);
    var p := PrevHashOf(n);
    var l := LoadoutHashOf(n);
    Signature(d, p, l, Archived(d, store), Archived(p, store), Archived(l, store), ignoredBackup(n.path))
  }

  /**
   * The signature sees only hashes and the path: two nodes at the same path
   * whose three slots hold the same hashes get the same signature, whatever
   * their ids, sizes, times or references.
   */
  lemma SignatureSeesOnlyHashes(a: SyncNode, b: SyncNode, store: set<Hash>, ignoredBackup: GamePath -> bool)
    requires a.path == b.path
    requires DiskHashOf(a) == DiskHashOf(b) && PrevHashOf(a) == PrevHashOf(b) && LoadoutHashOf(a) == LoadoutHashOf(b)
    ensures BuildSignature(a, store, ignoredBackup) == BuildSignature(b, store, ignoredBackup)
  {
  }

  /** `order` lists every path of the tree exactly once (`GetAllDescendentFiles`, whose order is not modelled). */
  predicate IsEnumeration(order: seq<GamePath>, tree: SyncTree) {
    && (forall i :: 0 <= i < |order| ==> order[i] in tree)
    && (forall p :: p in tree ==> p in order)
    && (forall i, j :: 0 <= i < j < |order| ==> order[i] != order[j])
  }

  /** `ProcessSyncTree`: classify every file node, in enumeration order. */
  function ProcessSyncTree(tree: SyncTree, order: seq<GamePath>, store: set<Hash>, ignoredBackup: GamePath -> bool,
                           mapActions: Signature -> set<Action>): (r: seq<ClassifiedNode>)
    requires forall i :: 0 <= i < |order| ==> order[i] in tree
    ensures |r| == |order|
    ensures forall i :: 0 <= i < |r| ==>
              && r[i].node == tree[order[i]]
              && r[i].signature == BuildSignature(tree[order[i]], store, ignoredBackup)
              && r[i].actions == mapActions(r[i].signature)
  {
    seq(|order|, i requires 0 <= i < |order| =>
      var n := tree[order[i]];
      var s := BuildSignature(n, store, ignoredBackup);
      ClassifiedNode(n, s, mapActions(s)))
  }

  /** `groupings[a]`, under the stated assumption that it holds the nodes whose action set contains `a`, in order. */
  function Grouping(nodes: seq<ClassifiedNode>, a: Action): (r: seq<ClassifiedNode>)
    ensures |r| <= |nodes|
    ensures forall n :: n in r <==> n in nodes && a in n.actions
  {
    if |nodes| == 0 then []
    else
      var rest := Grouping(nodes[..|nodes| - 1], a);
      var last := nodes[|nodes| - 1];
      assert nodes == nodes[..|nodes| - 1] + [last];
      if a in last.actions then rest + [last] else rest
  }

  /** The classified nodes carry pairwise distinct paths. */
  predicate DistinctNodePaths(nodes: seq<ClassifiedNode>) {
    forall i, j :: 0 <= i < j < |nodes| ==> nodes[i].node.path != nodes[j].node.path
  }

  /** Classifying an enumeration of a tree gives one node per path of the tree. */
  lemma ProcessedNodesCoverTree(tree: SyncTree, order: seq<GamePath>, store: set<Hash>, ignoredBackup: GamePath -> bool,
                                mapActions: Signature -> set<Action>)
    requires IsEnumeration(order, tree)
    requires forall p :: p in tree ==> tree[p].path == p
    ensures DistinctNodePaths(ProcessSyncTree(tree, order, store, ignoredBackup, mapActions))
    ensures forall p :: p in tree <==>
      exists i :: 0 <= i < |order| && ProcessSyncTree(tree, order, store, ignoredBackup, mapActions)[i].node.path == p
  {
    var r := ProcessSyncTree(tree, order, store, ignoredBackup, mapActions);
    forall p | p in tree
      ensures exists i :: 0 <= i < |order| && r[i].node.path == p
    {
      var i :| 0 <= i < |order| && order[i] == p;
      assert r[i].node.path == p;
    }
  }

  /** A grouping keeps its nodes in the order they were classified, so it inherits distinct paths. */
  lemma {:induction false} GroupingDistinct(nodes: seq<ClassifiedNode>, a: Action)
    requires DistinctNodePaths(nodes)
    ensures DistinctNodePaths(Grouping(nodes, a))
  {
    if |nodes| > 0 {
      var init := nodes[..|nodes| - 1];
      var last := nodes[|nodes| - 1];
      assert DistinctNodePaths(init);
      GroupingDistinct(init, a);
      var rest := Grouping(init, a);
      if a in last.actions {
        forall i | 0 <= i < |rest|
          ensures rest[i].node.path != last.node.path
        {
          assert rest[i] in init;
        }
      }
    }
  }
}
