/**
 * `ReindexState`: compare what is on disk now with the stored disk state of
 * a game installation and write the difference. Files are visited one after
 * another (the parallel fan-out is not modelled); their hashes are given.
 */
module Rescan {
  import opened GamePaths
  import opened Datoms
  import opened DiskStates

  /** A file found under a top-level location: its game path, size, last write time and xxHash3. */
  datatype ObservedFile = ObservedFile(path: GamePath, size: nat, lastModified: int, hash: Hash)

  /** The `seen` set: the game paths of the files found, ignored paths excluded. */
  function Seen(files: seq<ObservedFile>, ignored: GamePath -> bool): (r: set<GamePath>)
    ensures forall i :: 0 <= i < |files| && !ignored(files[i].path) ==> files[i].path in r
    ensures forall p :: p in r ==> !ignored(p) && exists i :: 0 <= i < |files| && files[i].path == p
  {
    set i | 0 <= i < |files| && !ignored(files[i].path) :: files[i].path
  }

  /** The stored entry no longer describes the file: it was written later, or its size changed. */
  predicate NeedsRehash(e: DiskEntry, f: ObservedFile) {
    f.lastModified > e.lastModified || f.size != e.size
  }

  /** The scan writes something for this file: it has no entry yet, or its entry is out of date. */
  predicate Stale(stored: DiskState, f: ObservedFile) {
    f.path !in stored || NeedsRehash(stored[f.path], f)
  }

  /** The datoms for one non-ignored file; a new entry is made on the temporary id `t`. */
  function FileOps(stored: DiskState, f: ObservedFile, meta: EntityId, t: EntityId): (r: seq<Op>)
    ensures |r| == 0 <==> !Stale(stored, f)
    ensures forall j :: 0 <= j < |r| ==>
              r[j].Add? && IsDiskAttr(r[j].a) && r[j].e == (if f.path in stored then stored[f.path].id else t)
  {
    if f.path in stored then
      var e := stored[f.path];
      if NeedsRehash(e, f) then
        [ Add(e.id, DiskSize, VSize(f.size)),
          Add(e.id, DiskHash, VHash(f.hash)),
          Add(e.id, DiskLastModified, VTime(f.lastModified)) ]
      else []
    else
      [ Add(t, DiskPath, VPath(meta, f.path)),
        Add(t, DiskHash, VHash(f.hash)),
        Add(t, DiskSize, VSize(f.size)),
        Add(t, DiskLastModified, VTime(f.lastModified)),
        Add(t, DiskGame, VRef(meta)) ]
  }

  /** How many non-ignored files have no stored entry, hence need a new one. */
  function NewCount(stored: DiskState, files: seq<ObservedFile>, ignored: GamePath -> bool): (r: nat)
    ensures r <= |files|
  {
    if |files| == 0 then 0
    else
      var f := files[|files| - 1];
      NewCount(stored, files[..|files| - 1], ignored) + (if !ignored(f.path) && f.path !in stored then 1 else 0)
  }

  /** The datoms of the file loop; new entries take the temporary ids `base`, `base + 1`, ... in file order. */
  function ScanOps(stored: DiskState, files: seq<ObservedFile>, ignored: GamePath -> bool, meta: EntityId, base: nat)
    : (r: seq<Op>)
    ensures |r| == 0 <==> forall i :: 0 <= i < |files| && !ignored(files[i].path) ==> !Stale(stored, files[i])
  {
    if |files| == 0 then []
    else
      var init := files[..|files| - 1];
      var f := files[|files| - 1];
      var rest := ScanOps(stored, init, ignored, meta, base);
      assert forall i :: 0 <= i < |init| ==> init[i] == files[i];
      if ignored(f.path) then rest
      else rest + FileOps(stored, f, meta, Temp(base + NewCount(stored, init, ignored)))
  }

  /** The scan only adds disk-state datoms, on stored entries of stale files or on the temporary ids it hands out. */
  lemma {:induction false} ScanTouchesOnlyStale(stored: DiskState, files: seq<ObservedFile>, ignored: GamePath -> bool,
                                                 meta: EntityId, base: nat)
    ensures forall j :: 0 <= j < |ScanOps(stored, files, ignored, meta, base)| ==>
              var op := ScanOps(stored, files, ignored, meta, base)[j];
              && op.Add? && IsDiskAttr(op.a)
              && ((op.e.Temp? && base <= op.e.k < base + NewCount(stored, files, ignored))
                  || exists i :: && 0 <= i < |files| && !ignored(files[i].path) && files[i].path in stored
                                 && NeedsRehash(stored[files[i].path], files[i]) && op.e == stored[files[i].path].id)
    decreases |files|
  {
    if |files| > 0 {
      var init := files[..|files| - 1];
      var f := files[|files| - 1];
      ScanTouchesOnlyStale(stored, init, ignored, meta, base);
      var rest := ScanOps(stored, init, ignored, meta, base);
      var ops := ScanOps(stored, files, ignored, meta, base);
      if !ignored(f.path) {
        var t := Temp(base + NewCount(stored, init, ignored));
        var mine := FileOps(stored, f, meta, t);
        assert ops == rest + mine;
        forall j | 0 <= j < |ops|
          ensures ops[j].Add? && IsDiskAttr(ops[j].a)
          ensures || (ops[j].e.Temp? && base <= ops[j].e.k < base + NewCount(stored, files, ignored))
                  || exists i :: && 0 <= i < |files| && !ignored(files[i].path) && files[i].path in stored
                                 && NeedsRehash(stored[files[i].path], files[i]) && ops[j].e == stored[files[i].path].id
        {
          if j < |rest| {
            assert ops[j] == rest[j];
            if !(ops[j].e.Temp? && base <= ops[j].e.k < base + NewCount(stored, init, ignored)) {
              var i :| && 0 <= i < |init| && !ignored(init[i].path) && init[i].path in stored
                       && NeedsRehash(stored[init[i].path], init[i]) && rest[j].e == stored[init[i].path].id;
              assert init[i] == files[i];
            }
          } else {
            assert ops[j] == mine[j - |rest|];
            if f.path in stored {
              assert files[|files| - 1] == f;
            }
          }
        }
      }
    }
  }

  /** Every stale file gets its observed hash written: on its stored entry, or on the new entry at its path. */
  lemma ScanWritesStale(stored: DiskState, files: seq<ObservedFile>, ignored: GamePath -> bool,
                        meta: EntityId, base: nat, i: nat)
    requires i < |files| && !ignored(files[i].path) && Stale(stored, files[i])
    ensures files[i].path in stored ==>
              && Add(stored[files[i].path].id, DiskHash, VHash(files[i].hash)) in ScanOps(stored, files, ignored, meta, base)
              && Add(stored[files[i].path].id, DiskSize, VSize(files[i].size)) in ScanOps(stored, files, ignored, meta, base)
    ensures files[i].path !in stored ==>
              var t := Temp(base + NewCount(stored, files[..i], ignored));
              && Add(t, DiskPath, VPath(meta, files[i].path)) in ScanOps(stored, files, ignored, meta, base)
              && Add(t, DiskHash, VHash(files[i].hash)) in ScanOps(stored, files, ignored, meta, base)
  {
    ScanOpsWrite(stored, files, ignored, meta, base, i);
  }

  /** `ops` write file `f`'s observed state: onto its stored entry, or onto the new entry `t` at its path. */
  predicate Written(ops: seq<Op>, stored: DiskState, f: ObservedFile, meta: EntityId, t: EntityId) {
    if f.path in stored then
      && Add(stored[f.path].id, DiskHash, VHash(f.hash)) in ops
      && Add(stored[f.path].id, DiskSize, VSize(f.size)) in ops
    else
      && Add(t, DiskPath, VPath(meta, f.path)) in ops
      && Add(t, DiskHash, VHash(f.hash)) in ops
  }

  lemma WrittenBefore(a: seq<Op>, b: seq<Op>, stored: DiskState, f: ObservedFile, meta: EntityId, t: EntityId)
    requires Written(a, stored, f, meta, t)
    ensures Written(a + b, stored, f, meta, t)
  {
  }

  lemma WrittenAfter(a: seq<Op>, b: seq<Op>, stored: DiskState, f: ObservedFile, meta: EntityId, t: EntityId)
    requires Written(b, stored, f, meta, t)
    ensures Written(a + b, stored, f, meta, t)
  {
  }

  lemma FileOpsWrite(stored: DiskState, f: ObservedFile, meta: EntityId, t: EntityId)
    requires Stale(stored, f)
    ensures Written(FileOps(stored, f, meta, t), stored, f, meta, t)
  {
    var ops := FileOps(stored, f, meta, t);
    if f.path in stored {
      assert ops[1] == Add(stored[f.path].id, DiskHash, VHash(f.hash));
      assert ops[0] == Add(stored[f.path].id, DiskSize, VSize(f.size));
    } else {
      assert ops[0] == Add(t, DiskPath, VPath(meta, f.path));
      assert ops[1] == Add(t, DiskHash, VHash(f.hash));
    }
  }

  lemma {:induction false} ScanOpsWrite(stored: DiskState, files: seq<ObservedFile>, ignored: GamePath -> bool,
                                        meta: EntityId, base: nat, i: nat)
    requires i < |files| && !ignored(files[i].path) && Stale(stored, files[i])
    ensures Written(ScanOps(stored, files, ignored, meta, base), stored, files[i], meta, Temp(base + NewCount(stored, files[..i], ignored)))
    decreases |files|
  {
    var init := files[..|files| - 1];
    var rest := ScanOps(stored, init, ignored, meta, base);
    var f := files[|files| - 1];
    var t := Temp(base + NewCount(stored, init, ignored));
    var mine := if ignored(f.path) then [] else FileOps(stored, f, meta, t);
    assert ScanOps(stored, files, ignored, meta, base) == rest + mine;
    var ti := Temp(base + NewCount(stored, files[..i], ignored));
    if i < |files| - 1 {
      assert init[i] == files[i];
      assert init[..i] == files[..i];
      ScanOpsWrite(stored, init, ignored, meta, base, i);
      WrittenBefore(rest, mine, stored, files[i], meta, ti);
    } else {
      assert init == files[..i];
      FileOpsWrite(stored, f, meta, t);
      WrittenAfter(rest, mine, stored, f, meta, t);
    }
  }

  /** What `RetractUnseen` promises: the path of every unseen entry is retracted, and only unseen entries are touched. */
  predicate UnseenRetractions(retracted: seq<Op>, stored: DiskState, seen: set<GamePath>, meta: EntityId) {
    && (forall p {:trigger stored[p].path} :: p in stored && p !in seen ==> Retract(stored[p].id, DiskPath, VPath(meta, stored[p].path)) in retracted)
    && (forall j :: 0 <= j < |retracted| ==>
          && retracted[j].Retract? && IsDiskAttr(retracted[j].a)
          && exists p :: p in stored && p !in seen && retracted[j].e == stored[p].id)
  }

  /**
   * The retraction loop over the stored entries: every entry whose path the
   * scan did not see loses its five datoms. Entries are visited in an
   * arbitrary order.
   */
  method RetractUnseen(stored: DiskState, seen: set<GamePath>, meta: EntityId) returns (ops: seq<Op>)
    ensures |ops| == 0 <==> stored.Keys <= seen
    ensures UnseenRetractions(ops, stored, seen, meta)
  {
    ops := [];
    var todo := stored.Keys;
    while todo != {}
      invariant todo <= stored.Keys
      invariant |ops| == 0 <==> stored.Keys - todo <= seen
      invariant forall p {:trigger stored[p].path} :: p in stored && p !in todo && p !in seen ==> Retract(stored[p].id, DiskPath, VPath(meta, stored[p].path)) in ops
      invariant forall j :: 0 <= j < |ops| ==>
                  && ops[j].Retract? && IsDiskAttr(ops[j].a)
                  && exists p :: p in stored && p !in seen && ops[j].e == stored[p].id
      decreases |todo|
    {
      var p :| p in todo;
      todo := todo - {p};
      if p !in seen {
        var more := RetractEntry(stored[p], meta);
        forall j | 0 <= j < |more|
          ensures more[j].Retract? && IsDiskAttr(more[j].a) && more[j].e == stored[p].id
        {
          assert more[j] in more;
        }
        ops := ops + more;
      }
    }
  }

  /** What the rescan must report: some non-ignored file is stale, or some stored path was not seen. */
  predicate Changed(stored: DiskState, files: seq<ObservedFile>, ignored: GamePath -> bool) {
    || (exists i :: 0 <= i < |files| && !ignored(files[i].path) && Stale(stored, files[i]))
    || !(stored.Keys <= Seen(files, ignored))
  }

  /**
   * `ReindexState(installation, connection, tx)`: the scan datoms, the
   * retractions, and, only when either is non-empty, the last-scanned
   * pointer. The result is whether anything changed.
   */
  method ReindexState(stored: DiskState, files: seq<ObservedFile>, ignored: GamePath -> bool, meta: EntityId, tx: Tx)
    returns (changed: bool, r: Tx)
    ensures changed <==> Changed(stored, files, ignored)
    ensures |tx.ops| <= |r.ops| && r.ops[..|tx.ops|] == tx.ops
    ensures !changed ==> r == tx
    ensures changed ==> |r.ops| > 0 && r.ops[|r.ops| - 1] == Add(meta, LastScannedTx, VRef(ThisTx))
    ensures forall j :: |tx.ops| <= j < |r.ops| - 1 ==> IsDiskAttr(r.ops[j].a)
    ensures StoredState(stored, meta) && DistinctPaths(files) ==>
              ReadsBackRescanned(r.ops[|tx.ops|..], stored, files, ignored, meta, tx.nextTemp)
  {
    var scanned := ScanOps(stored, files, ignored, meta, tx.nextTemp);
    var retracted := RetractUnseen(stored, Seen(files, ignored), meta);
    changed := |scanned| > 0 || |retracted| > 0;
    var mine := ReindexOps(stored, files, ignored, meta, tx.nextTemp, retracted);
    ReindexTail(stored, files, ignored, meta, tx.nextTemp, retracted);
    if changed {
      r := Tx(tx.ops + mine, tx.nextTemp + NewCount(stored, files, ignored));
      AppendDiskTail(tx.ops, mine);
    } else {
      r := tx;
      assert r.ops[|tx.ops|..] == mine;
    }
  }

  /** The datoms `ReindexState` appends after the caller's: none when nothing changed. */
  function ReindexOps(stored: DiskState, files: seq<ObservedFile>, ignored: GamePath -> bool, meta: EntityId, base: nat,
                      retracted: seq<Op>): seq<Op>
  {
    var scanned := ScanOps(stored, files, ignored, meta, base);
    if |scanned| > 0 || |retracted| > 0 then scanned + retracted + [Add(meta, LastScannedTx, VRef(ThisTx))] else []
  }

  /** The appended datoms are disk attributes, then the last-scanned pointer, and they read back as the rescan. */
  lemma ReindexTail(stored: DiskState, files: seq<ObservedFile>, ignored: GamePath -> bool, meta: EntityId, base: nat,
                    retracted: seq<Op>)
    requires UnseenRetractions(retracted, stored, Seen(files, ignored), meta)
    ensures var mine := ReindexOps(stored, files, ignored, meta, base, retracted);
            forall j :: 0 <= j < |mine| - 1 ==> IsDiskAttr(mine[j].a)
    ensures StoredState(stored, meta) && DistinctPaths(files) ==>
              ReadsBackRescanned(ReindexOps(stored, files, ignored, meta, base, retracted), stored, files, ignored, meta, base)
  {
    var scanned := ScanOps(stored, files, ignored, meta, base);
    var last := Add(meta, LastScannedTx, VRef(ThisTx));
    var mine := ReindexOps(stored, files, ignored, meta, base, retracted);
    if |scanned| > 0 || |retracted| > 0 {
      var body := scanned + retracted;
      assert mine == body + [last];
      ScanTouchesOnlyStale(stored, files, ignored, meta, base);
      RetractionsOnDisk(retracted, stored, Seen(files, ignored), meta);
      forall j | 0 <= j < |mine| - 1 ensures IsDiskAttr(mine[j].a) {
        assert mine[j] == body[j];
      }
    }
    if StoredState(stored, meta) && DistinctPaths(files) {
      if |scanned| > 0 || |retracted| > 0 {
        ReindexOpsReadBack(stored, files, ignored, meta, base, retracted, [last]);
      } else {
        ReindexOpsReadBack(stored, files, ignored, meta, base, retracted, []);
        assert scanned + retracted + [] == mine;
      }
    }
  }

  /** Datoms appended after a prefix: the prefix is kept, the rest is what was appended, disk attributes included. */
  lemma AppendDiskTail(a: seq<Op>, b: seq<Op>)
    requires forall j :: 0 <= j < |b| - 1 ==> IsDiskAttr(b[j].a)
    ensures (a + b)[|a|..] == b && (a + b)[..|a|] == a
    ensures forall j :: |a| <= j < |a + b| - 1 ==> IsDiskAttr((a + b)[j].a)
  {
    forall j | |a| <= j < |a + b| - 1 ensures IsDiskAttr((a + b)[j].a) {
      assert (a + b)[j] == b[j - |a|];
    }
  }

  /**
   * The private `ReindexState(installation, connection)` wrapper: an
   * installation without an initial disk state gets this transaction as its
   * initial state, which counts as a change. The transaction is committed
   * exactly when the result is true.
   */
  method Rescan(stored: DiskState, files: seq<ObservedFile>, ignored: GamePath -> bool, meta: EntityId, hasInitialState: bool)
    returns (commit: bool, r: Tx)
    ensures commit <==> Changed(stored, files, ignored) || !hasInitialState
    ensures !hasInitialState ==> |r.ops| > 0 && r.ops[|r.ops| - 1] == Add(meta, InitialDiskStateTx, VRef(ThisTx))
    ensures Add(meta, LastScannedTx, VRef(ThisTx)) in r.ops <==> Changed(stored, files, ignored)
    ensures !commit ==> r.ops == []
  {
    commit, r := ReindexState(stored, files, ignored, meta, EmptyTx);
    assert Add(meta, LastScannedTx, VRef(ThisTx)) in r.ops <==> commit by {
      if commit {
        assert r.ops[|r.ops| - 1] in r.ops;
      }
    }
    if !hasInitialState {
      commit := true;
      r := Emit(r, [Add(meta, InitialDiskStateTx, VRef(ThisTx))]);
    }
  }

  // ---------------------------------------------------------------- the state a scan leaves

  /** The entry a non-ignored file ends up with: kept, refreshed in place, or new on `t`. */
  function Refreshed(stored: DiskState, f: ObservedFile, meta: EntityId, t: EntityId): (e: DiskEntry)
    ensures e.path == (if f.path in stored then stored[f.path].path else f.path)
    ensures !NeedsRehash(e, f)
  {
    if f.path in stored then
      var e := stored[f.path];
      if NeedsRehash(e, f) then e.(hash := f.hash, size := f.size, lastModified := f.lastModified) else e
    else DiskEntry(t, f.path, f.hash, f.size, f.lastModified, meta)
  }

  /** The disk state after the scan: one entry per seen path; entries of unseen paths are gone. */
  function Rescanned(stored: DiskState, files: seq<ObservedFile>, ignored: GamePath -> bool, meta: EntityId, base: nat)
    : (r: DiskState)
    ensures r.Keys == Seen(files, ignored)
  {
    if |files| == 0 then map[]
    else
      var init := files[..|files| - 1];
      var f := files[|files| - 1];
      var rest := Rescanned(stored, init, ignored, meta, base);
      assert Seen(files, ignored) == Seen(init, ignored) + (if ignored(f.path) then {} else {f.path}) by {
        assert files == init + [f];
        forall p | p in Seen(files, ignored) ensures p in Seen(init, ignored) || (!ignored(f.path) && p == f.path) {
          var i :| 0 <= i < |files| && files[i].path == p;
          if i < |init| { assert init[i] == files[i]; }
        }
      }
      if ignored(f.path) then rest
      else rest[f.path := Refreshed(stored, f, meta, Temp(base + NewCount(stored, init, ignored)))]
  }

  /** The file paths are pairwise distinct, as a directory enumeration gives them. */
  predicate DistinctPaths(files: seq<ObservedFile>) {
    forall i, j :: 0 <= i < j < |files| ==> files[i].path != files[j].path
  }

  /** A scanned last file appends its own datoms to those of the earlier files. */
  lemma ScanOpsSnoc(stored: DiskState, files: seq<ObservedFile>, ignored: GamePath -> bool, meta: EntityId, base: nat)
    requires |files| > 0 && !ignored(files[|files| - 1].path)
    ensures var init := files[..|files| - 1];
            ScanOps(stored, files, ignored, meta, base)
            == ScanOps(stored, init, ignored, meta, base)
               + FileOps(stored, files[|files| - 1], meta, Temp(base + NewCount(stored, init, ignored)))
  {
  }

  /** A scanned last file overlays its refreshed entry on the state the earlier files leave. */
  lemma RescannedSnoc(stored: DiskState, files: seq<ObservedFile>, ignored: GamePath -> bool, meta: EntityId, base: nat)
    requires |files| > 0 && !ignored(files[|files| - 1].path)
    ensures var init := files[..|files| - 1];
            var x := Refreshed(stored, files[|files| - 1], meta, Temp(base + NewCount(stored, init, ignored)));
            Rescanned(stored, files, ignored, meta, base) == Rescanned(stored, init, ignored, meta, base)[files[|files| - 1].path := x]
  {
  }

  /** With distinct paths, the last file's path is not among those the earlier files show. */
  lemma LastNotSeenBefore(files: seq<ObservedFile>, ignored: GamePath -> bool)
    requires DistinctPaths(files) && |files| > 0
    ensures files[|files| - 1].path !in Seen(files[..|files| - 1], ignored)
  {
    var init := files[..|files| - 1];
    forall i | 0 <= i < |init| ensures init[i].path != files[|files| - 1].path {
      assert init[i] == files[i];
    }
  }

  /** Dropping the last file keeps the paths distinct. */
  lemma DistinctInit(files: seq<ObservedFile>)
    requires DistinctPaths(files) && |files| > 0
    ensures DistinctPaths(files[..|files| - 1])
  {
    var init := files[..|files| - 1];
    forall a, b | 0 <= a < b < |init| ensures init[a].path != init[b].path {
      assert init[a] == files[a] && init[b] == files[b];
    }
  }

  /** Every non-ignored file's entry in the rescanned state is up to date with it. */
  lemma {:induction false} RescannedUpToDate(stored: DiskState, files: seq<ObservedFile>, ignored: GamePath -> bool,
                                             meta: EntityId, base: nat, i: nat)
    requires DistinctPaths(files)
    requires i < |files| && !ignored(files[i].path)
    ensures !Stale(Rescanned(stored, files, ignored, meta, base), files[i])
    decreases |files|
  {
    var init := files[..|files| - 1];
    if i < |files| - 1 {
      assert init[i] == files[i];
      assert DistinctPaths(init) by {
        forall a, b | 0 <= a < b < |init| ensures init[a].path != init[b].path { assert init[a] == files[a] && init[b] == files[b]; }
      }
      RescannedUpToDate(stored, init, ignored, meta, base, i);
    }
  }

  /** Scanning the same files again, against the state the first scan left, reports no change. */
  lemma RescanSettles(stored: DiskState, files: seq<ObservedFile>, ignored: GamePath -> bool, meta: EntityId, base: nat)
    requires DistinctPaths(files)
    ensures !Changed(Rescanned(stored, files, ignored, meta, base), files, ignored)
  {
    forall i | 0 <= i < |files| && !ignored(files[i].path)
      ensures !Stale(Rescanned(stored, files, ignored, meta, base), files[i])
    {
      RescannedUpToDate(stored, files, ignored, meta, base, i);
    }
  }

  /** Scanning the files again, against the rescanned state, writes no datom. */
  lemma SecondScanWritesNothing(stored: DiskState, files: seq<ObservedFile>, ignored: GamePath -> bool,
                                meta: EntityId, base: nat, base2: nat)
    requires DistinctPaths(files)
    ensures ScanOps(Rescanned(stored, files, ignored, meta, base), files, ignored, meta, base2) == []
  {
    RescanSettles(stored, files, ignored, meta, base);
  }

  // ---------------------------------------------------------------- the scan's datoms read back

  /**
   * The stored state as the database hands it over: every entry belongs to
   * this installation and is a committed entity of its own.
   */
  predicate StoredState(stored: DiskState, meta: EntityId) {
    && (forall p :: p in stored ==> stored[p].game == meta && stored[p].id.Stored?)
    && (forall p, q :: p in stored && q in stored && p != q ==> stored[p].id != stored[q].id)
  }

  /** After the re-index, the view reads back the rescanned state, and the entries of unseen paths have lost their path. */
  predicate Reindexed(v: View, stored: DiskState, files: seq<ObservedFile>, ignored: GamePath -> bool, meta: EntityId, base: nat) {
    && HoldsState(v, Rescanned(stored, files, ignored, meta, base))
    && forall p :: p in stored && p !in Seen(files, ignored) ==> (stored[p].id, DiskPath) !in v
  }

  /** A rescanned entry keeps the id of the stored entry at its path, or takes one of the scan's temporary ids. */
  lemma {:induction false} RescannedIds(stored: DiskState, files: seq<ObservedFile>, ignored: GamePath -> bool,
                                        meta: EntityId, base: nat)
    ensures forall p :: p in Rescanned(stored, files, ignored, meta, base) && p in stored ==>
              Rescanned(stored, files, ignored, meta, base)[p].id == stored[p].id
    ensures forall p :: p in Rescanned(stored, files, ignored, meta, base) && p !in stored ==>
              var id := Rescanned(stored, files, ignored, meta, base)[p].id;
              id.Temp? && base <= id.k < base + NewCount(stored, files, ignored)
    decreases |files|
  {
    if |files| > 0 {
      RescannedIds(stored, files[..|files| - 1], ignored, meta, base);
    }
  }

  /** One file's datoms make its entry read back as `Refreshed`. */
  lemma FileOpsHold(w: View, stored: DiskState, f: ObservedFile, meta: EntityId, t: EntityId)
    requires f.path in stored ==> Holds(w, stored[f.path])
    ensures Holds(Apply(w, FileOps(stored, f, meta, t)), Refreshed(stored, f, meta, t))
  {
    var ops := FileOps(stored, f, meta, t);
    if f.path in stored {
      var e := stored[f.path];
      if NeedsRehash(e, f) {
        ApplyLoneAdd(w, ops, 0);
        ApplyLoneAdd(w, ops, 1);
        ApplyLoneAdd(w, ops, 2);
        ApplyUntouched(w, ops, (e.id, DiskPath));
        ApplyUntouched(w, ops, (e.id, DiskGame));
      }
    } else {
      ApplyLoneAdd(w, ops, 0);
      ApplyLoneAdd(w, ops, 1);
      ApplyLoneAdd(w, ops, 2);
      ApplyLoneAdd(w, ops, 3);
      ApplyLoneAdd(w, ops, 4);
    }
  }

  /** The file loop's datoms make the view read back the stored state overlaid with every scanned file's entry. */
  lemma {:induction false} ScanOpsHoldAt(v: View, stored: DiskState, files: seq<ObservedFile>, ignored: GamePath -> bool,
                                         meta: EntityId, base: nat, q: GamePath)
    requires StoredState(stored, meta) && DistinctPaths(files) && HoldsState(v, stored)
    requires q in stored + Rescanned(stored, files, ignored, meta, base)
    ensures Holds(Apply(v, ScanOps(stored, files, ignored, meta, base)), (stored + Rescanned(stored, files, ignored, meta, base))[q])
    decreases |files|
  {
    if |files| > 0 {
      var init := files[..|files| - 1];
      DistinctInit(files);
      if ignored(files[|files| - 1].path) {
        ScanOpsHoldAt(v, stored, init, ignored, meta, base, q);
      } else {
        if q in stored + Rescanned(stored, init, ignored, meta, base) {
          ScanOpsHoldAt(v, stored, init, ignored, meta, base, q);
        }
        ScanStepHoldAt(v, stored, files, ignored, meta, base, q);
      }
    }
  }

  /** The induction step of `ScanOpsHoldAt` for a last file that is scanned. */
  lemma ScanStepHoldAt(v: View, stored: DiskState, files: seq<ObservedFile>, ignored: GamePath -> bool,
                       meta: EntityId, base: nat, q: GamePath)
    requires |files| > 0 && !ignored(files[|files| - 1].path)
    requires StoredState(stored, meta) && DistinctPaths(files)
    requires q in stored + Rescanned(stored, files, ignored, meta, base)
    requires var init := files[..|files| - 1];
             q in stored + Rescanned(stored, init, ignored, meta, base) ==>
               Holds(Apply(v, ScanOps(stored, init, ignored, meta, base)), (stored + Rescanned(stored, init, ignored, meta, base))[q])
    ensures Holds(Apply(v, ScanOps(stored, files, ignored, meta, base)), (stored + Rescanned(stored, files, ignored, meta, base))[q])
  {
    var init := files[..|files| - 1];
    var f := files[|files| - 1];
    var t := Temp(base + NewCount(stored, init, ignored));
    var r0 := Rescanned(stored, init, ignored, meta, base);
    ScanOpsSnocApply(v, stored, files, ignored, meta, base);
    RescannedSnocAt(stored, files, ignored, meta, base, q);
    LastNotSeenBefore(files, ignored);
    RescannedIds(stored, init, ignored, meta, base);
    StepHoldAt(Apply(v, ScanOps(stored, init, ignored, meta, base)), Apply(v, ScanOps(stored, files, ignored, meta, base)),
               stored, r0, f, meta, t, q, (stored + Rescanned(stored, files, ignored, meta, base))[q]);
  }

  /** One file's datoms, in isolation: its own entry becomes `Refreshed`, every other entry reads back as before. */
  lemma StepHoldAt(w0: View, w1: View, stored: DiskState, r0: DiskState, f: ObservedFile, meta: EntityId, t: EntityId,
                   q: GamePath, e: DiskEntry)
    requires StoredState(stored, meta) && t.Temp? && f.path !in r0
    requires w1 == Apply(w0, FileOps(stored, f, meta, t))
    requires forall p :: p in r0 && p !in stored ==> r0[p].id.Temp? && r0[p].id != t
    requires forall p :: p in r0 && p in stored ==> r0[p].id == stored[p].id
    requires q == f.path || q in stored + r0
    requires e == if q == f.path then Refreshed(stored, f, meta, t) else (stored + r0)[q]
    requires q in stored + r0 ==> Holds(w0, (stored + r0)[q])
    ensures Holds(w1, e)
  {
    if q == f.path {
      if f.path in stored {
        assert (stored + r0)[f.path] == stored[f.path];
      }
      FileOpsHold(w0, stored, f, meta, t);
    } else {
      FileStepKeeps(w0, stored, r0, f, meta, t, q);
    }
  }

  /** The view after all files is the view after the earlier files, with the last file's datoms applied. */
  lemma ScanOpsSnocApply(v: View, stored: DiskState, files: seq<ObservedFile>, ignored: GamePath -> bool, meta: EntityId, base: nat)
    requires |files| > 0 && !ignored(files[|files| - 1].path)
    ensures var init := files[..|files| - 1];
            Apply(v, ScanOps(stored, files, ignored, meta, base))
            == Apply(Apply(v, ScanOps(stored, init, ignored, meta, base)),
                     FileOps(stored, files[|files| - 1], meta, Temp(base + NewCount(stored, init, ignored))))
  {
    var init := files[..|files| - 1];
    ScanOpsSnoc(stored, files, ignored, meta, base);
    ApplyAppend(v, ScanOps(stored, init, ignored, meta, base),
                FileOps(stored, files[|files| - 1], meta, Temp(base + NewCount(stored, init, ignored))));
  }

  /** At one path, the overlay after all files is the last file's entry there, and otherwise the overlay after the earlier files. */
  lemma RescannedSnocAt(stored: DiskState, files: seq<ObservedFile>, ignored: GamePath -> bool, meta: EntityId, base: nat, q: GamePath)
    requires |files| > 0 && !ignored(files[|files| - 1].path)
    ensures var init := files[..|files| - 1];
            var f := files[|files| - 1];
            && (q in stored + Rescanned(stored, files, ignored, meta, base) <==> q == f.path || q in stored + Rescanned(stored, init, ignored, meta, base))
            && (q in stored + Rescanned(stored, files, ignored, meta, base) ==>
                  (stored + Rescanned(stored, files, ignored, meta, base))[q]
                  == if q == f.path then Refreshed(stored, f, meta, Temp(base + NewCount(stored, init, ignored)))
                     else (stored + Rescanned(stored, init, ignored, meta, base))[q])
  {
    RescannedSnoc(stored, files, ignored, meta, base);
  }

  /** One file's datoms leave the entry at every other path reading back as it was. */
  lemma FileStepKeeps(w: View, stored: DiskState, r0: DiskState, f: ObservedFile, meta: EntityId, t: EntityId, q: GamePath)
    requires StoredState(stored, meta) && t.Temp? && q != f.path && q in stored + r0 && Holds(w, (stored + r0)[q])
    requires q in r0 ==> if q in stored then r0[q].id == stored[q].id else r0[q].id.Temp? && r0[q].id != t
    ensures Holds(Apply(w, FileOps(stored, f, meta, t)), (stored + r0)[q])
  {
    var x := (stored + r0)[q];
    assert x.id != (if f.path in stored then stored[f.path].id else t);
    HoldsUntouched(w, FileOps(stored, f, meta, t), x);
  }

  /** Every retraction is of a disk attribute. */
  lemma RetractionsOnDisk(retracted: seq<Op>, stored: DiskState, seen: set<GamePath>, meta: EntityId)
    requires UnseenRetractions(retracted, stored, seen, meta)
    ensures forall j :: 0 <= j < |retracted| ==> IsDiskAttr(retracted[j].a)
  {
  }

  /** The retractions leave an entry of a seen path reading back as it was. */
  lemma RetractsKeep(w: View, stored: DiskState, seen: set<GamePath>, meta: EntityId, retracted: seq<Op>, q: GamePath, e: DiskEntry)
    requires StoredState(stored, meta) && UnseenRetractions(retracted, stored, seen, meta) && q in seen && Holds(w, e)
    requires if q in stored then e.id == stored[q].id else e.id.Temp?
    ensures Holds(Apply(w, retracted), e)
  {
    forall j | 0 <= j < |retracted| ensures retracted[j].e != e.id {
      assert retracted[j].Retract?;
      assert exists p :: p in stored && p !in seen && retracted[j].e == stored[p].id;
      var p :| p in stored && p !in seen && retracted[j].e == stored[p].id;
      assert p != q;
    }
    HoldsUntouched(w, retracted, e);
  }

  /** The file datoms, the retractions and any bookkeeping after them leave a seen path's rescanned entry readable. */
  lemma ReindexHoldsAt(v: View, stored: DiskState, files: seq<ObservedFile>, ignored: GamePath -> bool,
                       meta: EntityId, base: nat, retracted: seq<Op>, tail: seq<Op>, q: GamePath)
    requires StoredState(stored, meta) && DistinctPaths(files) && HoldsState(v, stored)
    requires UnseenRetractions(retracted, stored, Seen(files, ignored), meta)
    requires forall i :: 0 <= i < |tail| ==> !IsDiskAttr(tail[i].a)
    requires q in Rescanned(stored, files, ignored, meta, base)
    ensures Holds(Apply(v, ScanOps(stored, files, ignored, meta, base) + retracted + tail), Rescanned(stored, files, ignored, meta, base)[q])
  {
    var scanned := ScanOps(stored, files, ignored, meta, base);
    var r := Rescanned(stored, files, ignored, meta, base);
    var w := Apply(v, scanned);
    assert Holds(w, r[q]) by {
      ScanOpsHoldAt(v, stored, files, ignored, meta, base, q);
    }
    assert Holds(Apply(w, retracted), r[q]) by {
      RescannedIds(stored, files, ignored, meta, base);
      RetractsKeep(w, stored, Seen(files, ignored), meta, retracted, q, r[q]);
    }
    HoldsUntouched(Apply(w, retracted), tail, r[q]);
    ApplyAppend(v, scanned + retracted, tail);
    ApplyAppend(v, scanned, retracted);
  }

  /** The same datoms take the path off the entry of every unseen stored path. */
  lemma ReindexDropsAt(v: View, stored: DiskState, files: seq<ObservedFile>, ignored: GamePath -> bool,
                       meta: EntityId, base: nat, retracted: seq<Op>, tail: seq<Op>, p: GamePath)
    requires StoredState(stored, meta) && DistinctPaths(files) && HoldsState(v, stored)
    requires UnseenRetractions(retracted, stored, Seen(files, ignored), meta)
    requires forall i :: 0 <= i < |tail| ==> !IsDiskAttr(tail[i].a)
    requires p in stored && p !in Seen(files, ignored)
    ensures (stored[p].id, DiskPath) !in Apply(v, ScanOps(stored, files, ignored, meta, base) + retracted + tail)
  {
    var scanned := ScanOps(stored, files, ignored, meta, base);
    var e := stored[p];
    var w := Apply(v, scanned);
    assert Holds(w, e) by {
      ScanOpsHoldAt(v, stored, files, ignored, meta, base, p);
      assert (stored + Rescanned(stored, files, ignored, meta, base))[p] == e;
    }
    assert (e.id, DiskPath) !in Apply(w, retracted) by {
      RetractsRemove(w, retracted, e.id, DiskPath, VPath(meta, e.path));
    }
    ApplyUntouched(Apply(w, retracted), tail, (e.id, DiskPath));
    ApplyAppend(v, scanned + retracted, tail);
    ApplyAppend(v, scanned, retracted);
  }

  /** Applied to any view that reads back the stored state, `ops` leave one that reads back the rescanned state. */
  ghost predicate ReadsBackRescanned(ops: seq<Op>, stored: DiskState, files: seq<ObservedFile>, ignored: GamePath -> bool,
                                     meta: EntityId, base: nat) {
    forall v :: HoldsState(v, stored) ==> Reindexed(Apply(v, ops), stored, files, ignored, meta, base)
  }

  /**
   * The datoms of the re-index (the file datoms, the retractions of
   * `RetractUnseen`, and any bookkeeping after them) turn every view that reads
   * back the stored state into one that reads back the rescanned state.
   */
  lemma ReindexOpsReadBack(stored: DiskState, files: seq<ObservedFile>, ignored: GamePath -> bool,
                           meta: EntityId, base: nat, retracted: seq<Op>, tail: seq<Op>)
    requires StoredState(stored, meta) && DistinctPaths(files)
    requires UnseenRetractions(retracted, stored, Seen(files, ignored), meta)
    requires forall i :: 0 <= i < |tail| ==> !IsDiskAttr(tail[i].a)
    ensures ReadsBackRescanned(ScanOps(stored, files, ignored, meta, base) + retracted + tail, stored, files, ignored, meta, base)
  {
    var ops := ScanOps(stored, files, ignored, meta, base) + retracted + tail;
    forall v: View | HoldsState(v, stored)
      ensures Reindexed(Apply(v, ops), stored, files, ignored, meta, base)
    {
      var r := Rescanned(stored, files, ignored, meta, base);
      forall q | q in r ensures Holds(Apply(v, ops), r[q]) {
        ReindexHoldsAt(v, stored, files, ignored, meta, base, retracted, tail, q);
      }
      forall p | p in stored && p !in Seen(files, ignored) ensures (stored[p].id, DiskPath) !in Apply(v, ops) {
        ReindexDropsAt(v, stored, files, ignored, meta, base, retracted, tail, p);
      }
    }
  }
}
