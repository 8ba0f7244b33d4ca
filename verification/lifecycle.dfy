/**
 * The loadout lifecycle of one game installation: which loadout the
 * installation was last synchronized to (`LastSyncedLoadout`), and which
 * (current, previous, desired) triple every operation hands to the
 * three-way merge. Disk contents are symbolic: a run is recorded by the
 * snapshots it merges, and every run is taken to complete.
 */
module Lifecycle {
  import opened Wrappers

  type LoadoutId = nat

  /** The disk states a merge can be given. */
  datatype Snapshot =
    | CurrentDisk    // the disk state just re-indexed
    | LastApplied    // `GetLastAppliedDiskState`: the state as of the last synchronization

  /** What the merge is asked to reach: a loadout's items, or the files of the initial disk state. */
  datatype Desired = ItemsOf(loadout: LoadoutId) | InitialFiles

  /** Which `RunGroupings` executes the merge's actions. */
  datatype Target = IntoLoadout(loadout: LoadoutId) | IntoInstallation

  datatype Run = Run(current: Snapshot, previous: Snapshot, desired: Desired, target: Target)

  /** The installation's bookkeeping, its loadouts, and the merges run so far. */
  datatype Machine = Machine(
    lastSynced: Option<LoadoutId>,   // `GameInstallMetadata.LastSyncedLoadout`
    hasInitialState: bool,           // `InitialDiskStateTransaction` is recorded
    loadouts: set<LoadoutId>,        // the loadouts that exist (`IsValid`)
    nextLoadout: LoadoutId,          // the id the database hands the next new loadout
    runs: seq<Run>)

  /** The last synced loadout exists, and every loadout id was handed out. */
  predicate Valid(m: Machine) {
    && (m.lastSynced.Some? ==> m.lastSynced.value in m.loadouts)
    && (forall x :: x in m.loadouts ==> x < m.nextLoadout)
  }

  /** The `ReindexState(installation, connection)` wrapper: afterwards an initial disk state is recorded. */
  function Reindex(m: Machine): (r: Machine)
    ensures r.hasInitialState
    ensures r.lastSynced == m.lastSynced && r.loadouts == m.loadouts && r.nextLoadout == m.nextLoadout && r.runs == m.runs
  {
    m.(hasInitialState := true)
  }

  /** `RunGroupings(tree, groupings, loadout)`: the installation now shows the loadout as synchronized. */
  function RunForLoadout(m: Machine, current: Snapshot, previous: Snapshot, l: LoadoutId): (r: Machine)
    ensures r.lastSynced == Some(l)
    ensures r.runs == m.runs + [Run(current, previous, ItemsOf(l), IntoLoadout(l))]
    ensures r.hasInitialState == m.hasInitialState && r.loadouts == m.loadouts && r.nextLoadout == m.nextLoadout
  {
    m.(lastSynced := Some(l), runs := m.runs + [Run(current, previous, ItemsOf(l), IntoLoadout(l))])
  }

  /** Another existing loadout is on disk, so synchronizing `l` first swaps it out. */
  predicate Swaps(m: Machine, l: LoadoutId) {
    m.lastSynced.Some? && m.lastSynced.value != l && m.lastSynced.value in m.loadouts
  }

  function SwapRank(m: Machine, l: LoadoutId): nat {
    if Swaps(m, l) then 1 else 0
  }

  /**
   * `Synchronize(loadout)`. When another loadout is on disk, it is
   * synchronized (to keep its disk changes), the installation is reset, and
   * `l` is activated. Otherwise the disk, the last applied state and the
   * loadout are merged.
   */
  function Synchronize(m: Machine, l: LoadoutId): (r: Machine)
    ensures r.lastSynced == Some(l)
    ensures r.hasInitialState
    ensures r.loadouts == m.loadouts && r.nextLoadout == m.nextLoadout
    ensures |m.runs| < |r.runs| && r.runs[..|m.runs|] == m.runs
    decreases SwapRank(m, l), 1
  {
    if Swaps(m, l) then
      var m1 := Synchronize(m, m.lastSynced.value);
      var m2 := DeactivateCurrentLoadout(m1);
      var r := ActivateLoadout(m2, l);
      assert r.runs[..|m.runs|] == m.runs by {
        assert r.runs[..|m2.runs|][..|m.runs|] == r.runs[..|m.runs|];
        assert m2.runs[..|m1.runs|][..|m.runs|] == m2.runs[..|m.runs|];
      }
      r
    else
      RunForLoadout(Reindex(m), CurrentDisk, LastApplied, l)
  }

  /** `DeactivateCurrentLoadout`: synchronize the loadout on disk, then put the game back to its initial files. */
  function DeactivateCurrentLoadout(m: Machine): (r: Machine)
    ensures r.lastSynced.None?
    ensures r.loadouts == m.loadouts && r.nextLoadout == m.nextLoadout
    ensures |m.runs| <= |r.runs| && r.runs[..|m.runs|] == m.runs
    ensures m.lastSynced.None? ==> r == m
    decreases 1, 0
  {
    if m.lastSynced.None? then m
    else
      var m1 := Synchronize(m, m.lastSynced.value);
      var r := ResetToOriginalGameState(m1);
      assert r.runs[..|m1.runs|][..|m.runs|] == r.runs[..|m.runs|];
      r
  }

  /**
   * `ResetToOriginalGameState`: merge the disk against the last applied
   * state with the initial files as the goal, run for the installation
   * alone. The re-index always records an initial state, so the throw for a
   * missing one cannot be reached.
   */
  function ResetToOriginalGameState(m: Machine): (r: Machine)
    ensures r.lastSynced.None? && r.hasInitialState
    ensures r.runs == m.runs + [Run(CurrentDisk, LastApplied, InitialFiles, IntoInstallation)]
    ensures r.loadouts == m.loadouts && r.nextLoadout == m.nextLoadout
  {
    var m1 := Reindex(m);
    m1.(lastSynced := None, runs := m1.runs + [Run(CurrentDisk, LastApplied, InitialFiles, IntoInstallation)])
  }

  /** `ActivateLoadout`: the re-indexed disk is both current and previous, so no disk change is taken into the loadout. */
  function ActivateLoadout(m: Machine, l: LoadoutId): (r: Machine)
    ensures r.lastSynced == Some(l) && r.hasInitialState
    ensures r.runs == m.runs + [Run(CurrentDisk, CurrentDisk, ItemsOf(l), IntoLoadout(l))]
    ensures r.loadouts == m.loadouts && r.nextLoadout == m.nextLoadout
  {
    RunForLoadout(Reindex(m), CurrentDisk, CurrentDisk, l)
  }

  /** `DeleteLoadout`: deactivate it first when it is on disk, then remove it. */
  function DeleteLoadout(m: Machine, l: LoadoutId): (r: Machine)
    ensures l !in r.loadouts && r.loadouts == m.loadouts - {l}
    ensures r.lastSynced != Some(l)
    ensures m.lastSynced != Some(l) ==> r.lastSynced == m.lastSynced && r.runs == m.runs
  {
    var m1 := if m.lastSynced == Some(l) then DeactivateCurrentLoadout(m) else m;
    m1.(loadouts := m1.loadouts - {l})
  }

  /**
   * `CreateLoadout`: make sure an initial disk state exists, add a new
   * loadout, and activate it when it is the installation's only one.
   */
  function CreateLoadout(m: Machine): (r: (Machine, LoadoutId))
    ensures r.1 == m.nextLoadout && r.0.loadouts == m.loadouts + {r.1}
    ensures r.0.hasInitialState
    ensures m.loadouts == {} ==> r.0.lastSynced == Some(r.1)
    ensures m.loadouts != {} ==> r.0.lastSynced == m.lastSynced && r.0.runs == m.runs
  {
    var m1 := Reindex(m);
    var id := m1.nextLoadout;
    var m2 := m1.(loadouts := m1.loadouts + {id}, nextLoadout := id + 1);
    if m.loadouts == {} then (ActivateLoadout(m2, id), id) else (m2, id)
  }

  // ---------------------------------------------------------------- properties

  /** Synchronizing the loadout already on disk, or with nothing to swap out, is one merge of disk, last applied state and loadout. */
  lemma SynchronizeInPlace(m: Machine, l: LoadoutId)
    requires !Swaps(m, l)
    ensures Synchronize(m, l).runs == m.runs + [Run(CurrentDisk, LastApplied, ItemsOf(l), IntoLoadout(l))]
  {
  }

  /**
   * Swapping loadouts: the previous loadout is synchronized twice (directly,
   * then again by the deactivation), the game is reset to its initial files,
   * and the new loadout is applied with the disk as its own previous state.
   */
  lemma SynchronizeSwap(m: Machine, l: LoadoutId)
    requires Swaps(m, l)
    ensures var p := m.lastSynced.value;
            Synchronize(m, l).runs
            == m.runs + [ Run(CurrentDisk, LastApplied, ItemsOf(p), IntoLoadout(p)),
                          Run(CurrentDisk, LastApplied, ItemsOf(p), IntoLoadout(p)),
                          Run(CurrentDisk, LastApplied, InitialFiles, IntoInstallation),
                          Run(CurrentDisk, CurrentDisk, ItemsOf(l), IntoLoadout(l)) ]
  {
    var p := m.lastSynced.value;
    var synced := Run(CurrentDisk, LastApplied, ItemsOf(p), IntoLoadout(p));
    var m1 := Synchronize(m, p);
    assert !Swaps(m, p);
    assert m1.runs == m.runs + [synced];
    var m2 := Synchronize(m1, p);
    assert !Swaps(m1, p);
    assert m2.runs == m1.runs + [synced];
    var m3 := DeactivateCurrentLoadout(m1);
    assert m3 == ResetToOriginalGameState(m2);
    assert Synchronize(m, l) == ActivateLoadout(m3, l);
  }

  /** Every operation keeps the last synced loadout among the existing ones. */
  lemma SynchronizeKeepsValid(m: Machine, l: LoadoutId)
    requires Valid(m) && l in m.loadouts
    ensures Valid(Synchronize(m, l))
  {
  }

  lemma DeactivateKeepsValid(m: Machine)
    requires Valid(m)
    ensures Valid(DeactivateCurrentLoadout(m))
  {
  }

  lemma DeleteKeepsValid(m: Machine, l: LoadoutId)
    requires Valid(m)
    ensures Valid(DeleteLoadout(m, l))
  {
  }

  lemma CreateKeepsValid(m: Machine)
    requires Valid(m)
    ensures Valid(CreateLoadout(m).0)
    ensures CreateLoadout(m).1 !in m.loadouts
  {
  }

  /** After deactivation, synchronizing any loadout merges it in place: nothing is left to swap out. */
  lemma DeactivatedSynchronizesInPlace(m: Machine, l: LoadoutId)
    ensures !Swaps(DeactivateCurrentLoadout(m), l)
  {
  }
}
