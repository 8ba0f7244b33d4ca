/**
 * The two `RunGroupings` drivers: walk the actions in their fixed order, run
 * the helper of every non-empty group against one transaction, then write
 * the bookkeeping datoms, and (for a loadout) reap the directories the
 * deletions emptied.
 */
module SyncRun {
  import opened Wrappers
  import opened GamePaths
  import opened Datoms
  import opened DiskStates
  import opened SyncTrees
  import opened Classification
  import opened SyncActions
  import opened DirectoryReaper

  /** What a run reads besides the groupings: ids, database lookups done up front, the content store, the clock and the OS. */
  datatype Context = Context(
    loadout: EntityId,
    gameMeta: EntityId,
    overridesFound: Option<EntityId>,   // the Overrides group `FindByOverridesFor` sees in the pre-run database
    validItems: set<EntityId>,          // the loadout files that still exist
    store: set<Hash>,                   // the hashes the content store already holds
    now: int,                           // `DateTime.UtcNow`
    isUnix: bool)

  /** The effects outside the database, as requests in the order they are issued. */
  datatype Effects = Effects(
    backups: seq<BackupRequest>,        // archived by `BackupFiles`
    deleted: seq<GamePath>,             // files removed from disk
    extracted: seq<(Hash, GamePath)>,   // files written by `ExtractFiles`
    executable: seq<GamePath>)          // files given execute bits

  const NoEffects := Effects([], [], [], [])

  /** The open transaction, the effects so far, and the Overrides group the run has obtained, if any. */
  datatype RunState = RunState(tx: Tx, fx: Effects, overrides: Option<EntityId>)

  function Initial(ctx: Context): RunState {
    RunState(EmptyTx, NoEffects, ctx.overridesFound)
  }

  /** `ActionsInOrder`: every action exactly once. Its concrete order is not part of this model. */
  predicate IsActionOrder(order: seq<Action>) {
    && (forall a: Action :: a in order)
    && Distinct(order)
  }

  predicate Distinct(order: seq<Action>) {
    forall i, j :: 0 <= i < j < |order| ==> order[i] != order[j]
  }

  /** The two actions whose helpers call `GetOrCreateOverridesGroup`. */
  predicate Creates(a: Action) {
    a == IngestFromDisk || a == AddReifiedDelete
  }

  /**
   * The Overrides group a creating helper looks up. As written, every call
   * queries the database snapshot taken before the run (`share` false); the
   * corrected driver hands the group it already obtained to later helpers
   * (`share` true).
   */
  function Found(ctx: Context, st: RunState, share: bool): Option<EntityId> {
    if share then st.overrides else ctx.overridesFound
  }

  /** When the helper for `a` throws on `group`. */
  predicate GroupOk(a: Action, group: seq<ClassifiedNode>, inLoadout: bool) {
    match a
    case BackupFile => forall i :: 0 <= i < |group| ==> group[i].node.disk.Some?
    case IngestFromDisk => inLoadout && forall i :: 0 <= i < |group| ==> group[i].node.disk.Some?
    case DeleteFromDisk => forall i :: 0 <= i < |group| ==> Replaced(group[i]) || group[i].node.disk.Some?
    case ExtractToDisk => forall i :: 0 <= i < |group| ==> group[i].node.loadout.Some?
    case AddReifiedDelete => inLoadout
    case _ => true
  }

  /** One case of the driver's `switch`, on a non-empty group. */
  function Step(ctx: Context, st: RunState, a: Action, group: seq<ClassifiedNode>, inLoadout: bool, share: bool)
    : (r: Result<RunState, SyncError>)
    ensures r.Success? <==> GroupOk(a, group, inLoadout)
    ensures r.Success? ==> Extends(st.tx, r.value.tx)
  {
    match a
    case BackupFile =>
      var files :- BackupRequests(group);
      Success(st.(fx := st.fx.(backups := st.fx.backups + BackupNewFiles(files, ctx.store))))
    case IngestFromDisk =>
      if !inLoadout then Failure(NotInLoadoutContext(a))
      else
        var (ov, tx1) := GetOrCreateOverridesGroup(Found(ctx, st, share), ctx.loadout, st.tx);
        var ops :- ActionIngestFromDisk(group, ctx.loadout, ov, ctx.validItems, ctx.now, tx1.nextTemp);
        assert tx1.ops <= tx1.ops + ops;
        Success(RunState(Tx(tx1.ops + ops, tx1.nextTemp + NewFileCount(group, ctx.validItems)), st.fx, Some(ov)))
    case DeleteFromDisk =>
      var ops :- ActionDeleteFromDisk(group);
      Success(st.(tx := Emit(st.tx, ops), fx := st.fx.(deleted := st.fx.deleted + Paths(group))))
    case ExtractToDisk =>
      var reqs :- ExtractRequests(group);
      var ops :- ActionExtractToDisk(group, ctx.gameMeta, ctx.now, st.tx.nextTemp);
      Success(RunState(Tx(st.tx.ops + ops, st.tx.nextTemp + NewEntryCount(group)),
                       st.fx.(extracted := st.fx.extracted + reqs,
                              executable := st.fx.executable + MadeExecutable(ctx.isUnix, group)),
                       st.overrides))
    case AddReifiedDelete =>
      if !inLoadout then Failure(NotInLoadoutContext(a))
      else
        var (ov, tx1) := GetOrCreateOverridesGroup(Found(ctx, st, share), ctx.loadout, st.tx);
        var ops := ActionAddReifiedDelete(group, ctx.loadout, ov, tx1.nextTemp);
        assert tx1.ops <= tx1.ops + ops;
        Success(RunState(Tx(tx1.ops + ops, tx1.nextTemp + |group|), st.fx, Some(ov)))
    case _ => Success(st)
  }

  /** The `foreach (var action in ActionsInOrder)` loop: empty groups are skipped, the first throw ends the run. */
  function RunActions(ctx: Context, nodes: seq<ClassifiedNode>, order: seq<Action>, inLoadout: bool, share: bool)
    : (r: Result<RunState, SyncError>)
    decreases |order|
  {
    if |order| == 0 then Success(Initial(ctx))
    else
      var st :- RunActions(ctx, nodes, order[..|order| - 1], inLoadout, share);
      var a := order[|order| - 1];
      var group := Grouping(nodes, a);
      if |group| == 0 then Success(st) else Step(ctx, st, a, group, inLoadout, share)
  }

  /** The group of `a` is empty, or its helper does not throw. */
  predicate StepOk(nodes: seq<ClassifiedNode>, a: Action, inLoadout: bool) {
    |Grouping(nodes, a)| == 0 || GroupOk(a, Grouping(nodes, a), inLoadout)
  }

  /** The last action of a successful run: its group was skipped, or its step continued the rest of the run. */
  lemma RunActionsLast(ctx: Context, nodes: seq<ClassifiedNode>, order: seq<Action>, inLoadout: bool, share: bool)
    requires |order| > 0 && RunActions(ctx, nodes, order, inLoadout, share).Success?
    ensures RunActions(ctx, nodes, order[..|order| - 1], inLoadout, share).Success?
    ensures |Grouping(nodes, order[|order| - 1])| == 0 ==>
              RunActions(ctx, nodes, order, inLoadout, share) == RunActions(ctx, nodes, order[..|order| - 1], inLoadout, share)
    ensures |Grouping(nodes, order[|order| - 1])| > 0 ==>
              Step(ctx, RunActions(ctx, nodes, order[..|order| - 1], inLoadout, share).value, order[|order| - 1],
                   Grouping(nodes, order[|order| - 1]), inLoadout, share)
              == RunActions(ctx, nodes, order, inLoadout, share)
  {
  }

  /** Every non-empty group of the order can be run. */
  predicate AllGroupsOk(nodes: seq<ClassifiedNode>, order: seq<Action>, inLoadout: bool) {
    forall k :: 0 <= k < |order| ==> StepOk(nodes, order[k], inLoadout)
  }

  /** The run completes exactly when no helper throws. */
  lemma {:induction false} RunActionsSucceeds(ctx: Context, nodes: seq<ClassifiedNode>, order: seq<Action>, inLoadout: bool, share: bool)
    ensures RunActions(ctx, nodes, order, inLoadout, share).Success? <==> AllGroupsOk(nodes, order, inLoadout)
    decreases |order|
  {
    if |order| > 0 {
      var init := order[..|order| - 1];
      RunActionsSucceeds(ctx, nodes, init, inLoadout, share);
      AllGroupsOkLast(nodes, order, inLoadout);
      RunActionsUnfold(ctx, nodes, order, inLoadout, share);
    }
  }

  lemma AllGroupsOkLast(nodes: seq<ClassifiedNode>, order: seq<Action>, inLoadout: bool)
    requires |order| > 0
    ensures AllGroupsOk(nodes, order, inLoadout)
        <==> AllGroupsOk(nodes, order[..|order| - 1], inLoadout) && StepOk(nodes, order[|order| - 1], inLoadout)
  {
    assert forall k :: 0 <= k < |order| - 1 ==> order[..|order| - 1][k] == order[k];
  }

  /** One more action: the run so far completes, and the action's group is empty or its step succeeds. */
  lemma RunActionsUnfold(ctx: Context, nodes: seq<ClassifiedNode>, order: seq<Action>, inLoadout: bool, share: bool)
    requires |order| > 0
    ensures var run := RunActions(ctx, nodes, order[..|order| - 1], inLoadout, share);
            var a := order[|order| - 1];
            RunActions(ctx, nodes, order, inLoadout, share).Success?
            <==> run.Success? && (|Grouping(nodes, a)| == 0 || GroupOk(a, Grouping(nodes, a), inLoadout))
  {
    var run := RunActions(ctx, nodes, order[..|order| - 1], inLoadout, share);
    var a := order[|order| - 1];
    if run.Success? && |Grouping(nodes, a)| > 0 {
      assert RunActions(ctx, nodes, order, inLoadout, share) == Step(ctx, run.value, a, Grouping(nodes, a), inLoadout, share);
    }
  }

  // ---------------------------------------------------------------- bookkeeping datoms stay untouched

  /** No datom of the batch is an installation or loadout bookkeeping datom. */
  predicate NoMetadata(ops: seq<Op>) {
    forall j :: 0 <= j < |ops| ==> !IsMetadataAttr(ops[j].a)
  }

  lemma NoMetadataAppend(a: seq<Op>, b: seq<Op>)
    requires NoMetadata(a) && NoMetadata(b)
    ensures NoMetadata(a + b)
  {
    assert forall j :: |a| <= j < |a + b| ==> (a + b)[j] == b[j - |a|];
  }

  /** What one step adds to the transaction: no bookkeeping datom, and at most the one Overrides group. */
  lemma StepFacts(ctx: Context, st: RunState, a: Action, group: seq<ClassifiedNode>, inLoadout: bool, share: bool, r: RunState)
    requires Step(ctx, st, a, group, inLoadout, share) == Success(r)
    ensures NoMetadata(st.tx.ops) ==> NoMetadata(r.tx.ops)
    ensures CountOverridesFor(r.tx.ops)
         == CountOverridesFor(st.tx.ops) + (if Creates(a) && Found(ctx, st, share).None? then 1 else 0)
    ensures !Creates(a) ==> r.overrides == st.overrides
    ensures Creates(a) ==> r.overrides.Some? && (Found(ctx, st, share).Some? ==> r.overrides == Found(ctx, st, share))
  {
    match a
    case IngestFromDisk => IngestStepFacts(ctx, st, group, inLoadout, share, r);
    case AddReifiedDelete => ReifiedStepFacts(ctx, st, group, inLoadout, share, r);
    case DeleteFromDisk => DeleteStepFacts(ctx, st, group, inLoadout, share, r);
    case ExtractToDisk => ExtractStepFacts(ctx, st, group, inLoadout, share, r);
    case _ =>
  }

  lemma IngestStepFacts(ctx: Context, st: RunState, group: seq<ClassifiedNode>, inLoadout: bool, share: bool, r: RunState)
    requires Step(ctx, st, IngestFromDisk, group, inLoadout, share) == Success(r)
    ensures NoMetadata(st.tx.ops) ==> NoMetadata(r.tx.ops)
    ensures CountOverridesFor(r.tx.ops) == CountOverridesFor(st.tx.ops) + (if Found(ctx, st, share).None? then 1 else 0)
    ensures r.overrides.Some? && (Found(ctx, st, share).Some? ==> r.overrides == Found(ctx, st, share))
  {
    var (ov, tx1) := GetOrCreateOverridesGroup(Found(ctx, st, share), ctx.loadout, st.tx);
    var ops := ActionIngestFromDisk(group, ctx.loadout, ov, ctx.validItems, ctx.now, tx1.nextTemp).value;
    assert r.tx.ops == tx1.ops + ops && r.overrides == Some(ov);
    IngestWritesNoGroup(group, ctx.loadout, ov, ctx.validItems, ctx.now, tx1.nextTemp);
    CreatorFacts(ctx, st, share, ops);
  }

  lemma ReifiedStepFacts(ctx: Context, st: RunState, group: seq<ClassifiedNode>, inLoadout: bool, share: bool, r: RunState)
    requires Step(ctx, st, AddReifiedDelete, group, inLoadout, share) == Success(r)
    ensures NoMetadata(st.tx.ops) ==> NoMetadata(r.tx.ops)
    ensures CountOverridesFor(r.tx.ops) == CountOverridesFor(st.tx.ops) + (if Found(ctx, st, share).None? then 1 else 0)
    ensures r.overrides.Some? && (Found(ctx, st, share).Some? ==> r.overrides == Found(ctx, st, share))
  {
    var (ov, tx1) := GetOrCreateOverridesGroup(Found(ctx, st, share), ctx.loadout, st.tx);
    var ops := ActionAddReifiedDelete(group, ctx.loadout, ov, tx1.nextTemp);
    assert r.tx.ops == tx1.ops + ops && r.overrides == Some(ov);
    ReifiedDeleteWritesNoGroup(group, ctx.loadout, ov, tx1.nextTemp);
    CreatorFacts(ctx, st, share, ops);
  }

  lemma DeleteStepFacts(ctx: Context, st: RunState, group: seq<ClassifiedNode>, inLoadout: bool, share: bool, r: RunState)
    requires Step(ctx, st, DeleteFromDisk, group, inLoadout, share) == Success(r)
    ensures NoMetadata(st.tx.ops) ==> NoMetadata(r.tx.ops)
    ensures CountOverridesFor(r.tx.ops) == CountOverridesFor(st.tx.ops)
    ensures r.overrides == st.overrides
  {
    var ops := ActionDeleteFromDisk(group).value;
    assert r.tx.ops == st.tx.ops + ops;
    DeleteRetractsExactly(group);
    PlainFacts(st.tx.ops, ops);
  }

  lemma ExtractStepFacts(ctx: Context, st: RunState, group: seq<ClassifiedNode>, inLoadout: bool, share: bool, r: RunState)
    requires Step(ctx, st, ExtractToDisk, group, inLoadout, share) == Success(r)
    ensures NoMetadata(st.tx.ops) ==> NoMetadata(r.tx.ops)
    ensures CountOverridesFor(r.tx.ops) == CountOverridesFor(st.tx.ops)
    ensures r.overrides == st.overrides
  {
    var ops := ActionExtractToDisk(group, ctx.gameMeta, ctx.now, st.tx.nextTemp).value;
    assert r.tx.ops == st.tx.ops + ops;
    ExtractTouchesOnlyEntries(group, ctx.gameMeta, ctx.now, st.tx.nextTemp);
    PlainFacts(st.tx.ops, ops);
  }

  /** Appending datoms that are neither bookkeeping nor group creation. */
  lemma PlainFacts(pre: seq<Op>, ops: seq<Op>)
    requires forall j :: 0 <= j < |ops| ==> !IsMetadataAttr(ops[j].a) && !(ops[j].Add? && ops[j].a == OverridesFor)
    ensures NoMetadata(pre) ==> NoMetadata(pre + ops)
    ensures CountOverridesFor(pre + ops) == CountOverridesFor(pre)
  {
    CountAppend(pre, ops);
    CountNone(ops);
    if NoMetadata(pre) {
      NoMetadataAppend(pre, ops);
    }
  }

  /** Obtaining the Overrides group, then appending datoms that create no group. */
  lemma CreatorFacts(ctx: Context, st: RunState, share: bool, ops: seq<Op>)
    requires forall j :: 0 <= j < |ops| ==> !IsMetadataAttr(ops[j].a) && !(ops[j].Add? && ops[j].a == OverridesFor)
    ensures var tx1 := GetOrCreateOverridesGroup(Found(ctx, st, share), ctx.loadout, st.tx).1;
            && (NoMetadata(st.tx.ops) ==> NoMetadata(tx1.ops + ops))
            && CountOverridesFor(tx1.ops + ops)
               == CountOverridesFor(st.tx.ops) + (if Found(ctx, st, share).None? then 1 else 0)
  {
    var tx1 := GetOrCreateOverridesGroup(Found(ctx, st, share), ctx.loadout, st.tx).1;
    OverridesGroupWritesNoMetadata(Found(ctx, st, share), ctx.loadout, st.tx);
    if NoMetadata(st.tx.ops) {
      assert forall j :: 0 <= j < |st.tx.ops| ==> tx1.ops[j] == st.tx.ops[j];
      assert NoMetadata(tx1.ops);
    }
    PlainFacts(tx1.ops, ops);
  }

  /** Every datom the helpers write leaves the bookkeeping attributes alone. */
  lemma {:induction false} RunWritesNoMetadata(ctx: Context, nodes: seq<ClassifiedNode>, order: seq<Action>, inLoadout: bool, share: bool)
    requires RunActions(ctx, nodes, order, inLoadout, share).Success?
    ensures NoMetadata(RunActions(ctx, nodes, order, inLoadout, share).value.tx.ops)
    decreases |order|
  {
    if |order| > 0 {
      var init := order[..|order| - 1];
      RunWritesNoMetadata(ctx, nodes, init, inLoadout, share);
      var st := RunActions(ctx, nodes, init, inLoadout, share).value;
      var a := order[|order| - 1];
      if |Grouping(nodes, a)| > 0 {
        RunActionsLast(ctx, nodes, order, inLoadout, share);
        StepFacts(ctx, st, a, Grouping(nodes, a), inLoadout, share, RunActions(ctx, nodes, order, inLoadout, share).value);
      }
    }
  }

  // ---------------------------------------------------------------- the Overrides group

  /**
   * The corrected driver: the transaction creates an Overrides group only
   * when the database has none, and then exactly one, however many creating
   * helpers run.
   */
  lemma {:induction false} SharedOverridesCreatedOnce(ctx: Context, nodes: seq<ClassifiedNode>, order: seq<Action>, inLoadout: bool)
    requires RunActions(ctx, nodes, order, inLoadout, true).Success?
    ensures ctx.overridesFound.Some? ==> RunActions(ctx, nodes, order, inLoadout, true).value.overrides == ctx.overridesFound
    ensures CountOverridesFor(RunActions(ctx, nodes, order, inLoadout, true).value.tx.ops)
         == (if ctx.overridesFound.None? && RunActions(ctx, nodes, order, inLoadout, true).value.overrides.Some? then 1 else 0)
    decreases |order|
  {
    if |order| > 0 {
      var init := order[..|order| - 1];
      SharedOverridesCreatedOnce(ctx, nodes, init, inLoadout);
      var st := RunActions(ctx, nodes, init, inLoadout, true).value;
      var a := order[|order| - 1];
      if |Grouping(nodes, a)| > 0 {
        RunActionsLast(ctx, nodes, order, inLoadout, true);
        StepFacts(ctx, st, a, Grouping(nodes, a), inLoadout, true, RunActions(ctx, nodes, order, inLoadout, true).value);
      }
    }
  }

  /** How many non-empty creating groups the order runs. */
  function CreatorSteps(nodes: seq<ClassifiedNode>, order: seq<Action>): (r: nat)
    ensures r <= |order|
    decreases |order|
  {
    if |order| == 0 then 0
    else
      var a := order[|order| - 1];
      CreatorSteps(nodes, order[..|order| - 1]) + (if Creates(a) && |Grouping(nodes, a)| > 0 then 1 else 0)
  }

  /**
   * The driver as written: each creating helper looks the group up in the
   * pre-run database, so when it has none, every non-empty creating group
   * creates its own.
   */
  lemma {:induction false} SnapshotOverridesPerHelper(ctx: Context, nodes: seq<ClassifiedNode>, order: seq<Action>, inLoadout: bool)
    requires RunActions(ctx, nodes, order, inLoadout, false).Success?
    ensures CountOverridesFor(RunActions(ctx, nodes, order, inLoadout, false).value.tx.ops)
         == (if ctx.overridesFound.None? then CreatorSteps(nodes, order) else 0)
    decreases |order|
  {
    if |order| > 0 {
      var init := order[..|order| - 1];
      SnapshotOverridesPerHelper(ctx, nodes, init, inLoadout);
      var st := RunActions(ctx, nodes, init, inLoadout, false).value;
      var a := order[|order| - 1];
      if |Grouping(nodes, a)| > 0 {
        RunActionsLast(ctx, nodes, order, inLoadout, false);
        StepFacts(ctx, st, a, Grouping(nodes, a), inLoadout, false, RunActions(ctx, nodes, order, inLoadout, false).value);
      }
    }
  }

  /** The creating actions of the order whose group is non-empty. */
  function CreatorActions(nodes: seq<ClassifiedNode>, order: seq<Action>): set<Action> {
    set a | a in order && Creates(a) && |Grouping(nodes, a)| > 0
  }

  lemma {:induction false} CreatorStepsDistinct(nodes: seq<ClassifiedNode>, order: seq<Action>)
    requires Distinct(order)
    ensures CreatorSteps(nodes, order) == |CreatorActions(nodes, order)|
    decreases |order|
  {
    if |order| > 0 {
      var init := order[..|order| - 1];
      var a := order[|order| - 1];
      DistinctLast(order);
      CreatorStepsDistinct(nodes, init);
      var s0 := CreatorActions(nodes, init);
      var s1 := CreatorActions(nodes, order);
      if Creates(a) && |Grouping(nodes, a)| > 0 {
        assert s1 == s0 + {a};
        assert a !in s0;
        assert |s1| == |s0| + 1;
      } else {
        assert s1 == s0;
        assert CreatorSteps(nodes, order) == CreatorSteps(nodes, init);
      }
    }
  }

  /**
   * The discrepancy: with no Overrides group in the database, a run that
   * both ingests a new file and records a reified delete creates two
   * Overrides groups for the same loadout, whatever `ActionsInOrder` is.
   */
  lemma TwoOverridesGroups(ctx: Context, order: seq<Action>, ingested: ClassifiedNode, removed: ClassifiedNode)
    requires IsActionOrder(order) && ctx.overridesFound.None?
    requires ingested.actions == {IngestFromDisk} && ingested.node.disk.Some?
    requires removed.actions == {AddReifiedDelete}
    ensures && RunActions(ctx, [ingested, removed], order, true, false).Success?
            && CountOverridesFor(RunActions(ctx, [ingested, removed], order, true, false).value.tx.ops) == 2
  {
    var nodes := [ingested, removed];
    TwoNodeGroupsOk(order, ingested, removed);
    RunActionsSucceeds(ctx, nodes, order, true, false);
    assert ingested in Grouping(nodes, IngestFromDisk);
    assert removed in Grouping(nodes, AddReifiedDelete);
    SnapshotCreatesPerGroup(ctx, nodes, order);
  }

  /** As written, a run with both creating groups non-empty and no group in the database creates two. */
  lemma SnapshotCreatesPerGroup(ctx: Context, nodes: seq<ClassifiedNode>, order: seq<Action>)
    requires IsActionOrder(order) && ctx.overridesFound.None?
    requires RunActions(ctx, nodes, order, true, false).Success?
    requires |Grouping(nodes, IngestFromDisk)| > 0 && |Grouping(nodes, AddReifiedDelete)| > 0
    ensures CountOverridesFor(RunActions(ctx, nodes, order, true, false).value.tx.ops) == 2
  {
    SnapshotOverridesPerHelper(ctx, nodes, order, true);
    CreatorStepsDistinct(nodes, order);
    assert CreatorActions(nodes, order) == {IngestFromDisk, AddReifiedDelete};
  }

  /** The same run through the corrected driver creates the one group. */
  lemma OneOverridesGroupShared(ctx: Context, order: seq<Action>, ingested: ClassifiedNode, removed: ClassifiedNode)
    requires IsActionOrder(order) && ctx.overridesFound.None?
    requires ingested.actions == {IngestFromDisk} && ingested.node.disk.Some?
    requires removed.actions == {AddReifiedDelete}
    ensures && RunActions(ctx, [ingested, removed], order, true, true).Success?
            && CountOverridesFor(RunActions(ctx, [ingested, removed], order, true, true).value.tx.ops) == 1
  {
    var nodes := [ingested, removed];
    TwoNodeGroupsOk(order, ingested, removed);
    RunActionsSucceeds(ctx, nodes, order, true, true);
    assert ingested in Grouping(nodes, IngestFromDisk);
    SharedCount(ctx, nodes, order);
  }

  /** No node holds the action, so its group is empty. */
  lemma {:induction false} GroupingNone(nodes: seq<ClassifiedNode>, a: Action)
    requires forall i :: 0 <= i < |nodes| ==> a !in nodes[i].actions
    ensures Grouping(nodes, a) == []
    decreases |nodes|
  {
    if |nodes| > 0 {
      GroupingNone(nodes[..|nodes| - 1], a);
    }
  }

  /** In the two-node run, only the ingest and reified-delete groups are non-empty, and neither throws. */
  lemma TwoNodeGroupsOk(order: seq<Action>, ingested: ClassifiedNode, removed: ClassifiedNode)
    requires ingested.actions == {IngestFromDisk} && ingested.node.disk.Some?
    requires removed.actions == {AddReifiedDelete}
    ensures AllGroupsOk([ingested, removed], order, true)
  {
    var nodes := [ingested, removed];
    forall k | 0 <= k < |order|
      ensures StepOk(nodes, order[k], true)
    {
      var a := order[k];
      if a == IngestFromDisk {
        var g := Grouping(nodes, a);
        forall i | 0 <= i < |g| ensures g[i].node.disk.Some? {
          assert g[i] in g;
        }
      } else if a != AddReifiedDelete {
        GroupingNone(nodes, a);
      }
    }
  }

  /** Once a creating helper has run, the run holds an Overrides group. */
  lemma {:induction false} OverridesObtained(ctx: Context, nodes: seq<ClassifiedNode>, order: seq<Action>, inLoadout: bool,
                                             share: bool, a: Action)
    requires RunActions(ctx, nodes, order, inLoadout, share).Success?
    requires a in order && Creates(a) && |Grouping(nodes, a)| > 0
    ensures RunActions(ctx, nodes, order, inLoadout, share).value.overrides.Some?
    decreases |order|
  {
    var init := order[..|order| - 1];
    var b := order[|order| - 1];
    var st := RunActions(ctx, nodes, init, inLoadout, share).value;
    var r := RunActions(ctx, nodes, order, inLoadout, share).value;
    assert order == init + [b];
    if |Grouping(nodes, b)| > 0 {
      RunActionsLast(ctx, nodes, order, inLoadout, share);
      StepFacts(ctx, st, b, Grouping(nodes, b), inLoadout, share, r);
    }
    if b != a {
      OverridesObtained(ctx, nodes, init, inLoadout, share, a);
    }
  }

  // ---------------------------------------------------------------- effects

  /** Dropping the last action of an order that lists each action once. */
  lemma DistinctLast(order: seq<Action>)
    requires Distinct(order) && |order| > 0
    ensures Distinct(order[..|order| - 1])
    ensures order[|order| - 1] !in order[..|order| - 1]
    ensures forall b :: b in order <==> b in order[..|order| - 1] || b == order[|order| - 1]
  {
    var init := order[..|order| - 1];
    assert order == init + [order[|order| - 1]];
    forall k | 0 <= k < |init| ensures init[k] != order[|order| - 1] { assert init[k] == order[k]; }
  }

  /** Over an order that lists each action once, the files deleted from disk are the delete group's, once, in group order. */
  lemma {:induction false} RunDeletes(ctx: Context, nodes: seq<ClassifiedNode>, order: seq<Action>, inLoadout: bool, share: bool)
    requires Distinct(order)
    requires RunActions(ctx, nodes, order, inLoadout, share).Success?
    ensures DeleteFromDisk in order ==> RunActions(ctx, nodes, order, inLoadout, share).value.fx.deleted == Paths(Grouping(nodes, DeleteFromDisk))
    ensures DeleteFromDisk !in order ==> RunActions(ctx, nodes, order, inLoadout, share).value.fx.deleted == []
    decreases |order|
  {
    if |order| > 0 {
      var init := order[..|order| - 1];
      var a := order[|order| - 1];
      DistinctLast(order);
      RunDeletes(ctx, nodes, init, inLoadout, share);
      RunActionsLast(ctx, nodes, order, inLoadout, share);
      var g := Grouping(nodes, a);
      if |g| == 0 {
        assert |Paths(g)| == 0;
      } else {
        StepEffects(ctx, RunActions(ctx, nodes, init, inLoadout, share).value, a, g, inLoadout, share,
                    RunActions(ctx, nodes, order, inLoadout, share).value);
        if a == DeleteFromDisk {
          EmptyPrefix(Paths(g));
        }
      }
    }
  }

  /** Over an order that lists each action once, the extracted files and those made executable come from the extract group. */
  lemma {:induction false} RunExtracts(ctx: Context, nodes: seq<ClassifiedNode>, order: seq<Action>, inLoadout: bool, share: bool)
    requires Distinct(order)
    requires RunActions(ctx, nodes, order, inLoadout, share).Success?
    ensures RunActions(ctx, nodes, order, inLoadout, share).value.fx.executable
         == (if ExtractToDisk in order then MadeExecutable(ctx.isUnix, Grouping(nodes, ExtractToDisk)) else [])
    ensures ExtractToDisk in order ==>
              ExtractRequests(Grouping(nodes, ExtractToDisk)) == Success(RunActions(ctx, nodes, order, inLoadout, share).value.fx.extracted)
    ensures ExtractToDisk !in order ==> RunActions(ctx, nodes, order, inLoadout, share).value.fx.extracted == []
    decreases |order|
  {
    if |order| > 0 {
      var init := order[..|order| - 1];
      var a := order[|order| - 1];
      DistinctLast(order);
      RunExtracts(ctx, nodes, init, inLoadout, share);
      RunActionsLast(ctx, nodes, order, inLoadout, share);
      var g := Grouping(nodes, a);
      if |g| == 0 {
        NothingToExtract(ctx.isUnix, g);
      } else {
        StepEffects(ctx, RunActions(ctx, nodes, init, inLoadout, share).value, a, g, inLoadout, share,
                    RunActions(ctx, nodes, order, inLoadout, share).value);
        EmptyPrefix(MadeExecutable(ctx.isUnix, g));
        if a == ExtractToDisk {
          EmptyPrefix(ExtractRequests(g).value);
        }
      }
    }
  }

  /** Over an order that lists each action once, the backup requests are the backup group's files the store lacks. */
  lemma {:induction false} RunBackups(ctx: Context, nodes: seq<ClassifiedNode>, order: seq<Action>, inLoadout: bool, share: bool)
    requires Distinct(order)
    requires RunActions(ctx, nodes, order, inLoadout, share).Success?
    ensures BackupFile in order ==>
              && BackupRequests(Grouping(nodes, BackupFile)).Success?
              && RunActions(ctx, nodes, order, inLoadout, share).value.fx.backups
                 == BackupNewFiles(BackupRequests(Grouping(nodes, BackupFile)).value, ctx.store)
    ensures BackupFile !in order ==> RunActions(ctx, nodes, order, inLoadout, share).value.fx.backups == []
    decreases |order|
  {
    if |order| > 0 {
      var init := order[..|order| - 1];
      var a := order[|order| - 1];
      DistinctLast(order);
      RunBackups(ctx, nodes, init, inLoadout, share);
      RunActionsLast(ctx, nodes, order, inLoadout, share);
      var g := Grouping(nodes, a);
      if |g| == 0 {
        assert BackupRequests(g) == Success([]);
        assert BackupNewFiles([], ctx.store) == [];
      } else {
        StepEffects(ctx, RunActions(ctx, nodes, init, inLoadout, share).value, a, g, inLoadout, share,
                    RunActions(ctx, nodes, order, inLoadout, share).value);
        if a == BackupFile {
          EmptyPrefix(BackupNewFiles(BackupRequests(g).value, ctx.store));
        }
      }
    }
  }

  lemma EmptyPrefix<T>(s: seq<T>)
    ensures [] + s == s
  {
  }

  /** What one step requests outside the database: only the effects of its own action. */
  lemma StepEffects(ctx: Context, st: RunState, a: Action, group: seq<ClassifiedNode>, inLoadout: bool, share: bool, r: RunState)
    requires Step(ctx, st, a, group, inLoadout, share) == Success(r)
    ensures r.fx.deleted == st.fx.deleted + (if a == DeleteFromDisk then Paths(group) else [])
    ensures a == ExtractToDisk ==> r.fx.executable == st.fx.executable + MadeExecutable(ctx.isUnix, group)
    ensures a != ExtractToDisk ==> r.fx.executable == st.fx.executable
    ensures a == ExtractToDisk ==> ExtractRequests(group).Success? && r.fx.extracted == st.fx.extracted + ExtractRequests(group).value
    ensures a != ExtractToDisk ==> r.fx.extracted == st.fx.extracted
    ensures a == BackupFile ==>
              BackupRequests(group).Success? && r.fx.backups == st.fx.backups + BackupNewFiles(BackupRequests(group).value, ctx.store)
    ensures a != BackupFile ==> r.fx.backups == st.fx.backups
  {
    assert st.fx.deleted + [] == st.fx.deleted;
    assert st.fx.executable + [] == st.fx.executable;
  }

  // ---------------------------------------------------------------- the drivers

  /** The bookkeeping datoms a loadout run ends with: the installation now shows this loadout, synced and scanned now. */
  function FinalizeOps(ctx: Context): seq<Op> {
    [ Add(ctx.gameMeta, LastSyncedLoadout, VRef(ctx.loadout)),
      Add(ctx.gameMeta, LastSyncedLoadoutTx, VRef(ThisTx)),
      Add(ctx.gameMeta, LastScannedTx, VRef(ThisTx)),
      Add(ctx.loadout, LastAppliedDateTime, VTime(ctx.now)) ]
  }

  /** The bookkeeping datoms create no Overrides group. */
  lemma FinalizeCreatesNoGroup(ctx: Context, ops: seq<Op>)
    ensures CountOverridesFor(ops + FinalizeOps(ctx)) == CountOverridesFor(ops)
  {
    CountAppend(ops, FinalizeOps(ctx));
    CountNone(FinalizeOps(ctx));
  }

  /**
   * The paths of the disk state after the run: kept entries (not deleted, or
   * deleted and re-extracted) and extracted files. This is the committed disk
   * state when the tree's Disk slots are the stored disk state.
   */
  function NewStatePaths(nodes: seq<ClassifiedNode>): (r: set<GamePath>)
    ensures forall i :: 0 <= i < |nodes| && ExtractToDisk in nodes[i].actions ==> nodes[i].node.path in r
    ensures forall p :: p in r ==> exists i :: 0 <= i < |nodes| && nodes[i].node.path == p
  {
    set i | 0 <= i < |nodes| && (ExtractToDisk in nodes[i].actions || (nodes[i].node.disk.Some? && DeleteFromDisk !in nodes[i].actions))
      :: nodes[i].node.path
  }

  datatype Outcome = Outcome(tx: Tx, fx: Effects, reaped: set<GamePath>)

  /** `RunGroupings(tree, groupings, loadout)`. */
  method RunGroupings(ctx: Context, nodes: seq<ClassifiedNode>, order: seq<Action>) returns (r: Result<Outcome, SyncError>)
    requires IsActionOrder(order)
    ensures r.Success? <==> AllGroupsOk(nodes, order, true)
    ensures r.Success? ==> CountOverridesFor(r.value.tx.ops) == (if ctx.overridesFound.None? && |Grouping(nodes, IngestFromDisk) + Grouping(nodes, AddReifiedDelete)| > 0 then 1 else 0)
    ensures r.Success? ==> forall v: View ::
              && (ctx.gameMeta, LastSyncedLoadout) in Apply(v, r.value.tx.ops)
              && Apply(v, r.value.tx.ops)[(ctx.gameMeta, LastSyncedLoadout)] == VRef(ctx.loadout)
    ensures r.Success? ==> r.value.fx.deleted == Paths(Grouping(nodes, DeleteFromDisk))
    ensures r.Success? ==> forall d :: d in r.value.reaped ==> !IsRoot(d)
    ensures r.Success? ==> forall d, f :: d in r.value.reaped && f in NewStatePaths(nodes) ==> !IsProperAncestor(d, f)
    ensures r.Success? ==> forall d :: d in r.value.reaped ==> exists i :: 0 <= i < |r.value.fx.deleted| && IsProperAncestor(d, r.value.fx.deleted[i])
    ensures r.Success? ==> NoNestedRoots(r.value.reaped) && |r.value.reaped| <= |r.value.fx.deleted|
    ensures r.Success? ==> forall i, a :: 0 <= i < |r.value.fx.deleted| && IsProperAncestor(a, r.value.fx.deleted[i]) && !IsRoot(a)
                                         && (forall f :: f in NewStatePaths(nodes) ==> !IsProperAncestor(a, f))
                                         ==> exists d :: d in r.value.reaped && IsAncestorOrSelf(d, a)
  {
    RunActionsSucceeds(ctx, nodes, order, true, true);
    var run := RunActions(ctx, nodes, order, true, true);
    if run.Failure? {
      return Failure(run.error);
    }
    var st := run.value;
    RunWritesNoMetadata(ctx, nodes, order, true, true);
    RunDeletes(ctx, nodes, order, true, true);
    SharedCount(ctx, nodes, order);
    var tx := Emit(st.tx, FinalizeOps(ctx));
    FinalizeCreatesNoGroup(ctx, st.tx.ops);
    forall v: View
      ensures (ctx.gameMeta, LastSyncedLoadout) in Apply(v, tx.ops)
      ensures Apply(v, tx.ops)[(ctx.gameMeta, LastSyncedLoadout)] == VRef(ctx.loadout)
    {
      FinalizeSetsPointer(v, st.tx.ops, ctx);
    }
    var reaped := {};
    var deleted := Grouping(nodes, DeleteFromDisk);
    if |deleted| > 0 {
      reaped := CleanDirectories(Paths(deleted), NewStatePaths(nodes));
    }
    return Success(Outcome(tx, st.fx, reaped));
  }

  /** The number of Overrides groups the corrected loadout run creates. */
  lemma SharedCount(ctx: Context, nodes: seq<ClassifiedNode>, order: seq<Action>)
    requires IsActionOrder(order)
    requires RunActions(ctx, nodes, order, true, true).Success?
    ensures CountOverridesFor(RunActions(ctx, nodes, order, true, true).value.tx.ops)
         == (if ctx.overridesFound.None? && |Grouping(nodes, IngestFromDisk) + Grouping(nodes, AddReifiedDelete)| > 0 then 1 else 0)
  {
    SharedOverridesCreatedOnce(ctx, nodes, order, true);
    var st := RunActions(ctx, nodes, order, true, true).value;
    if |Grouping(nodes, IngestFromDisk)| > 0 {
      OverridesObtained(ctx, nodes, order, true, true, IngestFromDisk);
    } else if |Grouping(nodes, AddReifiedDelete)| > 0 {
      OverridesObtained(ctx, nodes, order, true, true, AddReifiedDelete);
    } else if ctx.overridesFound.None? {
      NoCreatorKeepsOverrides(ctx, nodes, order, true, true);
    }
  }

  /** Without a non-empty creating group, the run's Overrides group is the one found. */
  lemma {:induction false} NoCreatorKeepsOverrides(ctx: Context, nodes: seq<ClassifiedNode>, order: seq<Action>, inLoadout: bool, share: bool)
    requires RunActions(ctx, nodes, order, inLoadout, share).Success?
    requires |Grouping(nodes, IngestFromDisk)| == 0 && |Grouping(nodes, AddReifiedDelete)| == 0
    ensures RunActions(ctx, nodes, order, inLoadout, share).value.overrides == ctx.overridesFound
    decreases |order|
  {
    if |order| > 0 {
      var init := order[..|order| - 1];
      var a := order[|order| - 1];
      NoCreatorKeepsOverrides(ctx, nodes, init, inLoadout, share);
      if |Grouping(nodes, a)| > 0 {
        RunActionsLast(ctx, nodes, order, inLoadout, share);
        StepFacts(ctx, RunActions(ctx, nodes, init, inLoadout, share).value, a, Grouping(nodes, a), inLoadout, share,
                  RunActions(ctx, nodes, order, inLoadout, share).value);
      }
    }
  }

  /** After the helpers' datoms and the bookkeeping datoms, the installation points at the loadout. */
  lemma FinalizeSetsPointer(v: View, ops: seq<Op>, ctx: Context)
    requires NoMetadata(ops)
    ensures (ctx.gameMeta, LastSyncedLoadout) in Apply(v, ops + FinalizeOps(ctx))
    ensures Apply(v, ops + FinalizeOps(ctx))[(ctx.gameMeta, LastSyncedLoadout)] == VRef(ctx.loadout)
  {
    ApplyAppend(v, ops, FinalizeOps(ctx));
    ApplyLoneAdd(Apply(v, ops), FinalizeOps(ctx), 0);
  }

  /** The installation's bookkeeping datoms before an installation-only run. */
  datatype SyncedPointer = SyncedPointer(loadout: EntityId, tx: EntityId)

  /** The end of the installation-only run: the installation no longer shows a synced loadout, and is scanned now. */
  function ForgetOps(ctx: Context, lastSynced: Option<SyncedPointer>): seq<Op> {
    (if lastSynced.Some? then
       [ Retract(ctx.gameMeta, LastSyncedLoadout, VRef(lastSynced.value.loadout)),
         Retract(ctx.gameMeta, LastSyncedLoadoutTx, VRef(lastSynced.value.tx)) ]
     else [])
    + [ Add(ctx.gameMeta, LastScannedTx, VRef(ThisTx)) ]
  }

  /** `RunGroupings(tree, groupings, gameInstallation)`: no loadout, so ingesting and reified deletes throw. */
  function RunGroupingsForInstallation(ctx: Context, nodes: seq<ClassifiedNode>, order: seq<Action>, lastSynced: Option<SyncedPointer>)
    : (r: Result<(Tx, Effects), SyncError>)
  {
    var st :- RunActions(ctx, nodes, order, false, false);
    Success((Emit(st.tx, ForgetOps(ctx, lastSynced)), st.fx))
  }

  /**
   * The installation-only run fails exactly when a helper throws, and in
   * particular whenever something would be ingested or recorded as deleted;
   * when it succeeds it creates no group and clears the synced-loadout pointer.
   */
  lemma InstallationRun(ctx: Context, nodes: seq<ClassifiedNode>, order: seq<Action>, lastSynced: Option<SyncedPointer>)
    ensures RunGroupingsForInstallation(ctx, nodes, order, lastSynced).Success? <==> AllGroupsOk(nodes, order, false)
    ensures IsActionOrder(order) && |Grouping(nodes, IngestFromDisk) + Grouping(nodes, AddReifiedDelete)| > 0
            ==> RunGroupingsForInstallation(ctx, nodes, order, lastSynced).Failure?
    ensures RunGroupingsForInstallation(ctx, nodes, order, lastSynced).Success? ==>
              CountOverridesFor(RunGroupingsForInstallation(ctx, nodes, order, lastSynced).value.0.ops) == 0
  {
    RunActionsSucceeds(ctx, nodes, order, false, false);
    if IsActionOrder(order) && |Grouping(nodes, IngestFromDisk) + Grouping(nodes, AddReifiedDelete)| > 0 {
      var a := if |Grouping(nodes, IngestFromDisk)| > 0 then IngestFromDisk else AddReifiedDelete;
      assert a in order;
      var k :| 0 <= k < |order| && order[k] == a;
      assert !StepOk(nodes, order[k], false);
    }
    var run := RunActions(ctx, nodes, order, false, false);
    if run.Success? {
      SnapshotOverridesPerHelper(ctx, nodes, order, false);
      NoCreatorsOutsideLoadout(ctx, nodes, order);
      ForgetCreatesNoGroup(ctx, lastSynced, run.value.tx.ops);
    }
  }

  /** The retraction of the synced-loadout pointer creates no Overrides group. */
  lemma ForgetCreatesNoGroup(ctx: Context, lastSynced: Option<SyncedPointer>, ops: seq<Op>)
    ensures CountOverridesFor(ops + ForgetOps(ctx, lastSynced)) == CountOverridesFor(ops)
  {
    CountAppend(ops, ForgetOps(ctx, lastSynced));
    CountNone(ForgetOps(ctx, lastSynced));
  }

  /** A successful installation-only run has no creating step. */
  lemma {:induction false} NoCreatorsOutsideLoadout(ctx: Context, nodes: seq<ClassifiedNode>, order: seq<Action>)
    requires RunActions(ctx, nodes, order, false, false).Success?
    ensures CreatorSteps(nodes, order) == 0
    decreases |order|
  {
    if |order| > 0 {
      NoCreatorsOutsideLoadout(ctx, nodes, order[..|order| - 1]);
    }
  }

  /** After the installation-only run, the installation shows no synced loadout. */
  lemma InstallationForgetsLoadout(ctx: Context, nodes: seq<ClassifiedNode>, order: seq<Action>, lastSynced: Option<SyncedPointer>, v: View)
    requires RunGroupingsForInstallation(ctx, nodes, order, lastSynced).Success?
    requires lastSynced.Some? ==> (ctx.gameMeta, LastSyncedLoadout) in v && v[(ctx.gameMeta, LastSyncedLoadout)] == VRef(lastSynced.value.loadout)
    requires lastSynced.None? ==> (ctx.gameMeta, LastSyncedLoadout) !in v
    ensures (ctx.gameMeta, LastSyncedLoadout) !in Apply(v, RunGroupingsForInstallation(ctx, nodes, order, lastSynced).value.0.ops)
  {
    var st := RunActions(ctx, nodes, order, false, false).value;
    RunWritesNoMetadata(ctx, nodes, order, false, false);
    var k := (ctx.gameMeta, LastSyncedLoadout);
    var fin := ForgetOps(ctx, lastSynced);
    assert RunGroupingsForInstallation(ctx, nodes, order, lastSynced).value.0.ops == st.tx.ops + fin;
    ApplyUntouched(v, st.tx.ops, k);
    ApplyAppend(v, st.tx.ops, fin);
    var w := Apply(v, st.tx.ops);
    if lastSynced.Some? {
      var retracts := fin[..2];
      assert fin == retracts + [fin[2]];
      RetractsRemove(w, retracts, ctx.gameMeta, LastSyncedLoadout, VRef(lastSynced.value.loadout));
      ApplyAppend(w, retracts, [fin[2]]);
      ApplyUntouched(Apply(w, retracts), [fin[2]], k);
    } else {
      ApplyUntouched(w, fin, k);
    }
  }
}
