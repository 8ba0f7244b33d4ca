/**
 * The metadata transaction, seen from the synchronizer: an ordered log of
 * datom additions and retractions plus a counter for temporary entity ids.
 * The datom store itself (commit, id remapping, indexes) is not modelled.
 */
module Datoms {
  import opened GamePaths

  /** Entity ids: ids already committed, temporary ids of the open transaction, and the transaction's own id. */
  datatype EntityId = Stored(n: nat) | Temp(k: nat) | ThisTx

  /** The attributes the synchronizer writes. */
  datatype Attr =
    | DiskPath | DiskHash | DiskSize | DiskLastModified | DiskGame
    | FileHash | FileSize
    | ItemName | ItemParent | ItemLoadout | TargetPath | DeletedReason
    | GroupIsGroup | OverridesFor
    | LastSyncedLoadout | LastSyncedLoadoutTx | LastScannedTx | InitialDiskStateTx | LastAppliedDateTime
    | LoadoutName | LoadoutShortName
    | OtherAttr(code: nat)

  /** Attribute values; `VPath` is the (owner id, game path) tuple used for target and disk paths. */
  datatype Value =
    | VRef(ref: EntityId)
    | VPath(owner: EntityId, path: GamePath)
    | VHash(hash: nat)
    | VSize(size: nat)
    | VTime(time: int)
    | VText(text: string)
    | VBool(flag: bool)
    | VNat(n: nat)

  datatype Op = Add(e: EntityId, a: Attr, v: Value) | Retract(e: EntityId, a: Attr, v: Value)

  /** An open transaction: the datoms written so far and the next free temporary id. */
  datatype Tx = Tx(ops: seq<Op>, nextTemp: nat)

  const EmptyTx := Tx([], 0)

  /** The attributes of a disk-state entry. */
  predicate IsDiskAttr(a: Attr) {
    a in {DiskPath, DiskHash, DiskSize, DiskLastModified, DiskGame}
  }

  /** The bookkeeping attributes of the game installation and the loadout, which only the lifecycle code writes. */
  predicate IsMetadataAttr(a: Attr) {
    a in {LastSyncedLoadout, LastSyncedLoadoutTx, LastScannedTx, InitialDiskStateTx, LastAppliedDateTime, LoadoutName, LoadoutShortName}
  }

  /** Appends datoms to the transaction. */
  function Emit(tx: Tx, ops: seq<Op>): (r: Tx)
    ensures r.ops == tx.ops + ops && r.nextTemp == tx.nextTemp
  {
    Tx(tx.ops + ops, tx.nextTemp)
  }

  /** `tx.TempId()`: a temporary id never handed out before in this transaction. */
  function NewTemp(tx: Tx): (r: (EntityId, Tx))
    ensures r.0 == Temp(tx.nextTemp) && r.1.ops == tx.ops && r.1.nextTemp == tx.nextTemp + 1
  {
    (Temp(tx.nextTemp), Tx(tx.ops, tx.nextTemp + 1))
  }

  /** Every temporary id mentioned by the transaction was handed out by it. */
  ghost predicate TempsIssued(tx: Tx) {
    forall i :: 0 <= i < |tx.ops| ==> (tx.ops[i].e.Temp? ==> tx.ops[i].e.k < tx.nextTemp)
  }

  /** The store as the synchronizer reads it back: one value per (entity, attribute) pair. */
  type View = map<(EntityId, Attr), Value>

  /** One datom: an addition overwrites the pair, a retraction removes it when it names the current value. */
  function ApplyOp(v: View, op: Op): (r: View)
    ensures op.Add? ==> (op.e, op.a) in r && r[(op.e, op.a)] == op.v
    ensures op.Retract? ==> ((op.e, op.a) in r <==> (op.e, op.a) in v && v[(op.e, op.a)] != op.v)
    ensures forall k :: k in v && k != (op.e, op.a) ==> k in r && r[k] == v[k]
    ensures forall k :: k in r && k != (op.e, op.a) ==> k in v
  {
    match op
    case Add(e, a, x) => v[(e, a) := x]
    case Retract(e, a, x) => if (e, a) in v && v[(e, a)] == x then v - {(e, a)} else v
  }

  /** The datoms of a transaction, applied in order. */
  function Apply(v: View, ops: seq<Op>): View
    decreases |ops|
  {
    if |ops| == 0 then v else ApplyOp(Apply(v, ops[..|ops| - 1]), ops[|ops| - 1])
  }

  /** Applying two batches in a row is applying their concatenation. */
  lemma {:induction false} ApplyAppend(v: View, ops1: seq<Op>, ops2: seq<Op>)
    ensures Apply(v, ops1 + ops2) == Apply(Apply(v, ops1), ops2)
    decreases |ops2|
  {
    if |ops2| > 0 {
      var init := ops2[..|ops2| - 1];
      assert (ops1 + ops2)[..|ops1 + ops2| - 1] == ops1 + init;
      assert (ops1 + ops2)[|ops1 + ops2| - 1] == ops2[|ops2| - 1];
      ApplyAppend(v, ops1, init);
    } else {
      assert ops1 + ops2 == ops1;
    }
  }

  /** Datoms about other pairs leave a pair as it was. */
  lemma {:induction false} ApplyUntouched(v: View, ops: seq<Op>, k: (EntityId, Attr))
    requires forall i :: 0 <= i < |ops| ==> (ops[i].e, ops[i].a) != k
    ensures k in Apply(v, ops) <==> k in v
    ensures k in v ==> Apply(v, ops)[k] == v[k]
    decreases |ops|
  {
    if |ops| > 0 {
      ApplyUntouched(v, ops[..|ops| - 1], k);
    }
  }

  /** An addition whose pair no other datom of the batch names is what the pair holds afterwards. */
  lemma {:induction false} ApplyLoneAdd(v: View, ops: seq<Op>, i: nat)
    requires i < |ops| && ops[i].Add?
    requires forall j :: 0 <= j < |ops| && j != i ==> (ops[j].e, ops[j].a) != (ops[i].e, ops[i].a)
    ensures (ops[i].e, ops[i].a) in Apply(v, ops) && Apply(v, ops)[(ops[i].e, ops[i].a)] == ops[i].v
    decreases |ops|
  {
    var init := ops[..|ops| - 1];
    if i < |ops| - 1 {
      ApplyLoneAdd(v, init, i);
    }
  }

  /** Retractions never add a pair nor change a value. */
  lemma {:induction false} RetractsShrink(v: View, ops: seq<Op>)
    requires forall i :: 0 <= i < |ops| ==> ops[i].Retract?
    ensures forall k :: k in Apply(v, ops) ==> k in v && Apply(v, ops)[k] == v[k]
    decreases |ops|
  {
    if |ops| > 0 {
      RetractsShrink(v, ops[..|ops| - 1]);
    }
  }

  /** A batch of retractions that retracts the value a pair holds removes the pair. */
  lemma {:induction false} RetractsRemove(v: View, ops: seq<Op>, e: EntityId, a: Attr, x: Value)
    requires forall i :: 0 <= i < |ops| ==> ops[i].Retract?
    requires Retract(e, a, x) in ops
    requires (e, a) in v ==> v[(e, a)] == x
    ensures (e, a) !in Apply(v, ops)
    decreases |ops|
  {
    var init := ops[..|ops| - 1];
    assert ops == init + [ops[|ops| - 1]];
    if ops[|ops| - 1] == Retract(e, a, x) {
      RetractsShrink(v, init);
    } else {
      RetractsRemove(v, init, e, a, x);
    }
  }
}
