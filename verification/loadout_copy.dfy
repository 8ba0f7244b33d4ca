/**
 * `CopyLoadout`: replay the datoms of a loadout and of each of its items on
 * new temporary ids, renaming the loadout and rewriting every entity id the
 * copied values mention through the old-to-new table.
 */
module LoadoutCopy {
  import opened GamePaths
  import opened Datoms

  /** The database as `CopyLoadout` reads it: the datoms of each entity, in index order. */
  type Db = map<EntityId, seq<(Attr, Value)>>

  /** `baseDb.Get(id)`: an entity without datoms reads as empty. */
  function Get(db: Db, e: EntityId): seq<(Attr, Value)> {
    if e in db then db[e] else []
  }

  /** The old-to-new id table. */
  type IdTable = map<EntityId, EntityId>

  /**
   * `entityIdList`: the loadout, then each item, gets the next temporary id.
   * A repeated id keeps the last one it was given.
   */
  function NewIds(owned: seq<EntityId>, base: nat): (t: IdTable)
    ensures forall e :: e in t <==> e in owned
    ensures forall e :: e in t ==> t[e].Temp? && base <= t[e].k < base + |owned|
  {
    if |owned| == 0 then map[]
    else
      var init := owned[..|owned| - 1];
      assert owned == init + [owned[|owned| - 1]];
      NewIds(init, base)[owned[|owned| - 1] := Temp(base + |init|)]
  }

  predicate Distinct(owned: seq<EntityId>) {
    forall i, j :: 0 <= i < j < |owned| ==> owned[i] != owned[j]
  }

  /** With distinct ids, the i-th id gets temporary id `base + i`. */
  lemma {:induction false} NewIdsAt(owned: seq<EntityId>, base: nat, i: nat)
    requires Distinct(owned) && i < |owned|
    ensures owned[i] in NewIds(owned, base) && NewIds(owned, base)[owned[i]] == Temp(base + i)
    decreases |owned|
  {
    var init := owned[..|owned| - 1];
    if i < |owned| - 1 {
      assert Distinct(init) by {
        forall a, b | 0 <= a < b < |init| ensures init[a] != init[b] { assert init[a] == owned[a] && init[b] == owned[b]; }
      }
      assert init[i] == owned[i];
      assert owned[i] != owned[|owned| - 1];
      NewIdsAt(init, base, i);
    }
  }

  /** `RemapFn`: `GetValueOrDefault`, so ids outside the table are left as they are. */
  function Remap(t: IdTable, e: EntityId): (r: EntityId)
    ensures e !in t ==> r == e
    ensures e in t ==> r == t[e]
  {
    if e in t then t[e] else e
  }

  /** The entity ids inside a value are rewritten: references, and the owner of a path tuple. */
  function RemapValue(t: IdTable, v: Value): (r: Value)
    ensures r.VRef? <==> v.VRef?
    ensures r.VPath? <==> v.VPath?
    ensures !v.VRef? && !v.VPath? ==> r == v
  {
    match v
    case VRef(e) => VRef(Remap(t, e))
    case VPath(owner, p) => VPath(Remap(t, owner), p)
    case _ => v
  }

  /** One copied datom: the two name attributes take the new names, everything else is copied with ids remapped. */
  function CopyDatom(t: IdTable, newId: EntityId, d: (Attr, Value), newName: string, newShortName: string): Op {
    if d.0 == LoadoutName then Add(newId, LoadoutName, VText(newName))
    else if d.0 == LoadoutShortName then Add(newId, LoadoutShortName, VText(newShortName))
    else Add(newId, d.0, RemapValue(t, d.1))
  }

  /** The datoms of one copied entity, one per original datom, in the same order. */
  function CopyEntity(t: IdTable, src: EntityId, datoms: seq<(Attr, Value)>, newName: string, newShortName: string)
    : (r: seq<Op>)
    ensures |r| == |datoms|
    ensures forall j :: 0 <= j < |r| ==> r[j].Add? && r[j].e == Remap(t, src) && r[j].a == datoms[j].0
  {
    seq(|datoms|, j requires 0 <= j < |datoms| => CopyDatom(t, Remap(t, src), datoms[j], newName, newShortName))
  }

  /** The copy loop over the table's entries. */
  function CopyOps(db: Db, owned: seq<EntityId>, t: IdTable, newName: string, newShortName: string): seq<Op> {
    if |owned| == 0 then []
    else
      var src := owned[|owned| - 1];
      CopyOps(db, owned[..|owned| - 1], t, newName, newShortName) + CopyEntity(t, src, Get(db, src), newName, newShortName)
  }

  /** `"Loadout " + newShortName`. */
  function LoadoutTitle(shortName: string): (r: string)
    ensures |r| == 8 + |shortName| && r[8..] == shortName
  {
    "Loadout " + shortName
  }

  /**
   * `CopyLoadout`: the new short name comes from the name provider. The
   * result is the transaction and the temporary id of the new loadout.
   */
  function CopyLoadout(db: Db, loadout: EntityId, items: seq<EntityId>, newShortName: string, tx: Tx): (r: (Tx, EntityId))
    ensures |tx.ops| <= |r.0.ops| && r.0.ops[..|tx.ops|] == tx.ops
    ensures r.0.nextTemp == tx.nextTemp + 1 + |items|
    ensures r.1.Temp? && tx.nextTemp <= r.1.k < r.0.nextTemp
  {
    var owned := [loadout] + items;
    var t := NewIds(owned, tx.nextTemp);
    var ops := CopyOps(db, owned, t, LoadoutTitle(newShortName), newShortName);
    assert (tx.ops + ops)[..|tx.ops|] == tx.ops;
    (Tx(tx.ops + ops, tx.nextTemp + |owned|), t[loadout])
  }

  // ---------------------------------------------------------------- properties

  /** The copy writes on the new ids only: it never changes the original loadout or its items. */
  lemma {:induction false} CopyWritesNewIdsOnly(db: Db, owned: seq<EntityId>, base: nat, newName: string, newShortName: string)
    ensures forall j :: 0 <= j < |CopyOps(db, owned, NewIds(owned, base), newName, newShortName)| ==>
              var op := CopyOps(db, owned, NewIds(owned, base), newName, newShortName)[j];
              op.Add? && op.e.Temp? && base <= op.e.k < base + |owned|
    decreases |owned|
  {
    if |owned| > 0 {
      CopyWritesNewIdsOnlyIn(db, owned, NewIds(owned, base), base, |owned|, newName, newShortName);
    }
  }

  lemma {:induction false} CopyWritesNewIdsOnlyIn(db: Db, owned: seq<EntityId>, t: IdTable, base: nat, n: nat, newName: string, newShortName: string)
    requires forall e :: e in owned ==> e in t && t[e].Temp? && base <= t[e].k < base + n
    ensures forall j :: 0 <= j < |CopyOps(db, owned, t, newName, newShortName)| ==>
              var op := CopyOps(db, owned, t, newName, newShortName)[j];
              op.Add? && op.e.Temp? && base <= op.e.k < base + n
    decreases |owned|
  {
    if |owned| > 0 {
      var init := owned[..|owned| - 1];
      var src := owned[|owned| - 1];
      assert owned == init + [src];
      CopyWritesNewIdsOnlyIn(db, init, t, base, n, newName, newShortName);
      var rest := CopyOps(db, init, t, newName, newShortName);
      var mine := CopyEntity(t, src, Get(db, src), newName, newShortName);
      var ops := CopyOps(db, owned, t, newName, newShortName);
      assert ops == rest + mine;
      forall j | 0 <= j < |ops| ensures ops[j].Add? && ops[j].e.Temp? && base <= ops[j].e.k < base + n {
        if j < |rest| { assert ops[j] == rest[j]; } else { assert ops[j] == mine[j - |rest|]; }
      }
    }
  }

  /** The copy of the i-th entity sits at the position after the copies of the ones before it. */
  function CopyOffset(db: Db, owned: seq<EntityId>, i: nat): nat
    requires i <= |owned|
    decreases i
  {
    if i == 0 then 0 else CopyOffset(db, owned, i - 1) + |Get(db, owned[i - 1])|
  }

  lemma {:induction false} CopyOpsLayout(db: Db, owned: seq<EntityId>, t: IdTable, newName: string, newShortName: string, i: nat)
    requires i < |owned|
    ensures CopyOffset(db, owned, i) + |Get(db, owned[i])| <= |CopyOps(db, owned, t, newName, newShortName)|
    ensures CopyOps(db, owned, t, newName, newShortName)[CopyOffset(db, owned, i)..CopyOffset(db, owned, i) + |Get(db, owned[i])|]
         == CopyEntity(t, owned[i], Get(db, owned[i]), newName, newShortName)
    decreases |owned|
  {
    var init := owned[..|owned| - 1];
    var src := owned[|owned| - 1];
    var rest := CopyOps(db, init, t, newName, newShortName);
    var mine := CopyEntity(t, src, Get(db, src), newName, newShortName);
    var ops := CopyOps(db, owned, t, newName, newShortName);
    assert ops == rest + mine;
    OffsetPrefix(db, owned, init, i);
    var o := CopyOffset(db, owned, i);
    if i < |owned| - 1 {
      assert init[i] == owned[i];
      CopyOpsLayout(db, init, t, newName, newShortName, i);
      SliceOfLeft(rest, mine, o, o + |Get(db, owned[i])|);
    } else {
      OffsetIsLength(db, init, t, newName, newShortName);
      SliceOfRight(rest, mine);
    }
  }

  lemma SliceOfLeft(a: seq<Op>, b: seq<Op>, lo: nat, hi: nat)
    requires lo <= hi <= |a|
    ensures (a + b)[lo..hi] == a[lo..hi]
  {
  }

  lemma SliceOfRight(a: seq<Op>, b: seq<Op>)
    ensures |a + b| == |a| + |b| && (a + b)[|a|..|a| + |b|] == b
  {
  }

  lemma {:induction false} OffsetPrefix(db: Db, owned: seq<EntityId>, prefix: seq<EntityId>, i: nat)
    requires i <= |prefix| <= |owned| && prefix == owned[..|prefix|]
    ensures CopyOffset(db, owned, i) == CopyOffset(db, prefix, i)
    decreases i
  {
    if i > 0 {
      OffsetPrefix(db, owned, prefix, i - 1);
      assert prefix[i - 1] == owned[i - 1];
    }
  }

  lemma {:induction false} OffsetIsLength(db: Db, owned: seq<EntityId>, t: IdTable, newName: string, newShortName: string)
    ensures CopyOffset(db, owned, |owned|) == |CopyOps(db, owned, t, newName, newShortName)|
    decreases |owned|
  {
    if |owned| > 0 {
      var init := owned[..|owned| - 1];
      OffsetIsLength(db, init, t, newName, newShortName);
      OffsetPrefix(db, owned, init, |init|);
    }
  }

  /**
   * Every datom of every copied entity reappears on that entity's new id:
   * the names are replaced, every other value is copied with its ids
   * remapped.
   */
  lemma CopyReplaysDatoms(db: Db, owned: seq<EntityId>, base: nat, newName: string, newShortName: string, i: nat, j: nat)
    requires Distinct(owned) && i < |owned| && j < |Get(db, owned[i])|
    ensures var d := Get(db, owned[i])[j];
            var ops := CopyOps(db, owned, NewIds(owned, base), newName, newShortName);
            && (d.0 == LoadoutName ==> Add(Temp(base + i), LoadoutName, VText(newName)) in ops)
            && (d.0 == LoadoutShortName ==> Add(Temp(base + i), LoadoutShortName, VText(newShortName)) in ops)
            && (d.0 != LoadoutName && d.0 != LoadoutShortName ==>
                  Add(Temp(base + i), d.0, RemapValue(NewIds(owned, base), d.1)) in ops)
  {
    var t := NewIds(owned, base);
    var ops := CopyOps(db, owned, t, newName, newShortName);
    CopyOpsLayout(db, owned, t, newName, newShortName, i);
    NewIdsAt(owned, base, i);
    var off := CopyOffset(db, owned, i);
    var mine := CopyEntity(t, owned[i], Get(db, owned[i]), newName, newShortName);
    assert ops[off + j] == mine[j];
    assert ops[off + j] in ops;
  }

  /** The new-to-old table: the inverse of `NewIds` over distinct ids. */
  function OldIds(owned: seq<EntityId>, base: nat): (t: IdTable)
    ensures forall k :: base <= k < base + |owned| ==> Temp(k) in t && t[Temp(k)] == owned[k - base]
    ensures forall e :: e in t ==> e.Temp? && base <= e.k < base + |owned|
  {
    if |owned| == 0 then map[]
    else
      var init := owned[..|owned| - 1];
      OldIds(init, base)[Temp(base + |init|) := owned[|owned| - 1]]
  }

  /** Neither the id nor any id in the value is one of the new temporary ids. */
  predicate OutsideNew(v: Value, base: nat, n: nat) {
    && (v.VRef? ==> !(v.ref.Temp? && base <= v.ref.k < base + n))
    && (v.VPath? ==> !(v.owner.Temp? && base <= v.owner.k < base + n))
  }

  /** Round trip: remapping a value to the new ids and back gives the original value. */
  lemma RemapRoundTrip(owned: seq<EntityId>, base: nat, v: Value)
    requires Distinct(owned) && OutsideNew(v, base, |owned|)
    ensures RemapValue(OldIds(owned, base), RemapValue(NewIds(owned, base), v)) == v
  {
    var t := NewIds(owned, base);
    var back := OldIds(owned, base);
    if v.VRef? || v.VPath? {
      var e := if v.VRef? then v.ref else v.owner;
      if e in t {
        var i :| 0 <= i < |owned| && owned[i] == e;
        NewIdsAt(owned, base, i);
        assert back[Temp(base + i)] == owned[i];
      }
    }
  }

  /**
   * The copy is the original under renaming: mapping a copied datom's entity
   * and value back through the new-to-old table gives the original datom,
   * names aside, provided the originals mention none of the new ids.
   */
  lemma CopyRestoresOriginal(db: Db, owned: seq<EntityId>, base: nat, newName: string, newShortName: string, i: nat, j: nat)
    requires Distinct(owned) && i < |owned| && j < |Get(db, owned[i])|
    requires OutsideNew(Get(db, owned[i])[j].1, base, |owned|)
    ensures var t := NewIds(owned, base);
            var op := CopyEntity(t, owned[i], Get(db, owned[i]), newName, newShortName)[j];
            var d := Get(db, owned[i])[j];
            && op.e in OldIds(owned, base) && OldIds(owned, base)[op.e] == owned[i]
            && op.a == d.0
            && (d.0 != LoadoutName && d.0 != LoadoutShortName ==> RemapValue(OldIds(owned, base), op.v) == d.1)
  {
    NewIdsAt(owned, base, i);
    RemapRoundTrip(owned, base, Get(db, owned[i])[j].1);
  }
}
