/** Disk-state entries: what was observed on disk for one game installation. */
module DiskStates {
  import opened GamePaths
  import opened Datoms

  /** xxHash3 digests are opaque identities here. */
  type Hash = nat

  /** `DiskStateEntry`: path, hash, size, last-modified time (UTC ticks) and owning game metadata id. */
  datatype DiskEntry = DiskEntry(id: EntityId, path: GamePath, hash: Hash, size: nat, lastModified: int, game: EntityId)

  /** A disk state holds one entry per game path. */
  type DiskState = map<GamePath, DiskEntry>

  predicate KeyedByPath(s: DiskState) {
    forall p :: p in s ==> s[p].path == p
  }

  /** The five retractions that remove a disk-state entry, naming `game` as its owner. */
  function RetractEntry(e: DiskEntry, game: EntityId): (r: seq<Op>)
    ensures |r| == 5
    ensures forall op :: op in r ==> op.Retract? && op.e == e.id && IsDiskAttr(op.a)
    ensures Retract(e.id, DiskPath, VPath(game, e.path)) in r
  {
    [ Retract(e.id, DiskPath, VPath(game, e.path)),
      Retract(e.id, DiskHash, VHash(e.hash)),
      Retract(e.id, DiskSize, VSize(e.size)),
      Retract(e.id, DiskLastModified, VTime(e.lastModified)),
      Retract(e.id, DiskGame, VRef(game)) ]
  }

  /** The view reads the entry back: its five disk attributes hold the entry's values. */
  predicate Holds(v: View, e: DiskEntry) {
    && (e.id, DiskPath) in v && v[(e.id, DiskPath)] == VPath(e.game, e.path)
    && (e.id, DiskHash) in v && v[(e.id, DiskHash)] == VHash(e.hash)
    && (e.id, DiskSize) in v && v[(e.id, DiskSize)] == VSize(e.size)
    && (e.id, DiskLastModified) in v && v[(e.id, DiskLastModified)] == VTime(e.lastModified)
    && (e.id, DiskGame) in v && v[(e.id, DiskGame)] == VRef(e.game)
  }

  /** The view reads back every entry of the disk state. */
  predicate HoldsState(v: View, s: DiskState) {
    forall p :: p in s ==> Holds(v, s[p])
  }

  /** Datoms on other entities, or on attributes outside the disk state, leave an entry reading back as it was. */
  lemma HoldsUntouched(v: View, ops: seq<Op>, e: DiskEntry)
    requires Holds(v, e)
    requires forall i :: 0 <= i < |ops| ==> ops[i].e != e.id || !IsDiskAttr(ops[i].a)
    ensures Holds(Apply(v, ops), e)
  {
    ApplyUntouched(v, ops, (e.id, DiskPath));
    ApplyUntouched(v, ops, (e.id, DiskHash));
    ApplyUntouched(v, ops, (e.id, DiskSize));
    ApplyUntouched(v, ops, (e.id, DiskLastModified));
    ApplyUntouched(v, ops, (e.id, DiskGame));
  }
}
