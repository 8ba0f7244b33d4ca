/**
 * The action helpers `RunGroupings` dispatches to. Each turns one action
 * group (the classified nodes whose action set holds that action) into
 * datoms on the open transaction, and names the side effects on disk and in
 * the content store that the model does not perform.
 */
module SyncActions {
  import opened Wrappers
  import opened GamePaths
  import opened Datoms
  import opened DiskStates
  import opened LoadoutFlattening
  import opened SyncTrees
  import opened Classification

  /** The exceptions the helpers throw. */
  datatype SyncError =
    | MissingDiskEntry(path: GamePath)        // `item.Disk.Value` on a node without a Disk slot
    | MissingLoadoutHash(path: GamePath)      // an extracted node that is not a loadout file
    | NotInLoadoutContext(action: Action)     // ingest or reified delete in the installation-only run

  /** `tx2` continues `tx1`: it keeps every datom already written and every temporary id already handed out. */
  predicate Extends(tx1: Tx, tx2: Tx) {
    |tx1.ops| <= |tx2.ops| && tx2.ops[..|tx1.ops|] == tx1.ops && tx1.nextTemp <= tx2.nextTemp
  }

  lemma ExtendsTransitive(a: Tx, b: Tx, c: Tx)
    requires Extends(a, b) && Extends(b, c)
    ensures Extends(a, c)
  {
    assert c.ops[..|b.ops|][..|a.ops|] == c.ops[..|a.ops|];
  }

  /** The temporary id `k` was handed out between `tx1` and `tx2`. */
  predicate FreshIn(e: EntityId, tx1: Tx, tx2: Tx) {
    e.Temp? && tx1.nextTemp <= e.k < tx2.nextTemp
  }

  function Paths(group: seq<ClassifiedNode>): (r: seq<GamePath>)
    ensures |r| == |group| && forall i :: 0 <= i < |group| ==> r[i] == group[i].node.path
  {
    seq(|group|, i requires 0 <= i < |group| => group[i].node.path)
  }

  /** What an action helper reads from every node of its group; a node without it makes the helper throw. */
  datatype Need = NeedsDisk | NeedsLoadoutFile | NeedsDiskUnlessReplaced

  predicate Meets(n: ClassifiedNode, need: Need) {
    match need
    case NeedsDisk => n.node.disk.Some?
    case NeedsLoadoutFile => n.node.loadout.Some?
    case NeedsDiskUnlessReplaced => Replaced(n) || n.node.disk.Some?
  }

  /** The first node from `k` on that lacks what the helper needs: the one the helper's loop throws on. */
  function FirstUnmet(group: seq<ClassifiedNode>, need: Need, k: nat): (r: Option<nat>)
    requires k <= |group|
    ensures r.None? <==> forall i :: k <= i < |group| ==> Meets(group[i], need)
    ensures r.Some? ==> k <= r.value < |group| && !Meets(group[r.value], need)
    decreases |group| - k
  {
    if k == |group| then None
    else if !Meets(group[k], need) then Some(k)
    else FirstUnmet(group, need, k + 1)
  }

  // ---------------------------------------------------------------- backup

  /** A file `BackupNewFiles` is asked to archive. */
  datatype BackupRequest = BackupRequest(path: GamePath, hash: Hash, size: nat)

  /**
   * `BackupNewFiles`: the requests whose hash the content store does not hold
   * yet. The store is consulted once, before any of them is archived, so two
   * new files with the same hash are both archived.
   */
  function BackupNewFiles(files: seq<BackupRequest>, store: set<Hash>): (r: seq<BackupRequest>)
    ensures |r| <= |files|
    ensures forall f :: f in r <==> f in files && f.hash !in store
  {
    if |files| == 0 then []
    else
      var rest := BackupNewFiles(files[..|files| - 1], store);
      var f := files[|files| - 1];
      assert files == files[..|files| - 1] + [f];
      if f.hash in store then rest else rest + [f]
  }

  function HashesOf(files: seq<BackupRequest>): set<Hash> {
    set f | f in files :: f.hash
  }

  /** Once the archived files are in the store, every requested hash is there and a second backup archives nothing. */
  lemma BackupSettles(files: seq<BackupRequest>, store: set<Hash>)
    ensures forall f :: f in files ==> f.hash in store + HashesOf(BackupNewFiles(files, store))
    ensures BackupNewFiles(files, store + HashesOf(BackupNewFiles(files, store))) == []
  {
    var r := BackupNewFiles(files, store);
    forall f | f in files
      ensures f.hash in store + HashesOf(r)
    {
      if f.hash !in store {
        assert f in r;
      }
    }
    var r2 := BackupNewFiles(files, store + HashesOf(r));
    if r2 != [] {
      var f := r2[0];
      assert f in r2;
    }
  }

  /** `ActionBackupFiles`: each node's disk hash and size; a node without a Disk slot throws. */
  function BackupRequests(group: seq<ClassifiedNode>): (r: Result<seq<BackupRequest>, SyncError>)
    ensures r.Success? <==> forall i :: 0 <= i < |group| ==> group[i].node.disk.Some?
    ensures r.Failure? ==> exists i :: 0 <= i < |group| && group[i].node.disk.None? && r.error == MissingDiskEntry(group[i].node.path)
    ensures r.Success? ==> |r.value| == |group| && forall i :: 0 <= i < |group| ==>
              && r.value[i].path == group[i].node.path
              && r.value[i].hash == group[i].node.disk.value.hash
              && r.value[i].size == group[i].node.disk.value.size
  {
    if |group| == 0 then Success([])
    else
      var init := group[..|group| - 1];
      var n := group[|group| - 1];
      var rest :- BackupRequests(init);
      if n.node.disk.None? then Failure(MissingDiskEntry(n.node.path))
      else Success(rest + [BackupRequest(n.node.path, n.node.disk.value.hash, n.node.disk.value.size)])
  }

  // ---------------------------------------------------------------- delete

  /** The node's file is also extracted, so its disk entry is reused rather than retracted. */
  predicate Replaced(n: ClassifiedNode) {
    ExtractToDisk in n.actions
  }

  /** The retractions for the deleted nodes that are not re-extracted; a node without a disk entry contributes none. */
  function DeleteOps(group: seq<ClassifiedNode>): seq<Op> {
    if |group| == 0 then []
    else
      var n := group[|group| - 1];
      DeleteOps(group[..|group| - 1])
        + (if !Replaced(n) && n.node.disk.Some? then RetractEntry(n.node.disk.value, n.node.disk.value.game) else [])
  }

  /**
   * `ActionDeleteFromDisk`, the datoms: every deleted node that is not about to
   * be re-extracted loses its disk-state entry (named with the entry's own
   * game). The files themselves are removed from disk at the group's paths.
   */
  function ActionDeleteFromDisk(group: seq<ClassifiedNode>): (r: Result<seq<Op>, SyncError>)
    ensures r.Success? <==> forall i :: 0 <= i < |group| ==> Replaced(group[i]) || group[i].node.disk.Some?
    ensures r.Failure? ==> exists i :: && 0 <= i < |group| && !Replaced(group[i]) && group[i].node.disk.None?
                                       && r.error == MissingDiskEntry(group[i].node.path)
  {
    match FirstUnmet(group, NeedsDiskUnlessReplaced, 0)
    case Some(i) => Failure(MissingDiskEntry(group[i].node.path))
    case None => Success(DeleteOps(group))
  }

  /** Every non-replaced node's entry is retracted, and nothing but those entries is touched. */
  lemma DeleteRetractsExactly(group: seq<ClassifiedNode>)
    requires ActionDeleteFromDisk(group).Success?
    ensures forall i :: 0 <= i < |group| && !Replaced(group[i]) ==>
              var d := group[i].node.disk.value;
              Retract(d.id, DiskPath, VPath(d.game, d.path)) in ActionDeleteFromDisk(group).value
    ensures forall j :: 0 <= j < |ActionDeleteFromDisk(group).value| ==>
              var op := ActionDeleteFromDisk(group).value[j];
              && op.Retract? && IsDiskAttr(op.a)
              && exists i :: && 0 <= i < |group| && !Replaced(group[i]) && group[i].node.disk.Some?
                             && op.e == group[i].node.disk.value.id
  {
    DeleteOpsRetracts(group);
    DeleteOpsTouch(group);
  }

  lemma {:induction false} DeleteOpsRetracts(group: seq<ClassifiedNode>)
    ensures forall i :: 0 <= i < |group| && !Replaced(group[i]) && group[i].node.disk.Some? ==>
              var d := group[i].node.disk.value;
              Retract(d.id, DiskPath, VPath(d.game, d.path)) in DeleteOps(group)
    decreases |group|
  {
    if |group| > 0 {
      var init := group[..|group| - 1];
      var n := group[|group| - 1];
      DeleteOpsRetracts(init);
      var rest := DeleteOps(init);
      var last := if !Replaced(n) && n.node.disk.Some? then RetractEntry(n.node.disk.value, n.node.disk.value.game) else [];
      assert DeleteOps(group) == rest + last;
      forall i | 0 <= i < |group| && !Replaced(group[i]) && group[i].node.disk.Some?
        ensures var d := group[i].node.disk.value; Retract(d.id, DiskPath, VPath(d.game, d.path)) in rest + last
      {
        if i < |init| {
          assert init[i] == group[i];
        }
      }
    }
  }

  lemma {:induction false} DeleteOpsTouch(group: seq<ClassifiedNode>)
    ensures forall j :: 0 <= j < |DeleteOps(group)| ==>
              var op := DeleteOps(group)[j];
              && op.Retract? && IsDiskAttr(op.a)
              && exists i :: && 0 <= i < |group| && !Replaced(group[i]) && group[i].node.disk.Some?
                             && op.e == group[i].node.disk.value.id
    decreases |group|
  {
    if |group| > 0 {
      var init := group[..|group| - 1];
      var n := group[|group| - 1];
      DeleteOpsTouch(init);
      var rest := DeleteOps(init);
      var last := if !Replaced(n) && n.node.disk.Some? then RetractEntry(n.node.disk.value, n.node.disk.value.game) else [];
      var ops := rest + last;
      assert DeleteOps(group) == ops;
      forall j | 0 <= j < |ops|
        ensures ops[j].Retract? && IsDiskAttr(ops[j].a)
        ensures exists i :: && 0 <= i < |group| && !Replaced(group[i]) && group[i].node.disk.Some?
                            && ops[j].e == group[i].node.disk.value.id
      {
        if j < |rest| {
          assert ops[j] == rest[j];
          var i :| && 0 <= i < |init| && !Replaced(init[i]) && init[i].node.disk.Some?
                   && rest[j].e == init[i].node.disk.value.id;
          assert init[i] == group[i];
        } else {
          assert ops[j] in last;
          assert ops[j].e == group[|group| - 1].node.disk.value.id;
        }
      }
    }
  }

  /** The view holds a disk-state entry: its path datom names the entry's own game and path. */
  predicate HoldsEntryPath(v: View, d: DiskEntry) {
    (d.id, DiskPath) in v ==> v[(d.id, DiskPath)] == VPath(d.game, d.path)
  }

  /** After the deletion datoms, no deleted, non-replaced node's entry has a path any more. */
  lemma DeleteRemovesEntries(group: seq<ClassifiedNode>, v: View)
    requires ActionDeleteFromDisk(group).Success?
    requires forall i :: 0 <= i < |group| && group[i].node.disk.Some? ==> HoldsEntryPath(v, group[i].node.disk.value)
    ensures forall i :: 0 <= i < |group| && !Replaced(group[i]) ==>
              (group[i].node.disk.value.id, DiskPath) !in Apply(v, ActionDeleteFromDisk(group).value)
  {
    var ops := ActionDeleteFromDisk(group).value;
    DeleteRetractsExactly(group);
    forall i | 0 <= i < |group| && !Replaced(group[i])
      ensures (group[i].node.disk.value.id, DiskPath) !in Apply(v, ops)
    {
      var d := group[i].node.disk.value;
      RetractsRemove(v, ops, d.id, DiskPath, VPath(d.game, d.path));
    }
  }

  // ---------------------------------------------------------------- extract

  /** Unix permission bits (`UnixFileMode`). */
  type Mode = bv16

  /** `UserExecute | GroupExecute | OtherExecute`, octal 0111. */
  const ExecuteBits: Mode := 0x49

  /** The `chmod +x` applied to an extracted script: the three execute bits are set, every other bit is kept. */
  function WithExecuteBits(m: Mode): (r: Mode)
    ensures r & ExecuteBits == ExecuteBits
    ensures r & !ExecuteBits == m & !ExecuteBits
  {
    m | ExecuteBits
  }

  lemma WithExecuteBitsIdempotent(m: Mode)
    ensures WithExecuteBits(WithExecuteBits(m)) == WithExecuteBits(m)
    ensures m & ExecuteBits == ExecuteBits ==> WithExecuteBits(m) == m
  {
  }

  /** The last '.' of a name, if any. */
  function LastDot(s: string): (r: Option<nat>)
    ensures r.Some? ==> r.value < |s| && s[r.value] == '.' && forall k :: r.value < k < |s| ==> s[k] != '.'
    ensures r.None? ==> forall k :: 0 <= k < |s| ==> s[k] != '.'
  {
    if |s| == 0 then None
    else if s[|s| - 1] == '.' then Some(|s| - 1)
    else LastDot(s[..|s| - 1])
  }

  /**
   * The `Extension` of a NexusMods.Paths path, whose library is not part of
   * this model: taken to run from the last '.' of the name on, and to be
   * empty when there is no '.' or the '.' ends the name.
   */
  function Extension(name: string): (r: string)
    ensures r == "" <==> LastDot(name).None? || LastDot(name).value == |name| - 1
    ensures r != "" ==> r == name[LastDot(name).value..]
    ensures r == "" || (|r| >= 2 && r[0] == '.' && forall k :: 1 <= k < |r| ==> r[k] != '.')
    ensures exists stem :: name == stem + r
  {
    match LastDot(name)
    case None =>
      assert name == name + "";
      ""
    case Some(i) =>
      if i == |name| - 1 then
        assert name == name + "";
        ""
      else
        assert name == name[..i] + name[i..];
        name[i..]
  }

  /** ASCII lower-casing. */
  function Lower(s: string): (r: string)
    ensures |r| == |s|
    ensures forall k :: 0 <= k < |s| ==> r[k] == (if 'A' <= s[k] <= 'Z' then (s[k] - 'A' + 'a') as char else s[k])
  {
    seq(|s|, k requires 0 <= k < |s| => if 'A' <= s[k] <= 'Z' then (s[k] - 'A' + 'a') as char else s[k])
  }

  const ScriptExtensions: set<string> := {"", ".sh", ".bin", ".run", ".py", ".pl", ".php", ".rb", ".out", ".elf"}

  /** An extracted file that gets the execute bits on Unix. */
  predicate NeedsExecuteBits(name: string) {
    Lower(Extension(name)) in ScriptExtensions
  }

  lemma NeedsExecuteBitsExamples()
    ensures NeedsExecuteBits("install.SH")
    ensures NeedsExecuteBits("launcher")
    ensures NeedsExecuteBits("name.")
    ensures !NeedsExecuteBits("readme.txt")
    ensures !NeedsExecuteBits("mod.sh.bak")
  {
    UpperCaseScript();
    TextFileIsData();
    BackupFileIsData();
  }

  lemma UpperCaseScript()
    ensures Extension("install.SH") == ".SH" && NeedsExecuteBits("install.SH")
  {
    assert LastDot("install.SH") == Some(7);
    assert Lower(".SH") == ".sh";
  }

  lemma TextFileIsData()
    ensures Extension("readme.txt") == ".txt" && !NeedsExecuteBits("readme.txt")
  {
    assert "readme.txt"[6] == '.';
    assert LastDot("readme.txt") == Some(6);
    assert ".txt" !in ScriptExtensions;
  }

  /** Only the last extension counts, in either direction. */
  lemma BackupFileIsData()
    ensures Extension("mod.sh.bak") == ".bak" && !NeedsExecuteBits("mod.sh.bak")
    ensures Extension("mod.bak.sh") == ".sh" && NeedsExecuteBits("mod.bak.sh")
  {
    assert "mod.sh.bak"[6] == '.';
    assert LastDot("mod.sh.bak") == Some(6);
    assert ".bak" !in ScriptExtensions;
    assert "mod.bak.sh"[7] == '.';
    assert LastDot("mod.bak.sh") == Some(7);
    assert Lower(".sh") == ".sh";
  }

  /** The paths whose mode `ActionExtractToDisk` ORs with the execute bits: only on Unix, only script-like names. */
  function MadeExecutable(isUnix: bool, group: seq<ClassifiedNode>): (r: seq<GamePath>)
    ensures forall p :: p in r <==> isUnix && p in Paths(group) && NeedsExecuteBits(FileName(p))
  {
    if isUnix then ScriptPaths(Paths(group)) else []
  }

  /** The paths of `ps` whose file name looks like a script, in order. */
  function ScriptPaths(ps: seq<GamePath>): (r: seq<GamePath>)
    ensures forall p :: p in r <==> p in ps && NeedsExecuteBits(FileName(p))
  {
    if |ps| == 0 then []
    else
      var p := ps[|ps| - 1];
      var rest := ScriptPaths(ps[..|ps| - 1]);
      assert ps == ps[..|ps| - 1] + [p];
      if NeedsExecuteBits(FileName(p)) then rest + [p] else rest
  }

  /** The (hash, path) pairs handed to the content store's `ExtractFiles`; a node without a loadout file throws. */
  function ExtractRequests(group: seq<ClassifiedNode>): (r: Result<seq<(Hash, GamePath)>, SyncError>)
    ensures r.Success? <==> forall i :: 0 <= i < |group| ==> group[i].node.loadout.Some?
    ensures r.Failure? ==> exists i :: 0 <= i < |group| && group[i].node.loadout.None? && r.error == MissingLoadoutHash(group[i].node.path)
    ensures r.Success? ==> |r.value| == |group| && forall i :: 0 <= i < |group| ==>
              r.value[i] == (group[i].node.loadout.value.hash, group[i].node.path)
  {
    if |group| == 0 then Success([])
    else
      var init := group[..|group| - 1];
      var n := group[|group| - 1];
      var rest :- ExtractRequests(init);
      if n.node.loadout.None? then Failure(MissingLoadoutHash(n.node.path))
      else Success(rest + [(n.node.loadout.value.hash, n.node.path)])
  }

  /** An empty extract group asks for no file and makes none executable. */
  lemma NothingToExtract(isUnix: bool, group: seq<ClassifiedNode>)
    requires |group| == 0
    ensures MadeExecutable(isUnix, group) == [] && ExtractRequests(group) == Success([])
  {
  }

  /** The disk-state datoms for one extracted file: the existing entry is updated in place, otherwise entry `t` is made. */
  function ExtractNodeOps(n: SyncNode, row: LoadoutRow, gameMeta: EntityId, now: int, t: EntityId): seq<Op> {
    if n.disk.Some? then
      var id := n.disk.value.id;
      [ Add(id, DiskHash, VHash(row.hash)),
        Add(id, DiskSize, VSize(row.size)),
        Add(id, DiskLastModified, VTime(now)) ]
    else
      [ Add(t, DiskPath, VPath(gameMeta, n.path)),
        Add(t, DiskHash, VHash(row.hash)),
        Add(t, DiskSize, VSize(row.size)),
        Add(t, DiskLastModified, VTime(now)),
        Add(t, DiskGame, VRef(gameMeta)) ]
  }

  /** The nodes without a disk entry: each needs a new entry, hence a temporary id. */
  function NewEntryCount(group: seq<ClassifiedNode>): (r: nat)
    ensures r <= |group|
  {
    if |group| == 0 then 0
    else NewEntryCount(group[..|group| - 1]) + (if group[|group| - 1].node.disk.None? then 1 else 0)
  }

  /** The datoms for the extracted nodes that are loadout files; new entries take `base`, `base + 1`, ... in group order. */
  function ExtractOps(group: seq<ClassifiedNode>, gameMeta: EntityId, now: int, base: nat): seq<Op> {
    if |group| == 0 then []
    else
      var init := group[..|group| - 1];
      var n := group[|group| - 1].node;
      ExtractOps(init, gameMeta, now, base)
        + (if n.loadout.Some? then ExtractNodeOps(n, n.loadout.value, gameMeta, now, Temp(base + NewEntryCount(init))) else [])
  }

  /**
   * `ActionExtractToDisk`, the datoms. New entries take the temporary ids
   * `base`, `base + 1`, ... in group order. A node that is not a loadout file
   * throws before anything is written.
   */
  function ActionExtractToDisk(group: seq<ClassifiedNode>, gameMeta: EntityId, now: int, base: nat): (r: Result<seq<Op>, SyncError>)
    ensures r.Success? <==> forall i :: 0 <= i < |group| ==> group[i].node.loadout.Some?
    ensures r.Failure? ==> exists i :: 0 <= i < |group| && group[i].node.loadout.None? && r.error == MissingLoadoutHash(group[i].node.path)
  {
    match FirstUnmet(group, NeedsLoadoutFile, 0)
    case Some(i) => Failure(MissingLoadoutHash(group[i].node.path))
    case None => Success(ExtractOps(group, gameMeta, now, base))
  }

  /**
   * Extraction only adds disk-state datoms, and only on the group's existing
   * entries or on the temporary ids it hands out.
   */
  lemma ExtractTouchesOnlyEntries(group: seq<ClassifiedNode>, gameMeta: EntityId, now: int, base: nat)
    requires ActionExtractToDisk(group, gameMeta, now, base).Success?
    ensures forall j :: 0 <= j < |ActionExtractToDisk(group, gameMeta, now, base).value| ==>
              var op := ActionExtractToDisk(group, gameMeta, now, base).value[j];
              && op.Add? && IsDiskAttr(op.a)
              && ((op.e.Temp? && base <= op.e.k < base + NewEntryCount(group))
                  || exists i :: 0 <= i < |group| && group[i].node.disk.Some? && op.e == group[i].node.disk.value.id)
  {
    ExtractOpsTouch(group, gameMeta, now, base);
  }

  lemma {:induction false} ExtractOpsTouch(group: seq<ClassifiedNode>, gameMeta: EntityId, now: int, base: nat)
    ensures forall j :: 0 <= j < |ExtractOps(group, gameMeta, now, base)| ==>
              var op := ExtractOps(group, gameMeta, now, base)[j];
              && op.Add? && IsDiskAttr(op.a)
              && ((op.e.Temp? && base <= op.e.k < base + NewEntryCount(group))
                  || exists i :: 0 <= i < |group| && group[i].node.disk.Some? && op.e == group[i].node.disk.value.id)
    decreases |group|
  {
    if |group| > 0 {
      var init := group[..|group| - 1];
      var n := group[|group| - 1].node;
      ExtractOpsTouch(init, gameMeta, now, base);
      var rest := ExtractOps(init, gameMeta, now, base);
      var last := if n.loadout.Some? then ExtractNodeOps(n, n.loadout.value, gameMeta, now, Temp(base + NewEntryCount(init))) else [];
      var ops := rest + last;
      assert ExtractOps(group, gameMeta, now, base) == ops;
      forall j | 0 <= j < |ops|
        ensures && ops[j].Add? && IsDiskAttr(ops[j].a)
                && ((ops[j].e.Temp? && base <= ops[j].e.k < base + NewEntryCount(group))
                    || exists i :: 0 <= i < |group| && group[i].node.disk.Some? && ops[j].e == group[i].node.disk.value.id)
      {
        if j < |rest| {
          assert ops[j] == rest[j];
          if !(ops[j].e.Temp? && base <= ops[j].e.k < base + NewEntryCount(init)) {
            var i :| 0 <= i < |init| && init[i].node.disk.Some? && ops[j].e == init[i].node.disk.value.id;
            assert init[i] == group[i];
          }
        } else if n.disk.Some? {
          assert ops[j].e == group[|group| - 1].node.disk.value.id;
        }
      }
    }
  }

  /** A node without a disk entry gets a new entry, on the temporary id counted by the nodes before it, at its path. */
  lemma ExtractCreatesEntries(group: seq<ClassifiedNode>, gameMeta: EntityId, now: int, base: nat, i: nat)
    requires ActionExtractToDisk(group, gameMeta, now, base).Success?
    requires i < |group| && group[i].node.disk.None?
    ensures var ops := ActionExtractToDisk(group, gameMeta, now, base).value;
            var t := Temp(base + NewEntryCount(group[..i]));
            && Add(t, DiskPath, VPath(gameMeta, group[i].node.path)) in ops
            && Add(t, DiskHash, VHash(group[i].node.loadout.value.hash)) in ops
            && Add(t, DiskSize, VSize(group[i].node.loadout.value.size)) in ops
            && Add(t, DiskLastModified, VTime(now)) in ops
            && Add(t, DiskGame, VRef(gameMeta)) in ops
  {
    ExtractOpsCreates(group, gameMeta, now, base, i);
  }

  /** The new disk entry `t`: at path `p` of the game, with hash `h`, size `s` and last-modified time `now`. */
  predicate EntryCreated(ops: seq<Op>, t: EntityId, gameMeta: EntityId, p: GamePath, h: Hash, s: nat, now: int) {
    && Add(t, DiskPath, VPath(gameMeta, p)) in ops
    && Add(t, DiskHash, VHash(h)) in ops
    && Add(t, DiskSize, VSize(s)) in ops
    && Add(t, DiskLastModified, VTime(now)) in ops
    && Add(t, DiskGame, VRef(gameMeta)) in ops
  }

  lemma EntryCreatedAppend(a: seq<Op>, b: seq<Op>, t: EntityId, gameMeta: EntityId, p: GamePath, h: Hash, s: nat, now: int)
    requires EntryCreated(a, t, gameMeta, p, h, s, now) || EntryCreated(b, t, gameMeta, p, h, s, now)
    ensures EntryCreated(a + b, t, gameMeta, p, h, s, now)
  {
  }

  lemma {:induction false} ExtractOpsCreates(group: seq<ClassifiedNode>, gameMeta: EntityId, now: int, base: nat, i: nat)
    requires i < |group| && group[i].node.disk.None? && group[i].node.loadout.Some?
    ensures EntryCreated(ExtractOps(group, gameMeta, now, base), Temp(base + NewEntryCount(group[..i])), gameMeta,
                         group[i].node.path, group[i].node.loadout.value.hash, group[i].node.loadout.value.size, now)
    decreases |group|
  {
    var init := group[..|group| - 1];
    var n := group[|group| - 1].node;
    var rest := ExtractOps(init, gameMeta, now, base);
    var last := if n.loadout.Some? then ExtractNodeOps(n, n.loadout.value, gameMeta, now, Temp(base + NewEntryCount(init))) else [];
    assert ExtractOps(group, gameMeta, now, base) == rest + last;
    var t := Temp(base + NewEntryCount(group[..i]));
    if i < |group| - 1 {
      assert init[i] == group[i];
      assert init[..i] == group[..i];
      ExtractOpsCreates(init, gameMeta, now, base, i);
    } else {
      assert group[..i] == init;
      ExtractNodeCreates(n, n.loadout.value, gameMeta, now, t);
    }
    EntryCreatedAppend(rest, last, t, gameMeta, group[i].node.path, group[i].node.loadout.value.hash,
                       group[i].node.loadout.value.size, now);
  }

  lemma ExtractNodeCreates(n: SyncNode, row: LoadoutRow, gameMeta: EntityId, now: int, t: EntityId)
    requires n.disk.None?
    ensures EntryCreated(ExtractNodeOps(n, row, gameMeta, now, t), t, gameMeta, n.path, row.hash, row.size, now)
  {
    var ops := ExtractNodeOps(n, row, gameMeta, now, t);
    assert ops[0] == Add(t, DiskPath, VPath(gameMeta, n.path));
    assert ops[1] == Add(t, DiskHash, VHash(row.hash));
    assert ops[2] == Add(t, DiskSize, VSize(row.size));
    assert ops[3] == Add(t, DiskLastModified, VTime(now));
    assert ops[4] == Add(t, DiskGame, VRef(gameMeta));
  }

  /** Disk-state entries are committed entities with one id per node. */
  predicate DiskIdsDistinct(group: seq<ClassifiedNode>) {
    && (forall i :: 0 <= i < |group| && group[i].node.disk.Some? ==> group[i].node.disk.value.id.Stored?)
    && (forall i, j :: 0 <= i < j < |group| && group[i].node.disk.Some? && group[j].node.disk.Some? ==>
          group[i].node.disk.value.id != group[j].node.disk.value.id)
  }

  /** After the extraction datoms, every reused disk entry reads back the loadout file's hash and size and the extraction time. */
  lemma ExtractUpdatesEntries(group: seq<ClassifiedNode>, gameMeta: EntityId, now: int, base: nat, v: View, i: nat)
    requires ActionExtractToDisk(group, gameMeta, now, base).Success?
    requires DiskIdsDistinct(group)
    requires i < |group| && group[i].node.disk.Some?
    ensures var w := Apply(v, ActionExtractToDisk(group, gameMeta, now, base).value);
            var id := group[i].node.disk.value.id;
            var row := group[i].node.loadout.value;
            && (id, DiskHash) in w && w[(id, DiskHash)] == VHash(row.hash)
            && (id, DiskSize) in w && w[(id, DiskSize)] == VSize(row.size)
            && (id, DiskLastModified) in w && w[(id, DiskLastModified)] == VTime(now)
  {
    ExtractOpsUpdates(group, gameMeta, now, base, v, i);
  }

  /** Entry `id` reads back the loadout file's hash and size, and the extraction time. */
  predicate EntryUpdated(w: View, id: EntityId, row: LoadoutRow, now: int) {
    && (id, DiskHash) in w && w[(id, DiskHash)] == VHash(row.hash)
    && (id, DiskSize) in w && w[(id, DiskSize)] == VSize(row.size)
    && (id, DiskLastModified) in w && w[(id, DiskLastModified)] == VTime(now)
  }

  lemma {:induction false} ExtractOpsUpdates(group: seq<ClassifiedNode>, gameMeta: EntityId, now: int, base: nat, v: View, i: nat)
    requires DiskIdsDistinct(group)
    requires i < |group| && group[i].node.disk.Some? && group[i].node.loadout.Some?
    ensures EntryUpdated(Apply(v, ExtractOps(group, gameMeta, now, base)), group[i].node.disk.value.id, group[i].node.loadout.value, now)
    decreases |group|
  {
    var init := group[..|group| - 1];
    var n := group[|group| - 1].node;
    var t := Temp(base + NewEntryCount(init));
    var rest := ExtractOps(init, gameMeta, now, base);
    var last := if n.loadout.Some? then ExtractNodeOps(n, n.loadout.value, gameMeta, now, t) else [];
    assert ExtractOps(group, gameMeta, now, base) == rest + last;
    ApplyAppend(v, rest, last);
    var w1 := Apply(v, rest);
    if i == |group| - 1 {
      ExtractNodeUpdates(w1, n, n.loadout.value, gameMeta, now, t);
    } else {
      assert forall k :: 0 <= k < |init| ==> init[k] == group[k];
      ExtractOpsUpdates(init, gameMeta, now, base, v, i);
      if n.loadout.Some? {
        ExtractNodeKeeps(w1, n, n.loadout.value, gameMeta, now, t, group[i].node.disk.value.id, group[i].node.loadout.value);
      }
    }
  }

  /** One node's datoms write the loadout file's hash and size into its existing entry. */
  lemma ExtractNodeUpdates(w: View, n: SyncNode, row: LoadoutRow, gameMeta: EntityId, now: int, t: EntityId)
    requires n.disk.Some?
    ensures EntryUpdated(Apply(w, ExtractNodeOps(n, row, gameMeta, now, t)), n.disk.value.id, row, now)
  {
    var ops := ExtractNodeOps(n, row, gameMeta, now, t);
    ApplyLoneAdd(w, ops, 0);
    ApplyLoneAdd(w, ops, 1);
    ApplyLoneAdd(w, ops, 2);
  }

  /** One node's datoms leave every other committed entry alone. */
  lemma ExtractNodeKeeps(w: View, n: SyncNode, row: LoadoutRow, gameMeta: EntityId, now: int, t: EntityId, id: EntityId, earlier: LoadoutRow)
    requires id.Stored? && t.Temp?
    requires n.disk.Some? ==> n.disk.value.id != id
    requires EntryUpdated(w, id, earlier, now)
    ensures EntryUpdated(Apply(w, ExtractNodeOps(n, row, gameMeta, now, t)), id, earlier, now)
  {
    var ops := ExtractNodeOps(n, row, gameMeta, now, t);
    ApplyUntouched(w, ops, (id, DiskHash));
    ApplyUntouched(w, ops, (id, DiskSize));
    ApplyUntouched(w, ops, (id, DiskLastModified));
  }

  // ---------------------------------------------------------------- overrides group

  /**
   * `GetOrCreateOverridesGroup`: the Overrides group found in the database
   * snapshot, or a new one created in the transaction. `found` is the result
   * of the lookup by `OverridesFor`.
   */
  function GetOrCreateOverridesGroup(found: Option<EntityId>, loadout: EntityId, tx: Tx): (r: (EntityId, Tx))
    ensures Extends(tx, r.1)
    ensures found.Some? ==> r.0 == found.value && r.1 == tx
    ensures found.None? ==> && FreshIn(r.0, tx, r.1) && r.1.nextTemp == tx.nextTemp + 1
                            && Add(r.0, OverridesFor, VRef(loadout)) in r.1.ops
                            && Add(r.0, GroupIsGroup, VBool(true)) in r.1.ops
                            && Add(r.0, ItemLoadout, VRef(loadout)) in r.1.ops
                            && CountOverridesFor(r.1.ops) == CountOverridesFor(tx.ops) + 1
  {
    match found
    case Some(id) => (id, tx)
    case None =>
      var (t, tx1) := NewTemp(tx);
      var ops := [ Add(t, OverridesFor, VRef(loadout)),
                   Add(t, GroupIsGroup, VBool(true)),
                   Add(t, ItemName, VText("Overrides")),
                   Add(t, ItemLoadout, VRef(loadout)) ];
      CountAppend(tx.ops, ops);
      CountAppend([ops[0]], ops[1..]);
      assert ops == [ops[0]] + ops[1..];
      assert [ops[0]][..0] == [];
      CountNone(ops[1..]);
      (t, Emit(tx1, ops))
  }

  /** Creating the group adds datoms only, and none of them is a loadout or installation bookkeeping datom. */
  lemma OverridesGroupWritesNoMetadata(found: Option<EntityId>, loadout: EntityId, tx: Tx)
    ensures forall j :: |tx.ops| <= j < |GetOrCreateOverridesGroup(found, loadout, tx).1.ops| ==>
              var op := GetOrCreateOverridesGroup(found, loadout, tx).1.ops[j];
              op.Add? && !IsMetadataAttr(op.a)
  {
  }

  /** How many Overrides groups a batch of datoms creates. */
  function CountOverridesFor(ops: seq<Op>): nat {
    if |ops| == 0 then 0
    else CountOverridesFor(ops[..|ops| - 1]) + (if ops[|ops| - 1].Add? && ops[|ops| - 1].a == OverridesFor then 1 else 0)
  }

  lemma {:induction false} CountAppend(a: seq<Op>, b: seq<Op>)
    ensures CountOverridesFor(a + b) == CountOverridesFor(a) + CountOverridesFor(b)
    decreases |b|
  {
    if |b| == 0 {
      assert a + b == a;
    } else {
      assert (a + b)[..|a + b| - 1] == a + b[..|b| - 1];
      CountAppend(a, b[..|b| - 1]);
    }
  }

  lemma {:induction false} CountNone(ops: seq<Op>)
    requires forall j :: 0 <= j < |ops| ==> !(ops[j].Add? && ops[j].a == OverridesFor)
    ensures CountOverridesFor(ops) == 0
    decreases |ops|
  {
    if |ops| > 0 {
      CountNone(ops[..|ops| - 1]);
    }
  }

  // ---------------------------------------------------------------- ingest

  /** The node's loadout file still exists in the database, so it is updated in place. */
  predicate HasValidFile(n: SyncNode, validItems: set<EntityId>) {
    n.loadout.Some? && n.loadout.value.reference.Some? && n.loadout.value.reference.value in validItems
  }

  /** The datoms for one ingested file: update the loadout file, or add loadout file `t` under the Overrides group. */
  function IngestNodeOps(n: SyncNode, d: DiskEntry, loadout: EntityId, overrides: EntityId, validItems: set<EntityId>,
                         now: int, t: EntityId): seq<Op>
  {
    if HasValidFile(n, validItems) then
      var f := n.loadout.value.reference.value;
      [ Add(f, FileHash, VHash(d.hash)),
        Add(f, FileSize, VSize(d.size)),
        Add(d.id, DiskLastModified, VTime(now)) ]
    else
      [ Add(t, ItemParent, VRef(overrides)),
        Add(t, ItemLoadout, VRef(loadout)),
        Add(t, ItemName, VText(FileName(n.path))),
        Add(t, TargetPath, VPath(loadout, n.path)),
        Add(t, FileHash, VHash(d.hash)),
        Add(t, FileSize, VSize(d.size)),
        Add(d.id, DiskLastModified, VTime(now)) ]
  }

  /** The nodes that become new loadout files, each on a temporary id. */
  function NewFileCount(group: seq<ClassifiedNode>, validItems: set<EntityId>): (r: nat)
    ensures r <= |group|
  {
    if |group| == 0 then 0
    else NewFileCount(group[..|group| - 1], validItems) + (if HasValidFile(group[|group| - 1].node, validItems) then 0 else 1)
  }

  /** The datoms for the ingested nodes that have a disk entry; new files take `base`, `base + 1`, ... in group order. */
  function IngestOps(group: seq<ClassifiedNode>, loadout: EntityId, overrides: EntityId, validItems: set<EntityId>,
                     now: int, base: nat): seq<Op>
  {
    if |group| == 0 then []
    else
      var init := group[..|group| - 1];
      var n := group[|group| - 1].node;
      IngestOps(init, loadout, overrides, validItems, now, base)
        + (if n.disk.Some? then IngestNodeOps(n, n.disk.value, loadout, overrides, validItems, now, Temp(base + NewFileCount(init, validItems)))
           else [])
  }

  /**
   * `ActionIngestFromDisk`, the per-file datoms (the Overrides group is
   * obtained by the caller). New files take the temporary ids `base`,
   * `base + 1`, ... in group order. A node without a Disk slot throws.
   */
  function ActionIngestFromDisk(group: seq<ClassifiedNode>, loadout: EntityId, overrides: EntityId, validItems: set<EntityId>,
                                now: int, base: nat): (r: Result<seq<Op>, SyncError>)
    ensures r.Success? <==> forall i :: 0 <= i < |group| ==> group[i].node.disk.Some?
    ensures r.Failure? ==> exists i :: 0 <= i < |group| && group[i].node.disk.None? && r.error == MissingDiskEntry(group[i].node.path)
  {
    match FirstUnmet(group, NeedsDisk, 0)
    case Some(i) => Failure(MissingDiskEntry(group[i].node.path))
    case None => Success(IngestOps(group, loadout, overrides, validItems, now, base))
  }

  /** Every ingested node refreshes its disk entry's time. */
  lemma IngestRefreshesTimes(group: seq<ClassifiedNode>, loadout: EntityId, overrides: EntityId,
                             validItems: set<EntityId>, now: int, base: nat)
    requires ActionIngestFromDisk(group, loadout, overrides, validItems, now, base).Success?
    ensures forall i :: 0 <= i < |group| ==>
              Add(group[i].node.disk.value.id, DiskLastModified, VTime(now))
                in ActionIngestFromDisk(group, loadout, overrides, validItems, now, base).value
  {
    IngestOpsRefresh(group, loadout, overrides, validItems, now, base);
  }

  lemma {:induction false} IngestOpsRefresh(group: seq<ClassifiedNode>, loadout: EntityId, overrides: EntityId,
                                            validItems: set<EntityId>, now: int, base: nat)
    ensures forall i :: 0 <= i < |group| && group[i].node.disk.Some? ==>
              Add(group[i].node.disk.value.id, DiskLastModified, VTime(now)) in IngestOps(group, loadout, overrides, validItems, now, base)
    decreases |group|
  {
    if |group| > 0 {
      var init := group[..|group| - 1];
      var n := group[|group| - 1].node;
      IngestOpsRefresh(init, loadout, overrides, validItems, now, base);
      var rest := IngestOps(init, loadout, overrides, validItems, now, base);
      var last := if n.disk.Some? then IngestNodeOps(n, n.disk.value, loadout, overrides, validItems, now, Temp(base + NewFileCount(init, validItems))) else [];
      assert IngestOps(group, loadout, overrides, validItems, now, base) == rest + last;
      if n.disk.Some? {
        assert last[|last| - 1] == Add(n.disk.value.id, DiskLastModified, VTime(now));
      }
      forall i | 0 <= i < |group| && group[i].node.disk.Some?
        ensures Add(group[i].node.disk.value.id, DiskLastModified, VTime(now)) in rest + last
      {
        if i < |init| {
          assert init[i] == group[i];
        }
      }
    }
  }

  /**
   * A node whose file is gone from the loadout becomes a new file under
   * `overrides` at its path, on the temporary id counted by the new files
   * before it.
   */
  lemma IngestCreatesFiles(group: seq<ClassifiedNode>, loadout: EntityId, overrides: EntityId,
                           validItems: set<EntityId>, now: int, base: nat, i: nat)
    requires ActionIngestFromDisk(group, loadout, overrides, validItems, now, base).Success?
    requires i < |group| && !HasValidFile(group[i].node, validItems)
    ensures FileCreated(ActionIngestFromDisk(group, loadout, overrides, validItems, now, base).value,
                        Temp(base + NewFileCount(group[..i], validItems)), loadout, overrides, group[i].node.path,
                        group[i].node.disk.value.hash, group[i].node.disk.value.size)
  {
    IngestOpsCreates(group, loadout, overrides, validItems, now, base, i);
  }

  lemma {:induction false} IngestOpsCreates(group: seq<ClassifiedNode>, loadout: EntityId, overrides: EntityId,
                                            validItems: set<EntityId>, now: int, base: nat, i: nat)
    requires i < |group| && group[i].node.disk.Some? && !HasValidFile(group[i].node, validItems)
    ensures FileCreated(IngestOps(group, loadout, overrides, validItems, now, base),
                        Temp(base + NewFileCount(group[..i], validItems)), loadout, overrides, group[i].node.path,
                        group[i].node.disk.value.hash, group[i].node.disk.value.size)
    decreases |group|
  {
    var init := group[..|group| - 1];
    var n := group[|group| - 1].node;
    var rest := IngestOps(init, loadout, overrides, validItems, now, base);
    var last := if n.disk.Some? then IngestNodeOps(n, n.disk.value, loadout, overrides, validItems, now, Temp(base + NewFileCount(init, validItems))) else [];
    assert IngestOps(group, loadout, overrides, validItems, now, base) == rest + last;
    var t := Temp(base + NewFileCount(group[..i], validItems));
    if i < |group| - 1 {
      assert init[i] == group[i];
      assert init[..i] == group[..i];
      IngestOpsCreates(init, loadout, overrides, validItems, now, base, i);
    } else {
      assert group[..i] == init;
      IngestNodeCreates(n, n.disk.value, loadout, overrides, validItems, now, t);
    }
    FileCreatedAppend(rest, last, t, loadout, overrides, group[i].node.path, group[i].node.disk.value.hash,
                      group[i].node.disk.value.size);
  }

  /** The new loadout file `t` of `loadout`: under `overrides`, at path `p` of the loadout, with hash `h` and size `s`. */
  predicate FileCreated(ops: seq<Op>, t: EntityId, loadout: EntityId, overrides: EntityId, p: GamePath, h: Hash, s: nat) {
    && Add(t, ItemParent, VRef(overrides)) in ops
    && Add(t, ItemLoadout, VRef(loadout)) in ops
    && Add(t, TargetPath, VPath(loadout, p)) in ops
    && Add(t, FileHash, VHash(h)) in ops
    && Add(t, FileSize, VSize(s)) in ops
  }

  lemma FileCreatedAppend(a: seq<Op>, b: seq<Op>, t: EntityId, loadout: EntityId, overrides: EntityId, p: GamePath, h: Hash, s: nat)
    requires FileCreated(a, t, loadout, overrides, p, h, s) || FileCreated(b, t, loadout, overrides, p, h, s)
    ensures FileCreated(a + b, t, loadout, overrides, p, h, s)
  {
  }

  lemma IngestNodeCreates(n: SyncNode, d: DiskEntry, loadout: EntityId, overrides: EntityId, validItems: set<EntityId>,
                          now: int, t: EntityId)
    requires !HasValidFile(n, validItems)
    ensures FileCreated(IngestNodeOps(n, d, loadout, overrides, validItems, now, t), t, loadout, overrides, n.path, d.hash, d.size)
  {
    var ops := IngestNodeOps(n, d, loadout, overrides, validItems, now, t);
    assert ops[0] == Add(t, ItemParent, VRef(overrides));
    assert ops[1] == Add(t, ItemLoadout, VRef(loadout));
    assert ops[3] == Add(t, TargetPath, VPath(loadout, n.path));
    assert ops[4] == Add(t, FileHash, VHash(d.hash));
    assert ops[5] == Add(t, FileSize, VSize(d.size));
  }

  /** Ingest only adds datoms, and never an `OverridesFor`: it creates no group itself. */
  lemma IngestWritesNoGroup(group: seq<ClassifiedNode>, loadout: EntityId, overrides: EntityId,
                            validItems: set<EntityId>, now: int, base: nat)
    requires ActionIngestFromDisk(group, loadout, overrides, validItems, now, base).Success?
    ensures AddsPlain(ActionIngestFromDisk(group, loadout, overrides, validItems, now, base).value)
  {
    IngestOpsPlain(group, loadout, overrides, validItems, now, base);
  }

  lemma {:induction false} IngestOpsPlain(group: seq<ClassifiedNode>, loadout: EntityId, overrides: EntityId,
                                          validItems: set<EntityId>, now: int, base: nat)
    ensures AddsPlain(IngestOps(group, loadout, overrides, validItems, now, base))
    decreases |group|
  {
    if |group| > 0 {
      var init := group[..|group| - 1];
      var n := group[|group| - 1].node;
      IngestOpsPlain(init, loadout, overrides, validItems, now, base);
      var rest := IngestOps(init, loadout, overrides, validItems, now, base);
      var last := if n.disk.Some? then IngestNodeOps(n, n.disk.value, loadout, overrides, validItems, now, Temp(base + NewFileCount(init, validItems))) else [];
      assert IngestOps(group, loadout, overrides, validItems, now, base) == rest + last;
      if n.disk.Some? {
        IngestNodePlain(n, n.disk.value, loadout, overrides, validItems, now, Temp(base + NewFileCount(init, validItems)));
      }
      AddsPlainAppend(rest, last);
    }
  }

  /** Only additions, none of them an `OverridesFor` or a bookkeeping datom. */
  predicate AddsPlain(ops: seq<Op>) {
    forall j :: 0 <= j < |ops| ==> ops[j].Add? && ops[j].a != OverridesFor && !IsMetadataAttr(ops[j].a)
  }

  lemma AddsPlainAppend(a: seq<Op>, b: seq<Op>)
    requires AddsPlain(a) && AddsPlain(b)
    ensures AddsPlain(a + b)
  {
    assert forall j :: |a| <= j < |a + b| ==> (a + b)[j] == b[j - |a|];
  }

  lemma IngestNodePlain(n: SyncNode, d: DiskEntry, loadout: EntityId, overrides: EntityId, validItems: set<EntityId>,
                        now: int, t: EntityId)
    ensures AddsPlain(IngestNodeOps(n, d, loadout, overrides, validItems, now, t))
  {
  }

  /** Loadout files named by the group are committed entities, one per node. */
  predicate FileIdsDistinct(group: seq<ClassifiedNode>, validItems: set<EntityId>) {
    && (forall i :: 0 <= i < |group| && HasValidFile(group[i].node, validItems) ==> group[i].node.loadout.value.reference.value.Stored?)
    && (forall i, j :: 0 <= i < j < |group| && HasValidFile(group[i].node, validItems) && HasValidFile(group[j].node, validItems) ==>
          group[i].node.loadout.value.reference.value != group[j].node.loadout.value.reference.value)
  }

  /** After the ingest datoms, a loadout file that was updated in place reads back the disk's hash and size. */
  lemma IngestUpdatesFiles(group: seq<ClassifiedNode>, loadout: EntityId, overrides: EntityId,
                           validItems: set<EntityId>, now: int, base: nat, v: View, i: nat)
    requires ActionIngestFromDisk(group, loadout, overrides, validItems, now, base).Success?
    requires FileIdsDistinct(group, validItems)
    requires i < |group| && HasValidFile(group[i].node, validItems)
    ensures var w := Apply(v, ActionIngestFromDisk(group, loadout, overrides, validItems, now, base).value);
            var f := group[i].node.loadout.value.reference.value;
            var d := group[i].node.disk.value;
            && (f, FileHash) in w && w[(f, FileHash)] == VHash(d.hash)
            && (f, FileSize) in w && w[(f, FileSize)] == VSize(d.size)
  {
    IngestOpsUpdates(group, loadout, overrides, validItems, now, base, v, i);
  }

  /** Loadout file `f` reads back the hash and size of disk entry `d`. */
  predicate FileUpdated(w: View, f: EntityId, d: DiskEntry) {
    && (f, FileHash) in w && w[(f, FileHash)] == VHash(d.hash)
    && (f, FileSize) in w && w[(f, FileSize)] == VSize(d.size)
  }

  lemma {:induction false} IngestOpsUpdates(group: seq<ClassifiedNode>, loadout: EntityId, overrides: EntityId,
                                            validItems: set<EntityId>, now: int, base: nat, v: View, i: nat)
    requires FileIdsDistinct(group, validItems)
    requires i < |group| && group[i].node.disk.Some? && HasValidFile(group[i].node, validItems)
    ensures FileUpdated(Apply(v, IngestOps(group, loadout, overrides, validItems, now, base)),
                        group[i].node.loadout.value.reference.value, group[i].node.disk.value)
    decreases |group|
  {
    var init := group[..|group| - 1];
    var n := group[|group| - 1].node;
    var t := Temp(base + NewFileCount(init, validItems));
    var rest := IngestOps(init, loadout, overrides, validItems, now, base);
    var last := if n.disk.Some? then IngestNodeOps(n, n.disk.value, loadout, overrides, validItems, now, t) else [];
    assert IngestOps(group, loadout, overrides, validItems, now, base) == rest + last;
    ApplyAppend(v, rest, last);
    var w1 := Apply(v, rest);
    if i == |group| - 1 {
      IngestNodeUpdates(w1, n, n.disk.value, loadout, overrides, validItems, now, t);
    } else {
      assert forall k :: 0 <= k < |init| ==> init[k] == group[k];
      IngestOpsUpdates(init, loadout, overrides, validItems, now, base, v, i);
      if n.disk.Some? {
        IngestNodeKeeps(w1, n, n.disk.value, loadout, overrides, validItems, now, t,
                        group[i].node.loadout.value.reference.value, group[i].node.disk.value);
      }
    }
  }

  /** One node's datoms write the disk's hash and size into its loadout file when that file is still valid. */
  lemma IngestNodeUpdates(w: View, n: SyncNode, d: DiskEntry, loadout: EntityId, overrides: EntityId,
                          validItems: set<EntityId>, now: int, t: EntityId)
    requires HasValidFile(n, validItems)
    ensures FileUpdated(Apply(w, IngestNodeOps(n, d, loadout, overrides, validItems, now, t)), n.loadout.value.reference.value, d)
  {
    var ops := IngestNodeOps(n, d, loadout, overrides, validItems, now, t);
    ApplyLoneAdd(w, ops, 0);
    ApplyLoneAdd(w, ops, 1);
  }

  /** One node's datoms leave the file attributes of every other committed loadout file alone. */
  lemma IngestNodeKeeps(w: View, n: SyncNode, d: DiskEntry, loadout: EntityId, overrides: EntityId,
                        validItems: set<EntityId>, now: int, t: EntityId, f: EntityId, earlier: DiskEntry)
    requires f.Stored? && t.Temp?
    requires HasValidFile(n, validItems) ==> n.loadout.value.reference.value != f
    requires FileUpdated(w, f, earlier)
    ensures FileUpdated(Apply(w, IngestNodeOps(n, d, loadout, overrides, validItems, now, t)), f, earlier)
  {
    var ops := IngestNodeOps(n, d, loadout, overrides, validItems, now, t);
    ApplyUntouched(w, ops, (f, FileHash));
    ApplyUntouched(w, ops, (f, FileSize));
  }

  // ---------------------------------------------------------------- reified deletes

  /** The datoms of one reified delete: a `DeletedFile` tombstone `t` at path `p`, under `overrides`. */
  function ReifiedDeleteOps(t: EntityId, p: GamePath, loadout: EntityId, overrides: EntityId): seq<Op> {
    [ Add(t, DeletedReason, VText("Reified delete")),
      Add(t, TargetPath, VPath(loadout, p)),
      Add(t, ItemName, VText(FileName(p))),
      Add(t, ItemParent, VRef(overrides)),
      Add(t, ItemLoadout, VRef(loadout)) ]
  }

  /** `ActionAddReifiedDelete`: one tombstone per node, the k-th on temporary id `base + k`. */
  function ActionAddReifiedDelete(group: seq<ClassifiedNode>, loadout: EntityId, overrides: EntityId, base: nat): (r: seq<Op>)
    ensures |r| == 5 * |group|
  {
    if |group| == 0 then []
    else
      var init := group[..|group| - 1];
      ActionAddReifiedDelete(init, loadout, overrides, base)
        + ReifiedDeleteOps(Temp(base + |init|), group[|group| - 1].node.path, loadout, overrides)
  }

  /** The view holds tombstone `t` at path `p` of the loadout, under `overrides`. */
  predicate TombstoneAt(w: View, t: EntityId, p: GamePath, loadout: EntityId, overrides: EntityId) {
    && (t, TargetPath) in w && w[(t, TargetPath)] == VPath(loadout, p)
    && (t, ItemParent) in w && w[(t, ItemParent)] == VRef(overrides)
    && (t, DeletedReason) in w && w[(t, DeletedReason)] == VText("Reified delete")
  }

  /** After the reified-delete datoms, the k-th tombstone sits at the k-th node's path, under `overrides`. */
  lemma {:induction false} ReifiedDeletesPlaced(group: seq<ClassifiedNode>, loadout: EntityId, overrides: EntityId,
                                                base: nat, v: View, i: nat)
    requires i < |group|
    ensures TombstoneAt(Apply(v, ActionAddReifiedDelete(group, loadout, overrides, base)), Temp(base + i),
                        group[i].node.path, loadout, overrides)
    decreases |group|
  {
    var init := group[..|group| - 1];
    var rest := ActionAddReifiedDelete(init, loadout, overrides, base);
    var t := Temp(base + |init|);
    var p := group[|group| - 1].node.path;
    assert ActionAddReifiedDelete(group, loadout, overrides, base) == rest + ReifiedDeleteOps(t, p, loadout, overrides);
    if i == |group| - 1 {
      TombstoneAppended(v, rest, t, p, loadout, overrides);
    } else {
      ReifiedDeletesPlaced(init, loadout, overrides, base, v, i);
      assert init[i] == group[i];
      TombstoneKeptAppended(v, rest, t, p, loadout, overrides, Temp(base + i), group[i].node.path);
    }
  }

  lemma TombstoneAppended(v: View, rest: seq<Op>, t: EntityId, p: GamePath, loadout: EntityId, overrides: EntityId)
    ensures TombstoneAt(Apply(v, rest + ReifiedDeleteOps(t, p, loadout, overrides)), t, p, loadout, overrides)
  {
    ApplyAppend(v, rest, ReifiedDeleteOps(t, p, loadout, overrides));
    TombstonePlaced(Apply(v, rest), t, p, loadout, overrides);
  }

  lemma TombstoneKeptAppended(v: View, rest: seq<Op>, t: EntityId, p: GamePath, loadout: EntityId, overrides: EntityId,
                              other: EntityId, q: GamePath)
    requires other != t && TombstoneAt(Apply(v, rest), other, q, loadout, overrides)
    ensures TombstoneAt(Apply(v, rest + ReifiedDeleteOps(t, p, loadout, overrides)), other, q, loadout, overrides)
  {
    ApplyAppend(v, rest, ReifiedDeleteOps(t, p, loadout, overrides));
    TombstoneKeeps(Apply(v, rest), t, p, loadout, overrides, other, q);
  }

  lemma TombstonePlaced(w: View, t: EntityId, p: GamePath, loadout: EntityId, overrides: EntityId)
    ensures TombstoneAt(Apply(w, ReifiedDeleteOps(t, p, loadout, overrides)), t, p, loadout, overrides)
  {
    var ops := ReifiedDeleteOps(t, p, loadout, overrides);
    ApplyLoneAdd(w, ops, 0);
    ApplyLoneAdd(w, ops, 1);
    ApplyLoneAdd(w, ops, 3);
  }

  lemma TombstoneKeeps(w: View, t: EntityId, p: GamePath, loadout: EntityId, overrides: EntityId, other: EntityId, q: GamePath)
    requires other != t && TombstoneAt(w, other, q, loadout, overrides)
    ensures TombstoneAt(Apply(w, ReifiedDeleteOps(t, p, loadout, overrides)), other, q, loadout, overrides)
  {
    var ops := ReifiedDeleteOps(t, p, loadout, overrides);
    ApplyUntouched(w, ops, (other, TargetPath));
    ApplyUntouched(w, ops, (other, ItemParent));
    ApplyUntouched(w, ops, (other, DeletedReason));
  }

  /** Tombstones are only additions, on the temporary ids `base` to `base + |group| - 1`, and create no group. */
  lemma {:induction false} ReifiedDeleteWritesNoGroup(group: seq<ClassifiedNode>, loadout: EntityId, overrides: EntityId, base: nat)
    ensures forall j :: 0 <= j < 5 * |group| ==>
              var op := ActionAddReifiedDelete(group, loadout, overrides, base)[j];
              && op.Add? && op.a != OverridesFor && !IsMetadataAttr(op.a)
              && op.e.Temp? && base <= op.e.k < base + |group|
    decreases |group|
  {
    if |group| > 0 {
      var init := group[..|group| - 1];
      ReifiedDeleteWritesNoGroup(init, loadout, overrides, base);
      var rest := ActionAddReifiedDelete(init, loadout, overrides, base);
      var last := ReifiedDeleteOps(Temp(base + |init|), group[|group| - 1].node.path, loadout, overrides);
      var ops := ActionAddReifiedDelete(group, loadout, overrides, base);
      assert ops == rest + last;
      assert forall m :: 0 <= m < |last| ==>
        last[m].Add? && last[m].a != OverridesFor && !IsMetadataAttr(last[m].a) && last[m].e == Temp(base + |init|);
      forall j | 0 <= j < |ops|
        ensures && ops[j].Add? && ops[j].a != OverridesFor && !IsMetadataAttr(ops[j].a)
                && ops[j].e.Temp? && base <= ops[j].e.k < base + |group|
      {
        if j < |rest| {
          assert ops[j] == rest[j];
          assert rest[j].Add? && rest[j].a != OverridesFor && !IsMetadataAttr(rest[j].a);
          assert rest[j].e.Temp? && base <= rest[j].e.k < base + |init|;
        } else {
          assert ops[j] == last[j - |rest|];
          assert last[j - |rest|].e == Temp(base + |init|);
        }
      }
    }
  }
}
