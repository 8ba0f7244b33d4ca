/**
 * Flattening a loadout into its desired file set: keep the enabled items that
 * target a game path, pick one winner per path by group priority, and drop
 * paths whose winner is a deletion tombstone.
 */
module LoadoutFlattening {
  import opened Wrappers
  import opened GamePaths
  import opened Datoms
  import opened DiskStates

  /** `long.MaxValue`, the priority of the Overrides group. */
  const LongMax: int := 0x7FFF_FFFF_FFFF_FFFF

  /** The range of `DateTimeOffset.ToUnixTimeSeconds` (years 0001 to 9999). */
  const MinUnixSeconds: int := -62135596800
  const MaxUnixSeconds: int := 253402300799
  type UnixSeconds = t: int | MinUnixSeconds <= t <= MaxUnixSeconds

  /** The kinds of loadout groups: the system Game Files and Overrides groups, and user groups with their creation time. */
  datatype GroupKind = GameFilesGroup | OverridesGroup | UserGroup(createdAt: UnixSeconds)

  /** One element of `GetThisAndParents`: whether it carries `Disabled`, and which group it is, if any. */
  datatype Link = Link(disabled: bool, group: Option<GroupKind>)

  /** What a target-path item is: a loadout file, a deleted-file tombstone, or some other target-path item. */
  datatype TargetKind = LoadoutFile(hash: Hash, size: nat) | DeletedFile | OtherTarget

  datatype Target = Target(path: GamePath, kind: TargetKind)

  /** A loadout item: its own link, its target (for `LoadoutItemWithTargetPath`), and its parents nearest first. */
  datatype LoadoutItem = LoadoutItem(id: EntityId, self: Link, target: Option<Target>, parents: seq<Link>)

  /** `IHavePathHashSizeAndReference`: one desired file as the merge sees it. */
  datatype LoadoutRow = LoadoutRow(path: GamePath, hash: Hash, size: nat, reference: Option<EntityId>)

  /** No two rows target the same path. */
  predicate PathsDistinct(rows: seq<LoadoutRow>) {
    forall i, j :: 0 <= i < j < |rows| ==> rows[i].path != rows[j].path
  }

  /** An enabled target-path item, with the priority its nearest group gives it. */
  datatype Candidate = Candidate(id: EntityId, path: GamePath, kind: TargetKind, priority: int)

  function ThisAndParents(item: LoadoutItem): seq<Link> {
    [item.self] + item.parents
  }

  /** `FileIsEnabled`: neither the item nor any ancestor is disabled. */
  predicate FileIsEnabled(item: LoadoutItem) {
    var chain := ThisAndParents(item);
    forall i :: 0 <= i < |chain| ==> !chain[i].disabled
  }

  /** The first group met walking from the item upwards. */
  function NearestGroup(chain: seq<Link>): (r: Option<GroupKind>)
    ensures r.Some? <==> exists i :: 0 <= i < |chain| && chain[i].group.Some?
    ensures r.Some? ==> exists i :: 0 <= i < |chain| && chain[i].group == r
                             && (forall j :: 0 <= j < i ==> chain[j].group.None?)
  {
    if |chain| == 0 then None
    else if chain[0].group.Some? then chain[0].group
    else
      var r := NearestGroup(chain[1..]);
      assert forall i :: 0 < i < |chain| ==> chain[i] == chain[1..][i - 1];
      if r.Some? then
        ghost var i :| 0 <= i < |chain[1..]| && chain[1..][i].group == r
          && forall j :: 0 <= j < i ==> chain[1..][j].group.None?;
        assert chain[i + 1].group == r;
        r
      else r
  }

  /** `GetPriority` in `SelectWinningFile`: Game Files 0, Overrides `long.MaxValue`, other groups their creation time. */
  function GroupPriority(g: Option<GroupKind>): int {
    match g
    case None => 0 // not inside any group: the source asserts this cannot happen and falls back to 0
    case Some(GameFilesGroup) => 0
    case Some(OverridesGroup) => LongMax
    case Some(UserGroup(t)) => t
  }

  function Priority(item: LoadoutItem): int {
    GroupPriority(NearestGroup(ThisAndParents(item)))
  }

  /** Only the Overrides group reaches `long.MaxValue`, because creation times stay below it. */
  lemma MaxPriorityMeansOverrides(g: Option<GroupKind>)
    ensures GroupPriority(g) == LongMax <==> g == Some(OverridesGroup)
    ensures GroupPriority(g) <= LongMax
  {
  }

  /** `OfTypeLoadoutItemWithTargetPath().Where(FileIsEnabled)`, in enumeration order. */
  function Candidates(items: seq<LoadoutItem>): (r: seq<Candidate>)
    ensures |r| <= |items|
  {
    if |items| == 0 then []
    else
      var rest := Candidates(items[..|items| - 1]);
      var it := items[|items| - 1];
      if it.target.Some? && FileIsEnabled(it) then
        rest + [Candidate(it.id, it.target.value.path, it.target.value.kind, Priority(it))]
      else rest
  }

  lemma {:induction false} CandidatesMembership(items: seq<LoadoutItem>, c: Candidate)
    ensures c in Candidates(items) <==>
      exists it :: it in items && it.target.Some? && FileIsEnabled(it)
        && c == Candidate(it.id, it.target.value.path, it.target.value.kind, Priority(it))
  {
    if |items| > 0 {
      var init := items[..|items| - 1];
      CandidatesMembership(init, c);
      assert items == init + [items[|items| - 1]];
      forall it | it in items
        ensures it in init || it == items[|items| - 1]
      {
      }
    }
  }

  /** The candidates targeting `p`, in enumeration order (one `GroupBy` group). */
  function GroupAt(cs: seq<Candidate>, p: GamePath): (r: seq<Candidate>)
    ensures |r| <= |cs|
    ensures forall c :: c in r <==> c in cs && c.path == p
    ensures forall i :: 0 <= i < |r| ==> r[i].path == p
  {
    if |cs| == 0 then []
    else
      var rest := GroupAt(cs[..|cs| - 1], p);
      assert cs == cs[..|cs| - 1] + [cs[|cs| - 1]];
      if cs[|cs| - 1].path == p then rest + [cs[|cs| - 1]] else rest
  }

  /** `MaxBy(GetPriority)`: the index of the first candidate of highest priority. */
  function MaxByPriority(cs: seq<Candidate>): (w: nat)
    requires |cs| > 0
    ensures w < |cs|
    ensures forall k :: 0 <= k < |cs| ==> cs[k].priority <= cs[w].priority
    ensures forall k :: 0 <= k < w ==> cs[k].priority < cs[w].priority
  {
    if |cs| == 1 then 0
    else
      var j := MaxByPriority(cs[..|cs| - 1]);
      if cs[|cs| - 1].priority > cs[j].priority then |cs| - 1 else j
  }

  /** The winner for `p`: the only candidate when there is one, else `SelectWinningFile`. */
  function Winner(cs: seq<Candidate>, p: GamePath): (r: Option<Candidate>)
    ensures r.Some? <==> exists c :: c in cs && c.path == p
    ensures r.Some? ==> r.value in cs && r.value.path == p
  {
    var g := GroupAt(cs, p);
    if |g| == 0 then
      assert forall c :: c in cs && c.path == p ==> c in g;
      None
    else if |g| == 1 then Some(g[0])
    else Some(g[MaxByPriority(g)])
  }

  /** The winner has the highest priority at its path, and every candidate before it at that path is strictly lower. */
  lemma WinnerIsFirstMaximum(cs: seq<Candidate>, p: GamePath) returns (w: nat)
    requires Winner(cs, p).Some?
    ensures w < |GroupAt(cs, p)| && GroupAt(cs, p)[w] == Winner(cs, p).value
    ensures forall k :: 0 <= k < |GroupAt(cs, p)| ==> GroupAt(cs, p)[k].priority <= GroupAt(cs, p)[w].priority
    ensures forall k :: 0 <= k < w ==> GroupAt(cs, p)[k].priority < GroupAt(cs, p)[w].priority
  {
    var g := GroupAt(cs, p);
    w := if |g| > 1 then MaxByPriority(g) else 0;
  }

  /** The distinct target paths of the candidates, in order of first appearance (the `GroupBy` keys). */
  function DistinctPaths(cs: seq<Candidate>): (r: seq<GamePath>)
    ensures forall i, j :: 0 <= i < j < |r| ==> r[i] != r[j]
    ensures forall p :: p in r <==> exists c :: c in cs && c.path == p
  {
    if |cs| == 0 then []
    else
      var init := cs[..|cs| - 1];
      var rest := DistinctPaths(init);
      assert cs == init + [cs[|cs| - 1]];
      if cs[|cs| - 1].path in rest then rest else rest + [cs[|cs| - 1].path]
  }

  /** The rows of those paths whose winner is a loadout file; a tombstone or any other winner removes the path. */
  function WinningRows(paths: seq<GamePath>, cs: seq<Candidate>): (r: seq<LoadoutRow>)
    ensures |r| <= |paths|
    ensures forall row :: row in r ==> row.path in paths
  {
    if |paths| == 0 then []
    else
      var rest := WinningRows(paths[..|paths| - 1], cs);
      var p := paths[|paths| - 1];
      match Winner(cs, p)
      case Some(Candidate(id, _, LoadoutFile(h, s), _)) => rest + [LoadoutRow(p, h, s, Some(id))]
      case _ => rest
  }

  /** The flattened desired state fed to the merge by `BuildSyncTree(current, previous, loadoutItems)`. */
  function Desired(items: seq<LoadoutItem>): seq<LoadoutRow> {
    var cs := Candidates(items);
    WinningRows(DistinctPaths(cs), cs)
  }

  /** Every row of `WinningRows` is the winner at its path, and a path is present exactly when its winner is a file. */
  lemma {:induction false} WinningRowsSpec(paths: seq<GamePath>, cs: seq<Candidate>, p: GamePath)
    requires forall i, j :: 0 <= i < j < |paths| ==> paths[i] != paths[j]
    ensures PathsDistinct(WinningRows(paths, cs))
    ensures var r := WinningRows(paths, cs);
      (exists row :: row in r && row.path == p) <==>
        (p in paths && Winner(cs, p).Some? && Winner(cs, p).value.kind.LoadoutFile?)
    ensures forall row :: row in WinningRows(paths, cs) && row.path == p ==>
      var w := Winner(cs, p).value;
      Winner(cs, p).Some? && w.kind == LoadoutFile(row.hash, row.size) && row.reference == Some(w.id)
  {
    if |paths| > 0 {
      var init := paths[..|paths| - 1];
      var last := paths[|paths| - 1];
      WinningRowsSpec(init, cs, p);
      WinningRowsSpec(init, cs, last);
      assert last !in init;
      var rest := WinningRows(init, cs);
      var r := WinningRows(paths, cs);
      assert forall q :: q in paths <==> q in init || q == last;
      assert forall row :: row in rest ==> row.path != last;
      if r != rest {
        assert r == rest + [r[|r| - 1]];
        assert forall i :: 0 <= i < |rest| ==> rest[i] in rest;
      }
    }
  }

  /** The desired rows have pairwise distinct paths, so the merge's `Dictionary.Add` never meets a duplicate. */
  lemma DesiredPathsDistinct(items: seq<LoadoutItem>)
    ensures PathsDistinct(Desired(items))
  {
    var cs := Candidates(items);
    WinningRowsSpec(DistinctPaths(cs), cs, GamePath("", []));
    assert Desired(items) == WinningRows(DistinctPaths(cs), cs);
  }

  /**
   * A path is desired exactly when some enabled item targets it and the winner
   * there is a loadout file; the row carries the winner's hash, size and id,
   * and the winner outranks every enabled item at that path.
   */
  lemma DesiredSpec(items: seq<LoadoutItem>, p: GamePath)
    ensures var cs := Candidates(items);
      (exists row :: row in Desired(items) && row.path == p) <==>
        ((exists c :: c in cs && c.path == p) && Winner(cs, p).value.kind.LoadoutFile?)
    ensures forall row :: row in Desired(items) && row.path == p ==>
        && Winner(Candidates(items), p).Some?
        && Winner(Candidates(items), p).value.kind == LoadoutFile(row.hash, row.size)
        && row.reference == Some(Winner(Candidates(items), p).value.id)
        && forall c :: c in Candidates(items) && c.path == p ==> c.priority <= Winner(Candidates(items), p).value.priority
  {
    var cs := Candidates(items);
    WinningRowsSpec(DistinctPaths(cs), cs, p);
    if Winner(cs, p).Some? {
      var w0 := WinnerIsFirstMaximum(cs, p);
      var g := GroupAt(cs, p);
      forall c | c in cs && c.path == p
        ensures c.priority <= Winner(cs, p).value.priority
      {
        assert c in g;
        var k :| 0 <= k < |g| && g[k] == c;
      }
    }
  }

  /** A tombstone that wins its path hides every lower-priority file aimed at the same path. */
  lemma DeletedWinnerHidesPath(items: seq<LoadoutItem>, p: GamePath)
    requires Winner(Candidates(items), p).Some?
    requires Winner(Candidates(items), p).value.kind == DeletedFile
    ensures forall row :: row in Desired(items) ==> row.path != p
  {
    DesiredSpec(items, p);
  }

  /** An enabled item under the Overrides group beats every candidate not under it, whatever the enumeration order. */
  lemma OverridesWin(items: seq<LoadoutItem>, p: GamePath, it: LoadoutItem)
    requires it in items && it.target.Some? && it.target.value.path == p && FileIsEnabled(it)
    requires NearestGroup(ThisAndParents(it)) == Some(OverridesGroup)
    ensures Winner(Candidates(items), p).Some?
    ensures Winner(Candidates(items), p).value.priority == LongMax
  {
    var cs := Candidates(items);
    var c := Candidate(it.id, p, it.target.value.kind, Priority(it));
    CandidatesMembership(items, c);
    var w0 := WinnerIsFirstMaximum(cs, p);
    var g := GroupAt(cs, p);
    var k :| 0 <= k < |g| && g[k] == c;
    var w := Winner(cs, p).value;
    CandidatesMembership(items, w);
    var wi :| wi in items && wi.target.Some? && FileIsEnabled(wi)
      && w == Candidate(wi.id, wi.target.value.path, wi.target.value.kind, Priority(wi));
    MaxPriorityMeansOverrides(NearestGroup(ThisAndParents(wi)));
  }
}
