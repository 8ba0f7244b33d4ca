/**
 * The decision logic of the collection downloader: which downloads of a
 * revision are asked for, whether an external file can be fetched without
 * a browser, what status a download has in the database, and the two
 * equality relations the status streams are de-duplicated with.
 */
module Collections {
  import opened Wrappers

  /** `ItemType`: a 32-bit flags enum. */
  type ItemType = bv32

  const REQUIRED: ItemType := 1
  const OPTIONAL: ItemType := 2

  /** `HasFlagFast`: every bit of the flag is set. */
  predicate HasFlag(t: ItemType, flag: ItemType) {
    t & flag == flag
  }

  /** Whether a download is asked for by the collection or left to the user. */
  datatype RequiredStatus = Required | Optional

  /** The three kinds of collection download. */
  datatype Source =
    | NexusModsFile(fileMetadata: nat)
    | ExternalFile(uri: string, md5: nat, size: nat)
    | BundledFile

  datatype Download = Download(id: nat, name: string, source: Source, status: RequiredStatus)

  // ---------------------------------------------------------------- item types

  /** `DownloadMatchesItemType`. */
  function MatchesItemType(d: Download, t: ItemType): (r: bool)
    ensures r <==> (d.status == Optional && HasFlag(t, OPTIONAL)) || (d.status == Required && HasFlag(t, REQUIRED))
  {
    if d.status == Optional && HasFlag(t, OPTIONAL) then true
    else if d.status == Required && HasFlag(t, REQUIRED) then true
    else false
  }

  /** Asking for one kind selects exactly the downloads of that kind; asking for both selects all; asking for neither, none. */
  lemma ItemTypeSelects(d: Download)
    ensures MatchesItemType(d, REQUIRED) <==> d.status == Required
    ensures MatchesItemType(d, OPTIONAL) <==> d.status == Optional
    ensures MatchesItemType(d, REQUIRED | OPTIONAL)
    ensures !MatchesItemType(d, 0)
  {
  }

  /** The reference: the matching downloads in revision order. */
  function Matching(ds: seq<Download>, t: ItemType): (r: seq<Download>)
    ensures |r| <= |ds|
    ensures forall x :: x in r ==> x in ds && MatchesItemType(x, t)
    ensures forall x :: x in ds && MatchesItemType(x, t) ==> x in r
  {
    if |ds| == 0 then []
    else
      var rest := Matching(ds[..|ds| - 1], t);
      assert forall x :: x in ds[..|ds| - 1] ==> x in ds;
      assert ds == ds[..|ds| - 1] + [ds[|ds| - 1]];
      if MatchesItemType(ds[|ds| - 1], t) then rest + [ds[|ds| - 1]] else rest
  }

  /** `GetItems`: fill an array with the matching downloads, then cut it to the number written. */
  method GetItems(ds: seq<Download>, t: ItemType) returns (r: seq<Download>)
    ensures r == Matching(ds, t)
    ensures forall x :: x in r <==> x in ds && MatchesItemType(x, t)
  {
    var res: seq<Download> := [];
    var i := 0;
    while i < |ds|
      invariant 0 <= i <= |ds|
      invariant res == Matching(ds[..i], t)
    {
      assert ds[..i + 1][..i] == ds[..i];
      if MatchesItemType(ds[i], t) {
        res := res + [ds[i]];
      }
      i := i + 1;
    }
    assert ds[..|ds|] == ds;
    r := res;
  }

  /**
   * The filter keeps revision order: filtering a revision split in two is
   * filtering each part and putting the results back in the same order.
   */
  lemma {:induction false} MatchingAppend(a: seq<Download>, b: seq<Download>, t: ItemType)
    ensures Matching(a + b, t) == Matching(a, t) + Matching(b, t)
    decreases |b|
  {
    if |b| == 0 {
      assert a + b == a;
    } else {
      var binit := b[..|b| - 1];
      var x := b[|b| - 1];
      var last := if MatchesItemType(x, t) then [x] else [];
      MatchingAppend(a, binit, t);
      assert (a + b)[..|a + b| - 1] == a + binit;
      assert (a + b)[|a + b| - 1] == x;
      assert Matching(a + b, t) == Matching(a + binit, t) + last;
      assert Matching(b, t) == Matching(binit, t) + last;
      assert (Matching(a, t) + Matching(binit, t)) + last == Matching(a, t) + (Matching(binit, t) + last);
    }
  }

  /** How many downloads of the revision match, counted position by position. */
  function MatchCount(ds: seq<Download>, t: ItemType): nat {
    if |ds| == 0 then 0
    else MatchCount(ds[..|ds| - 1], t) + (if MatchesItemType(ds[|ds| - 1], t) then 1 else 0)
  }

  /** `GetItems` is as long as the number of matching downloads. */
  lemma {:induction false} MatchingLength(ds: seq<Download>, t: ItemType)
    ensures |Matching(ds, t)| == MatchCount(ds, t)
    decreases |ds|
  {
    if |ds| > 0 {
      MatchingLength(ds[..|ds| - 1], t);
    }
  }

  /** Whether a download is fetched rather than shipped inside the collection archive. */
  predicate Fetched(d: Download) {
    d.source.NexusModsFile? || d.source.ExternalFile?
  }

  /** `CountItems`: the matching downloads that are NexusMods or external ones. */
  function CountItems(ds: seq<Download>, t: ItemType): (r: nat)
    ensures r <= MatchCount(ds, t)
    ensures r == MatchCount(ds, t) <==> forall k :: 0 <= k < |ds| && MatchesItemType(ds[k], t) ==> Fetched(ds[k])
  {
    if |ds| == 0 then 0
    else
      var init := ds[..|ds| - 1];
      assert forall k :: 0 <= k < |init| ==> init[k] == ds[k];
      CountItems(init, t) + (if MatchesItemType(ds[|ds| - 1], t) && Fetched(ds[|ds| - 1]) then 1 else 0)
  }

  /** Bundled downloads never count: a revision of bundled files only counts zero items. */
  lemma {:induction false} BundledNotCounted(ds: seq<Download>, t: ItemType)
    requires forall k :: 0 <= k < |ds| ==> ds[k].source.BundledFile?
    ensures CountItems(ds, t) == 0
    decreases |ds|
  {
    if |ds| > 0 {
      var init := ds[..|ds| - 1];
      assert forall k :: 0 <= k < |init| ==> init[k] == ds[k];
      BundledNotCounted(init, t);
    }
  }

  // ---------------------------------------------------------------- direct downloads

  /** The outcome of the `HEAD` request an external download is probed with. */
  datatype HeadResponse =
    | Threw    // the request or the header parsing raised an exception
    | Response(statusCode: int, mediaType: Option<string>, contentLength: Option<nat>)

  const BINARY_PREFIX: string := "application/"

  predicate IsSuccessStatusCode(code: int) {
    200 <= code <= 299
  }

  /**
   * `CanDirectDownload`: the request succeeded, the content type announces
   * a binary, and the announced length is the expected size.
   */
  function CanDirectDownload(size: nat, resp: HeadResponse): (r: bool)
    ensures r ==> resp.Response? && IsSuccessStatusCode(resp.statusCode)
    ensures r ==> resp.mediaType.Some? && |BINARY_PREFIX| <= |resp.mediaType.value|
                  && resp.mediaType.value[..|BINARY_PREFIX|] == BINARY_PREFIX
    ensures r ==> resp.contentLength == Some(size)
    ensures (&& resp.Response? && IsSuccessStatusCode(resp.statusCode) && resp.contentLength == Some(size)
             && resp.mediaType.Some? && BINARY_PREFIX <= resp.mediaType.value) ==> r
  {
    match resp
    case Threw => false
    case Response(code, mediaType, contentLength) =>
      if !IsSuccessStatusCode(code) then false
      else if mediaType.None? || !(BINARY_PREFIX <= mediaType.value) then false
      else if contentLength.None? then false
      else contentLength.value == size
  }

  /** What downloading an external file does. */
  datatype ExternalAction =
    | QueueJob(uri: string, md5: nat, name: string)   // an `ExternalDownloadJob` added to the library
    | OpenBrowser(uri: string)                        // the browse fallback
    | Nothing

  /** `Download(external, onlyDirectDownloads)`. */
  function DownloadExternal(d: Download, onlyDirectDownloads: bool, resp: HeadResponse): (r: ExternalAction)
    requires d.source.ExternalFile?
    ensures r.QueueJob? <==> CanDirectDownload(d.source.size, resp)
    ensures r.QueueJob? ==> r == QueueJob(d.source.uri, d.source.md5, d.name)
    ensures r.OpenBrowser? <==> !CanDirectDownload(d.source.size, resp) && !onlyDirectDownloads
    ensures r.OpenBrowser? ==> r.uri == d.source.uri
  {
    if CanDirectDownload(d.source.size, resp) then QueueJob(d.source.uri, d.source.md5, d.name)
    else if onlyDirectDownloads then Nothing
    else OpenBrowser(d.source.uri)
  }

  /** The overload without the flag always does something: it never leaves the user without a download or a page. */
  lemma DefaultDownloadActs(d: Download, resp: HeadResponse)
    requires d.source.ExternalFile?
    ensures !DownloadExternal(d, false, resp).Nothing?
    ensures DownloadExternal(d, true, resp).Nothing? <==> DownloadExternal(d, false, resp).OpenBrowser?
  {
  }

  // ---------------------------------------------------------------- status

  /** An entity returned by a datom query, and whether `IsValid` holds for it when loaded. */
  datatype Candidate = Candidate(id: nat, valid: bool)

  /** The query results `GetStatus` reads, each in index order. */
  datatype Db = Db(
    nexusItems: map<nat, seq<Candidate>>,        // library items by `NexusModsLibraryItem.FileMetadata`
    directFiles: map<nat, seq<Candidate>>,       // library files by `DirectDownloadLibraryFile.Md5`
    localFiles: map<nat, seq<Candidate>>,        // library files by `LocalFile.Md5`
    linked: map<(nat, nat), seq<Candidate>>,     // loadout items by (library item, parent group)
    bundled: map<(nat, nat), seq<Candidate>>)    // loadout items by (bundle download, parent group)

  function Query<K>(m: map<K, seq<Candidate>>, k: K): seq<Candidate> {
    if k in m then m[k] else []
  }

  /** The first candidate that loads as valid: the loops that `break` or `return` on `IsValid`. */
  function FirstValid(cs: seq<Candidate>): (r: Option<nat>)
    ensures r.None? <==> forall i :: 0 <= i < |cs| ==> !cs[i].valid
    ensures r.Some? ==> exists i :: 0 <= i < |cs| && cs[i].valid && cs[i].id == r.value
                                    && forall j :: 0 <= j < i ==> !cs[j].valid
  {
    if |cs| == 0 then None
    else if cs[0].valid then Some(cs[0].id)
    else
      var r := FirstValid(cs[1..]);
      assert forall i :: 1 <= i < |cs| ==> cs[i] == cs[1..][i - 1];
      if r.Some? then
        var i :| 0 <= i < |cs[1..]| && cs[1..][i].valid && cs[1..][i].id == r.value
                 && forall j :: 0 <= j < i ==> !cs[1..][j].valid;
        assert cs[i + 1].valid && cs[i + 1].id == r.value;
        r
      else r
  }

  /** `CollectionDownloadStatus`. */
  datatype Status =
    | NotDownloaded
    | Bundled
    | InLibrary(libraryItem: nat)
    | Installed(loadoutItem: nat)

  /** The status of a library item: installed through the first valid loadout item linked to it under the group. */
  function LibraryItemStatus(item: nat, group: Option<nat>, db: Db): (r: Status)
    ensures r.InLibrary? || r.Installed?
    ensures r.InLibrary? ==> r.libraryItem == item
    ensures r.Installed? <==> group.Some? && FirstValid(Query(db.linked, (item, group.value))).Some?
    ensures r.Installed? ==> r.loadoutItem == FirstValid(Query(db.linked, (item, group.value))).value
  {
    if group.None? then InLibrary(item)
    else
      var ids := Query(db.linked, (item, group.value));
      if |ids| == 0 then InLibrary(item)
      else
        match FirstValid(ids)
        case Some(l) => Installed(l)
        case None => InLibrary(item)
  }

  /** A bundled download: installed through the first valid loadout item it was unpacked to under the group. */
  function BundledStatus(d: Download, group: Option<nat>, db: Db): (r: Status)
    ensures r == Bundled || r.Installed?
    ensures r.Installed? <==> group.Some? && FirstValid(Query(db.bundled, (d.id, group.value))).Some?
  {
    if group.None? then Bundled
    else
      match FirstValid(Query(db.bundled, (d.id, group.value)))
      case Some(l) => Installed(l)
      case None => Bundled
  }

  /** The library item a download was fetched into, if any. */
  function LibraryItemOf(d: Download, db: Db): (r: Option<nat>)
    requires Fetched(d)
    ensures d.source.NexusModsFile? ==> r == FirstValid(Query(db.nexusItems, d.source.fileMetadata))
    ensures d.source.ExternalFile? && FirstValid(Query(db.directFiles, d.source.md5)).Some?
            ==> r == FirstValid(Query(db.directFiles, d.source.md5))
    ensures d.source.ExternalFile? && FirstValid(Query(db.directFiles, d.source.md5)).None?
            ==> r == FirstValid(Query(db.localFiles, d.source.md5))
  {
    match d.source
    case NexusModsFile(fm) =>
      var items := Query(db.nexusItems, fm);
      if |items| == 0 then None else FirstValid(items)
    case ExternalFile(_, md5, _) =>
      var direct := FirstValid(Query(db.directFiles, md5));
      if direct.Some? then direct else FirstValid(Query(db.localFiles, md5))
  }

  /** `GetStatus(download, collectionGroup, db)`. */
  function GetStatus(d: Download, group: Option<nat>, db: Db): (r: Status)
    ensures r.NotDownloaded? <==> Fetched(d) && LibraryItemOf(d, db).None?
    ensures r == Bundled <==> d.source.BundledFile? && !r.Installed?
    ensures r.InLibrary? ==> Fetched(d) && LibraryItemOf(d, db) == Some(r.libraryItem)
    ensures r.Installed? ==> group.Some?
  {
    if d.source.BundledFile? then BundledStatus(d, group, db)
    else
      match LibraryItemOf(d, db)
      case None => NotDownloaded
      case Some(item) => LibraryItemStatus(item, group, db)
  }

  /** Without a collection group, nothing is reported installed: a download is missing, bundled, or in the library. */
  lemma NoGroupNotInstalled(d: Download, db: Db)
    ensures !GetStatus(d, None, db).Installed?
    ensures GetStatus(d, None, db) == (if d.source.BundledFile? then Bundled
                                       else if LibraryItemOf(d, db).None? then NotDownloaded
                                       else InLibrary(LibraryItemOf(d, db).value))
  {
  }

  /** An installed status names a loadout item that is valid in the database. */
  lemma InstalledIsValid(d: Download, group: Option<nat>, db: Db)
    requires GetStatus(d, group, db).Installed?
    ensures var cs := if d.source.BundledFile? then Query(db.bundled, (d.id, group.value))
                      else Query(db.linked, (LibraryItemOf(d, db).value, group.value));
            exists i :: 0 <= i < |cs| && cs[i].valid && cs[i].id == GetStatus(d, group, db).loadoutItem
  {
    var cs := if d.source.BundledFile? then Query(db.bundled, (d.id, group.value))
              else Query(db.linked, (LibraryItemOf(d, db).value, group.value));
    assert FirstValid(cs).Some?;
  }

  /** `IsFullyDownloaded`: no item reports `NotDownloaded`. */
  function IsFullyDownloaded(items: seq<Download>, db: Db): (r: bool)
    ensures r <==> forall k :: 0 <= k < |items| ==> !GetStatus(items[k], None, db).NotDownloaded?
  {
    forall k :: 0 <= k < |items| ==> !GetStatus(items[k], None, db).NotDownloaded?
  }

  /** Fully downloaded means every fetched item has a valid library item; bundled items never hold it back. */
  lemma FullyDownloadedMeans(items: seq<Download>, db: Db)
    ensures IsFullyDownloaded(items, db) <==>
            forall k :: 0 <= k < |items| && Fetched(items[k]) ==> LibraryItemOf(items[k], db).Some?
  {
  }

  // ---------------------------------------------------------------- equality

  /** `CollectionDownloadStatus.Equals`: the same case, and the same item for the two cases that carry one. */
  function StatusEquals(a: Status, b: Status): (r: bool) {
    if a.NotDownloaded? != b.NotDownloaded? || a.Bundled? != b.Bundled?
       || a.InLibrary? != b.InLibrary? || a.Installed? != b.Installed? then false
    else if a.NotDownloaded? then true
    else if a.Bundled? then true
    else if a.InLibrary? then a.libraryItem == b.libraryItem
    else a.loadoutItem == b.loadoutItem
  }

  /** Status equality is structural equality, so it is an equivalence and de-duplication loses no distinct status. */
  lemma StatusEqualsIsEquality(a: Status, b: Status)
    ensures StatusEquals(a, b) <==> a == b
  {
  }

  /** A datom as the comparer sees it. */
  datatype Datom = Datom(e: nat, a: nat, v: nat)

  /** `OptionalDatomComparer.Equals`. */
  function DatomEquals(x: Option<Datom>, y: Option<Datom>): (r: bool) {
    match (x.Some?, y.Some?)
    case (false, false) => true
    case (false, true) => false
    case (true, false) => false
    case (true, true) => x.value.e == y.value.e
  }

  function EntityOf(x: Option<Datom>): Option<nat> {
    if x.Some? then Some(x.value.e) else None
  }

  /** Two optional datoms are equal exactly when they name the same entity, or both are absent. */
  lemma DatomEqualsByEntity(x: Option<Datom>, y: Option<Datom>)
    ensures DatomEquals(x, y) <==> EntityOf(x) == EntityOf(y)
  {
  }

  /** The comparer is an equivalence relation. */
  lemma DatomEqualsIsEquivalence(x: Option<Datom>, y: Option<Datom>, z: Option<Datom>)
    ensures DatomEquals(x, x)
    ensures DatomEquals(x, y) ==> DatomEquals(y, x)
    ensures DatomEquals(x, y) && DatomEquals(y, z) ==> DatomEquals(x, z)
  {
  }
}
