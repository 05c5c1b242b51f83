/** The record-level operations behind the gallery's state updates in App.tsx:
    patches keyed by photo id, the records built for an upload, the filter
    that resolves a duplicate group, album membership and order, and the
    newest-first order of the photo grid. */
module Store {
  import opened Types
  import opened Strings
  import opened Seqs
  import opened Sorting
  import opened Calendar
  import opened Utils

  // ---------------------------------------------------------------------
  // Photo ids

  /** The ids of `ps`, in order. */
  function Ids(ps: seq<Photo>): seq<string> {
    seq(|ps|, i requires 0 <= i < |ps| => ps[i].id)
  }

  /** No two records of `ps` carry the same id. */
  predicate UniqueIds(ps: seq<Photo>) {
    forall i, j :: 0 <= i < j < |ps| ==> ps[i].id != ps[j].id
  }

  /** Joining two id-unique lists whose ids are disjoint keeps ids unique. */
  lemma UniqueIdsAppend(a: seq<Photo>, b: seq<Photo>)
    requires UniqueIds(a) && UniqueIds(b)
    requires forall j :: 0 <= j < |b| ==> b[j].id !in Ids(a)
    ensures UniqueIds(a + b)
  {
    forall i, j | 0 <= i < j < |a + b|
      ensures (a + b)[i].id != (a + b)[j].id
    {
      if i < |a| && j >= |a| {
        assert Ids(a)[i] == a[i].id;
      }
    }
  }

  /** Reordering keeps ids unique. */
  lemma UniqueIdsPermutation(a: seq<Photo>, b: seq<Photo>)
    requires multiset(a) == multiset(b) && UniqueIds(a)
    ensures UniqueIds(b)
  {
    PermutationNoDuplicates(a, b);
    forall i, j | 0 <= i < j < |b|
      ensures b[i].id != b[j].id
    {
      assert b[i] in multiset(a) && b[j] in multiset(a);
      var x :| 0 <= x < |a| && a[x] == b[i];
      var y :| 0 <= y < |a| && a[y] == b[j];
      assert x != y;
    }
  }

  /** Filtering keeps ids unique. */
  lemma {:induction false} FilterUniqueIds(ps: seq<Photo>, f: Photo -> bool)
    requires UniqueIds(ps)
    ensures UniqueIds(Filter(ps, f))
    decreases |ps|
  {
    if ps != [] {
      var ps' := ps[..|ps| - 1];
      FilterUniqueIds(ps', f);
      var r' := Filter(ps', f);
      FilterMembers(ps', f);
      forall i | 0 <= i < |r'|
        ensures r'[i].id != ps[|ps| - 1].id
      {
        assert r'[i] in ps';
      }
    }
  }

  // ---------------------------------------------------------------------
  // Patches keyed by id (`prev.map(p => p.id === photo.id ? {...p, ...} : p)`)

  /** What a write sets on the record it hits: a new status, or `done` together with the analysis. */
  datatype Patch = MarkStatus(status: Status) | MarkDone(analysis: AIAnalysis)

  function Apply(p: Photo, u: Patch): Photo {
    match u
    case MarkStatus(s) => p.(status := s)
    case MarkDone(a) => p.(status := Done, analysis := Some(a))
  }

  /** The status a patch leaves behind. */
  function StatusSet(u: Patch): Status {
    match u
    case MarkStatus(s) => s
    case MarkDone(_) => Done
  }

  /** Applies `u` to every record whose id is `id`. */
  function PatchById(ps: seq<Photo>, id: string, u: Patch): (r: seq<Photo>)
    ensures |r| == |ps| && Ids(r) == Ids(ps)
    ensures forall i :: 0 <= i < |ps| && ps[i].id != id ==> r[i] == ps[i]
    ensures forall i :: 0 <= i < |ps| && ps[i].id == id ==>
      && r[i].status == StatusSet(u)
      && r[i].analysis == (if u.MarkDone? then Some(u.analysis) else ps[i].analysis)
      && r[i].(status := ps[i].status, analysis := ps[i].analysis) == ps[i]
  {
    seq(|ps|, i requires 0 <= i < |ps| => if ps[i].id == id then Apply(ps[i], u) else ps[i])
  }

  /** A write for an id that is no longer in the list changes nothing. */
  lemma PatchUnknownId(ps: seq<Photo>, id: string, u: Patch)
    requires id !in Ids(ps)
    ensures PatchById(ps, id, u) == ps
  {
    forall i | 0 <= i < |ps|
      ensures ps[i].id != id
    {
      assert Ids(ps)[i] == ps[i].id;
    }
  }

  /** With unique ids a patch rewrites exactly the one record that carries the id. */
  lemma PatchAtUnique(ps: seq<Photo>, k: int, u: Patch)
    requires UniqueIds(ps) && 0 <= k < |ps|
    ensures PatchById(ps, ps[k].id, u) == ps[k := Apply(ps[k], u)]
  {
  }

  /** A status write followed by a second write to the same id has the
      effect of the second alone. */
  lemma PatchOverwrites(ps: seq<Photo>, id: string, s: Status, u: Patch)
    ensures PatchById(PatchById(ps, id, MarkStatus(s)), id, u) == PatchById(ps, id, u)
  {
  }

  /** Every record of `ps` with its status set to `s`. */
  function MarkAll(ps: seq<Photo>, s: Status): (r: seq<Photo>)
    ensures |r| == |ps| && Ids(r) == Ids(ps)
    ensures forall i :: 0 <= i < |ps| ==> r[i].status == s && r[i].(status := ps[i].status) == ps[i]
  {
    seq(|ps|, i requires 0 <= i < |ps| => ps[i].(status := s))
  }

  // ---------------------------------------------------------------------
  // Upload (`handleFileUpload`)

  /** `file.type.startsWith('image/')`. */
  predicate IsImage(f: LocalFile) {
    "image/" <= f.mimeType
  }

  /** The record an uploaded image becomes. */
  function NewPhoto(f: LocalFile, id: string): Photo {
    Photo(id, Some(f), f.name, f.lastModified, f.size, Local, None, Pending)
  }

  /** The records of the images among `files`, in upload order; `ids[i]` is
      the fresh id drawn for `files[i]`. */
  function LocalPhotos(files: seq<LocalFile>, ids: seq<string>): (r: seq<Photo>)
    requires |ids| == |files|
    ensures |r| <= |files|
    decreases |files|
  {
    if files == [] then []
    else
      var n := |files| - 1;
      LocalPhotos(files[..n], ids[..n]) + (if IsImage(files[n]) then [NewPhoto(files[n], ids[n])] else [])
  }

  /** The upload keeps exactly the image files, each as a pending local record
      that carries the file's name, time and size and its drawn id. */
  lemma {:induction false} LocalPhotosMembers(files: seq<LocalFile>, ids: seq<string>)
    requires |ids| == |files|
    ensures forall p :: p in LocalPhotos(files, ids) <==>
      exists i :: 0 <= i < |files| && IsImage(files[i]) && p == NewPhoto(files[i], ids[i])
    ensures forall p :: p in LocalPhotos(files, ids) ==>
      && p.status == Pending && p.source == Local && p.analysis == None
      && p.file.Some? && IsImage(p.file.value)
      && p.name == p.file.value.name && p.date == p.file.value.lastModified && p.size == p.file.value.size
      && p.id in ids
    decreases |files|
  {
    if files != [] {
      var n := |files| - 1;
      LocalPhotosMembers(files[..n], ids[..n]);
      assert forall i :: 0 <= i < n ==> files[..n][i] == files[i] && ids[..n][i] == ids[i];
    }
  }

  /** Uploading only images keeps every file, in order. */
  lemma {:induction false} LocalPhotosAllImages(files: seq<LocalFile>, ids: seq<string>)
    requires |ids| == |files| && forall i :: 0 <= i < |files| ==> IsImage(files[i])
    ensures |LocalPhotos(files, ids)| == |files|
    ensures forall i :: 0 <= i < |files| ==> LocalPhotos(files, ids)[i] == NewPhoto(files[i], ids[i])
    decreases |files|
  {
    if files != [] {
      var n := |files| - 1;
      var r' := LocalPhotos(files[..n], ids[..n]);
      assert forall i :: 0 <= i < n ==> IsImage(files[..n][i]) by {
        assert forall i :: 0 <= i < n ==> files[..n][i] == files[i];
      }
      LocalPhotosAllImages(files[..n], ids[..n]);
      assert LocalPhotos(files, ids) == r' + [NewPhoto(files[n], ids[n])];
      forall i | 0 <= i < |files|
        ensures LocalPhotos(files, ids)[i] == NewPhoto(files[i], ids[i])
      {
        if i < n {
          assert files[..n][i] == files[i] && ids[..n][i] == ids[i];
        }
      }
    }
  }

  /** Distinct drawn ids give records with distinct ids. */
  lemma {:induction false} LocalPhotosUniqueIds(files: seq<LocalFile>, ids: seq<string>)
    requires |ids| == |files| && NoDuplicates(ids)
    ensures UniqueIds(LocalPhotos(files, ids))
    decreases |files|
  {
    if files != [] {
      var n := |files| - 1;
      assert NoDuplicates(ids[..n]);
      LocalPhotosUniqueIds(files[..n], ids[..n]);
      var r' := LocalPhotos(files[..n], ids[..n]);
      LocalPhotosMembers(files[..n], ids[..n]);
      forall i | 0 <= i < |r'|
        ensures r'[i].id != ids[n]
      {
        assert r'[i] in r';
        var j :| 0 <= j < n && IsImage(files[..n][j]) && r'[i] == NewPhoto(files[..n][j], ids[..n][j]);
        assert ids[j] != ids[n];
      }
    }
  }

  // ---------------------------------------------------------------------
  // Duplicate resolution (`resolveDuplicate`)

  /** `duplicates.find(g => g.id === groupId)`: the first group with that id. */
  function FindGroup(groups: seq<DuplicateGroup>, groupId: string): (r: Option<DuplicateGroup>)
    ensures r.Some? ==> r.value in groups && r.value.id == groupId
    ensures r.None? <==> forall g :: g in groups ==> g.id != groupId
    ensures r.Some? ==> exists i :: 0 <= i < |groups| && groups[i] == r.value &&
                                  forall j :: 0 <= j < i ==> groups[j].id != groupId
  {
    if groups == [] then None
    else if groups[0].id == groupId then Some(groups[0])
    else
      var r := FindGroup(groups[1..], groupId);
      assert groups == [groups[0]] + groups[1..];
      if r.Some? then
        var i :| 0 <= i < |groups[1..]| && groups[1..][i] == r.value &&
          forall j :: 0 <= j < i ==> groups[1..][j].id != groupId;
        assert groups[i + 1] == r.value;
        r
      else r
  }

  /** The ids of the group's members other than the one to keep (`idsToRemove`). */
  function RemovedIds(g: DuplicateGroup, keepId: string): seq<string> {
    Ids(Filter(g.photos, IdIsNot(keepId)))
  }

  function IdIsNot(id: string): Photo -> bool {
    (p: Photo) => p.id != id
  }

  function IdNotIn(ids: seq<string>): Photo -> bool {
    (p: Photo) => p.id !in ids
  }

  /** `prev.filter(p => !idsToRemove.includes(p.id))`. */
  function WithoutIds(ps: seq<Photo>, ids: seq<string>): seq<Photo> {
    Filter(ps, IdNotIn(ids))
  }

  /** A record is removed exactly when its id is that of a group member other than the kept one. */
  lemma RemovedIdsSpec(g: DuplicateGroup, keepId: string, id: string)
    ensures id in RemovedIds(g, keepId) <==> id != keepId && exists q :: q in g.photos && q.id == id
  {
    var kept := Filter(g.photos, IdIsNot(keepId));
    FilterMembers(g.photos, IdIsNot(keepId));
    if id in RemovedIds(g, keepId) {
      var i :| 0 <= i < |kept| && Ids(kept)[i] == id;
      assert kept[i] in kept;
    }
    if id != keepId && exists q :: q in g.photos && q.id == id {
      var q :| q in g.photos && q.id == id;
      assert q in kept;
      var i :| 0 <= i < |kept| && kept[i] == q;
      assert Ids(kept)[i] == id;
    }
  }

  /** Resolving a group of the photo list keeps exactly the non-members and
      the kept member, in their original order, and keeps ids unique. */
  lemma ResolveKeepsOthers(photos: seq<Photo>, g: DuplicateGroup, keepId: string)
    requires UniqueIds(photos) && g in DuplicateGroups(photos)
    ensures forall p :: p in WithoutIds(photos, RemovedIds(g, keepId)) <==>
      p in photos && (p !in g.photos || p.id == keepId)
    ensures IsSubsequence(WithoutIds(photos, RemovedIds(g, keepId)), photos)
    ensures UniqueIds(WithoutIds(photos, RemovedIds(g, keepId)))
  {
    var f := IdNotIn(RemovedIds(g, keepId));
    DuplicateGroupsShape(photos);
    forall p | p in photos
      ensures f(p) <==> p !in g.photos || p.id == keepId
    {
      RemovedIdsSpec(g, keepId, p.id);
      if p.id != keepId && exists q :: q in g.photos && q.id == p.id {
        var q :| q in g.photos && q.id == p.id;
        assert q in photos;
        var a :| 0 <= a < |photos| && photos[a] == p;
        var b :| 0 <= b < |photos| && photos[b] == q;
        assert a == b;
      }
    }
    FilterMembers(photos, f);
    FilterSubsequence(photos, f);
    FilterUniqueIds(photos, f);
  }

  /** After a resolution the group is gone: the `duplicates` memo, computed
      again from the photos left behind, has no group with its id. */
  lemma ResolveMakesGroupStale(photos: seq<Photo>, g: DuplicateGroup, keepId: string)
    requires UniqueIds(photos) && g in DuplicateGroups(photos)
    ensures FindGroup(DuplicateGroups(WithoutIds(photos, RemovedIds(g, keepId))), g.id).None?
  {
    var r := WithoutIds(photos, RemovedIds(g, keepId));
    var found := FindGroup(DuplicateGroups(r), g.id);
    if found.Some? {
      var i, j := GroupedPair(r, found.value);
      ResolveKeepsOthers(photos, g, keepId);
      DuplicateGroupsShape(photos);
      GroupsOfMembers(Key, FirstSeenKeys(Key, photos), photos);
      assert r[i] in r && r[j] in r;
      WithKeyComplete(Key, photos, r[i]);
      WithKeyComplete(Key, photos, r[j]);
      assert false;
    }
  }

  /** A duplicate group has two photos at different positions of the list. */
  lemma GroupedPair(ps: seq<Photo>, h: DuplicateGroup) returns (i: int, j: int)
    requires h in DuplicateGroups(ps)
    ensures 0 <= i < |ps| && 0 <= j < |ps| && i != j
    ensures Key(ps[i]) == h.id && Key(ps[j]) == h.id
  {
    DuplicateGroupsShape(ps);
    var p := h.photos[0];
    assert p in h.photos;
    i :| 0 <= i < |ps| && ps[i] == p;
    DuplicateGroupsCover(ps, i);
    j :| 0 <= j < |ps| && j != i && ps[j].date == ps[i].date && ps[j].size == ps[i].size;
    KeyInjective(ps[i], ps[j]);
  }

  // ---------------------------------------------------------------------
  // Albums

  /** The album's `filter`: the month of the photo's date, or its category. */
  predicate Matches(k: AlbumKey, p: Photo) {
    match k
    case DateKey(m) => MonthYearOf(p.date) == m
    case ContentKey(c) => c != "" && p.analysis.Some? && p.analysis.value.category == c
  }

  /** `photos.filter(album.filter)`. */
  function InAlbum(ps: seq<Photo>, k: AlbumKey): seq<Photo> {
    Filter(ps, AlbumFilter(k))
  }

  /** An album holds exactly the photos its filter passes. */
  lemma InAlbumMembers(ps: seq<Photo>, k: AlbumKey)
    ensures forall p :: p in InAlbum(ps, k) <==> p in ps && Matches(k, p)
  {
    FilterMembers(ps, AlbumFilter(k));
  }

  function AlbumFilter(k: AlbumKey): Photo -> bool {
    (p: Photo) => Matches(k, p)
  }

  /** Each photo lies in the date album of its own month and in no other date album. */
  lemma OneDateAlbum(ps: seq<Photo>, p: Photo, m: MonthKey)
    requires p in ps
    ensures p in InAlbum(ps, DateKey(MonthYearOf(p.date)))
    ensures p in InAlbum(ps, DateKey(m)) ==> m == MonthYearOf(p.date)
  {
    InAlbumMembers(ps, DateKey(MonthYearOf(p.date)));
    InAlbumMembers(ps, DateKey(m));
  }

  /** Growing the scanned prefix by one photo adds it to the albums it matches. */
  lemma InAlbumStep(ps: seq<Photo>, i: int, k: AlbumKey)
    requires 0 <= i < |ps|
    ensures |InAlbum(ps[..i + 1], k)| == |InAlbum(ps[..i], k)| + (if Matches(k, ps[i]) then 1 else 0)
  {
    FilterPrefixStep(ps, i, AlbumFilter(k));
  }

  /** `new Date(b.title) - new Date(a.title) < 0`: month `a` is later than month `b`. */
  predicate MonthAfter(a: MonthKey, b: MonthKey) {
    a.year > b.year || (a.year == b.year && a.month > b.month)
  }

  /** The album comparator: date albums first, newest month first; then
      content albums by title. */
  predicate AlbumBefore(a: AlbumKey, b: AlbumKey) {
    match (a, b)
    case (DateKey(x), DateKey(y)) => MonthAfter(x, y)
    case (DateKey(_), ContentKey(_)) => true
    case (ContentKey(_), DateKey(_)) => false
    case (ContentKey(x), ContentKey(y)) => StringLess(x, y)
  }

  lemma AlbumBeforeIrreflexive(a: AlbumKey)
    ensures !AlbumBefore(a, a)
  {
    if a.ContentKey? { StringLessIrreflexive(a.category); }
  }

  lemma AlbumBeforeTotal(a: AlbumKey, b: AlbumKey)
    requires a != b
    ensures AlbumBefore(a, b) || AlbumBefore(b, a)
  {
    if a.ContentKey? && b.ContentKey? { StringLessTotal(a.category, b.category); }
  }

  lemma AlbumBeforeTransitive(a: AlbumKey, b: AlbumKey, c: AlbumKey)
    requires AlbumBefore(a, b) && AlbumBefore(b, c)
    ensures AlbumBefore(a, c)
  {
    if a.ContentKey? && b.ContentKey? && c.ContentKey? {
      StringLessTransitive(a.category, b.category, c.category);
    }
  }

  /** Album `x` may be listed before album `y`. */
  predicate AlbumNotAfter(x: Album, y: Album) {
    x.key == y.key || AlbumBefore(x.key, y.key)
  }

  /** The album comparator orders every pair of albums consistently. */
  lemma AlbumOrderIsTotal()
    ensures TotalPreorder(AlbumNotAfter)
  {
    forall x: Album, y: Album
      ensures AlbumNotAfter(x, y) || AlbumNotAfter(y, x)
    {
      if x.key != y.key { AlbumBeforeTotal(x.key, y.key); }
    }
    forall x: Album, y: Album, z: Album | AlbumNotAfter(x, y) && AlbumNotAfter(y, z)
      ensures AlbumNotAfter(x, z)
    {
      if x.key != y.key && y.key != z.key { AlbumBeforeTransitive(x.key, y.key, z.key); }
    }
  }

  /** Sorted albums with distinct keys are strictly ordered by the comparator. */
  lemma SortedAlbumsStrict(albums: seq<Album>)
    requires SortedBy(albums, AlbumNotAfter)
    requires forall i, j :: 0 <= i < j < |albums| ==> albums[i].key != albums[j].key
    ensures forall i, j :: 0 <= i < j < |albums| ==> AlbumBefore(albums[i].key, albums[j].key)
  {
    forall i, j | 0 <= i < j < |albums|
      ensures AlbumBefore(albums[i].key, albums[j].key)
    {
      assert AlbumNotAfter(albums[i], albums[j]);
    }
  }

  // ---------------------------------------------------------------------
  // The photo grid order (`sort((a, b) => b.date - a.date)`)

  /** Photo `a` may be shown before photo `b`: it is not older. */
  predicate NewerOrSame(a: Photo, b: Photo) {
    a.date >= b.date
  }

  lemma NewestFirstIsTotal()
    ensures TotalPreorder(NewerOrSame)
  {
  }

  /** The photos of `ps` taken at instant `d`, in order. */
  function TakenAt(ps: seq<Photo>, d: int): seq<Photo> {
    Filter(ps, DateIs(d))
  }

  function DateIs(d: int): Photo -> bool {
    (p: Photo) => p.date == d
  }

  /** The newest-first sort: ordered newest first, the same photos, stable for ties. */
  lemma NewestFirst(ps: seq<Photo>)
    ensures SortedBy(SortBy(ps, NewerOrSame), NewerOrSame)
    ensures multiset(SortBy(ps, NewerOrSame)) == multiset(ps)
    ensures forall d :: TakenAt(SortBy(ps, NewerOrSame), d) == TakenAt(ps, d)
  {
    NewestFirstIsTotal();
    SortBySorted(ps, NewerOrSame);
    SortByPermutes(ps, NewerOrSame);
    forall d
      ensures TakenAt(SortBy(ps, NewerOrSame), d) == TakenAt(ps, d)
    {
      SortByStable(ps, NewerOrSame, DateIs(d));
    }
  }
}
