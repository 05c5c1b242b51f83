/** App.tsx: the gallery's state (`photos`, the in-flight analysis list and
    the analysed counter) and the handlers and derived values that work on it. */
module App {
  import opened Types
  import opened Seqs
  import opened Sorting
  import opened Counters
  import opened Calendar
  import opened Utils
  import opened Gemini
  import opened Store

  /** The heading over the grid (`currentAlbumTitle`): "All Photos", the
      title of the selected album (its month label or its category), or
      nothing when no album has the selected id. */
  datatype Heading = AllPhotos | AlbumTitle(key: AlbumKey) | NoTitle

  /** The media type the analysis is asked about: the file's declared type,
      or "image/jpeg" for a photo without a file (a Drive import). */
  function MimeTypeOf(photo: Photo): string {
    if photo.file.Some? then photo.file.value.mimeType else "image/jpeg"
  }

  /** `id => id !== x`, the filter that takes `x` off the in-flight list. */
  function Except(x: string): string -> bool {
    (y: string) => y != x
  }

  /** Taking an id that is not in the list off it changes nothing. */
  lemma {:induction false} ExceptAbsent(s: seq<string>, x: string)
    requires x !in s
    ensures Filter(s, Except(x)) == s
    decreases |s|
  {
    if s != [] {
      var s' := s[..|s| - 1];
      ExceptAbsent(s', x);
      assert s == s' + [s[|s| - 1]];
    }
  }

  /** `albums.find(a => a.id === selectedAlbumId)`. */
  function FindAlbum(albums: seq<Album>, k: AlbumKey): (r: Option<Album>)
    ensures r.Some? ==> r.value in albums && r.value.key == k
    ensures r.None? <==> forall a :: a in albums ==> a.key != k
  {
    if albums == [] then None
    else if albums[0].key == k then Some(albums[0])
    else
      assert forall a :: a in albums ==> a == albums[0] || a in albums[1..];
      FindAlbum(albums[1..], k)
  }

  /** The `forEach` of `handleFileUpload` that turns the image files into
      pending records; `ids[i]` is the id drawn for `files[i]`. */
  method CollectImages(files: seq<LocalFile>, ids: seq<string>) returns (newPhotos: seq<Photo>)
    requires |ids| == |files|
    ensures newPhotos == LocalPhotos(files, ids)
  {
    newPhotos := [];
    var i := 0;
    while i < |files|
      invariant 0 <= i <= |files|
      invariant newPhotos == LocalPhotos(files[..i], ids[..i])
    {
      assert files[..i + 1][..i] == files[..i] && ids[..i + 1][..i] == ids[..i];
      if IsImage(files[i]) {
        newPhotos := newPhotos + [NewPhoto(files[i], ids[i])];
      }
      i := i + 1;
    }
    assert files[..i] == files && ids[..i] == ids;
  }

  /** `photo.analysis?.category` is truthy: the photo has an analysis with a
      non-empty category, so the second `forEach` counts it. */
  predicate HasCategory(p: Photo) {
    p.analysis.Some? && p.analysis.value.category != ""
  }

  /** The keys the first `forEach` of the `albums` memo hands to the album
      map, photo by photo: each photo's month. */
  function DateKeys(ps: seq<Photo>): (r: seq<AlbumKey>)
    ensures |r| == |ps|
    decreases |ps|
  {
    if ps == [] then []
    else DateKeys(ps[..|ps| - 1]) + [DateKey(MonthYearOf(ps[|ps| - 1].date))]
  }

  /** The keys the second `forEach` hands to the album map: the category of
      each photo that has one. */
  function ContentKeys(ps: seq<Photo>): (r: seq<AlbumKey>)
    ensures |r| <= |ps|
    decreases |ps|
  {
    if ps == [] then []
    else
      var p := ps[|ps| - 1];
      ContentKeys(ps[..|ps| - 1]) + (if HasCategory(p) then [ContentKey(p.analysis.value.category)] else [])
  }

  /** Everything the `albums` memo hands to the album map, in order. */
  function AlbumKeys(ps: seq<Photo>): seq<AlbumKey> {
    DateKeys(ps) + ContentKeys(ps)
  }

  /** A month is handed over once per photo taken in it, and a category never. */
  lemma {:induction false} DateKeysCount(ps: seq<Photo>, k: AlbumKey)
    ensures multiset(DateKeys(ps))[k] == if k.DateKey? then |InAlbum(ps, k)| else 0
    decreases |ps|
  {
    if ps != [] {
      var i := |ps| - 1;
      DateKeysCount(ps[..i], k);
      InAlbumStep(ps, i, k);
      assert ps[..i + 1] == ps;
    }
  }

  /** A category is handed over once per photo of that category, and a month never. */
  lemma {:induction false} ContentKeysCount(ps: seq<Photo>, k: AlbumKey)
    ensures multiset(ContentKeys(ps))[k] == if k.ContentKey? then |InAlbum(ps, k)| else 0
    decreases |ps|
  {
    if ps != [] {
      var i := |ps| - 1;
      ContentKeysCount(ps[..i], k);
      InAlbumStep(ps, i, k);
      assert ps[..i + 1] == ps;
    }
  }

  /** Every album is handed over exactly as often as its filter passes a photo. */
  lemma AlbumKeysCount(ps: seq<Photo>, k: AlbumKey)
    ensures multiset(AlbumKeys(ps))[k] == |InAlbum(ps, k)|
  {
    DateKeysCount(ps, k);
    ContentKeysCount(ps, k);
  }

  /** Handing over the categories of one more photo. */
  lemma AlbumKeysStep(ps: seq<Photo>, dates: seq<AlbumKey>, i: int)
    requires 0 <= i < |ps|
    ensures HasCategory(ps[i]) ==>
      dates + ContentKeys(ps[..i + 1]) == (dates + ContentKeys(ps[..i])) + [ContentKey(ps[i].analysis.value.category)]
    ensures !HasCategory(ps[i]) ==> dates + ContentKeys(ps[..i + 1]) == dates + ContentKeys(ps[..i])
  {
    assert ps[..i + 1][..i] == ps[..i];
  }

  /** `if (!albumMap.has(key)) albumMap.set(key, ...count: 0); albumMap.get(key).count++`:
      on the counters and insertion order of the map after it was handed
      `keys`, this gives the map after it was also handed `key`. */
  method Bump(counts: map<AlbumKey, nat>, order: seq<AlbumKey>, key: AlbumKey, ghost keys: seq<AlbumKey>)
    returns (counts': map<AlbumKey, nat>, order': seq<AlbumKey>)
    requires counts == Counts(keys) && order == FirstSeen(keys)
    ensures counts' == Counts(keys + [key]) && order' == FirstSeen(keys + [key])
  {
    Step(keys, key);
    counts', order' := counts, order;
    if key !in counts' {
      counts' := counts'[key := 0];
      order' := order' + [key];
    }
    counts' := counts'[key := counts'[key] + 1];
  }

  /** The first `forEach` of the `albums` memo: the album map after it has
      been handed every photo's month. */
  method CountDateAlbums(photos: seq<Photo>) returns (counts: map<AlbumKey, nat>, order: seq<AlbumKey>)
    ensures counts == Counts(DateKeys(photos)) && order == FirstSeen(DateKeys(photos))
  {
    counts, order := map[], [];
    var i := 0;
    while i < |photos|
      invariant 0 <= i <= |photos|
      invariant counts == Counts(DateKeys(photos[..i])) && order == FirstSeen(DateKeys(photos[..i]))
    {
      var key := DateKey(MonthYearOf(photos[i].date));
      assert photos[..i + 1][..i] == photos[..i];
      counts, order := Bump(counts, order, key, DateKeys(photos[..i]));
      i := i + 1;
    }
    assert photos[..i] == photos;
  }

  /** The second `forEach` of the `albums` memo, on the map the first one
      left: the album map after it has also been handed every category. */
  method CountContentAlbums(photos: seq<Photo>, counts0: map<AlbumKey, nat>, order0: seq<AlbumKey>)
    returns (counts: map<AlbumKey, nat>, order: seq<AlbumKey>)
    requires counts0 == Counts(DateKeys(photos)) && order0 == FirstSeen(DateKeys(photos))
    ensures counts == Counts(AlbumKeys(photos)) && order == FirstSeen(AlbumKeys(photos))
  {
    ghost var dates := DateKeys(photos);
    counts, order := counts0, order0;
    var i := 0;
    assert dates + ContentKeys(photos[..0]) == dates;
    while i < |photos|
      invariant 0 <= i <= |photos|
      invariant counts == Counts(dates + ContentKeys(photos[..i]))
      invariant order == FirstSeen(dates + ContentKeys(photos[..i]))
    {
      var photo := photos[i];
      AlbumKeysStep(photos, dates, i);
      if HasCategory(photo) {
        var key := ContentKey(photo.analysis.value.category);
        counts, order := Bump(counts, order, key, dates + ContentKeys(photos[..i]));
      }
      i := i + 1;
    }
    assert photos[..i] == photos;
  }

  /** Key number `j` of the album map has a counter, holding the number of
      photos its album's filter passes, and that number is positive. */
  lemma ListedAlbum(photos: seq<Photo>, j: int)
    requires 0 <= j < |FirstSeen(AlbumKeys(photos))|
    ensures var k := FirstSeen(AlbumKeys(photos))[j];
      k in Counts(AlbumKeys(photos)) && Counts(AlbumKeys(photos))[k] == |InAlbum(photos, k)| > 0
  {
    var k := FirstSeen(AlbumKeys(photos))[j];
    CounterOf(AlbumKeys(photos), k);
    AlbumKeysCount(photos, k);
  }

  /** An album whose filter passes a photo is one of the keys of the album map. */
  lemma AlbumListed(photos: seq<Photo>, k: AlbumKey)
    requires |InAlbum(photos, k)| > 0
    ensures k in FirstSeen(AlbumKeys(photos))
  {
    AlbumKeysCount(photos, k);
    FirstSeenSpec(AlbumKeys(photos));
    assert k in multiset(AlbumKeys(photos));
  }

  /** The memo before its sort: `Array.from(albumMap.values())`, one album
      per key of the map in insertion order, with its counter. It holds
      every album of the photos once, each with its count. */
  method ListAlbums(photos: seq<Photo>) returns (list: seq<Album>)
    ensures forall j :: 0 <= j < |list| ==> list[j].count == |InAlbum(photos, list[j].key)| && list[j].count > 0
    ensures forall k :: |InAlbum(photos, k)| > 0 ==> exists j :: 0 <= j < |list| && list[j].key == k
    ensures forall i, j :: 0 <= i < j < |list| ==> list[i].key != list[j].key
  {
    var counts, order := CountDateAlbums(photos);
    counts, order := CountContentAlbums(photos, counts, order);
    forall j | 0 <= j < |order|
      ensures order[j] in counts && counts[order[j]] == |InAlbum(photos, order[j])| > 0
    {
      ListedAlbum(photos, j);
    }
    list := seq(|order|, j requires 0 <= j < |order| => Album(order[j], counts[order[j]]));
    forall k | |InAlbum(photos, k)| > 0
      ensures exists j :: 0 <= j < |list| && list[j].key == k
    {
      AlbumListed(photos, k);
      var j :| 0 <= j < |order| && order[j] == k;
      assert list[j].key == k;
    }
    FirstSeenSpec(AlbumKeys(photos));
  }

  /** Sorting the listed albums by the album comparator puts them in strict
      comparator order and keeps each of them. */
  lemma SortedAlbumList(photos: seq<Photo>, list: seq<Album>)
    requires forall j :: 0 <= j < |list| ==> list[j].count == |InAlbum(photos, list[j].key)|
    requires forall i, j :: 0 <= i < j < |list| ==> list[i].key != list[j].key
    ensures forall a :: a in SortBy(list, AlbumNotAfter) <==> a in list
    ensures forall i, j :: 0 <= i < j < |SortBy(list, AlbumNotAfter)| ==>
      AlbumBefore(SortBy(list, AlbumNotAfter)[i].key, SortBy(list, AlbumNotAfter)[j].key)
  {
    var albums := SortBy(list, AlbumNotAfter);
    AlbumOrderIsTotal();
    SortBySorted(list, AlbumNotAfter);
    SortByMembers(list, AlbumNotAfter);
    SortByPermutes(list, AlbumNotAfter);
    PermutationNoDuplicates(list, albums);
    forall i, j | 0 <= i < j < |albums|
      ensures albums[i].key != albums[j].key
    {
      assert albums[i] in list && albums[j] in list;
    }
    SortedAlbumsStrict(albums);
  }

  /** The photo list while the just-appended `ps` are being started: the
      first `j` of them marked analysing, the rest as they were appended. */
  function Marked(base: seq<Photo>, ps: seq<Photo>, j: int): seq<Photo>
    requires 0 <= j <= |ps|
  {
    base + MarkAll(ps[..j], Analyzing) + ps[j..]
  }

  /** Before any of `ps` is started, the list is `base` followed by `ps`. */
  lemma MarkedStart(photos: seq<Photo>, ps: seq<Photo>)
    requires |ps| <= |photos| && photos[|photos| - |ps|..] == ps
    ensures photos == Marked(photos[..|photos| - |ps|], ps, 0)
  {
    assert MarkAll(ps[..0], Analyzing) == [];
    assert photos == photos[..|photos| - |ps|] + photos[|photos| - |ps|..];
  }

  /** Starting photo `j` marks the record at its position and nothing else. */
  lemma MarkedStep(base: seq<Photo>, ps: seq<Photo>, j: int)
    requires 0 <= j < |ps| && UniqueIds(ps)
    ensures Marked(base, ps, j)[|base| + j] == ps[j]
    ensures Marked(base, ps, j)[|base| + j := Apply(ps[j], MarkStatus(Analyzing))] == Marked(base, ps, j + 1)
    ensures ps[j].id !in Ids(ps[..j])
  {
    var m := Marked(base, ps, j);
    var m' := Marked(base, ps, j + 1);
    assert |m| == |m'|;
    forall i | 0 <= i < |m|
      ensures m[|base| + j := Apply(ps[j], MarkStatus(Analyzing))][i] == m'[i]
    {
      if i >= |base| + j + 1 {
        assert m[i] == ps[i - |base|] == m'[i];
      }
    }
    forall k | 0 <= k < j
      ensures Ids(ps[..j])[k] != ps[j].id
    {
    }
  }

  /** The ids of one more element. */
  lemma IdsStep(ps: seq<Photo>, j: int)
    requires 0 <= j < |ps|
    ensures Ids(ps[..j + 1]) == Ids(ps[..j]) + [ps[j].id]
  {
  }

  /** Once all of `ps` are started, they are all marked analysing. */
  lemma MarkedEnd(base: seq<Photo>, ps: seq<Photo>)
    ensures Marked(base, ps, |ps|) == base + MarkAll(ps, Analyzing)
    ensures Ids(ps[..|ps|]) == Ids(ps)
  {
    assert ps[..|ps|] == ps;
    assert ps[|ps|..] == [];
  }

  class Gallery {
    /** The `photos` state. */
    var photos: seq<Photo>
    /** `processingQueueRef.current`: the ids whose analysis is under way. */
    var inFlight: seq<string>
    /** The `analyzedCount` state. */
    var analyzedCount: nat

    /** Photo ids are unique (they are drawn fresh), and an analysis is under
        way at most once per id. */
    ghost predicate Valid()
      reads this
    {
      UniqueIds(photos) && NoDuplicates(inFlight)
    }

    /** The initial state: no photos, nothing in flight, nothing analysed. */
    constructor ()
      ensures Valid()
      ensures photos == [] && inFlight == [] && analyzedCount == 0
    {
      photos := [];
      inFlight := [];
      analyzedCount := 0;
    }

    // -------------------------------------------------------------------
    // processPhoto, as its steps between await points

    /** The synchronous start of `processPhoto`: an id already in flight is
        turned away and nothing changes; otherwise the id joins the in-flight
        list and the photo's record is marked analysing. */
    method Begin(photo: Photo) returns (started: bool)
      requires Valid()
      modifies this
      ensures Valid()
      ensures started <==> photo.id !in old(inFlight)
      ensures started ==> inFlight == old(inFlight) + [photo.id]
      ensures started ==> photos == PatchById(old(photos), photo.id, MarkStatus(Analyzing))
      ensures !started ==> photos == old(photos) && inFlight == old(inFlight)
      ensures analyzedCount == old(analyzedCount)
    {
      if photo.id in inFlight {
        return false;
      }
      inFlight := inFlight + [photo.id];
      photos := PatchById(photos, photo.id, MarkStatus(Analyzing));
      started := true;
    }

    /** The completion of a started `processPhoto` whose image read gave
        `base64`: the record with the id becomes done with the analysis for
        that image, one more photo counts as analysed, and the id leaves the
        in-flight list. */
    method Succeed(photo: Photo, base64: string)
      requires Valid() && photo.id in inFlight
      modifies this
      ensures Valid()
      ensures photos == PatchById(old(photos), photo.id, MarkDone(AnalyzeImageContent(base64, MimeTypeOf(photo))))
      ensures analyzedCount == old(analyzedCount) + 1
      ensures inFlight == Filter(old(inFlight), Except(photo.id))
      ensures forall x :: x in inFlight <==> x in old(inFlight) && x != photo.id
    {
      var analysis := AnalyzeImageContent(base64, MimeTypeOf(photo));
      photos := PatchById(photos, photo.id, MarkDone(analysis));
      analyzedCount := analyzedCount + 1;
      FilterMembers(inFlight, Except(photo.id));
      FilterSubsequence(inFlight, Except(photo.id));
      SubsequenceNoDuplicates(Filter(inFlight, Except(photo.id)), inFlight);
      inFlight := Filter(inFlight, Except(photo.id));
    }

    /** The completion of a started `processPhoto` whose image read failed:
        the record with the id is marked as an error, the counter stays, and
        the id leaves the in-flight list. */
    method Fail(photo: Photo)
      requires Valid() && photo.id in inFlight
      modifies this
      ensures Valid()
      ensures photos == PatchById(old(photos), photo.id, MarkStatus(Error))
      ensures analyzedCount == old(analyzedCount)
      ensures inFlight == Filter(old(inFlight), Except(photo.id))
      ensures forall x :: x in inFlight <==> x in old(inFlight) && x != photo.id
    {
      photos := PatchById(photos, photo.id, MarkStatus(Error));
      FilterMembers(inFlight, Except(photo.id));
      FilterSubsequence(inFlight, Except(photo.id));
      SubsequenceNoDuplicates(Filter(inFlight, Except(photo.id)), inFlight);
      inFlight := Filter(inFlight, Except(photo.id));
    }

    /** A whole `processPhoto` run with no other step in between; `read` is
        what reading the image gave (nothing when the read threw). */
    method ProcessPhoto(photo: Photo, read: Option<string>) returns (started: bool)
      requires Valid()
      modifies this
      ensures Valid()
      ensures started <==> photo.id !in old(inFlight)
      ensures inFlight == old(inFlight)
      ensures !started ==> photos == old(photos) && analyzedCount == old(analyzedCount)
      ensures started && read.Some? ==>
        && photos == PatchById(old(photos), photo.id, MarkDone(AnalyzeImageContent(read.value, MimeTypeOf(photo))))
        && analyzedCount == old(analyzedCount) + 1
      ensures started && read.None? ==>
        && photos == PatchById(old(photos), photo.id, MarkStatus(Error))
        && analyzedCount == old(analyzedCount)
    {
      started := Begin(photo);
      if started {
        if read.Some? {
          Succeed(photo, read.value);
          PatchOverwrites(old(photos), photo.id, Analyzing, MarkDone(AnalyzeImageContent(read.value, MimeTypeOf(photo))));
        } else {
          Fail(photo);
          PatchOverwrites(old(photos), photo.id, Analyzing, MarkStatus(Error));
        }
        ExceptAbsent(old(inFlight), photo.id);
        FilterAppend(old(inFlight), [photo.id], Except(photo.id));
        assert [photo.id][..0] == [];
      }
    }

    // -------------------------------------------------------------------
    // Ingestion

    /** `newPhotos.forEach(p => processPhoto(p))` over photos just appended:
        each one is started and marked analysing. */
    method BeginEach(ps: seq<Photo>)
      requires Valid() && UniqueIds(ps)
      requires |ps| <= |photos| && photos[|photos| - |ps|..] == ps
      requires forall i :: 0 <= i < |ps| ==> ps[i].id !in inFlight
      modifies this
      ensures Valid()
      ensures photos == old(photos)[..|old(photos)| - |ps|] + MarkAll(ps, Analyzing)
      ensures inFlight == old(inFlight) + Ids(ps)
      ensures analyzedCount == old(analyzedCount)
    {
      ghost var base := photos[..|photos| - |ps|];
      MarkedStart(photos, ps);
      var j := 0;
      while j < |ps|
        invariant 0 <= j <= |ps|
        invariant Valid()
        invariant photos == Marked(base, ps, j)
        invariant inFlight == old(inFlight) + Ids(ps[..j])
        invariant analyzedCount == old(analyzedCount)
      {
        ghost var before := photos;
        MarkedStep(base, ps, j);
        IdsStep(ps, j);
        var started := Begin(ps[j]);
        PatchAtUnique(before, |base| + j, MarkStatus(Analyzing));
        j := j + 1;
      }
      MarkedEnd(base, ps);
    }

    /** `handleFileUpload`: the image files among `files` become pending
        local records appended after the existing photos, and each one is
        then started (so it is left marked analysing); other files are
        dropped. `ids` are the fresh ids drawn for the files. */
    method HandleFileUpload(files: seq<LocalFile>, ids: seq<string>)
      requires Valid()
      requires |ids| == |files| && NoDuplicates(ids)
      requires forall i :: 0 <= i < |ids| ==> ids[i] !in Ids(photos) && ids[i] !in inFlight
      modifies this
      ensures Valid()
      ensures photos == old(photos) + MarkAll(LocalPhotos(files, ids), Analyzing)
      ensures inFlight == old(inFlight) + Ids(LocalPhotos(files, ids))
      ensures analyzedCount == old(analyzedCount)
    {
      if |files| == 0 {
        return;
      }
      var newPhotos := CollectImages(files, ids);
      LocalPhotosMembers(files, ids);
      LocalPhotosUniqueIds(files, ids);
      forall i | 0 <= i < |newPhotos|
        ensures newPhotos[i].id !in Ids(photos) && newPhotos[i].id !in inFlight
      {
        assert newPhotos[i] in newPhotos;
      }
      UniqueIdsAppend(photos, newPhotos);
      photos := photos + newPhotos;
      assert photos[|photos| - |newPhotos|..] == newPhotos;
      BeginEach(newPhotos);
    }

    /** `handleDriveImport`: a failed import (`None`) changes nothing; the
        imported records are otherwise appended and each one is started. */
    method HandleDriveImport(result: Option<seq<Photo>>)
      requires Valid()
      requires result.Some? ==> UniqueIds(result.value)
      requires result.Some? ==> forall i :: 0 <= i < |result.value| ==>
                                  result.value[i].id !in Ids(photos) && result.value[i].id !in inFlight
      modifies this
      ensures Valid()
      ensures result.None? ==> photos == old(photos) && inFlight == old(inFlight)
      ensures result.Some? ==> photos == old(photos) + MarkAll(result.value, Analyzing)
      ensures result.Some? ==> inFlight == old(inFlight) + Ids(result.value)
      ensures analyzedCount == old(analyzedCount)
    {
      if result.Some? {
        var drivePhotos := result.value;
        UniqueIdsAppend(photos, drivePhotos);
        photos := photos + drivePhotos;
        assert photos[|photos| - |drivePhotos|..] == drivePhotos;
        BeginEach(drivePhotos);
      }
    }

    // -------------------------------------------------------------------
    // Duplicates

    /** `resolveDuplicate`: with no duplicate group of that id nothing
        changes; otherwise every member of the group whose id is not
        `keepId` is removed, and only those. Either way the photos left
        have no duplicate group with that id. */
    method ResolveDuplicate(groupId: string, keepId: string)
      requires Valid()
      modifies this
      ensures Valid()
      ensures inFlight == old(inFlight) && analyzedCount == old(analyzedCount)
      ensures FindGroup(DuplicateGroups(old(photos)), groupId).None? ==> photos == old(photos)
      ensures FindGroup(DuplicateGroups(old(photos)), groupId).Some? ==>
        var g := FindGroup(DuplicateGroups(old(photos)), groupId).value;
        && photos == WithoutIds(old(photos), RemovedIds(g, keepId))
        && (forall p :: p in photos <==> p in old(photos) && (p !in g.photos || p.id == keepId))
        && IsSubsequence(photos, old(photos))
    ensures FindGroup(DuplicateGroups(photos), groupId).None?
    {
      var duplicates := FindDuplicates(photos);
      var group := FindGroup(duplicates, groupId);
      if group.None? {
        return;
      }
      var idsToRemove := RemovedIds(group.value, keepId);
      ResolveKeepsOthers(photos, group.value, keepId);
      ResolveMakesGroupStale(photos, group.value, keepId);
      photos := WithoutIds(photos, idsToRemove);
    }

    // -------------------------------------------------------------------
    // Derived values

    /** The `albums` memo: one date album per month that has photos and one
        content album per non-empty category, each counting the photos its
        filter passes, listed date albums first (newest month first) and
        then content albums by title. */
    method Albums() returns (albums: seq<Album>)
      ensures forall i :: 0 <= i < |albums| ==>
        albums[i].count == |InAlbum(photos, albums[i].key)| && albums[i].count > 0
      ensures forall k :: (exists i :: 0 <= i < |albums| && albums[i].key == k) <==> |InAlbum(photos, k)| > 0
      ensures forall i, j :: 0 <= i < j < |albums| ==> AlbumBefore(albums[i].key, albums[j].key)
    {
      var list := ListAlbums(photos);
      albums := SortBy(list, AlbumNotAfter);
      SortedAlbumList(photos, list);
      forall i | 0 <= i < |albums|
        ensures albums[i].count == |InAlbum(photos, albums[i].key)| && albums[i].count > 0
      {
        assert albums[i] in list;
      }
      forall k | |InAlbum(photos, k)| > 0
        ensures exists i :: 0 <= i < |albums| && albums[i].key == k
      {
        var j :| 0 <= j < |list| && list[j].key == k;
        assert list[j] in albums;
      }
    }

    /** The `displayedPhotos` memo. When the selected album exists, its
        photos newest first, the photo list itself untouched; otherwise the
        whole photo list newest first, sorted in place. Ties keep their order. */
    method DisplayedPhotos(selected: Option<AlbumKey>) returns (shown: seq<Photo>)
      requires Valid()
      modifies this
      ensures Valid()
      ensures inFlight == old(inFlight) && analyzedCount == old(analyzedCount)
      ensures SortedBy(shown, NewerOrSame)
      ensures selected.Some? && |InAlbum(old(photos), selected.value)| > 0 ==>
        && photos == old(photos)
        && shown == SortBy(InAlbum(old(photos), selected.value), NewerOrSame)
        && (forall p :: p in shown <==> p in old(photos) && Matches(selected.value, p))
        && (forall d :: TakenAt(shown, d) == TakenAt(InAlbum(old(photos), selected.value), d))
      ensures !(selected.Some? && |InAlbum(old(photos), selected.value)| > 0) ==>
        && photos == SortBy(old(photos), NewerOrSame)
        && shown == photos
        && multiset(shown) == multiset(old(photos))
        && (forall d :: TakenAt(shown, d) == TakenAt(old(photos), d))
    {
      var albums := Albums();
      var album: Option<Album> := None;
      if selected.Some? {
        album := FindAlbum(albums, selected.value);
      }
      if album.Some? {
        var filtered := InAlbum(photos, selected.value);
        InAlbumMembers(photos, selected.value);
        NewestFirst(filtered);
        SortByMembers(filtered, NewerOrSame);
        shown := SortBy(filtered, NewerOrSame);
      } else {
        NewestFirst(photos);
        UniqueIdsPermutation(photos, SortBy(photos, NewerOrSame));
        photos := SortBy(photos, NewerOrSame);
        shown := photos;
      }
    }

    /** `currentAlbumTitle`. */
    method CurrentAlbumTitle(selected: Option<AlbumKey>) returns (title: Heading)
      ensures selected.None? ==> title == AllPhotos
      ensures selected.Some? && |InAlbum(photos, selected.value)| > 0 ==> title == AlbumTitle(selected.value)
      ensures selected.Some? && |InAlbum(photos, selected.value)| == 0 ==> title == NoTitle
    {
      if selected.None? {
        return AllPhotos;
      }
      var albums := Albums();
      var album := FindAlbum(albums, selected.value);
      title := if album.Some? then AlbumTitle(album.value.key) else NoTitle;
    }
  }
}
