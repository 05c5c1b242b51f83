# Gallery photo organisation, modelled in Dafny

The gallery app keeps a list of photo records. Each record has an id, an
optional local file, a name, a timestamp, a byte size, a source (local
upload or Drive import), an optional analysis and a pipeline status. The
app:

- ingests uploads, keeping only image files, and Drive imports;
- runs an analysis on every new photo, at most once at a time per id;
- finds groups of duplicates by a `<millis>_<size>` fingerprint and
  resolves a group by keeping one member;
- derives albums: one per calendar month and one per analysed category,
  each with a photo count;
- shows the photos of the selected album, or all photos, newest first.

This project models that core and proves what it promises.

Modules, one concern each:

- `Types` — the records of `types.ts`.
- `Strings` — lower-casing, substring search, number rendering with its
  parse round trip, and code-point string order.
- `Seqs` — subsequences, duplicate-freedom and `Array.prototype.filter`.
- `Sorting` — `Array.prototype.sort` with a comparator, as a stable
  insertion sort.
- `Counters` — a JavaScript `Map` used as a set of counters: key
  insertion order and counts.
- `Calendar` — `getMonthYear` (`utils.ts`) as the days-to-date conversion of
  the proleptic Gregorian calendar, proved against its inverse, the day count
  of a date.
- `Utils` — `findDuplicates` (`utils.ts`), as a loop over a record of
  buckets, proved against a specification by first-seen key order.
- `Gemini` — `services/gemini.ts`: the filename classifier (a
  first-match rule chain), the tag extractor, the constant analysis stub
  and the filename-based analysis.
- `Store` — the record-level updates `App.tsx` performs: id-keyed
  patches, upload records, the duplicate-resolution filter, album
  membership and order, and the grid order.
- `App` — the component as a class `Gallery`. Its fields are `photos`,
  the in-flight id list (`processingQueueRef`) and `analyzedCount`. Its
  methods are the handlers and derived values; the album counting loops
  are module-level methods.

`processPhoto` is split at its await points:

- `Begin` is the synchronous guard, push and `analyzing` write.
- `Succeed` and `Fail` are the two ways the run can end.
- `ProcessPhoto` composes them when nothing else happens in between.

`displayedPhotos` sorts the live photo array when no existing album is
selected, because it sorts `filtered`, which is then the state array
itself. The model does the same: `DisplayedPhotos` reorders `photos` in
that case and leaves it untouched otherwise.

## Model

| member | source | states |
|---|---|---|
| Calendar.MonthYearOf | utils.ts:61-66 | `getMonthYear`: the month of the proleptic Gregorian calendar that the timestamp's day falls in; its meaning is stated by the lemmas below |
| Calendar.MonthYearOfRange | utils.ts:61-66 | every timestamp gets a month number 1..12, and its day is one of the days of that month of that year |
| Calendar.MonthYearOfIsMonth | utils.ts:61-66 | a timestamp is labelled month `m` of year `y` exactly when its day is one of the days of that month |
| Calendar.CivilMonthIsMonth | utils.ts:61-66 | a day count decodes to month `m` of year `y` exactly when it is the day count of a day of that month |
| Calendar.CivilMonthOfDate | utils.ts:61-66 | decoding the day count of any valid date gives back that date's month and year |
| Calendar.DayIsCivil | utils.ts:61-66 | every day count is the day count of some valid date (month 1..12, day within the month's length under the leap-year rule) |
| Calendar.MonthYearOfExamples | services/drive.ts:20-50 | the Drive sample dates 15 June 2023 and 5 February 2024 fall in June 2023 and February 2024 |
| Utils.Key | utils.ts:73 | the fingerprint: the decimal timestamp, `_`, the decimal size; its meaning is `Utils.KeyInjective` |
| Strings.ToLowerIdempotent | services/gemini.ts:5-14 | lower-casing an already lower-cased name changes nothing, so the `i` flag on a lower-cased name adds nothing |
| Strings.ParseIntToString | utils.ts:73 | reading back the decimal rendering of a timestamp gives the timestamp |
| Strings.ParseNatToString | utils.ts:73 | reading back the decimal rendering of a size gives the size |
| Strings.IntToStringInjective | utils.ts:73 | different timestamps render as different decimal strings |
| Strings.SplitAtSeparator | utils.ts:73 | two `x_y` strings whose `x` parts contain no `_` are equal only when both parts are |
| Strings.StringLessTotal | App.tsx:172 | of two different titles one sorts before the other |
| Strings.StringLessTransitive | App.tsx:172 | the title order is transitive |
| Strings.StringLessIrreflexive | App.tsx:172 | no title sorts before itself |
| Seqs.FilterMembers | App.tsx:115 | a filter keeps exactly the elements that pass |
| Seqs.FilterSubsequence | App.tsx:115 | a filter keeps the relative order of what it keeps |
| Seqs.PermutationNoDuplicates | App.tsx:167-173 | rearranging a duplicate-free list keeps it duplicate-free |
| Sorting.InsertByAt | App.tsx:186 | one insertion step splits the sorted part at the insertion point and puts the element there |
| Sorting.InsertByPermutes | App.tsx:186 | an insertion step adds the element and keeps everything else |
| Sorting.SortByPermutes | App.tsx:186 | the sort is a rearrangement of its input |
| Sorting.SortBySorted | App.tsx:186 | under a total preorder the sort orders its input |
| Sorting.SortByMembers | App.tsx:186 | the sort keeps exactly the elements it was given |
| Sorting.InsertByStable | App.tsx:186 | an insertion step keeps the arrival order of elements the comparator ties |
| Sorting.SortByStable | App.tsx:186 | the sort is stable: elements the comparator ties keep their input order |
| Counters.Step | App.tsx:136-146 | handing the map one more key appends it to the key order when new and increments its counter from 0 or its old value |
| Counters.FirstSeenSpec | App.tsx:131-165 | the key order of the map lists exactly the keys handed over, each once |
| Counters.CountsSpec | App.tsx:145-146 | there is a counter exactly for each key handed over, holding how often it was handed over |
| Counters.CounterOf | App.tsx:167 | every key of the order has a positive counter equal to its number of occurrences |
| Counters.SameKeys | App.tsx:136 | the key order and the counters agree on which keys exist |
| Utils.KeyInjective | utils.ts:73 | two photos share the fingerprint `<millis>_<size>` exactly when they share timestamp and size |
| Utils.KeyNotIndexLike | utils.ts:73 | a fingerprint contains `_` and is not a digit string, so the record lists its keys in insertion order |
| Utils.AddToBucket | utils.ts:75-78 | one step of the `forEach` turns the buckets of the photos before `i` into those of the photos up to `i` |
| Utils.BucketsStep | utils.ts:71-79 | creating the bucket of a new key and then pushing the photo keeps the bucket invariant |
| Utils.FindDuplicates | utils.ts:68-88 | the loop and the filter/map give exactly the groups of its specification: one per fingerprint seen more than once, in first-seen order, with the photos of that fingerprint |
| Utils.EntriesAreGroups | utils.ts:81-87 | filtering and mapping the record's entries equals the specified groups for the same key order |
| Utils.FirstSeenKeysSpec | utils.ts:81 | the record's key order lists each fingerprint present once, ordered by first occurrence |
| Utils.WithKeyCompany | utils.ts:82 | a photo's bucket has more than one photo exactly when another photo has its fingerprint |
| Utils.WithKeyInOrder | utils.ts:78 | a bucket keeps its photos in input order |
| Utils.DuplicateGroupsShape | utils.ts:81-87 | every group has two or more photos of the input, all with the group's fingerprint, in input order, and its id is its key |
| Utils.DuplicateGroupsSameFingerprint | utils.ts:73-87 | all photos of a group share timestamp and size, and its id and key are their `<millis>_<size>` |
| Utils.DuplicateGroupsOrdered | utils.ts:81-87 | groups are listed in the order their fingerprints first occur, and no fingerprint has two groups |
| Utils.DuplicateGroupsCover | utils.ts:68-88 | a photo is in some group exactly when another photo has its timestamp and size |
| Utils.DuplicateGroupsDisjoint | utils.ts:68-88 | no photo is in two groups |
| Utils.NoSharedFingerprintNoGroups | utils.ts:68-88 | without two photos sharing timestamp and size, in particular with no photos, there are no groups |
| Utils.PairAndStrangerScenario | utils.ts:68-88 | two photos with one fingerprint and a third with another give exactly one group, of the first two |
| Utils.DriveImportScenario | services/drive.ts:15-45 | the mountain photo and its copy form one group and the office photo none |
| Gemini.CategorizeByFilename | services/gemini.ts:4-17 | the answer is always one of the eight categories |
| Gemini.CategorizeIsRuleTable | services/gemini.ts:4-17 | the if-chain is the rule table read top to bottom on the lower-cased name, with "Photos" as the default |
| Gemini.FirstMatchFirstFiring | services/gemini.ts:7-14 | the first rule that fires decides, whatever later rules say |
| Gemini.FirstMatchNone | services/gemini.ts:16 | with no rule firing the default is the answer |
| Gemini.CategorizeFirstMatchWins | services/gemini.ts:7-14 | the category is that of the first rule whose keywords occur in the name |
| Gemini.CategorizeDefault | services/gemini.ts:16 | a name with no keyword of any rule is "Photos" |
| Gemini.CategorizeCaseInsensitive | services/gemini.ts:5 | names that differ only in letter case get the same category |
| Gemini.ScreenshotBeatsPhoto | services/gemini.ts:7-8 | a name containing "screenshot" is a screenshot even if it also says "photo" |
| Gemini.VacationIsTravel | services/gemini.ts:12-14 | "vacation" is Travel although it contains the pet keyword "cat" |
| Gemini.ExtractTags | services/gemini.ts:20-30 | one tag per test that fires, each exactly when its test fires, in test order and without repeats; `["photo"]` exactly when none fires; never empty |
| Gemini.PushedTags | services/gemini.ts:24-27 | each tag is pushed exactly when its test fires, nothing is pushed exactly when none fires, and "photo" is never pushed |
| Gemini.TagsInOrder | services/gemini.ts:24-27 | the pushed tags form a duplicate-free subsequence of screenshot, dated, travel, portrait |
| Gemini.AnalyzeImageContentConstant | services/gemini.ts:32-42 | the stub analysis ignores its input: category "Photos", tags `["photo"]`, summary "Photo uploaded", season "Unknown" |
| Gemini.AnalyzeImageContent | services/gemini.ts:32-42 | the stub analysis of any image: category "Photos", tags `["photo"]`, summary "Photo uploaded", season "Unknown" |
| Gemini.AnalyzeImageFromFile | services/gemini.ts:45-58 | category from the name (one of the eight); the extractor's tags, with each tag present exactly when its test fires, in test order without repeats, and `["photo"]` exactly when none fires; summary `<category> - <name>`; season "Unknown" |
| Store.IsImage | App.tsx:30 | a file is kept exactly when its media type starts with `image/` |
| Store.NewPhoto | App.tsx:32-41 | an uploaded image becomes a pending local record with the file, its name, last-modified time and size, and the drawn id |
| Store.PatchById | App.tsx:72 | an id-keyed write changes only the records with that id, sets their status (and analysis for a completion) and nothing else |
| Store.PatchUnknownId | App.tsx:89-93 | a write for an id no longer in the list changes nothing |
| Store.PatchAtUnique | App.tsx:72 | with unique ids a write rewrites exactly the one record carrying the id |
| Store.PatchOverwrites | App.tsx:72-98 | the `analyzing` write followed by the completion write has the effect of the completion alone |
| Store.UniqueIdsAppend | App.tsx:45 | appending records with fresh, distinct ids keeps ids unique |
| Store.UniqueIdsPermutation | App.tsx:186 | reordering the list keeps ids unique |
| Store.FilterUniqueIds | App.tsx:115 | removing records keeps ids unique |
| Store.LocalPhotosMembers | App.tsx:29-43 | the upload keeps exactly the image files, each as a pending local record with the file's name, time, size and its drawn id |
| Store.LocalPhotosAllImages | App.tsx:29-43 | an upload of images only keeps every file, in order |
| Store.LocalPhotosUniqueIds | App.tsx:33 | distinct drawn ids give records with distinct ids |
| Store.FindGroup | App.tsx:109-110 | the first group with the id, or nothing exactly when no group has it |
| Store.RemovedIdsSpec | App.tsx:113 | an id is to be removed exactly when it belongs to a group member other than the kept one |
| Store.ResolveKeepsOthers | App.tsx:113-115 | resolving keeps exactly the non-members and the kept member, in order, with ids unique |
| Store.GroupedPair | utils.ts:81-82 | a duplicate group is backed by two different positions of the list carrying its fingerprint |
| Store.ResolveMakesGroupStale | App.tsx:106-115 | after resolving, the duplicate groups computed again from the remaining photos have no group with that id |
| Store.Matches | App.tsx:142-159 | a date album's filter passes the photos of its month; a content album's filter passes the photos analysed into its category |
| Store.InAlbumMembers | App.tsx:142-159 | an album holds exactly the photos its filter passes |
| Store.OneDateAlbum | App.tsx:142 | each photo is in the date album of its month and in no other date album |
| Store.InAlbumStep | App.tsx:146 | one more photo adds one to each album whose filter it passes |
| Store.AlbumBefore | App.tsx:167-173 | the comparator: date albums before content albums, the newer month first among date albums, title order among content albums |
| Store.AlbumBeforeIrreflexive | App.tsx:167-173 | no album sorts before itself |
| Store.AlbumBeforeTotal | App.tsx:167-173 | of two different albums one sorts before the other |
| Store.AlbumBeforeTransitive | App.tsx:167-173 | the album order is transitive |
| Store.AlbumOrderIsTotal | App.tsx:167-173 | the album comparator is a total preorder |
| Store.SortedAlbumsStrict | App.tsx:167-173 | sorted albums with distinct keys are in strict comparator order |
| Store.NewestFirst | App.tsx:186 | the grid sort is newest first, a rearrangement, and keeps photos of one instant in their order |
| App.MimeTypeOf | App.tsx:76-84 | the media type sent to the analysis: the file's declared type, or "image/jpeg" for a record without a file |
| App.HasCategory | App.tsx:151 | a photo counts toward a content album exactly when it has an analysis with a non-empty category |
| App.ExceptAbsent | App.tsx:100 | taking an id that is not in the in-flight list off it leaves the list as it was |
| App.FindAlbum | App.tsx:181 | the album with the id, or nothing exactly when no album has it |
| App.CollectImages | App.tsx:29-43 | the upload loop builds exactly the records of the image files, in order |
| App.DateKeysCount | App.tsx:134-147 | each month is handed to the album map once per photo taken in it, and no category is |
| App.ContentKeysCount | App.tsx:150-165 | each category is handed over once per photo of that category, and no month is |
| App.AlbumKeysCount | App.tsx:130-165 | every album is handed over exactly as often as its filter passes a photo |
| App.AlbumKeysStep | App.tsx:151-163 | a photo with a category adds its content key, and any other photo adds nothing |
| App.Bump | App.tsx:136-146 | on the map after some keys, create-if-missing then increment gives the map after one key more |
| App.CountDateAlbums | App.tsx:134-147 | the first loop leaves the map after all photos' months |
| App.CountContentAlbums | App.tsx:150-165 | the second loop leaves the map after all months and then all categories |
| App.ListedAlbum | App.tsx:167 | every key of the map has a counter equal to the size of its album, and that is positive |
| App.AlbumListed | App.tsx:131-165 | every album whose filter passes a photo is a key of the map |
| App.ListAlbums | App.tsx:130-167 | the listed albums: each album of the photos once, with its count, and no empty album |
| App.SortedAlbumList | App.tsx:167-173 | sorting the listed albums keeps them and puts them in strict comparator order |
| App.MarkedStep | App.tsx:49 | starting the next appended photo marks exactly its record and its id is not among the ids already started |
| App.Gallery.constructor | App.tsx:12-19 | no photos, nothing in flight, nothing analysed |
| App.Gallery.Begin | App.tsx:69-72 | an id in flight is turned away with no change; otherwise it joins the in-flight list and its record is marked analysing |
| App.Gallery.Succeed | App.tsx:87-100 | the record becomes done with the analysis, the counter grows by one, and the id leaves the in-flight list |
| App.Gallery.Fail | App.tsx:96-100 | the record is marked as an error, the counter stays, and the id leaves the in-flight list |
| App.Gallery.ProcessPhoto | App.tsx:68-102 | a run started on a new id ends done (read succeeded, counter plus one) or error (read failed); the in-flight list is restored; a duplicate id changes nothing |
| App.Gallery.BeginEach | App.tsx:49 | starting every just-appended photo marks each analysing and puts their ids in flight in order |
| App.Gallery.HandleFileUpload | App.tsx:23-50 | the image files are appended as records, marked analysing, with their ids in flight; nothing else is added, and ids stay unique |
| App.Gallery.HandleDriveImport | App.tsx:52-66 | a failed import changes nothing; otherwise the imported records are appended, marked analysing, with their ids in flight |
| App.Gallery.ResolveDuplicate | App.tsx:108-119 | with no group of that id nothing changes; otherwise exactly the group's members other than the kept one are removed, order is kept, and nothing else changes; either way no duplicate group with that id is left |
| App.Gallery.Albums | App.tsx:130-174 | one album per month with photos and per non-empty category, each counting its filter's photos, none empty, in strict comparator order |
| App.Gallery.DisplayedPhotos | App.tsx:178-187 | an existing selected album shows its photos newest first and leaves the list alone; otherwise the whole list is sorted newest first in place; ties keep their order |
| App.Gallery.CurrentAlbumTitle | App.tsx:189-191 | "All Photos" with no selection, the album's title when it exists, nothing otherwise |

## Left out

- Time zones: `getMonthYear` and the `new Date(title)` parse of the comparator use the local time zone. `Calendar.MonthYearOf` uses UTC.
- Lower-casing is ASCII only (`Strings.ToLower`); `toLowerCase` also folds other scripts.
- `localeCompare` between category titles is modelled as the code-point order of the titles (`Strings.StringLess`).
- Album ids are a tagged key (`DateKey` of a month, `ContentKey` of a category) rather than the strings "June 2023" / `cat_<category>`. Those strings never collide, and the key is what the album's title and filter are built from.
- `selectedAlbumId` is an `Option` of such a key; the source's empty-string id would count as no selection, but no album has an empty id.
- A record's `url` is read only by `processPhoto`, for a record without a file (App.tsx:83); that read is folded into `ProcessPhoto`'s `read` parameter, so the field itself is not modelled. `URL.createObjectURL` and the album `coverUrl` are not modelled either.
- File and URL reads (`fileToBase64`, `urlToBase64`) happen outside the model. `ProcessPhoto` takes their outcome as a parameter: the base64 text, or nothing when the read threw.
- `crypto.randomUUID` becomes `ids` parameters. The upload handler requires them fresh and distinct, and the Drive import requires the same of the imported records' ids, which is what random UUIDs provide.
- The Drive import's network delay and its fixed sample list are outside the model. `HandleDriveImport` takes the imported records, or nothing for a failed import. The sample list is used only as test values (`Utils.DriveImportScenario`, `Calendar.MonthYearOfExamples`).
- React's asynchronous state updates, re-rendering and memo timing are not modelled. Each handler works on the current state. `ResolveDuplicate` computes the duplicate groups of the current photos where the source reads the last rendered memo.
- Interleaving of concurrent `processPhoto` runs is not modelled as a scheduler. The steps `Begin`, `Succeed` and `Fail` and their contracts are what any interleaving is composed of.
- App.Gallery.Succeed and App.Gallery.Fail require the id to be in flight, which every run that passed `Begin` guarantees; a stray completion is not modelled.
- `isUploading`, `currentView` and the switch back to the grid in `resolveDuplicate` (App.tsx:118) only drive the UI and are not modelled.
- `ignoreDuplicateGroup` only shows an alert and changes no state; it is not modelled.
- Rendering (App.tsx:193 onwards) and the components are not modelled.
- `analyzeImageContent`'s 100 ms delay and `analyzeImageFromFile`'s 50 ms delay are not modelled. The app never calls `analyzeImageFromFile`; it is modelled on its own.
- Dates are integer millisecond timestamps; an invalid date (NaN) is not modelled.
- Sizes are natural numbers and timestamps integers, without floating point.
