/** The records of the gallery: photos, their analysis, duplicate groups and
    albums. Timestamps are milliseconds since the Unix epoch (`Date.getTime()`). */
module Types {

  datatype Option<+T> = None | Some(value: T)

  /** Where a photo is in the analysis pipeline. */
  datatype Status = Pending | Analyzing | Done | Error

  /** How a photo entered the gallery. */
  datatype PhotoSource = Local | Drive

  /** What the classifier says about a photo. */
  datatype AIAnalysis = AIAnalysis(category: string, tags: seq<string>, summary: string, season: Option<string>)

  /** The browser's handle on an uploaded file: its name, declared media type,
      modification time and byte length. */
  datatype LocalFile = LocalFile(name: string, mimeType: string, lastModified: int, size: nat)

  /** One photo of the gallery. `file` is present for local uploads only. */
  datatype Photo = Photo(
    id: string,
    file: Option<LocalFile>,
    name: string,
    date: int,
    size: nat,
    source: PhotoSource,
    analysis: Option<AIAnalysis>,
    status: Status)

  /** Photos sharing one fingerprint; `id` and `key` are the fingerprint string. */
  datatype DuplicateGroup = DuplicateGroup(id: string, photos: seq<Photo>, key: string)

  /** A calendar month: the label "Month YYYY" of a date album. */
  datatype MonthKey = MonthKey(year: int, month: int)

  /** The identity of an album, and with it its membership filter: a date
      album for one calendar month, or a content album for one category. */
  datatype AlbumKey = DateKey(monthKey: MonthKey) | ContentKey(category: string)

  /** A derived album: which one, and how many photos it holds. */
  datatype Album = Album(key: AlbumKey, count: nat)
}
