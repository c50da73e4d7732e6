/** The records exchanged between the search form, the archive and the results table. */
module ArchiveTypes {
  import opened Wrappers

  /** A field the archive sends either as one string or as a list of strings (`string | string[]`), or not at all. */
  datatype Multi = Absent | One(text: string) | Many(texts: seq<string>)

  /**
   * The search form's request. A numeric field the form leaves empty (`''`) or that
   * does not parse (`NaN`) is falsy exactly like `0`, so all three are represented by 0.
   */
  datatype SearchOptions = SearchOptions(
    startYear: int,
    endYear: int,
    maxDownloads: int,
    collections: string,
    missingSubject: bool,
    missingCreator: bool,
    missingLanguage: bool,
    isShort: bool,
    query: string)

  /** One document of the archive's answer; `lostnessIndex` is attached after the search. */
  datatype ArchiveItem = ArchiveItem(
    identifier: string,
    title: string,
    year: Option<string>,
    creator: Multi,
    language: Option<string>,
    downloads: Option<int>,
    pages: Option<int>,
    collection: Multi,
    publicdate: Option<string>,
    subject: Multi,
    lostnessIndex: Option<int>)

  /** The field names of ArchiveItem, the keys a results column can sort by. */
  datatype SortKey =
    | Identifier | Title | Year | Creator | Language | Downloads
    | Pages | Collection | PublicDate | Subject | LostnessIndex

  datatype Direction = Ascending | Descending

  /** The active sort column (none when `key` is None) and its direction. */
  datatype SortConfig = SortConfig(key: Option<SortKey>, direction: Direction)
}
