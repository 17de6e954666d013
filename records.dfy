/** The chapter records that the manga API hands to the pipeline, and the
    entries of the two ordered dictionaries the pipeline builds from them. */
module Records {

  datatype Option<+T> = None | Some(value: T)

  /** The API's opaque chapter identifier. */
  type ChapterId = int

  /** Group id of MangaPlus, whose chapters carry no page list. */
  const MangaPlusGroup: int := 9097

  /** A chapter with a fractional number and fewer pages than this is left out of the series. */
  const MinExtraPages: int := 10

  /** One element of `manga.chapters`. `chapter` is None when the API's chapter
      field is empty or null; otherwise it is the already-parsed number. */
  datatype Chapter = Chapter(chapter: Option<real>, groups: seq<int>, views: int, id: ChapterId)

  /** A Python dictionary from chapter number to record: its keys in insertion
      order, and what each key maps to. */
  datatype ChapterDict = ChapterDict(keys: seq<real>, records: map<real, Chapter>)

  /** Each key occurs once in the order, and the order lists exactly the mapped keys. */
  ghost predicate WellFormedDict(d: ChapterDict) {
    && Distinct(d.keys)
    && forall k :: k in d.records <==> k in d.keys
  }

  /** Distinctness and ascending order are stated once per element type
      (`Distinct`/`DistinctIds`, `StrictlyAscending`/`IdsAscending`/
      `PointsAscending`, and `DistinctPoints` in `PageCounts`): each compares
      the chapter numbers of one kind of dictionary entry, and stating it on
      the entries directly keeps the quantifiers' triggers on the sequences
      the proofs index. */
  predicate Distinct(xs: seq<real>) {
    forall i, j :: 0 <= i < j < |xs| ==> xs[i] != xs[j]
  }

  /** An entry of the sorted chapter-number to chapter-id dictionary. */
  datatype IdEntry = IdEntry(number: real, id: ChapterId)

  /** An entry of the chapter-number to page-count dictionary, and a point of the series. */
  datatype Point = Point(number: real, pages: int)

  /** The resolver reads `groups[0]` of every numbered record: a numbered
      record without groups would stop the program. */
  predicate Readable(c: Chapter) {
    c.chapter.Some? ==> |c.groups| > 0
  }

  predicate AllReadable(rs: seq<Chapter>) {
    forall i :: 0 <= i < |rs| ==> Readable(rs[i])
  }

  /** A record the resolver may select: it has a number and is not from MangaPlus. */
  predicate Eligible(c: Chapter) {
    c.chapter.Some? && |c.groups| > 0 && c.groups[0] != MangaPlusGroup
  }

  /** An eligible record numbered `k`. */
  predicate CandidateFor(c: Chapter, k: real) {
    Eligible(c) && c.chapter.value == k
  }

  predicate StrictlyAscending(xs: seq<real>) {
    forall i, j :: 0 <= i < j < |xs| ==> xs[i] < xs[j]
  }

  predicate IdsAscending(es: seq<IdEntry>) {
    forall i, j :: 0 <= i < j < |es| ==> es[i].number < es[j].number
  }

  predicate PointsAscending(ps: seq<Point>) {
    forall i, j :: 0 <= i < j < |ps| ==> ps[i].number < ps[j].number
  }

  /** No chapter number occurs twice: the entries come from a dictionary. */
  predicate DistinctIds(es: seq<IdEntry>) {
    forall i, j :: 0 <= i < j < |es| ==> es[i].number != es[j].number
  }
}
