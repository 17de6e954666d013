/** The page-count builder: for each resolved chapter, in sorted order, the
    length of its page list minus the trailing group-credits page. */
module PageCounts {
  import opened Records

  /** No chapter number occurs in the page-count dictionary. */
  predicate Absent(d: seq<Point>, k: real) {
    forall i :: 0 <= i < |d| ==> d[i].number != k
  }

  /** The page-count dictionary holds each chapter number once. */
  predicate DistinctPoints(d: seq<Point>) {
    forall i, j :: 0 <= i < j < |d| ==> d[i].number != d[j].number
  }

  /** `d[k] = v` on the chapter-number to page-count dictionary: an existing
      key keeps its place and takes the new count, a new key goes last. */
  function SetCount(d: seq<Point>, k: real, v: int): (r: seq<Point>)
    requires DistinctPoints(d)
    ensures Absent(d, k) ==> r == d + [Point(k, v)]
    ensures !Absent(d, k) ==> |r| == |d| && forall i :: 0 <= i < |d| ==> r[i] == if d[i].number == k then Point(k, v) else d[i]
    decreases |d|
  {
    if d == [] then [Point(k, v)]
    else if d[0].number == k then [Point(k, v)] + d[1..]
    else [d[0]] + SetCount(d[1..], k, v)
  }

  /** The page-count loop. `pagesOf` gives the length of a chapter's page list
      as the API returns it; `progress` counts the chapters fetched. */
  method BuildPageCounts(chaptersToIds: seq<IdEntry>, pagesOf: ChapterId -> nat)
    returns (chapterToPageCount: seq<Point>, progress: nat)
    requires DistinctIds(chaptersToIds)
    ensures |chapterToPageCount| == |chaptersToIds|
    ensures forall i :: 0 <= i < |chaptersToIds| ==>
      chapterToPageCount[i] == Point(chaptersToIds[i].number, pagesOf(chaptersToIds[i].id) - 1)
    ensures progress == |chaptersToIds|
  {
    chapterToPageCount := [];
    progress := 0;
    for i := 0 to |chaptersToIds|
      invariant |chapterToPageCount| == i
      invariant forall j :: 0 <= j < i ==>
        chapterToPageCount[j] == Point(chaptersToIds[j].number, pagesOf(chaptersToIds[j].id) - 1)
      invariant progress == i
    {
      var entry := chaptersToIds[i];
      assert DistinctPoints(chapterToPageCount) by {
        forall j, l | 0 <= j < l < i
          ensures chapterToPageCount[j].number != chapterToPageCount[l].number
        {
          assert chaptersToIds[j].number != chaptersToIds[l].number;
        }
      }
      assert Absent(chapterToPageCount, entry.number) by {
        forall j | 0 <= j < i
          ensures chapterToPageCount[j].number != entry.number
        {
          assert chaptersToIds[j].number != chaptersToIds[i].number;
        }
      }
      chapterToPageCount := SetCount(chapterToPageCount, entry.number, pagesOf(entry.id) - 1);
      progress := progress + 1;
    }
  }
}
