/** The body of `main(manga_id)`: reuse the cached page counts when there are
    any, otherwise resolve, sort, and count pages; then filter. */
module Pipeline {
  import opened Records
  import Resolver
  import Ordering
  import PageCounts
  import SeriesFilter

  /** `cached` is the page-count dictionary read from `<manga_id>.json`, or
      None when that file does not exist; `pagesOf` gives the length of a
      chapter's page list as the API returns it. */
  method PageCountSeries(chapters: seq<Chapter>, cached: Option<seq<Point>>, pagesOf: ChapterId -> nat)
    returns (series: seq<Point>)
    requires cached.None? ==> AllReadable(chapters)
    ensures cached.Some? ==> series == SeriesFilter.Filter(cached.value)
    ensures cached.None? ==> PointsAscending(series)
    ensures cached.None? ==> forall p :: p in series <==>
      && p.number in Resolver.Resolved(chapters).records
      && p.pages == pagesOf(Resolver.Resolved(chapters).records[p.number].id) - 1
      && SeriesFilter.Kept(p)
  {
    if cached.Some? {
      series := SeriesFilter.Filter(cached.value);
      return;
    }
    var chaptersToIds := Resolver.Resolve(chapters);
    var ids := Ordering.ChapterIds(chaptersToIds);
    var chapterToPageCount, _ := PageCounts.BuildPageCounts(ids, pagesOf);
    series := SeriesFilter.Filter(chapterToPageCount);
    SeriesFilter.FilterAscending(chapterToPageCount);
    CountsMembers(chaptersToIds.records, ids, chapterToPageCount, pagesOf);
  }

  /** The page-count dictionary holds exactly one point per resolved chapter
      number, with the page count of the selected record's id. */
  lemma CountsMembers(m: map<real, Chapter>, ids: seq<IdEntry>, counts: seq<Point>, pagesOf: ChapterId -> nat)
    requires forall i :: 0 <= i < |ids| ==> ids[i].number in m && ids[i].id == m[ids[i].number].id
    requires forall k :: k in m ==> exists i :: 0 <= i < |ids| && ids[i].number == k
    requires |counts| == |ids|
    requires forall i :: 0 <= i < |ids| ==> counts[i] == Point(ids[i].number, pagesOf(ids[i].id) - 1)
    ensures forall p :: p in counts <==> p.number in m && p.pages == pagesOf(m[p.number].id) - 1
  {
  }
}
