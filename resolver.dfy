/** The resolver: folds the API's chapter records, in the order given, into a
    dictionary from chapter number to the record with the most views. */
module Resolver {
  import opened Records

  /** `chapters_to_ids.get(k, {}).get('views', 0)`: the views of the record
      stored under `k`, 0 when there is none. */
  function StoredViews(d: ChapterDict, k: real): (v: int)
    ensures k in d.records ==> v == d.records[k].views
    ensures k !in d.records ==> v == 0
  {
    if k in d.records then d.records[k].views else 0
  }

  /** `d[k] = c` on a Python dictionary: a new key goes to the end of the
      order, an existing key keeps its place. */
  function Put(d: ChapterDict, k: real, c: Chapter): (d': ChapterDict)
    requires WellFormedDict(d)
    ensures WellFormedDict(d')
    ensures d'.records == d.records[k := c]
    ensures k in d.records ==> d'.keys == d.keys
    ensures k !in d.records ==> d'.keys == d.keys + [k]
  {
    if k in d.records then ChapterDict(d.keys, d.records[k := c])
    else ChapterDict(d.keys + [k], d.records[k := c])
  }

  /** One turn of the resolver loop: unnumbered records are skipped, MangaPlus
      records are skipped, and a record replaces the stored one only when it
      has strictly more views. */
  function Step(d: ChapterDict, c: Chapter): (d': ChapterDict)
    requires WellFormedDict(d) && Readable(c)
    ensures WellFormedDict(d')
    ensures !Eligible(c) ==> d' == d
    ensures Eligible(c) && c.views <= StoredViews(d, c.chapter.value) ==> d' == d
    ensures Eligible(c) && c.views > StoredViews(d, c.chapter.value) ==>
      d'.records == d.records[c.chapter.value := c] && d.keys <= d'.keys
    ensures forall k :: k in d.records ==> k in d'.records && d.records[k].views <= d'.records[k].views
  {
    if c.chapter.None? then d
    else if c.groups[0] != MangaPlusGroup && c.views > StoredViews(d, c.chapter.value) then
      Put(d, c.chapter.value, c)
    else d
  }

  /** The dictionary after folding all of `rs`; it stays a well-formed dictionary. */
  function Resolved(rs: seq<Chapter>): (d: ChapterDict)
    requires AllReadable(rs)
    ensures WellFormedDict(d)
    decreases |rs|
  {
    if rs == [] then ChapterDict([], map[])
    else Step(Resolved(rs[..|rs| - 1]), rs[|rs| - 1])
  }

  /** The resolver loop, updating the dictionary record by record. */
  method Resolve(chapters: seq<Chapter>) returns (chaptersToIds: ChapterDict)
    requires AllReadable(chapters)
    ensures chaptersToIds == Resolved(chapters)
  {
    chaptersToIds := ChapterDict([], map[]);
    for i := 0 to |chapters|
      invariant chaptersToIds == Resolved(chapters[..i])
    {
      assert chapters[..i + 1][..i] == chapters[..i];
      var chapter := chapters[i];
      if chapter.chapter.None? {
        continue;
      }
      var chapterNum := chapter.chapter.value;
      if chapter.groups[0] != MangaPlusGroup {
        if chapter.views > StoredViews(chaptersToIds, chapterNum) {
          chaptersToIds := Put(chaptersToIds, chapterNum, chapter);
        }
      }
    }
    assert chapters[..|chapters|] == chapters;
  }

  /** Some eligible record numbered `k` has positive views. */
  ghost predicate HasPositive(rs: seq<Chapter>, k: real) {
    exists i :: 0 <= i < |rs| && CandidateFor(rs[i], k) && rs[i].views > 0
  }

  /** `rs[i]` is the first record, in input order, of those with the most
      views among the eligible records numbered `k`. */
  ghost predicate IsFirstMax(rs: seq<Chapter>, k: real, i: int) {
    && 0 <= i < |rs|
    && CandidateFor(rs[i], k)
    && (forall j :: 0 <= j < |rs| && CandidateFor(rs[j], k) ==> rs[j].views <= rs[i].views)
    && (forall j :: 0 <= j < i && CandidateFor(rs[j], k) ==> rs[j].views < rs[i].views)
  }

  /** `d` is what the resolver should hold for `k` after the records `rs`. */
  ghost predicate Characterizes(rs: seq<Chapter>, d: ChapterDict, k: real) {
    && (k in d.records <==> HasPositive(rs, k))
    && (k in d.records ==> exists i :: IsFirstMax(rs, k, i) && d.records[k] == rs[i])
  }

  /** A record that does not replace the entry for `k` keeps `k` resolved correctly. */
  lemma KeepEntry(rs: seq<Chapter>, c: Chapter, d: ChapterDict, d': ChapterDict, k: real)
    requires Characterizes(rs, d, k)
    requires !CandidateFor(c, k) || c.views <= StoredViews(d, k)
    requires k in d'.records <==> k in d.records
    requires k in d.records ==> d'.records[k] == d.records[k]
    ensures Characterizes(rs + [c], d', k)
  {
    var rs' := rs + [c];
    if k in d.records {
      var i :| IsFirstMax(rs, k, i) && d.records[k] == rs[i];
      assert IsFirstMax(rs', k, i);
      assert HasPositive(rs', k) by {
        var w :| 0 <= w < |rs| && CandidateFor(rs[w], k) && rs[w].views > 0;
        assert rs'[w] == rs[w];
      }
    } else {
      forall i | 0 <= i < |rs'| && CandidateFor(rs'[i], k)
        ensures rs'[i].views <= 0
      {
        if i < |rs| {
          assert rs'[i] == rs[i];
        }
      }
    }
  }

  /** A record that replaces the entry for `k` becomes its first maximum. */
  lemma ReplaceEntry(rs: seq<Chapter>, c: Chapter, d: ChapterDict, d': ChapterDict, k: real)
    requires Characterizes(rs, d, k)
    requires CandidateFor(c, k) && c.views > StoredViews(d, k)
    requires k in d'.records && d'.records[k] == c
    ensures Characterizes(rs + [c], d', k)
  {
    var rs', n := rs + [c], |rs|;
    forall j | 0 <= j < n && CandidateFor(rs'[j], k)
      ensures rs'[j].views < c.views
    {
      assert rs'[j] == rs[j];
      if k in d.records {
        var i :| IsFirstMax(rs, k, i) && d.records[k] == rs[i];
      } else {
        assert rs[j].views <= 0;
      }
    }
    assert IsFirstMax(rs', k, n);
    assert HasPositive(rs', k) by {
      assert CandidateFor(rs'[n], k) && rs'[n].views > 0;
    }
  }

  /** What the resolver computes, for one chapter number: the number is a key
      exactly when an eligible record with positive views carries it, and its
      value is then the first record with the most views. */
  lemma {:induction false} ResolvedAt(rs: seq<Chapter>, k: real)
    requires AllReadable(rs)
    ensures k in Resolved(rs).records <==> HasPositive(rs, k)
    ensures k in Resolved(rs).records ==> exists i :: IsFirstMax(rs, k, i) && Resolved(rs).records[k] == rs[i]
    decreases |rs|
  {
    if rs == [] {
      return;
    }
    var n := |rs| - 1;
    var init, c := rs[..n], rs[n];
    assert rs == init + [c];
    assert AllReadable(init);
    ResolvedAt(init, k);
    var d := Resolved(init);
    var d' := Step(d, c);
    assert Resolved(rs) == d';
    if CandidateFor(c, k) && c.views > StoredViews(d, k) {
      ReplaceEntry(init, c, d, d', k);
    } else {
      KeepEntry(init, c, d, d', k);
    }
  }

  /** The selected record is one of the input records, carries the key it is
      stored under, is not from MangaPlus, and has positive views; no eligible
      record with that number has more views. */
  lemma SelectedRecord(rs: seq<Chapter>, k: real)
    requires AllReadable(rs)
    requires k in Resolved(rs).records
    ensures Resolved(rs).records[k] in rs
    ensures Resolved(rs).records[k].chapter == Some(k)
    ensures Resolved(rs).records[k].groups[0] != MangaPlusGroup
    ensures Resolved(rs).records[k].views > 0
    ensures forall j :: 0 <= j < |rs| && CandidateFor(rs[j], k) ==> rs[j].views <= Resolved(rs).records[k].views
  {
    ResolvedAt(rs, k);
    var i :| IsFirstMax(rs, k, i) && Resolved(rs).records[k] == rs[i];
    assert rs[i].views > 0 by {
      var w :| 0 <= w < |rs| && CandidateFor(rs[w], k) && rs[w].views > 0;
    }
  }

  /** Ties keep the earliest record: every eligible record with the same number
      that comes before the selected one has strictly fewer views. */
  lemma FirstSeenOnTies(rs: seq<Chapter>, k: real, i: int)
    requires AllReadable(rs)
    requires k in Resolved(rs).records
    requires 0 <= i < |rs| && CandidateFor(rs[i], k) && rs[i].views == Resolved(rs).records[k].views
    ensures exists s :: 0 <= s <= i && rs[s] == Resolved(rs).records[k]
  {
    ResolvedAt(rs, k);
    var s :| IsFirstMax(rs, k, s) && Resolved(rs).records[k] == rs[s];
  }

  /** The default of 0 views never stands for a stored record: a chapter
      number is a key exactly when its stored views are positive. */
  lemma StoredViewsPositive(rs: seq<Chapter>, k: real)
    requires AllReadable(rs)
    ensures StoredViews(Resolved(rs), k) >= 0
    ensures StoredViews(Resolved(rs), k) > 0 <==> k in Resolved(rs).records
  {
    if k in Resolved(rs).records {
      SelectedRecord(rs, k);
    }
  }

  /** A chapter number all of whose records come from MangaPlus is absent. */
  lemma {:induction false} MangaPlusOnlyAbsent(rs: seq<Chapter>, k: real)
    requires AllReadable(rs)
    requires forall i :: 0 <= i < |rs| && rs[i].chapter == Some(k) ==> rs[i].groups[0] == MangaPlusGroup
    ensures k !in Resolved(rs).records
  {
    ResolvedAt(rs, k);
  }

  /** A record without a number, or from MangaPlus, can be removed from
      anywhere in the input without changing the result. */
  lemma {:induction false} IneligibleIgnored(s: seq<Chapter>, c: Chapter, t: seq<Chapter>)
    requires AllReadable(s + t) && Readable(c) && !Eligible(c)
    ensures AllReadable(s + [c] + t)
    ensures Resolved(s + [c] + t) == Resolved(s + t)
    decreases |t|
  {
    var whole := s + [c] + t;
    assert AllReadable(whole) by {
      forall i | 0 <= i < |whole|
        ensures Readable(whole[i])
      {
        if i < |s| {
          assert whole[i] == (s + t)[i];
        } else if i > |s| {
          assert whole[i] == (s + t)[i - 1];
        }
      }
    }
    if t == [] {
      assert whole == s + [c];
      assert whole[..|whole| - 1] == s;
      assert s + t == s;
    } else {
      var t' := t[..|t| - 1];
      var x := t[|t| - 1];
      assert (s + t)[..|s + t| - 1] == s + t';
      assert AllReadable(s + t') by {
        forall i | 0 <= i < |s + t'|
          ensures Readable((s + t')[i])
        {
          assert (s + t')[i] == (s + t)[i];
        }
      }
      IneligibleIgnored(s, c, t');
      assert whole[..|whole| - 1] == s + [c] + t';
      assert whole[|whole| - 1] == x && (s + t)[|s + t| - 1] == x;
    }
  }

  /** Three records numbered 1: the MangaPlus one has the most views but is
      skipped, and of the other two the one with more views is selected. */
  lemma ResolveExample()
    ensures
      var a := Chapter(Some(1.0), [1], 100, 1);
      var b := Chapter(Some(1.0), [1], 50, 2);
      var c := Chapter(Some(1.0), [MangaPlusGroup], 500, 3);
      Resolved([a, b, c]) == ChapterDict([1.0], map[1.0 := a])
  {
    var a := Chapter(Some(1.0), [1], 100, 1);
    var b := Chapter(Some(1.0), [1], 50, 2);
    var c := Chapter(Some(1.0), [MangaPlusGroup], 500, 3);
    assert [a, b, c][..2] == [a, b];
    assert [a, b][..1] == [a];
    assert [a][..0] == [];
    assert Resolved([a]) == ChapterDict([1.0], map[1.0 := a]);
    assert Resolved([a, b]) == ChapterDict([1.0], map[1.0 := a]);
  }
}
