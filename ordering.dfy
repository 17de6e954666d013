/** Sort-and-project: the resolved dictionary's items, sorted by chapter
    number, reduced to chapter number -> chapter id. */
module Ordering {
  import opened Records

  /** Places `x` in an ascending sequence that does not hold it. */
  function Insert(x: real, s: seq<real>): (r: seq<real>)
    requires StrictlyAscending(s) && x !in s
    ensures StrictlyAscending(r)
    ensures |r| == |s| + 1
    ensures forall y :: y in r <==> y == x || y in s
  {
    if s == [] then [x]
    else if x < s[0] then [x] + s
    else
      var rest := Insert(x, s[1..]);
      assert forall j :: 0 <= j < |rest| ==> s[0] < rest[j] by {
        forall j | 0 <= j < |rest|
          ensures s[0] < rest[j]
        {
          assert rest[j] in rest;
          if rest[j] != x {
            var t :| 0 <= t < |s[1..]| && s[1..][t] == rest[j];
            assert s[t + 1] == rest[j];
          }
        }
      }
      [s[0]] + rest
  }

  /** The keys of a dictionary in the order `sorted` puts them. */
  function SortKeys(ks: seq<real>): (r: seq<real>)
    requires Distinct(ks)
    ensures StrictlyAscending(r)
    ensures |r| == |ks|
    ensures forall y :: y in r <==> y in ks
    decreases |ks|
  {
    if ks == [] then []
    else
      var last := ks[|ks| - 1];
      var init := ks[..|ks| - 1];
      assert forall y :: y in init ==> y in ks && y != last;
      Insert(last, SortKeys(init))
  }

  /** Two ascending sequences with the same elements are equal: the order
      `SortKeys` produces is the only one `sorted` can produce. */
  lemma {:induction false} AscendingUnique(a: seq<real>, b: seq<real>)
    requires StrictlyAscending(a) && StrictlyAscending(b)
    requires forall y :: y in a <==> y in b
    ensures a == b
    decreases |a|
  {
    assert |a| > 0 ==> a[0] in a && a[0] in b;
    assert |b| > 0 ==> b[0] in b && b[0] in a;
    if |a| > 0 {
      assert a[0] == b[0] by {
        assert a[0] in b && b[0] in a;
      }
      forall y
        ensures y in a[1..] <==> y in b[1..]
      {
        if y in a[1..] {
          assert y in b && y != b[0];
        }
        if y in b[1..] {
          assert y in a && y != a[0];
        }
      }
      AscendingUnique(a[1..], b[1..]);
      assert a == [a[0]] + a[1..] && b == [b[0]] + b[1..];
    }
  }

  /** `{key: value['id'] for key, value in sorted(chapters_to_ids.items())}`:
      one entry per resolved chapter number, ascending, each carrying the id
      of the record selected for that number. */
  function ChapterIds(d: ChapterDict): (r: seq<IdEntry>)
    requires WellFormedDict(d)
    ensures |r| == |d.keys|
    ensures IdsAscending(r)
    ensures forall i :: 0 <= i < |r| ==> r[i].number in d.records && r[i].id == d.records[r[i].number].id
    ensures forall k :: k in d.records ==> exists i :: 0 <= i < |r| && r[i].number == k
  {
    var ks := SortKeys(d.keys);
    assert forall i :: 0 <= i < |ks| ==> ks[i] in d.records by {
      forall i | 0 <= i < |ks|
        ensures ks[i] in d.records
      {
        assert ks[i] in ks;
      }
    }
    var r := seq(|ks|, i requires 0 <= i < |ks| => IdEntry(ks[i], d.records[ks[i]].id));
    assert forall k :: k in d.records ==> exists i :: 0 <= i < |r| && r[i].number == k by {
      forall k | k in d.records
        ensures exists i :: 0 <= i < |r| && r[i].number == k
      {
        var i :| 0 <= i < |ks| && ks[i] == k;
        assert r[i].number == k;
      }
    }
    r
  }
}
