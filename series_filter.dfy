/** The series filter: drops the points whose chapter number is fractional
    and whose page count is below ten, and keeps the rest in order. */
module SeriesFilter {
  import opened Records

  /** Python's `int()` on a float: truncation toward zero. */
  function Trunc(x: real): (n: int)
    ensures 0.0 <= x ==> 0 <= n && n as real <= x < n as real + 1.0
    ensures x < 0.0 ==> n <= 0 && n as real - 1.0 < x <= n as real
  {
    if x >= 0.0 then x.Floor else -((-x).Floor)
  }

  /** Truncation toward zero leaves exactly the whole numbers unchanged, as
      flooring does. */
  lemma TruncIntegral(x: real)
    ensures Trunc(x) as real == x <==> x.Floor as real == x
  {
    if x < 0.0 {
      var f := (-x).Floor;
      if (-x).Floor as real == -x {
        assert x == (-f) as real;
        assert x.Floor == -f;
      }
      if x.Floor as real == x {
        assert -x == (-x.Floor) as real;
        assert (-x).Floor == -x.Floor;
      }
    }
  }

  /** The comprehension's condition: `not (int(x[0]) != x[0] and x[1] < 10)`.
      A point is kept exactly when its chapter number is whole or it has at
      least ten pages. */
  predicate Kept(p: Point)
    ensures Kept(p) <==> p.number.Floor as real == p.number || p.pages >= MinExtraPages
  {
    TruncIntegral(p.number);
    !(Trunc(p.number) as real != p.number && p.pages < MinExtraPages)
  }

  /** The list comprehension over the page-count dictionary's items. */
  function Filter(s: seq<Point>): (r: seq<Point>)
    ensures |r| <= |s|
    ensures forall p :: p in r <==> p in s && Kept(p)
    decreases |s|
  {
    if s == [] then []
    else if Kept(s[0]) then [s[0]] + Filter(s[1..])
    else Filter(s[1..])
  }

  /** `r` is `s` with some elements left out, the rest in their order. */
  predicate SubsequenceOf(r: seq<Point>, s: seq<Point>)
    decreases |s|
  {
    if r == [] then true
    else if s == [] then false
    else if r[0] == s[0] then SubsequenceOf(r[1..], s[1..])
    else SubsequenceOf(r, s[1..])
  }

  lemma {:induction false} FilterIsSubsequence(s: seq<Point>)
    ensures SubsequenceOf(Filter(s), s)
    decreases |s|
  {
    if s != [] {
      FilterIsSubsequence(s[1..]);
      var r := Filter(s);
      if Kept(s[0]) {
        assert r[0] == s[0] && r[1..] == Filter(s[1..]);
      } else {
        assert |r| > 0 ==> r[0] in r && Kept(r[0]);
      }
    }
  }

  /** Every element of a subsequence comes from the sequence. */
  lemma {:induction false} SubsequenceMembers(r: seq<Point>, s: seq<Point>)
    requires SubsequenceOf(r, s)
    ensures forall p :: p in r ==> p in s
    decreases |s|
  {
    if r != [] && s != [] {
      if r[0] == s[0] {
        SubsequenceMembers(r[1..], s[1..]);
        forall p | p in r
          ensures p in s
        {
          if p != r[0] {
            assert p in r[1..];
          }
        }
      } else {
        SubsequenceMembers(r, s[1..]);
      }
    }
  }

  /** Leaving elements out keeps chapter numbers ascending. */
  lemma {:induction false} SubsequenceAscending(r: seq<Point>, s: seq<Point>)
    requires SubsequenceOf(r, s) && PointsAscending(s)
    ensures PointsAscending(r)
    decreases |s|
  {
    if r != [] && s != [] {
      assert PointsAscending(s[1..]);
      if r[0] == s[0] {
        SubsequenceAscending(r[1..], s[1..]);
        SubsequenceMembers(r[1..], s[1..]);
        forall j | 0 < j < |r|
          ensures r[0].number < r[j].number
        {
          assert r[j] in r[1..];
          var k :| 0 <= k < |s[1..]| && s[1..][k] == r[j];
          assert s[k + 1] == r[j];
        }
      } else {
        SubsequenceAscending(r, s[1..]);
      }
    }
  }

  /** The filtered series is ascending whenever the page-count dictionary is. */
  lemma FilterAscending(s: seq<Point>)
    requires PointsAscending(s)
    ensures PointsAscending(Filter(s))
  {
    FilterIsSubsequence(s);
    SubsequenceAscending(Filter(s), s);
  }

  /** The worked example: 1.5 is fractional with five pages and goes; 2 is
      whole and stays with three pages; 2.5 has fifteen pages and stays. */
  lemma FilterExample()
    ensures Filter([Point(1.0, 20), Point(1.5, 5), Point(2.0, 3), Point(2.5, 15)])
         == [Point(1.0, 20), Point(2.0, 3), Point(2.5, 15)]
  {
  }
}
