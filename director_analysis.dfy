/**
 * The analysis layer of the director report: the ranking of directors by
 * the number of their films in the top-1000 list (`analyze_directors`), one
 * director's films and ratings per decade (`analyze_decades`), and the file
 * name made from a director's name for the decade chart.
 *
 * The parsed JSON document is an `Object<DirectorRecord>`; nothing here
 * reads files or draws charts.
 */
module DirectorAnalysis {
  import opened Wrappers
  import opened JsonObject
  import opened DecadeLabel
  import StableSort

  /** An average rating: a JSON number that the analysis only copies. */
  type Rating = real

  /** One decade bucket of a director: `count` and an optional `avg_rating`. */
  datatype DecadeStat = DecadeStat(count: int, avgRating: Option<Rating>)

  /** The value stored under a director's name. */
  datatype DirectorRecord = DirectorRecord(
    countInTop1000: int,
    avgRatingTop1000: Rating,
    decades: Object<DecadeStat>)

  /** The whole document: director name to record, in insertion order. */
  type Dataset = Object<DirectorRecord>

  /** `{"name", "count", "avg_rating"}`, one entry of the ranking. */
  datatype DirectorRow = DirectorRow(name: string, count: int, avgRating: Rating)

  /** `{"decade", "count", "avg_rating"}`, one entry of a decade timeline. */
  datatype DecadeRow = DecadeRow(decade: string, count: int, avgRating: Rating)

  function Min(a: int, b: int): int
  {
    if a <= b then a else b
  }

  // ------------------------------------------------------------------
  // analyze_directors

  function DirectorRowOf(name: string, info: DirectorRecord): DirectorRow
  {
    DirectorRow(name, info.countInTop1000, info.avgRatingTop1000)
  }

  /** The list the loop builds: every director with a positive count, in insertion order. */
  function Qualifying(data: Dataset): seq<DirectorRow>
  {
    if data == [] then []
    else
      var (name, info) := data[|data| - 1];
      Qualifying(data[..|data| - 1])
        + (if info.countInTop1000 > 0 then [DirectorRowOf(name, info)] else [])
  }

  /**
   * The sort key: by count, largest first. Sorting ascending on the negated
   * count gives the same order as a reversed sort on the count, ties included,
   * since a reversed sort also keeps equal elements in their original order.
   */
  function ByCountDescending(row: DirectorRow): int
  {
    -row.count
  }

  /** The full ranking before it is cut to `top_n` entries. */
  function Ranking(data: Dataset): seq<DirectorRow>
  {
    StableSort.SelectionSort(Qualifying(data), ByCountDescending)
  }

  /** A director is listed exactly when its count is positive, and then with its own fields. */
  lemma {:induction false} QualifyingMembers(data: Dataset)
    ensures forall i :: 0 <= i < |data| && data[i].1.countInTop1000 > 0 ==>
      DirectorRowOf(data[i].0, data[i].1) in Qualifying(data)
    ensures forall r :: r in Qualifying(data) ==>
      r.count > 0 && exists i :: 0 <= i < |data| && r == DirectorRowOf(data[i].0, data[i].1)
  {
    if data != [] {
      var init := data[..|data| - 1];
      QualifyingMembers(init);
      forall r | r in Qualifying(data)
        ensures r.count > 0 && exists i :: 0 <= i < |data| && r == DirectorRowOf(data[i].0, data[i].1)
      {
        if r in Qualifying(init) {
          var i :| 0 <= i < |init| && r == DirectorRowOf(init[i].0, init[i].1);
          assert data[i] == init[i];
        } else {
          assert r == DirectorRowOf(data[|data| - 1].0, data[|data| - 1].1);
        }
      }
      forall i | 0 <= i < |data| && data[i].1.countInTop1000 > 0
        ensures DirectorRowOf(data[i].0, data[i].1) in Qualifying(data)
      {
        if i < |data| - 1 {
          assert data[i] == init[i];
        }
      }
    }
  }

  /** The ranking holds exactly the qualifying directors, each with the fields of its record. */
  lemma RankingMembers(data: Dataset)
    requires UniqueKeys(data)
    ensures |Ranking(data)| == |Qualifying(data)|
    ensures forall i :: 0 <= i < |data| && data[i].1.countInTop1000 > 0 ==>
      DirectorRowOf(data[i].0, data[i].1) in Ranking(data)
    ensures forall r :: r in Ranking(data) ==>
      r.count > 0 && Get(data, r.name).Some? && r == DirectorRowOf(r.name, Get(data, r.name).value)
  {
    var q := Qualifying(data);
    StableSort.SelectionSortStable(q, ByCountDescending);
    StableSort.StableIsPermutation(q, Ranking(data), ByCountDescending);
    QualifyingMembers(data);
    forall r | r in Ranking(data)
      ensures r.count > 0 && Get(data, r.name).Some? && r == DirectorRowOf(r.name, Get(data, r.name).value)
    {
      assert r in multiset(Ranking(data));
      var i :| 0 <= i < |data| && r == DirectorRowOf(data[i].0, data[i].1);
      GetEntry(data, i);
    }
    forall i | 0 <= i < |data| && data[i].1.countInTop1000 > 0
      ensures DirectorRowOf(data[i].0, data[i].1) in Ranking(data)
    {
      assert DirectorRowOf(data[i].0, data[i].1) in multiset(q);
    }
  }

  /** The ranking is by count, largest first; equal counts keep insertion order. */
  lemma RankingOrder(data: Dataset)
    ensures forall i, j :: 0 <= i < j < |Ranking(data)| ==> Ranking(data)[i].count >= Ranking(data)[j].count
    ensures StableSort.StablePermutation(Qualifying(data), Ranking(data), ByCountDescending)
  {
    StableSort.SelectionSortSorted(Qualifying(data), ByCountDescending);
    StableSort.SelectionSortStable(Qualifying(data), ByCountDescending);
    var r := Ranking(data);
    forall i, j | 0 <= i < j < |r| ensures r[i].count >= r[j].count {
      assert ByCountDescending(r[i]) <= ByCountDescending(r[j]);
    }
  }

  /** `analyze_directors(data, top_n)`: the `top_n` directors with the most films. */
  method AnalyzeDirectors(data: Dataset, topN: nat) returns (top: seq<DirectorRow>)
    requires UniqueKeys(data)
    ensures |top| == Min(topN, |Qualifying(data)|)
    ensures top == Ranking(data)[..|top|]
    ensures forall i, j :: 0 <= i < j < |top| ==> top[i].count >= top[j].count
    ensures forall r :: r in top ==>
      r.count > 0 && Get(data, r.name).Some? && r == DirectorRowOf(r.name, Get(data, r.name).value)
  {
    var rows: seq<DirectorRow> := [];
    var i := 0;
    while i < |data|
      invariant 0 <= i <= |data|
      invariant rows == Qualifying(data[..i])
    {
      var (name, info) := data[i];
      if info.countInTop1000 > 0 {
        rows := rows + [DirectorRow(name, info.countInTop1000, info.avgRatingTop1000)];
      }
      assert data[..i + 1][..i] == data[..i];
      i := i + 1;
    }
    assert data[..i] == data;
    rows := StableSort.Sort(rows, ByCountDescending);
    assert rows == Ranking(data);
    RankingMembers(data);
    RankingOrder(data);
    top := if topN < |rows| then rows[..topN] else rows;
    assert top == rows[..|top|];
  }

  // ------------------------------------------------------------------
  // analyze_decades

  /** Every label of a director's buckets is one that `int` can read, or the sentinel. */
  predicate WellFormedDecades(decades: Object<DecadeStat>)
  {
    forall i :: 0 <= i < |decades| ==> IsLabel(decades[i].0)
  }

  /** A bucket is charted unless it is `"unknown"` or its decade is not positive. */
  predicate Analyzable(decade: string)
    requires IsLabel(decade)
  {
    decade != Unknown && ParseInt(decade) > 0
  }

  /** The bucket's `avg_rating`, or 0 when it has none. */
  function RatingOrZero(stat: DecadeStat): Rating
  {
    if stat.avgRating.Some? then stat.avgRating.value else 0.0
  }

  function DecadeRowOf(decade: string, stat: DecadeStat): DecadeRow
  {
    DecadeRow(decade, stat.count, RatingOrZero(stat))
  }

  /** The list the loop builds: the charted buckets, in the order of the object. */
  function AnalyzableDecades(decades: Object<DecadeStat>): seq<DecadeRow>
    requires WellFormedDecades(decades)
  {
    if decades == [] then []
    else
      var (decade, stat) := decades[|decades| - 1];
      AnalyzableDecades(decades[..|decades| - 1])
        + (if Analyzable(decade) then [DecadeRowOf(decade, stat)] else [])
  }

  /** The sort key: the decade as an integer. */
  function DecadeValue(row: DecadeRow): int
  {
    if IsIntLiteral(row.decade) then ParseInt(row.decade) else 0
  }

  /** A director's decade timeline, earliest decade first. */
  function Timeline(decades: Object<DecadeStat>): seq<DecadeRow>
    requires WellFormedDecades(decades)
  {
    StableSort.SelectionSort(AnalyzableDecades(decades), DecadeValue)
  }

  /** A bucket is listed exactly when it is charted, with its count and its rating or 0. */
  lemma {:induction false} AnalyzableDecadesMembers(decades: Object<DecadeStat>)
    requires WellFormedDecades(decades)
    ensures forall i :: 0 <= i < |decades| && Analyzable(decades[i].0) ==>
      DecadeRowOf(decades[i].0, decades[i].1) in AnalyzableDecades(decades)
    ensures forall row :: row in AnalyzableDecades(decades) ==>
      exists i :: 0 <= i < |decades| && Analyzable(decades[i].0)
        && row == DecadeRowOf(decades[i].0, decades[i].1)
  {
    if decades != [] {
      var init := decades[..|decades| - 1];
      AnalyzableDecadesMembers(init);
      forall row | row in AnalyzableDecades(decades)
        ensures exists i :: (0 <= i < |decades| && Analyzable(decades[i].0)
          && row == DecadeRowOf(decades[i].0, decades[i].1))
      {
        if row in AnalyzableDecades(init) {
          var i :| 0 <= i < |init| && Analyzable(init[i].0) && row == DecadeRowOf(init[i].0, init[i].1);
          assert decades[i] == init[i];
        } else {
          assert row == DecadeRowOf(decades[|decades| - 1].0, decades[|decades| - 1].1);
        }
      }
      forall i | 0 <= i < |decades| && Analyzable(decades[i].0)
        ensures DecadeRowOf(decades[i].0, decades[i].1) in AnalyzableDecades(decades)
      {
        if i < |decades| - 1 {
          assert decades[i] == init[i];
        }
      }
    }
  }

  /**
   * The timeline lists exactly the charted buckets, never `"unknown"` and never
   * a decade of 0 or less, each with the bucket's count and its rating or 0,
   * in non-decreasing order of decade; buckets with the same decade keep the
   * order of the object.
   */
  lemma TimelineContents(decades: Object<DecadeStat>)
    requires WellFormedDecades(decades)
    ensures forall i :: 0 <= i < |decades| && Analyzable(decades[i].0) ==>
      DecadeRowOf(decades[i].0, decades[i].1) in Timeline(decades)
    ensures forall row :: row in Timeline(decades) ==>
      && row.decade != Unknown
      && IsIntLiteral(row.decade)
      && ParseInt(row.decade) > 0
      && exists i :: 0 <= i < |decades| && decades[i].0 == row.decade
           && row.count == decades[i].1.count
           && row.avgRating == (if decades[i].1.avgRating.Some? then decades[i].1.avgRating.value else 0.0)
    ensures forall i, j :: 0 <= i < j < |Timeline(decades)| ==>
      DecadeValue(Timeline(decades)[i]) <= DecadeValue(Timeline(decades)[j])
    ensures StableSort.StablePermutation(AnalyzableDecades(decades), Timeline(decades), DecadeValue)
  {
    var rows := AnalyzableDecades(decades);
    StableSort.SelectionSortStable(rows, DecadeValue);
    StableSort.SelectionSortSorted(rows, DecadeValue);
    StableSort.StableIsPermutation(rows, Timeline(decades), DecadeValue);
    AnalyzableDecadesMembers(decades);
    forall i | 0 <= i < |decades| && Analyzable(decades[i].0)
      ensures DecadeRowOf(decades[i].0, decades[i].1) in Timeline(decades)
    {
      assert DecadeRowOf(decades[i].0, decades[i].1) in multiset(rows);
    }
    forall row | row in Timeline(decades)
      ensures row.decade != Unknown && IsIntLiteral(row.decade) && ParseInt(row.decade) > 0
      ensures exists i :: (0 <= i < |decades| && decades[i].0 == row.decade
           && row.count == decades[i].1.count
           && row.avgRating == (if decades[i].1.avgRating.Some? then decades[i].1.avgRating.value else 0.0))
    {
      assert row in multiset(Timeline(decades));
      assert row in rows;
      var i :| 0 <= i < |decades| && Analyzable(decades[i].0) && row == DecadeRowOf(decades[i].0, decades[i].1);
    }
  }

  /** With unique bucket labels, the loop's list never holds a label twice. */
  lemma {:induction false} AnalyzableDecadesDistinct(decades: Object<DecadeStat>)
    requires WellFormedDecades(decades)
    requires UniqueKeys(decades)
    ensures forall i, j :: 0 <= i < j < |AnalyzableDecades(decades)| ==>
      AnalyzableDecades(decades)[i].decade != AnalyzableDecades(decades)[j].decade
  {
    if decades != [] {
      var init := decades[..|decades| - 1];
      var last := decades[|decades| - 1];
      assert forall k :: 0 <= k < |init| ==> init[k] == decades[k];
      AnalyzableDecadesDistinct(init);
      AnalyzableDecadesMembers(init);
      var before := AnalyzableDecades(init);
      forall r | r in before ensures r.decade != last.0 {
        var k :| 0 <= k < |init| && Analyzable(init[k].0) && r == DecadeRowOf(init[k].0, init[k].1);
      }
    }
  }

  /** Two charted buckets with the same decade value are the same bucket. */
  lemma SameDecadeSameRow(decades: Object<DecadeStat>, x: DecadeRow, y: DecadeRow)
    requires WellFormedDecades(decades)
    requires UniqueKeys(decades)
    requires forall i :: 0 <= i < |decades| && Analyzable(decades[i].0) ==> decades[i].0[0] != '0'
    requires x in AnalyzableDecades(decades) && y in AnalyzableDecades(decades)
    ensures DecadeValue(x) == DecadeValue(y) ==> x == y
  {
    AnalyzableDecadesMembers(decades);
    var k1 :| 0 <= k1 < |decades| && Analyzable(decades[k1].0) && x == DecadeRowOf(decades[k1].0, decades[k1].1);
    var k2 :| 0 <= k2 < |decades| && Analyzable(decades[k2].0) && y == DecadeRowOf(decades[k2].0, decades[k2].1);
    ParseIntInjective(decades[k1].0, decades[k2].0);
    assert k1 != k2 ==> decades[k1].0 != decades[k2].0;
  }

  /**
   * When the labels are unique and no charted label has a leading zero,
   * the timeline is strictly ascending by decade.
   */
  lemma TimelineStrict(decades: Object<DecadeStat>)
    requires WellFormedDecades(decades)
    requires UniqueKeys(decades)
    requires forall i :: 0 <= i < |decades| && Analyzable(decades[i].0) ==> decades[i].0[0] != '0'
    ensures forall i, j :: 0 <= i < j < |Timeline(decades)| ==>
      DecadeValue(Timeline(decades)[i]) < DecadeValue(Timeline(decades)[j])
  {
    var rows := AnalyzableDecades(decades);
    var t := Timeline(decades);
    StableSort.SelectionSortSorted(rows, DecadeValue);
    StableSort.SelectionSortStable(rows, DecadeValue);
    StableSort.StableIsPermutation(rows, t, DecadeValue);
    AnalyzableDecadesDistinct(decades);
    StableSort.DistinctPermutation(rows, t);
    forall i, j | 0 <= i < j < |t| ensures DecadeValue(t[i]) < DecadeValue(t[j]) {
      assert t[i] in multiset(rows) && t[j] in multiset(rows);
      SameDecadeSameRow(decades, t[i], t[j]);
    }
  }

  /** `analyze_decades(data, director_name)`: `None` for an unknown director, else the timeline. */
  method AnalyzeDecades(data: Dataset, directorName: string) returns (result: Option<seq<DecadeRow>>)
    requires Get(data, directorName).Some? ==> WellFormedDecades(Get(data, directorName).value.decades)
    ensures result.None? <==> forall i :: 0 <= i < |data| ==> data[i].0 != directorName
    ensures result.Some? ==>
      Get(data, directorName).Some? && result.value == Timeline(Get(data, directorName).value.decades)
    ensures result.Some? ==> forall row :: row in result.value ==>
      row.decade != Unknown && IsIntLiteral(row.decade) && ParseInt(row.decade) > 0
    ensures result.Some? ==> forall i, j :: 0 <= i < j < |result.value| ==>
      DecadeValue(result.value[i]) <= DecadeValue(result.value[j])
  {
    var found := Get(data, directorName);
    if found.None? {
      return None;
    }
    var decades := found.value.decades;
    var rows: seq<DecadeRow> := [];
    var i := 0;
    while i < |decades|
      invariant 0 <= i <= |decades|
      invariant WellFormedDecades(decades[..i])
      invariant rows == AnalyzableDecades(decades[..i])
    {
      var (decade, info) := decades[i];
      assert decades[..i + 1][..i] == decades[..i];
      if decade != Unknown && ParseInt(decade) > 0 {
        var rating := if info.avgRating.Some? then info.avgRating.value else 0.0;
        rows := rows + [DecadeRow(decade, info.count, rating)];
      }
      i := i + 1;
    }
    assert decades[..i] == decades;
    rows := StableSort.Sort(rows, DecadeValue);
    TimelineContents(decades);
    result := Some(rows);
  }

  // ------------------------------------------------------------------
  // The file name of the decade chart

  /** Python's `s.replace(target, replacement)` for one character replaced by another. */
  function Replace(s: string, target: char, replacement: char): (r: string)
    ensures |r| == |s|
    ensures forall i :: 0 <= i < |s| ==> r[i] == (if s[i] == target then replacement else s[i])
  {
    if s == [] then []
    else [if s[0] == target then replacement else s[0]] + Replace(s[1..], target, replacement)
  }

  /**
   * `name.replace(" ", "_").replace("/", "_")`: a name without spaces or
   * slashes, of the same length, with every other character kept.
   */
  function SafeName(name: string): (safe: string)
    ensures |safe| == |name|
    ensures ' ' !in safe && '/' !in safe
    ensures forall i :: 0 <= i < |name| && name[i] != ' ' && name[i] != '/' ==> safe[i] == name[i]
    ensures forall i :: 0 <= i < |name| && (name[i] == ' ' || name[i] == '/') ==> safe[i] == '_'
  {
    Replace(Replace(name, ' ', '_'), '/', '_')
  }

  // ------------------------------------------------------------------
  // A worked example

  /** One director "A" with five films, two dated buckets and an undated one. */
  function ExampleData(): Dataset
  {
    [("A", DirectorRecord(5, 8.2, [
      ("1990", DecadeStat(3, Some(8.0))),
      ("2000", DecadeStat(2, Some(8.5))),
      ("unknown", DecadeStat(1, None))]))]
  }

  /** The example's top-1 ranking is its one director. */
  lemma ExampleRanking()
    ensures Ranking(ExampleData())[..Min(1, |Qualifying(ExampleData())|)] == [DirectorRow("A", 5, 8.2)]
  {
  }

  /** The example's labels read as the integers they spell. */
  lemma ExampleLabels()
    ensures ParseInt("1990") == 1990 && ParseInt("2000") == 2000
  {
    assert "1990"[..3] == "199" && "199"[..2] == "19" && "19"[..1] == "1";
    assert DigitsValue("19") == 19;
    assert "2000"[..3] == "200" && "200"[..2] == "20" && "20"[..1] == "2";
    assert DigitsValue("20") == 20;
  }

  /** The example's timeline is the 1990 and the 2000 bucket, in that order, without the undated one. */
  lemma ExampleTimeline()
    ensures WellFormedDecades(ExampleData()[0].1.decades)
    ensures Timeline(ExampleData()[0].1.decades) == [DecadeRow("1990", 3, 8.0), DecadeRow("2000", 2, 8.5)]
  {
    var decades := ExampleData()[0].1.decades;
    ExampleLabels();
    var rows := [DecadeRow("1990", 3, 8.0), DecadeRow("2000", 2, 8.5)];
    assert AnalyzableDecades(decades) == rows by {
      assert !Analyzable(decades[2].0) && Analyzable(decades[0].0) && Analyzable(decades[1].0);
      assert decades[..2][..1] == decades[..1];
      assert decades[..1][..0] == [];
      assert AnalyzableDecades(decades[..1]) == [rows[0]];
      assert AnalyzableDecades(decades[..2]) == rows;
    }
    assert StableSort.SelectionSort(rows, DecadeValue) == rows by {
      assert StableSort.FirstMin(rows, DecadeValue) == 0;
      assert rows[..0] + rows[1..] == [rows[1]];
      assert StableSort.SelectionSort([rows[1]], DecadeValue) == [rows[1]];
    }
  }
}
