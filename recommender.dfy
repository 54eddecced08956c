/**
 * `recommend(anime)` of app.py: look the title up by exact `Name`, read its
 * row of the precomputed similarity matrix, rank that row and return the
 * names of ranks 1 to 99; any `IndexError` on the way gives the empty list.
 *
 * The data frame is a sequence of rows, each with its index label and its
 * `Name`. After `dropna` the labels keep the numbers of the CSV rows, so they
 * increase but can have gaps, while the similarity matrix is indexed by
 * position.
 */
module Recommender {
  import opened Ranking

  datatype Option<T> = None | Some(value: T)

  /** One row of `new_anime_df`: its index label and its `Name`. */
  datatype Row = Row(indexLabel: nat, name: string)

  function Names(rows: seq<Row>): seq<string> {
    seq(|rows|, i requires 0 <= i < |rows| => rows[i].name)
  }

  /** Index labels as `dropna` leaves them: strictly increasing. */
  predicate DropnaLabels(rows: seq<Row>) {
    forall i, j :: 0 <= i < j < |rows| ==> rows[i].indexLabel < rows[j].indexLabel
  }

  /** No two rows have the same `Name`. */
  predicate DistinctNames(rows: seq<Row>) {
    forall i, j :: 0 <= i < j < |rows| ==> rows[i].name != rows[j].name
  }

  /** Position `p` holds the first row, in data-frame order, named `query`. */
  predicate FirstMatch(names: seq<string>, query: string, p: nat) {
    p < |names| && names[p] == query && forall j :: 0 <= j < p ==> names[j] != query
  }

  /** The position of the first row of `new_anime_df[new_anime_df["Name"] == anime]`,
      or `None` when that selection is empty and `.index[0]` raises `IndexError`. */
  function FindFirst(names: seq<string>, query: string): (r: Option<nat>)
    ensures r.None? <==> query !in names
    ensures r.Some? ==> FirstMatch(names, query, r.value)
  {
    if names == [] then None
    else if names[0] == query then Some(0)
    else match FindFirst(names[1..], query)
      case None => None
      case Some(i) => Some(i + 1)
  }

  /** `[new_anime_df.iloc[i].Name for i in ps]`: positional; a position past
      the last row raises `IndexError`, which `recommend` turns into `[]`. */
  function NamesAt(names: seq<string>, ps: seq<nat>): (r: seq<string>)
    ensures (forall k :: 0 <= k < |ps| ==> ps[k] < |names|) ==> |r| == |ps|
    ensures (exists k :: 0 <= k < |ps| && ps[k] >= |names|) ==> r == []
    ensures forall k :: 0 <= k < |r| ==> ps[k] < |names| && r[k] == names[ps[k]]
  {
    if forall k :: 0 <= k < |ps| ==> ps[k] < |names|
    then seq(|ps|, k requires 0 <= k < |ps| => names[ps[k]])
    else []
  }

  /** `recommend(anime)` as app.py writes it: the label found by `.index[0]`
      is used as a row position of `similarity`. */
  function Recommend(rows: seq<Row>, sim: seq<seq<real>>, query: string): (r: seq<string>)
    ensures |r| <= 99
    ensures query !in Names(rows) ==> r == []
  {
    match FindFirst(Names(rows), query)
    case None => []
    case Some(p) =>
      var lab := rows[p].indexLabel;
      if lab < |sim| then NamesAt(Names(rows), Selected(sim[lab])) else []
  }

  /** The data frame with its index reset to positions (`reset_index(drop=True)`). */
  function ResetIndex(rows: seq<Row>): (r: seq<Row>)
    ensures |r| == |rows|
    ensures forall i :: 0 <= i < |r| ==> r[i].indexLabel == i && r[i].name == rows[i].name
    ensures Names(r) == Names(rows)
    ensures DropnaLabels(r)
  {
    seq(|rows|, i requires 0 <= i < |rows| => Row(i, rows[i].name))
  }

  /** `recommend` as evidently intended: the similarity row of the query's own
      position is used. */
  function RecommendByPosition(rows: seq<Row>, sim: seq<seq<real>>, query: string): (r: seq<string>)
    ensures |r| <= 99
    ensures query !in Names(rows) ==> r == []
  {
    assert Names(ResetIndex(rows)) == Names(rows);
    Recommend(ResetIndex(rows), sim, query)
  }

  /** Lookup resolves to the first row named `query`; a label that is not a
      row of the matrix gives `[]`, otherwise the names at the kept ranks of
      that row. */
  lemma RecommendLooksUpFirstMatch(rows: seq<Row>, sim: seq<seq<real>>, query: string, p: nat)
    requires FirstMatch(Names(rows), query, p)
    ensures rows[p].indexLabel >= |sim| ==> Recommend(rows, sim, query) == []
    ensures rows[p].indexLabel < |sim| ==>
              Recommend(rows, sim, query) == NamesAt(Names(rows), Selected(sim[rows[p].indexLabel]))
  {
    var r := FindFirst(Names(rows), query);
    assert query in Names(rows);
    assert r.value == p;
  }

  /** The corrected lookup reads the similarity row at the query's own
      position. */
  lemma RecommendByPositionLooksUp(rows: seq<Row>, sim: seq<seq<real>>, query: string, p: nat)
    requires FirstMatch(Names(rows), query, p)
    ensures p >= |sim| ==> RecommendByPosition(rows, sim, query) == []
    ensures p < |sim| ==>
              RecommendByPosition(rows, sim, query) == NamesAt(Names(rows), Selected(sim[p]))
  {
    var reset := ResetIndex(rows);
    assert Names(reset) == Names(rows);
    RecommendLooksUpFirstMatch(reset, sim, query, p);
  }

  /** The list has at most 99 names and fewer names than the consulted
      similarity row has entries. */
  lemma RecommendLength(rows: seq<Row>, sim: seq<seq<real>>, query: string, p: nat)
    requires FirstMatch(Names(rows), query, p) && rows[p].indexLabel < |sim|
    ensures |Recommend(rows, sim, query)| <= 99
    ensures Recommend(rows, sim, query) == []
            || |Recommend(rows, sim, query)| < |sim[rows[p].indexLabel]|
  {
    RecommendLooksUpFirstMatch(rows, sim, query, p);
    SelectedLength(sim[rows[p].indexLabel]);
  }

  /** Over a square similarity matrix built from the same data frame, the
      corrected `recommend` returns exactly min(99, N-1) names, those of the
      kept ranks of the query's own row, in rank order. */
  lemma RecommendByPositionRanks(rows: seq<Row>, sim: seq<seq<real>>, query: string, p: nat)
    requires FirstMatch(Names(rows), query, p)
    requires |sim| == |rows| && |sim[p]| == |rows|
    ensures |RecommendByPosition(rows, sim, query)| == Min(99, |rows| - 1)
    ensures |RecommendByPosition(rows, sim, query)| == |Selected(sim[p])|
    ensures forall k :: 0 <= k < |Selected(sim[p])| ==>
              RecommendByPosition(rows, sim, query)[k] == rows[Selected(sim[p])[k]].name
  {
    RecommendByPositionLooksUp(rows, sim, query, p);
    SelectedLength(sim[p]);
  }

  /** When, in the similarity row the code reads, the query's own position
      scores strictly higher than every other position, and titles are
      unique, the query is not among its recommendations. */
  lemma RecommendExcludesQuery(rows: seq<Row>, sim: seq<seq<real>>, query: string, p: nat)
    requires FirstMatch(Names(rows), query, p)
    requires rows[p].indexLabel < |sim| && p < |sim[rows[p].indexLabel]|
    requires forall j :: 0 <= j < |sim[rows[p].indexLabel]| && j != p ==>
               sim[rows[p].indexLabel][p] > sim[rows[p].indexLabel][j]
    requires DistinctNames(rows)
    ensures query !in Recommend(rows, sim, query)
  {
    var row := sim[rows[p].indexLabel];
    RecommendLooksUpFirstMatch(rows, sim, query, p);
    StrictTopDropped(row, p);
    var sel := Selected(row);
    var r := Recommend(rows, sim, query);
    forall k | 0 <= k < |r|
      ensures r[k] != query
    {
      assert sel[k] != p;
    }
  }

  /** When the query's own similarity is strictly its row's highest score and
      titles are unique, the corrected `recommend` never returns the query. */
  lemma RecommendByPositionExcludesQuery(rows: seq<Row>, sim: seq<seq<real>>, query: string, p: nat)
    requires FirstMatch(Names(rows), query, p)
    requires |sim| == |rows| && |sim[p]| == |rows|
    requires forall j :: 0 <= j < |rows| && j != p ==> sim[p][p] > sim[p][j]
    requires DistinctNames(rows)
    ensures query !in RecommendByPosition(rows, sim, query)
  {
    RecommendByPositionRanks(rows, sim, query, p);
    StrictTopDropped(sim[p], p);
    var sel := Selected(sim[p]);
    var r := RecommendByPosition(rows, sim, query);
    forall k | 0 <= k < |r|
      ensures r[k] != query
    {
      assert sel[k] != p;
    }
  }

  /** With no rows dropped the labels are the positions and the code as
      written agrees with the corrected one. */
  lemma NoGapsAgree(rows: seq<Row>, sim: seq<seq<real>>, query: string)
    requires forall i :: 0 <= i < |rows| ==> rows[i].indexLabel == i
    ensures Recommend(rows, sim, query) == RecommendByPosition(rows, sim, query)
  {
    assert ResetIndex(rows) == rows;
  }

  /** After `dropna` a row's label is never below its position, so the code as
      written reads the query's own matrix row or a later one. */
  lemma {:induction false} LabelNotBelowPosition(rows: seq<Row>, p: nat)
    requires DropnaLabels(rows) && p < |rows|
    ensures rows[p].indexLabel >= p
  {
    if p > 0 {
      LabelNotBelowPosition(rows, p - 1);
    }
  }

  /** CSV row 1 was dropped: "Bleach" keeps label 2 in a two-row frame, so
      `similarity[2]` raises `IndexError` and the title gets no
      recommendations, although the corrected lookup finds one. */
  lemma GapRaisesIndexError(rows: seq<Row>, sim: seq<seq<real>>)
    requires rows == [Row(0, "Naruto"), Row(2, "Bleach")]
    requires sim == [[1.0, 0.5], [0.5, 1.0]]
    ensures Recommend(rows, sim, "Bleach") == []
    ensures RecommendByPosition(rows, sim, "Bleach") == ["Naruto"]
  {
    assert FirstMatch(Names(rows), "Bleach", 1);
    RecommendLooksUpFirstMatch(rows, sim, "Bleach", 1);
    RankRisingPair(sim[1]);
    RecommendByPositionLooksUp(rows, sim, "Bleach", 1);
  }

  lemma NamesAtPair(names: seq<string>, a: nat, b: nat)
    requires a < |names| && b < |names|
    ensures NamesAt(names, [a, b]) == [names[a], names[b]]
  {
  }

  /** CSV row 1 was dropped: "B" has label 2 and position 1, so the row of
      "C" is ranked and "B" is recommended for itself. */
  lemma GapReadsWrongRow(rows: seq<Row>, sim: seq<seq<real>>)
    requires rows == [Row(0, "A"), Row(2, "B"), Row(3, "C")]
    requires sim == [[1.0, 0.2, 0.1], [0.2, 1.0, 0.5], [0.1, 0.5, 1.0]]
    ensures Recommend(rows, sim, "B") == ["B", "A"]
  {
    var names := Names(rows);
    assert names == ["A", "B", "C"];
    assert FirstMatch(names, "B", 1);
    assert rows[1].indexLabel == 2;
    RankRising(sim[2]);
    RecommendLooksUpFirstMatch(rows, sim, "B", 1);
    NamesAtPair(names, 1, 0);
  }

  /** On the same frame the corrected lookup ranks the row of "B" itself. */
  lemma GapCorrectedReadsOwnRow(rows: seq<Row>, sim: seq<seq<real>>)
    requires rows == [Row(0, "A"), Row(2, "B"), Row(3, "C")]
    requires sim == [[1.0, 0.2, 0.1], [0.2, 1.0, 0.5], [0.1, 0.5, 1.0]]
    ensures RecommendByPosition(rows, sim, "B") == ["C", "A"]
  {
    var names := Names(rows);
    assert names == ["A", "B", "C"];
    assert FirstMatch(names, "B", 1);
    RankPeakMiddle(sim[1]);
    RecommendByPositionLooksUp(rows, sim, "B", 1);
    NamesAtPair(names, 2, 0);
  }

  /** With unique titles the query is among its own recommendations exactly
      when its own position has rank 1 to 99 in the similarity row read. */
  lemma RecommendReturnsQueryAtKeptRank(rows: seq<Row>, sim: seq<seq<real>>, query: string, p: nat)
    requires FirstMatch(Names(rows), query, p)
    requires rows[p].indexLabel < |sim|
    requires p < |sim[rows[p].indexLabel]| <= |rows|
    requires DistinctNames(rows)
    ensures query in Recommend(rows, sim, query) <==>
              exists j :: 1 <= j < Min(Stop, |sim[rows[p].indexLabel]|)
                          && Ranked(sim[rows[p].indexLabel])[j] == p
  {
    var row := sim[rows[p].indexLabel];
    RecommendLooksUpFirstMatch(rows, sim, query, p);
    SelectedKeptRanks(row, p);
    NameInNamesAt(Names(rows), Selected(row), p);
  }

  /** In a similarity row of at most 100 entries, with unique titles, the
      query is among its own recommendations exactly when its own position is
      not ranked first. */
  lemma RecommendReturnsQueryUnlessFirst(rows: seq<Row>, sim: seq<seq<real>>, query: string, p: nat)
    requires FirstMatch(Names(rows), query, p)
    requires rows[p].indexLabel < |sim|
    requires p < |sim[rows[p].indexLabel]| <= |rows| && |sim[rows[p].indexLabel]| <= Stop
    requires DistinctNames(rows)
    ensures query in Recommend(rows, sim, query) <==> Ranked(sim[rows[p].indexLabel])[0] != p
  {
    var row := sim[rows[p].indexLabel];
    RecommendLooksUpFirstMatch(rows, sim, query, p);
    SelectedAllButFirst(row, p);
    NameInNamesAt(Names(rows), Selected(row), p);
  }

  /** With distinct names, the name at position `p` is among the names at
      positions `ps` exactly when `p` is among `ps`. */
  lemma NameInNamesAt(names: seq<string>, ps: seq<nat>, p: nat)
    requires p < |names|
    requires forall k :: 0 <= k < |ps| ==> ps[k] < |names|
    requires forall i, j :: 0 <= i < j < |names| ==> names[i] != names[j]
    ensures names[p] in NamesAt(names, ps) <==> p in ps
  {
    var r := NamesAt(names, ps);
    if p in ps {
      var k :| 0 <= k < |ps| && ps[k] == p;
      assert r[k] == names[p];
    }
    if names[p] in r {
      var k :| 0 <= k < |r| && r[k] == names[p];
      assert ps[k] == p;
    }
  }

  /** When another position comes before the query's own in the row read
      (a higher score, or an equal score at an earlier position) and the row
      has at most 100 entries, the query is recommended for itself. */
  lemma RecommendTieReturnsQuery(rows: seq<Row>, sim: seq<seq<real>>, query: string, p: nat, j: nat)
    requires FirstMatch(Names(rows), query, p)
    requires rows[p].indexLabel < |sim|
    requires p < |sim[rows[p].indexLabel]| <= |rows| && |sim[rows[p].indexLabel]| <= Stop
    requires j < |sim[rows[p].indexLabel]| && Precedes(sim[rows[p].indexLabel], j, p)
    requires DistinctNames(rows)
    ensures query in Recommend(rows, sim, query)
  {
    OvertakenNotFirst(sim[rows[p].indexLabel], p, j);
    RecommendReturnsQueryUnlessFirst(rows, sim, query, p);
  }

  /** `recommend` as evidently intended on both counts: the similarity row at
      the query's own position, with that position left out wherever it
      ranks. */
  function RecommendExcludingSelf(rows: seq<Row>, sim: seq<seq<real>>, query: string): (r: seq<string>)
    ensures |r| <= 99
    ensures query !in Names(rows) ==> r == []
  {
    match FindFirst(Names(rows), query)
    case None => []
    case Some(p) => if p < |sim| then NamesAt(Names(rows), SelectedExcept(sim[p], p)) else []
  }

  /** With unique titles the corrected `recommend` never returns the query,
      whatever the scores. */
  lemma RecommendExcludingSelfNeverQuery(rows: seq<Row>, sim: seq<seq<real>>, query: string)
    requires DistinctNames(rows)
    ensures query !in RecommendExcludingSelf(rows, sim, query)
  {
    var names := Names(rows);
    var r := RecommendExcludingSelf(rows, sim, query);
    var f := FindFirst(names, query);
    if f.Some? && f.value < |sim| {
      var p := f.value;
      var sel := SelectedExcept(sim[p], p);
      assert r == NamesAt(names, sel);
      forall k | 0 <= k < |r|
        ensures r[k] != query
      {
        assert sel[k] != p;
      }
    }
  }

  /** Where the query's own position ranks first, the corrected `recommend`
      returns what the reset-index lookup returns. */
  lemma RecommendExcludingSelfAgrees(rows: seq<Row>, sim: seq<seq<real>>, query: string, p: nat)
    requires FirstMatch(Names(rows), query, p)
    requires p < |sim| && 0 < |sim[p]| && Ranked(sim[p])[0] == p
    ensures RecommendExcludingSelf(rows, sim, query) == RecommendByPosition(rows, sim, query)
  {
    assert FindFirst(Names(rows), query) == Some(p);
    SelectedExceptWhenFirst(sim[p], p);
    RecommendByPositionLooksUp(rows, sim, query, p);
  }

  /** Over a square similarity matrix built from the same data frame, the
      corrected `recommend` returns exactly min(99, N-1) names: those of the
      positions of the corrected selection, in rank order. */
  lemma RecommendExcludingSelfRanks(rows: seq<Row>, sim: seq<seq<real>>, query: string, p: nat)
    requires FirstMatch(Names(rows), query, p)
    requires |sim| == |rows| && |sim[p]| == |rows|
    ensures |RecommendExcludingSelf(rows, sim, query)| == Min(99, |rows| - 1)
    ensures |RecommendExcludingSelf(rows, sim, query)| == |SelectedExcept(sim[p], p)|
    ensures forall k :: 0 <= k < |SelectedExcept(sim[p], p)| ==>
              RecommendExcludingSelf(rows, sim, query)[k] == rows[SelectedExcept(sim[p], p)[k]].name
  {
    assert FindFirst(Names(rows), query) == Some(p);
    SelectedExceptLength(sim[p], p);
  }

  /** "B" has no term of the vocabulary, so its similarity row is all zeros:
      every title ties, position 0 ranks first and is dropped, and "B" is
      recommended for itself. Leaving out the query's own position instead
      returns the other two titles. */
  lemma ZeroRowReturnsQuery(rows: seq<Row>, sim: seq<seq<real>>)
    requires rows == [Row(0, "A"), Row(1, "B"), Row(2, "C")]
    requires |sim| == 3 && sim[1] == [0.0, 0.0, 0.0]
    ensures Recommend(rows, sim, "B") == ["B", "C"]
    ensures RecommendExcludingSelf(rows, sim, "B") == ["A", "C"]
  {
    var names := Names(rows);
    assert names == ["A", "B", "C"];
    assert FirstMatch(names, "B", 1);
    assert FindFirst(names, "B") == Some(1);
    FlatSelected(sim[1]);
    FlatSelectedExcept(sim[1]);
    RecommendLooksUpFirstMatch(rows, sim, "B", 1);
    NamesAtPair(names, 1, 2);
    NamesAtPair(names, 0, 2);
  }
}
