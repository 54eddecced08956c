/**
 * The ranking step of `recommend` in app.py:
 *   sorted(list(enumerate(distances)), reverse=True, key=lambda x: x[1])[1:100]
 * over one row of the similarity matrix. Only the positions matter afterwards,
 * so a ranking is a sequence of positions into the row.
 */
module Ranking {

  /** The slice `[1:100]`: the first ranked entry is dropped and at most the
      next 99 are kept. */
  const First: nat := 1
  const Stop: nat := 100

  function Min(a: int, b: int): int { if a <= b then a else b }

  /** Position `i` comes before position `j` in Python's stable sort by score
      with `reverse=True`: a higher score first, equal scores in ascending
      position. */
  predicate Precedes(row: seq<real>, i: nat, j: nat)
    requires i < |row| && j < |row|
  {
    row[i] > row[j] || (row[i] == row[j] && i < j)
  }

  predicate InRow(row: seq<real>, s: seq<nat>) {
    forall k :: 0 <= k < |s| ==> s[k] < |row|
  }

  /** Every earlier entry of `s` comes before every later one. */
  predicate IsRanked(row: seq<real>, s: seq<nat>)
    requires InRow(row, s)
  {
    forall a, b :: 0 <= a < b < |s| ==> Precedes(row, s[a], s[b])
  }

  /** The positions `0, 1, ..., n-1` that `enumerate` pairs the scores with. */
  function Positions(n: nat): (ps: seq<nat>)
    ensures |ps| == n
    ensures forall k :: 0 <= k < n ==> ps[k] == k
  {
    if n == 0 then [] else Positions(n - 1) + [n - 1]
  }

  /** Insert position `p` into a ranked sequence in front of the first entry
      it comes before. */
  function Insert(row: seq<real>, p: nat, s: seq<nat>): (r: seq<nat>)
    requires p < |row| && InRow(row, s)
    ensures InRow(row, r)
    ensures multiset(r) == multiset(s) + multiset{p}
  {
    if s == [] then [p]
    else if Precedes(row, p, s[0]) then [p] + s
    else
      assert s == [s[0]] + s[1..];
      [s[0]] + Insert(row, p, s[1..])
  }

  /** The first `n` positions of the row, in ranked order. */
  function RankFirst(row: seq<real>, n: nat): (r: seq<nat>)
    requires n <= |row|
    ensures InRow(row, r)
    ensures multiset(r) == multiset(Positions(n))
  {
    if n == 0 then [] else Insert(row, n - 1, RankFirst(row, n - 1))
  }

  /** `sorted(list(enumerate(row)), reverse=True, key=lambda x: x[1])`,
      keeping the positions. */
  function Ranked(row: seq<real>): (r: seq<nat>)
    ensures InRow(row, r)
    ensures |r| == |row|
  {
    var r := RankFirst(row, |row|);
    assert |r| == |multiset(r)| == |multiset(Positions(|row|))| == |row|;
    r
  }

  /** The positions `recommend` keeps: `Ranked(row)[1:100]`. */
  function Selected(row: seq<real>): (sel: seq<nat>)
    ensures InRow(row, sel)
    ensures |sel| < Stop
  {
    var rk := Ranked(row);
    if |rk| <= First then [] else rk[First..Min(Stop, |rk|)]
  }

  lemma {:induction false} InsertRanked(row: seq<real>, p: nat, s: seq<nat>)
    requires p < |row| && InRow(row, s)
    requires IsRanked(row, s) && p !in s
    ensures IsRanked(row, Insert(row, p, s))
  {
    if s != [] && !Precedes(row, p, s[0]) {
      assert s == [s[0]] + s[1..];
      InsertRanked(row, p, s[1..]);
      var r := Insert(row, p, s[1..]);
      forall x | x in r
        ensures Precedes(row, s[0], x)
      {
        assert x in multiset(r);
      }
    } else if s != [] {
      forall b | 0 <= b < |s|
        ensures Precedes(row, p, s[b])
      {
        if b > 0 {
          assert Precedes(row, s[0], s[b]);
        }
      }
    }
  }

  lemma InPositions(n: nat, x: nat)
    ensures x in multiset(Positions(n)) <==> x < n
  {
    if x < n {
      assert Positions(n)[x] == x;
    }
  }

  lemma {:induction false} RankFirstRanked(row: seq<real>, n: nat)
    requires n <= |row|
    ensures IsRanked(row, RankFirst(row, n))
  {
    if n > 0 {
      RankFirstRanked(row, n - 1);
      var s := RankFirst(row, n - 1);
      InPositions(n - 1, n - 1);
      assert n - 1 !in multiset(s);
      InsertRanked(row, n - 1, s);
    }
  }

  /** The ranking lists every position of the row exactly once, higher scores
      first and equal scores in ascending position. */
  lemma RankedIsSortedPermutation(row: seq<real>)
    ensures multiset(Ranked(row)) == multiset(Positions(|row|))
    ensures IsRanked(row, Ranked(row))
  {
    RankFirstRanked(row, |row|);
  }

  /** A ranked sequence names no position twice. */
  lemma RankedDistinct(row: seq<real>, s: seq<nat>)
    requires InRow(row, s) && IsRanked(row, s)
    ensures forall a, b :: 0 <= a < b < |s| ==> s[a] != s[b]
  {
  }

  /** The head of a ranked sequence comes before every other entry in it. */
  lemma RankedHeadFirst(row: seq<real>, s: seq<nat>, x: nat)
    requires InRow(row, s) && IsRanked(row, s)
    requires x in multiset(s)
    ensures s[0] == x || Precedes(row, s[0], x)
  {
    var k :| 0 <= k < |s| && s[k] == x;
  }

  lemma RankedTail(row: seq<real>, s: seq<nat>)
    requires InRow(row, s) && IsRanked(row, s) && s != []
    ensures InRow(row, s[1..]) && IsRanked(row, s[1..])
    ensures multiset(s[1..]) == multiset(s) - multiset{s[0]}
  {
    assert s == [s[0]] + s[1..];
  }

  /** There is only one way to rank a given set of positions, so `Ranked` is
      exactly the order Python's stable `sorted` produces. */
  lemma {:induction false} RankedUnique(row: seq<real>, a: seq<nat>, b: seq<nat>)
    requires InRow(row, a) && InRow(row, b)
    requires IsRanked(row, a) && IsRanked(row, b)
    requires multiset(a) == multiset(b)
    ensures a == b
  {
    if a != [] {
      assert |b| == |multiset(b)| == |multiset(a)| == |a|;
      RankedHeadFirst(row, a, b[0]);
      RankedHeadFirst(row, b, a[0]);
      assert a[0] == b[0];
      RankedTail(row, a);
      RankedTail(row, b);
      RankedUnique(row, a[1..], b[1..]);
    }
  }

  /** Any listing of all positions of the row with higher scores first and
      equal scores in ascending position, which is what Python's stable
      `sorted(..., reverse=True)` returns, is `Ranked(row)`. */
  lemma StableSortIsRanked(row: seq<real>, s: seq<nat>)
    requires InRow(row, s) && IsRanked(row, s)
    requires multiset(s) == multiset(Positions(|row|))
    ensures s == Ranked(row)
  {
    RankedIsSortedPermutation(row);
    RankedUnique(row, s, Ranked(row));
  }

  /** What `[1:100]` keeps of any ranking of the whole row. */
  lemma SelectedOfRanking(row: seq<real>, s: seq<nat>)
    requires InRow(row, s) && IsRanked(row, s)
    requires multiset(s) == multiset(Positions(|row|))
    ensures |s| == |row|
    ensures Selected(row) == if |s| <= First then [] else s[First..Min(Stop, |s|)]
  {
    StableSortIsRanked(row, s);
  }

  /** `[1:100]` keeps at most 99 entries and never more than all but one
      position of the row; exactly that many when the row is long enough. */
  lemma SelectedLength(row: seq<real>)
    ensures |Selected(row)| == if |row| == 0 then 0 else Min(Stop - First, |row| - First)
    ensures |Selected(row)| <= 99
    ensures |row| > 0 ==> |Selected(row)| <= |row| - 1
  {
  }

  /** The kept entries are the ranking with exactly its first entry dropped:
      a contiguous stretch starting at rank 1. */
  lemma SelectedIsRankSlice(row: seq<real>)
    ensures |row| > 0 ==> Selected(row) == Ranked(row)[1..1 + |Selected(row)|]
    ensures |row| > 0 ==> Ranked(row)[0] !in Selected(row)
  {
    RankedIsSortedPermutation(row);
    RankedDistinct(row, Ranked(row));
    var rk := Ranked(row);
    var sel := Selected(row);
    forall k | 0 <= k < |sel|
      ensures sel[k] == rk[1 + k] && sel[k] != rk[0]
    {
    }
  }

  /** The kept positions have non-increasing scores, equal scores in ascending
      position, and no position appears twice. */
  lemma SelectedOrder(row: seq<real>)
    ensures forall a, b :: 0 <= a < b < |Selected(row)| ==>
              row[Selected(row)[a]] >= row[Selected(row)[b]]
              && (row[Selected(row)[a]] == row[Selected(row)[b]] ==> Selected(row)[a] < Selected(row)[b])
    ensures forall a, b :: 0 <= a < b < |Selected(row)| ==> Selected(row)[a] != Selected(row)[b]
  {
    RankedIsSortedPermutation(row);
    var rk := Ranked(row);
    var sel := Selected(row);
    if |rk| > First {
      forall a, b | 0 <= a < b < |sel|
        ensures Precedes(row, sel[a], sel[b])
      {
        assert sel[a] == rk[First + a] && sel[b] == rk[First + b];
      }
    }
  }

  /** The rank at which a position of the row appears. */
  lemma RankOf(row: seq<real>, q: nat) returns (j: nat)
    requires q < |row|
    ensures j < |row| && Ranked(row)[j] == q
  {
    RankedIsSortedPermutation(row);
    InPositions(|row|, q);
    assert q in multiset(Ranked(row));
    j :| 0 <= j < |row| && Ranked(row)[j] == q;
  }

  lemma RankedAt(row: seq<real>, a: nat, b: nat)
    requires a < b < |row|
    ensures Precedes(row, Ranked(row)[a], Ranked(row)[b])
  {
    RankedIsSortedPermutation(row);
  }

  /** Top-99 selection: a position of the row that is neither the dropped
      first entry nor kept ranks after every kept one. */
  lemma SelectedBeatsRest(row: seq<real>, q: nat)
    requires q < |row|
    requires q != Ranked(row)[0] && q !in Selected(row)
    ensures forall k :: 0 <= k < |Selected(row)| ==> Precedes(row, Selected(row)[k], q)
  {
    var j := RankOf(row, q);
    SelectedIsRankSlice(row);
    var rk := Ranked(row);
    var sel := Selected(row);
    assert sel == rk[1..1 + |sel|];
    forall k | 0 <= k < |sel|
      ensures Precedes(row, sel[k], q)
    {
      RankedAt(row, 1 + k, j);
    }
  }

  /** A position whose score is strictly higher than every other score of the
      row is ranked first, and so it is the entry `[1:100]` drops. */
  lemma StrictTopDropped(row: seq<real>, q: nat)
    requires q < |row|
    requires forall j :: 0 <= j < |row| && j != q ==> row[q] > row[j]
    ensures Ranked(row)[0] == q
    ensures q !in Selected(row)
  {
    RankedIsSortedPermutation(row);
    SelectedIsRankSlice(row);
    var rk := Ranked(row);
    InPositions(|row|, q);
    assert q in multiset(rk);
    var j :| 0 <= j < |rk| && rk[j] == q;
    if j > 0 {
      assert false;
    }
  }

  /** A position that some other position comes before is not ranked first. */
  lemma OvertakenNotFirst(row: seq<real>, p: nat, j: nat)
    requires p < |row| && j < |row|
    requires Precedes(row, j, p)
    ensures Ranked(row)[0] != p
  {
    var i := RankOf(row, j);
    if i > 0 {
      RankedAt(row, 0, i);
    }
  }

  /** In a row of at most 100 entries `[1:100]` keeps every position except
      the first-ranked one, whichever position that is. */
  lemma SelectedAllButFirst(row: seq<real>, q: nat)
    requires q < |row| <= Stop
    ensures q in Selected(row) <==> q != Ranked(row)[0]
  {
    RankedIsSortedPermutation(row);
    RankedDistinct(row, Ranked(row));
    SelectedIsRankSlice(row);
    SelectedLength(row);
    var j := RankOf(row, q);
    if j > 0 {
      assert Selected(row)[j - 1] == q;
    }
  }

  /** `[1:100]` keeps a position exactly when its rank is one of 1 to 99:
      at least one and at most 99 positions come before it. */
  lemma SelectedKeptRanks(row: seq<real>, q: nat)
    requires q < |row|
    ensures q in Selected(row) <==> exists j :: First <= j < Min(Stop, |row|) && Ranked(row)[j] == q
  {
    SelectedIsRankSlice(row);
    SelectedLength(row);
    assert Selected(row) == Ranked(row)[First..Min(Stop, |row|)];
    InSlice(Ranked(row), First, Min(Stop, |row|), q);
  }

  lemma InSlice(s: seq<nat>, a: nat, b: nat, q: nat)
    requires a <= b <= |s|
    ensures q in s[a..b] <==> exists j :: a <= j < b && s[j] == q
  {
    if q in s[a..b] {
      var k :| 0 <= k < b - a && s[a..b][k] == q;
      assert s[a + k] == q;
    }
  }

  /** `s` with every occurrence of position `p` removed, the rest in order. */
  function WithoutPosition(s: seq<nat>, p: nat): (r: seq<nat>)
    ensures |r| <= |s|
    ensures forall x :: x in r <==> x in s && x != p
  {
    if s == [] then []
    else (if s[0] == p then [] else [s[0]]) + WithoutPosition(s[1..], p)
  }

  lemma {:induction false} WithoutAbsent(s: seq<nat>, p: nat)
    requires p !in s
    ensures WithoutPosition(s, p) == s
  {
    if s != [] {
      WithoutAbsent(s[1..], p);
      assert s == [s[0]] + s[1..];
    }
  }

  /** What `[1:100]` is evidently meant to do: leave out the query's own
      position `p` wherever it ranks, then keep at most 99 entries. */
  function SelectedExcept(row: seq<real>, p: nat): (sel: seq<nat>)
    ensures InRow(row, sel)
    ensures p !in sel
    ensures |sel| < Stop
  {
    var rest := WithoutPosition(Ranked(row), p);
    var sel := rest[..Min(Stop - First, |rest|)];
    assert forall k :: 0 <= k < |sel| ==> sel[k] in rest;
    sel
  }

  /** When the query's own position ranks first, the corrected selection keeps
      exactly what `[1:100]` keeps. */
  lemma SelectedExceptWhenFirst(row: seq<real>, p: nat)
    requires |row| > 0 && Ranked(row)[0] == p
    ensures SelectedExcept(row, p) == Selected(row)
  {
    HeadNotInTail(row);
    DropHeadSlice(Ranked(row), p);
  }

  lemma DropHeadSlice(rk: seq<nat>, p: nat)
    requires rk != [] && rk[0] == p && p !in rk[1..]
    ensures var rest := WithoutPosition(rk, p);
            rest[..Min(Stop - First, |rest|)] == if |rk| <= First then [] else rk[First..Min(Stop, |rk|)]
  {
    WithoutAbsent(rk[1..], p);
    WithoutHead(rk, p);
  }

  lemma HeadNotInTail(row: seq<real>)
    requires |row| > 0
    ensures Ranked(row)[0] !in Ranked(row)[1..]
  {
    RankedIsSortedPermutation(row);
    RankedDistinct(row, Ranked(row));
  }

  lemma WithoutHead(s: seq<nat>, p: nat)
    requires s != [] && s[0] == p
    ensures WithoutPosition(s, p) == WithoutPosition(s[1..], p)
  {
  }

  /** Removing a position that occurs once shortens a sequence without
      repetitions by one; removing an absent one changes nothing. */
  lemma {:induction false} WithoutLength(s: seq<nat>, p: nat)
    requires forall a, b :: 0 <= a < b < |s| ==> s[a] != s[b]
    ensures |WithoutPosition(s, p)| == if p in s then |s| - 1 else |s|
  {
    if s != [] {
      if s[0] == p {
        assert p !in s[1..];
        WithoutAbsent(s[1..], p);
        WithoutHead(s, p);
      } else {
        WithoutLength(s[1..], p);
        assert s == [s[0]] + s[1..];
      }
    }
  }

  /** Removing a position from a ranked sequence leaves it ranked. */
  lemma {:induction false} WithoutRanked(row: seq<real>, s: seq<nat>, p: nat)
    requires InRow(row, s) && IsRanked(row, s)
    ensures InRow(row, WithoutPosition(s, p)) && IsRanked(row, WithoutPosition(s, p))
  {
    if s != [] {
      RankedTail(row, s);
      WithoutRanked(row, s[1..], p);
      var t := WithoutPosition(s[1..], p);
      forall x | x in t
        ensures x < |row| && Precedes(row, s[0], x)
      {
        var k :| 0 <= k < |s[1..]| && s[1..][k] == x;
        assert x == s[k + 1];
      }
    }
  }

  /** The corrected selection keeps min(99, N-1) positions of an N-entry row
      that contains the query's own position. */
  lemma SelectedExceptLength(row: seq<real>, p: nat)
    requires p < |row|
    ensures |SelectedExcept(row, p)| == Min(Stop - First, |row| - 1)
  {
    RankedIsSortedPermutation(row);
    RankedDistinct(row, Ranked(row));
    var j := RankOf(row, p);
    assert p in Ranked(row);
    WithoutLength(Ranked(row), p);
  }

  /** The corrected selection is in ranked order: scores non-increasing,
      equal scores in ascending position, and no position twice. */
  lemma SelectedExceptOrder(row: seq<real>, p: nat)
    ensures IsRanked(row, SelectedExcept(row, p))
    ensures forall a, b :: 0 <= a < b < |SelectedExcept(row, p)| ==>
              SelectedExcept(row, p)[a] != SelectedExcept(row, p)[b]
  {
    RankedIsSortedPermutation(row);
    WithoutRanked(row, Ranked(row), p);
    var rest := WithoutPosition(Ranked(row), p);
    var sel := SelectedExcept(row, p);
    assert sel == rest[..|sel|];
    forall a, b | 0 <= a < b < |sel|
      ensures Precedes(row, sel[a], sel[b])
    {
      assert sel[a] == rest[a] && sel[b] == rest[b];
    }
    RankedDistinct(row, sel);
  }

  /** Top-99 selection for the corrected slice: a position other than the
      query's own that is not kept ranks after every kept position. */
  lemma SelectedExceptBeatsRest(row: seq<real>, p: nat, q: nat)
    requires q < |row| && q != p && q !in SelectedExcept(row, p)
    ensures forall k :: 0 <= k < |SelectedExcept(row, p)| ==>
              Precedes(row, SelectedExcept(row, p)[k], q)
  {
    var i := RankOf(row, q);
    RankedIsSortedPermutation(row);
    WithoutRanked(row, Ranked(row), p);
    var rest := WithoutPosition(Ranked(row), p);
    assert q in Ranked(row);
    assert q in rest;
    var j :| 0 <= j < |rest| && rest[j] == q;
    var sel := SelectedExcept(row, p);
    assert sel == rest[..|sel|];
    forall k | 0 <= k < |sel|
      ensures rest[k] != q
    {
      assert sel[k] == rest[k];
    }
    forall k | 0 <= k < |sel|
      ensures Precedes(row, sel[k], q)
    {
      assert sel[k] == rest[k];
    }
  }

  // Worked examples: the rankings of a few small rows, used by the
  // concrete cases of `recommend`.

  lemma PermutesThree(order: seq<nat>)
    requires order == [2, 1, 0] || order == [1, 2, 0]
    ensures multiset(order) == multiset(Positions(3))
  {
    assert Positions(3) == [0, 1, 2];
  }

  lemma RisingRanked(row: seq<real>, order: seq<nat>)
    requires |row| == 3 && row[0] < row[1] < row[2] && order == [2, 1, 0]
    ensures InRow(row, order) && IsRanked(row, order)
  {
  }

  lemma PeakMiddleRanked(row: seq<real>, order: seq<nat>)
    requires |row| == 3 && row[0] < row[2] < row[1] && order == [1, 2, 0]
    ensures InRow(row, order) && IsRanked(row, order)
  {
  }

  /** In a three-entry row rising from left to right, ranks 1 and 2 are
      positions 1 and 0. */
  lemma RankRising(row: seq<real>)
    requires |row| == 3 && row[0] < row[1] < row[2]
    ensures Selected(row) == [1, 0]
  {
    var order: seq<nat> := [2, 1, 0];
    RisingRanked(row, order);
    PermutesThree(order);
    SelectedOfRanking(row, order);
    assert Selected(row) == order[1..3];
  }

  /** In a three-entry row peaking in the middle with the last entry above
      the first, ranks 1 and 2 are positions 2 and 0. */
  lemma RankPeakMiddle(row: seq<real>)
    requires |row| == 3 && row[0] < row[2] < row[1]
    ensures Selected(row) == [2, 0]
  {
    var order: seq<nat> := [1, 2, 0];
    PeakMiddleRanked(row, order);
    PermutesThree(order);
    SelectedOfRanking(row, order);
    assert Selected(row) == order[1..3];
  }

  /** In a two-entry row rising from left to right, rank 1 is position 0. */
  lemma RankRisingPair(row: seq<real>)
    requires |row| == 2 && row[0] < row[1]
    ensures Selected(row) == [0]
  {
    var order: seq<nat> := [1, 0];
    assert InRow(row, order) && IsRanked(row, order);
    assert multiset(order) == multiset(Positions(2)) by {
      assert Positions(2) == [0, 1];
    }
    SelectedOfRanking(row, order);
    assert Selected(row) == order[1..2];
  }

  /** In a three-entry row whose scores are all equal, the ranking keeps the
      positions in order. */
  lemma RankFlat(row: seq<real>)
    requires |row| == 3 && row[0] == row[1] == row[2]
    ensures Ranked(row) == [0, 1, 2]
  {
    var order: seq<nat> := [0, 1, 2];
    assert InRow(row, order) && IsRanked(row, order);
    assert Positions(3) == order;
    StableSortIsRanked(row, order);
  }

  lemma FlatSelected(row: seq<real>)
    requires |row| == 3 && row[0] == row[1] == row[2]
    ensures Selected(row) == [1, 2]
  {
    RankFlat(row);
    assert Ranked(row)[1..3] == [1, 2];
  }

  lemma DropMiddle(rk: seq<nat>)
    requires rk == [0, 1, 2]
    ensures WithoutPosition(rk, 1) == [0, 2]
  {
    assert rk[1..] == [1, 2] && rk[1..][1..] == [2];
    WithoutAbsent([2], 1);
    WithoutHead(rk[1..], 1);
  }

  lemma FlatSelectedExcept(row: seq<real>)
    requires |row| == 3 && row[0] == row[1] == row[2]
    ensures SelectedExcept(row, 1) == [0, 2]
  {
    RankFlat(row);
    DropMiddle(Ranked(row));
    var rest := WithoutPosition(Ranked(row), 1);
    assert rest[..Min(Stop - First, |rest|)] == [0, 2];
  }
}
