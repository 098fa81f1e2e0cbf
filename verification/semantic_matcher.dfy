/**
 * find_semantic_matches: every revised clause, in order, takes the original clause its row of
 * the similarity matrix scores highest (the first one on a tie). At or above the threshold the
 * two are a matched pair and that original is consumed; below it the revised clause is added.
 * Originals never consumed are deleted. The mapping is many-to-one: nothing stops two revised
 * clauses from taking the same original.
 */
module SemanticMatcher {
  import opened Base

  datatype MatchedPair = MatchedPair(
    originalText: string,
    revisedText: string,
    similarity: real,
    originalIndex: nat,
    revisedIndex: nat)

  datatype MatchResult = MatchResult(
    matchedPairs: seq<MatchedPair>,
    addedClauses: seq<string>,
    deletedClauses: seq<string>)

  /** The threshold compare_documents uses (the default of find_semantic_matches). */
  const DefaultThreshold: real := 0.75

  /**
   * The matrix has one row per revised clause and one column per original clause
   * (sim[r][o] is the cosine similarity of revised r and original o). numpy's argmax raises on
   * an empty row, so there must be at least one original clause.
   */
  predicate WellShaped(original: seq<string>, revised: seq<string>, sim: seq<seq<real>>) {
    && |original| > 0
    && |sim| == |revised|
    && forall r :: 0 <= r < |sim| ==> |sim[r]| == |original|
  }

  /** numpy.argmax of a row: the first position where the row attains its maximum. */
  function ArgMax(row: seq<real>): (k: nat)
    requires |row| > 0
    ensures k < |row|
    ensures forall j :: 0 <= j < |row| ==> row[j] <= row[k]
    ensures forall j :: 0 <= j < k ==> row[j] < row[k]
  {
    if |row| == 1 then 0
    else
      var k := ArgMax(row[..|row| - 1]);
      if row[|row| - 1] > row[k] then |row| - 1 else k
  }

  /** The revised clause of row r has a best score at or above the threshold. */
  predicate RowMatches(sim: seq<seq<real>>, r: nat, threshold: real)
    requires r < |sim| && |sim[r]| > 0
  {
    sim[r][ArgMax(sim[r])] >= threshold
  }

  /** The pair recorded for row r when it matches. */
  function PairOf(original: seq<string>, revised: seq<string>, sim: seq<seq<real>>, r: nat): MatchedPair
    requires WellShaped(original, revised, sim) && r < |revised|
  {
    var o := ArgMax(sim[r]);
    MatchedPair(original[o], revised[r], sim[r][o], o, r)
  }

  /** The matched pairs after the first n revised clauses. */
  function MatchedUpTo(original: seq<string>, revised: seq<string>, sim: seq<seq<real>>, threshold: real, n: nat): seq<MatchedPair>
    requires WellShaped(original, revised, sim) && n <= |revised|
  {
    if n == 0 then []
    else
      MatchedUpTo(original, revised, sim, threshold, n - 1)
      + (if RowMatches(sim, n - 1, threshold) then [PairOf(original, revised, sim, n - 1)] else [])
  }

  /** The added clauses after the first n revised clauses. */
  function AddedUpTo(original: seq<string>, revised: seq<string>, sim: seq<seq<real>>, threshold: real, n: nat): seq<string>
    requires WellShaped(original, revised, sim) && n <= |revised|
  {
    if n == 0 then []
    else
      AddedUpTo(original, revised, sim, threshold, n - 1)
      + (if RowMatches(sim, n - 1, threshold) then [] else [revised[n - 1]])
  }

  /** The original indices consumed by the first n revised clauses. */
  function ConsumedUpTo(original: seq<string>, revised: seq<string>, sim: seq<seq<real>>, threshold: real, n: nat): set<nat>
    requires WellShaped(original, revised, sim) && n <= |revised|
  {
    if n == 0 then {}
    else
      ConsumedUpTo(original, revised, sim, threshold, n - 1)
      + (if RowMatches(sim, n - 1, threshold) then {ArgMax(sim[n - 1])} else {})
  }

  /** The deleted-clauses comprehension over range(n): originals whose index was not consumed. */
  function Unconsumed(original: seq<string>, consumed: set<nat>, n: nat): seq<string>
    requires n <= |original|
  {
    if n == 0 then []
    else Unconsumed(original, consumed, n - 1) + (if n - 1 in consumed then [] else [original[n - 1]])
  }

  /** What find_semantic_matches returns. */
  function Match(original: seq<string>, revised: seq<string>, sim: seq<seq<real>>, threshold: real): MatchResult
    requires WellShaped(original, revised, sim)
  {
    var n := |revised|;
    MatchResult(
      MatchedUpTo(original, revised, sim, threshold, n),
      AddedUpTo(original, revised, sim, threshold, n),
      Unconsumed(original, ConsumedUpTo(original, revised, sim, threshold, n), |original|))
  }

  /** Python's find_semantic_matches, with the cosine-similarity matrix given. */
  method FindSemanticMatches(original: seq<string>, revised: seq<string>, sim: seq<seq<real>>, threshold: real)
    returns (result: MatchResult)
    requires WellShaped(original, revised, sim)
    ensures result == Match(original, revised, sim, threshold)
  {
    var matched: seq<MatchedPair> := [];
    var added: seq<string> := [];
    var consumed: set<nat> := {};
    var r := 0;
    while r < |revised|
      invariant 0 <= r <= |revised|
      invariant matched == MatchedUpTo(original, revised, sim, threshold, r)
      invariant added == AddedUpTo(original, revised, sim, threshold, r)
      invariant consumed == ConsumedUpTo(original, revised, sim, threshold, r)
    {
      var row := sim[r];
      var best := ArgMax(row);
      var bestSimilarity := row[best];
      if bestSimilarity >= threshold {
        matched := matched + [MatchedPair(original[best], revised[r], bestSimilarity, best, r)];
        consumed := consumed + {best};
      } else {
        added := added + [revised[r]];
      }
      r := r + 1;
    }
    result := MatchResult(matched, added, Unconsumed(original, consumed, |original|));
  }

  // ----- positions: which rows match, which are added, which originals are deleted -----

  /** The revised positions among the first n whose row matches, in order. */
  function MatchedRows(sim: seq<seq<real>>, threshold: real, n: nat): seq<nat>
    requires n <= |sim| && forall r :: 0 <= r < |sim| ==> |sim[r]| > 0
  {
    if n == 0 then []
    else MatchedRows(sim, threshold, n - 1) + (if RowMatches(sim, n - 1, threshold) then [n - 1] else [])
  }

  /** The revised positions among the first n whose row does not match, in order. */
  function AddedRows(sim: seq<seq<real>>, threshold: real, n: nat): seq<nat>
    requires n <= |sim| && forall r :: 0 <= r < |sim| ==> |sim[r]| > 0
  {
    if n == 0 then []
    else AddedRows(sim, threshold, n - 1) + (if RowMatches(sim, n - 1, threshold) then [] else [n - 1])
  }

  /** The original positions below n that were not consumed, in order. */
  function DeletedIndices(consumed: set<nat>, n: nat): seq<nat>
  {
    if n == 0 then []
    else DeletedIndices(consumed, n - 1) + (if n - 1 in consumed then [] else [n - 1])
  }

  lemma {:induction false} MatchedRowsSpec(sim: seq<seq<real>>, threshold: real, n: nat)
    requires n <= |sim| && forall r :: 0 <= r < |sim| ==> |sim[r]| > 0
    ensures var ms := MatchedRows(sim, threshold, n);
      && StrictlyIncreasing(ms)
      && (forall k :: 0 <= k < |ms| ==> ms[k] < n)
      && (forall r :: r in ms <==> 0 <= r < n && RowMatches(sim, r, threshold))
  {
    if n > 0 {
      MatchedRowsSpec(sim, threshold, n - 1);
      var ms0 := MatchedRows(sim, threshold, n - 1);
      assert n - 1 !in ms0;
    }
  }

  lemma {:induction false} AddedRowsSpec(sim: seq<seq<real>>, threshold: real, n: nat)
    requires n <= |sim| && forall r :: 0 <= r < |sim| ==> |sim[r]| > 0
    ensures var ad := AddedRows(sim, threshold, n);
      && StrictlyIncreasing(ad)
      && (forall k :: 0 <= k < |ad| ==> ad[k] < n)
      && (forall r :: r in ad <==> 0 <= r < n && !RowMatches(sim, r, threshold))
  {
    if n > 0 {
      AddedRowsSpec(sim, threshold, n - 1);
      var ad0 := AddedRows(sim, threshold, n - 1);
      assert n - 1 !in ad0;
    }
  }

  lemma {:induction false} RowsCount(sim: seq<seq<real>>, threshold: real, n: nat)
    requires n <= |sim| && forall r :: 0 <= r < |sim| ==> |sim[r]| > 0
    ensures |MatchedRows(sim, threshold, n)| + |AddedRows(sim, threshold, n)| == n
  {
    if n > 0 {
      RowsCount(sim, threshold, n - 1);
    }
  }

  lemma {:induction false} MatchedAligned(original: seq<string>, revised: seq<string>, sim: seq<seq<real>>, threshold: real, n: nat)
    requires WellShaped(original, revised, sim) && n <= |revised|
    ensures var m, rows := MatchedUpTo(original, revised, sim, threshold, n), MatchedRows(sim, threshold, n);
      && |m| == |rows|
      && forall k :: 0 <= k < |m| ==> rows[k] < n && m[k] == PairOf(original, revised, sim, rows[k])
  {
    if n > 0 {
      MatchedAligned(original, revised, sim, threshold, n - 1);
    }
  }

  lemma {:induction false} AddedAligned(original: seq<string>, revised: seq<string>, sim: seq<seq<real>>, threshold: real, n: nat)
    requires WellShaped(original, revised, sim) && n <= |revised|
    ensures var a, rows := AddedUpTo(original, revised, sim, threshold, n), AddedRows(sim, threshold, n);
      && |a| == |rows|
      && forall k :: 0 <= k < |a| ==> rows[k] < n && a[k] == revised[rows[k]]
  {
    if n > 0 {
      AddedAligned(original, revised, sim, threshold, n - 1);
    }
  }

  lemma {:induction false} ConsumedAligned(original: seq<string>, revised: seq<string>, sim: seq<seq<real>>, threshold: real, n: nat)
    requires WellShaped(original, revised, sim) && n <= |revised|
    ensures forall k :: 0 <= k < |MatchedUpTo(original, revised, sim, threshold, n)| ==>
      MatchedUpTo(original, revised, sim, threshold, n)[k].originalIndex in ConsumedUpTo(original, revised, sim, threshold, n)
    ensures forall i :: i in ConsumedUpTo(original, revised, sim, threshold, n) ==>
      exists k :: 0 <= k < |MatchedUpTo(original, revised, sim, threshold, n)| && MatchedUpTo(original, revised, sim, threshold, n)[k].originalIndex == i
  {
    if n > 0 {
      ConsumedAligned(original, revised, sim, threshold, n - 1);
      var m0 := MatchedUpTo(original, revised, sim, threshold, n - 1);
      var m := MatchedUpTo(original, revised, sim, threshold, n);
      var c0 := ConsumedUpTo(original, revised, sim, threshold, n - 1);
      var c := ConsumedUpTo(original, revised, sim, threshold, n);
      assert forall k :: 0 <= k < |m0| ==> m[k] == m0[k];
      forall i: nat | i in c ensures exists k :: 0 <= k < |m| && m[k].originalIndex == i {
        if i in c0 {
          var k :| 0 <= k < |m0| && m0[k].originalIndex == i;
          assert m[k] == m0[k];
        } else {
          assert m[|m0|].originalIndex == i;
        }
      }
    }
  }

  lemma {:induction false} UnconsumedAligned(original: seq<string>, consumed: set<nat>, n: nat)
    requires n <= |original|
    ensures var d, ix := Unconsumed(original, consumed, n), DeletedIndices(consumed, n);
      && |d| == |ix|
      && StrictlyIncreasing(ix)
      && (forall k :: 0 <= k < |d| ==> ix[k] < n && d[k] == original[ix[k]])
      && (forall i :: i in ix <==> 0 <= i < n && i !in consumed)
  {
    if n > 0 {
      UnconsumedAligned(original, consumed, n - 1);
    }
  }

  /**
   * Each matched pair joins a revised clause to the original its row scores highest (the first
   * such original), with that score, which reaches the threshold; pairs come in revised order.
   */
  lemma {:induction false} MatchedPairsSound(original: seq<string>, revised: seq<string>, sim: seq<seq<real>>, threshold: real)
    requires WellShaped(original, revised, sim)
    ensures var m := Match(original, revised, sim, threshold).matchedPairs;
      && (forall a, b :: 0 <= a < b < |m| ==> m[a].revisedIndex < m[b].revisedIndex)
      && forall p :: p in m ==>
        && p.revisedIndex < |revised| && p.originalIndex < |original|
        && p.revisedText == revised[p.revisedIndex] && p.originalText == original[p.originalIndex]
        && p.similarity == sim[p.revisedIndex][p.originalIndex]
        && p.similarity >= threshold
        && (forall j :: 0 <= j < |original| ==> sim[p.revisedIndex][j] <= p.similarity)
        && (forall j :: 0 <= j < p.originalIndex ==> sim[p.revisedIndex][j] < p.similarity)
  {
    var n := |revised|;
    MatchedAligned(original, revised, sim, threshold, n);
    MatchedRowsSpec(sim, threshold, n);
    var rows := MatchedRows(sim, threshold, n);
    forall k | 0 <= k < |rows| ensures RowMatches(sim, rows[k], threshold) {
      assert rows[k] in rows;
    }
  }

  /**
   * Each added clause is a revised clause whose every score is below the threshold; added
   * clauses come in revised order.
   */
  lemma {:induction false} AddedClausesSound(original: seq<string>, revised: seq<string>, sim: seq<seq<real>>, threshold: real)
    requires WellShaped(original, revised, sim)
    ensures var a, rows := Match(original, revised, sim, threshold).addedClauses, AddedRows(sim, threshold, |revised|);
      && |a| == |rows| && StrictlyIncreasing(rows)
      && forall k :: 0 <= k < |a| ==>
        && rows[k] < |revised| && a[k] == revised[rows[k]]
        && forall j :: 0 <= j < |original| ==> sim[rows[k]][j] < threshold
  {
    var n := |revised|;
    AddedAligned(original, revised, sim, threshold, n);
    AddedRowsSpec(sim, threshold, n);
    var rows := AddedRows(sim, threshold, n);
    forall k | 0 <= k < |rows| ensures !RowMatches(sim, rows[k], threshold) {
      assert rows[k] in rows;
    }
  }

  /**
   * Every revised clause lands in exactly one of the two lists: matched when its best score
   * reaches the threshold, added otherwise.
   */
  lemma {:induction false} RevisedPartition(original: seq<string>, revised: seq<string>, sim: seq<seq<real>>, threshold: real)
    requires WellShaped(original, revised, sim)
    ensures var res := Match(original, revised, sim, threshold);
      && |res.matchedPairs| + |res.addedClauses| == |revised|
      && (forall r :: r in MatchedRows(sim, threshold, |revised|) <==> 0 <= r < |revised| && RowMatches(sim, r, threshold))
      && (forall r :: r in AddedRows(sim, threshold, |revised|) <==> 0 <= r < |revised| && !RowMatches(sim, r, threshold))
  {
    var n := |revised|;
    MatchedAligned(original, revised, sim, threshold, n);
    AddedAligned(original, revised, sim, threshold, n);
    MatchedRowsSpec(sim, threshold, n);
    AddedRowsSpec(sim, threshold, n);
    RowsCount(sim, threshold, n);
  }

  /**
   * The deleted clauses are, in document order, exactly the originals that no matched pair
   * names.
   */
  lemma {:induction false} DeletedClausesSound(original: seq<string>, revised: seq<string>, sim: seq<seq<real>>, threshold: real)
    requires WellShaped(original, revised, sim)
    ensures var res := Match(original, revised, sim, threshold);
      var m, d := res.matchedPairs, res.deletedClauses;
      var ix := DeletedIndices(ConsumedUpTo(original, revised, sim, threshold, |revised|), |original|);
      && |d| == |ix| && StrictlyIncreasing(ix)
      && (forall k :: 0 <= k < |d| ==> ix[k] < |original| && d[k] == original[ix[k]])
      && (forall i :: i in ix <==> 0 <= i < |original| && forall k :: 0 <= k < |m| ==> m[k].originalIndex != i)
  {
    var consumed := ConsumedUpTo(original, revised, sim, threshold, |revised|);
    ConsumedAligned(original, revised, sim, threshold, |revised|);
    UnconsumedAligned(original, consumed, |original|);
    var m := MatchedUpTo(original, revised, sim, threshold, |revised|);
    forall i ensures i in consumed <==> !forall k :: 0 <= k < |m| ==> m[k].originalIndex != i {
      if i in consumed {
        var k :| 0 <= k < |m| && m[k].originalIndex == i;
      }
    }
  }

  /**
   * Raising the threshold never matches more: every row that matches at the higher threshold
   * matches at the lower one, so no more originals are consumed and no fewer deleted.
   */
  lemma {:induction false} ThresholdMonotone(original: seq<string>, revised: seq<string>, sim: seq<seq<real>>, low: real, high: real, n: nat)
    requires WellShaped(original, revised, sim) && n <= |revised| && low <= high
    ensures ConsumedUpTo(original, revised, sim, high, n) <= ConsumedUpTo(original, revised, sim, low, n)
    ensures |MatchedUpTo(original, revised, sim, high, n)| <= |MatchedUpTo(original, revised, sim, low, n)|
    ensures |AddedUpTo(original, revised, sim, low, n)| <= |AddedUpTo(original, revised, sim, high, n)|
  {
    if n > 0 {
      ThresholdMonotone(original, revised, sim, low, high, n - 1);
    }
  }

  /** Fewer consumed originals leave at least the same deleted ones. */
  lemma {:induction false} DeletedMonotone(consumed: set<nat>, more: set<nat>, n: nat)
    requires consumed <= more
    ensures forall i :: i in DeletedIndices(more, n) ==> i in DeletedIndices(consumed, n)
  {
    if n > 0 {
      DeletedMonotone(consumed, more, n - 1);
    }
  }

  /**
   * When each revised clause's row peaks first at its own position with a score at the
   * threshold (two documents whose clauses pair up one to one), every clause is matched to its
   * counterpart and nothing is added or deleted.
   */
  lemma {:induction false} DiagonalUpTo(original: seq<string>, revised: seq<string>, sim: seq<seq<real>>, threshold: real, n: nat)
    requires WellShaped(original, revised, sim) && |original| == |revised| && n <= |revised|
    requires forall r, j :: 0 <= r < |revised| && 0 <= j < |original| ==>
      sim[r][j] <= sim[r][r] && (j < r ==> sim[r][j] < sim[r][r])
    requires forall r :: 0 <= r < |revised| ==> sim[r][r] >= threshold
    ensures var m := MatchedUpTo(original, revised, sim, threshold, n);
      && |m| == n
      && (forall k :: 0 <= k < n ==> m[k].originalIndex == k && m[k].revisedIndex == k)
    ensures AddedUpTo(original, revised, sim, threshold, n) == []
    ensures forall i :: i in ConsumedUpTo(original, revised, sim, threshold, n) <==> 0 <= i < n
  {
    if n > 0 {
      DiagonalUpTo(original, revised, sim, threshold, n - 1);
      var r := n - 1;
      var k := ArgMax(sim[r]);
      assert k == r by {
        assert sim[r][r] <= sim[r][k];
        assert !(k < r);
        assert !(r < k);
      }
    }
  }

  lemma {:induction false} Diagonal(original: seq<string>, revised: seq<string>, sim: seq<seq<real>>, threshold: real)
    requires WellShaped(original, revised, sim) && |original| == |revised|
    requires forall r, j :: 0 <= r < |revised| && 0 <= j < |original| ==>
      sim[r][j] <= sim[r][r] && (j < r ==> sim[r][j] < sim[r][r])
    requires forall r :: 0 <= r < |revised| ==> sim[r][r] >= threshold
    ensures var res := Match(original, revised, sim, threshold);
      && |res.matchedPairs| == |revised|
      && (forall k :: 0 <= k < |revised| ==> res.matchedPairs[k].originalIndex == k && res.matchedPairs[k].revisedIndex == k)
      && res.addedClauses == [] && res.deletedClauses == []
  {
    var n := |revised|;
    DiagonalUpTo(original, revised, sim, threshold, n);
    var consumed := ConsumedUpTo(original, revised, sim, threshold, n);
    NothingUnconsumed(original, consumed, |original|);
  }

  lemma {:induction false} NothingUnconsumed(original: seq<string>, consumed: set<nat>, n: nat)
    requires n <= |original| && forall i :: 0 <= i < n ==> i in consumed
    ensures Unconsumed(original, consumed, n) == []
  {
    if n > 0 {
      NothingUnconsumed(original, consumed, n - 1);
    }
  }

  /**
   * The matching is many-to-one: two revised clauses that both reach the threshold against a
   * single original are both paired with it, and that original is not reported deleted.
   */
  lemma {:induction false} ManyToOne(o: string, a: string, b: string, x: real, y: real, threshold: real)
    requires x >= threshold && y >= threshold
    ensures var res := Match([o], [a, b], [[x], [y]], threshold);
      && res.matchedPairs == [MatchedPair(o, a, x, 0, 0), MatchedPair(o, b, y, 0, 1)]
      && res.addedClauses == [] && res.deletedClauses == []
  {
    var original, revised, sim := [o], [a, b], [[x], [y]];
    assert ArgMax(sim[0]) == 0 && ArgMax(sim[1]) == 0;
    assert MatchedUpTo(original, revised, sim, threshold, 1) == [MatchedPair(o, a, x, 0, 0)];
    assert AddedUpTo(original, revised, sim, threshold, 1) == [];
    assert ConsumedUpTo(original, revised, sim, threshold, 1) == {0};
    assert Unconsumed(original, {0}, 1) == [];
  }

  /**
   * Comparing a document with itself does not always report no deletions: when a clause is
   * repeated, both copies score the same against each revised copy, argmax keeps the first,
   * and the second original copy is reported deleted.
   */
  lemma {:induction false} RepeatedClauseReportedDeleted(c: string, score: real, threshold: real)
    requires score >= threshold
    ensures var res := Match([c, c], [c, c], [[score, score], [score, score]], threshold);
      && res.matchedPairs == [MatchedPair(c, c, score, 0, 0), MatchedPair(c, c, score, 0, 1)]
      && res.addedClauses == []
      && res.deletedClauses == [c]
  {
    var row: seq<real> := [score, score];
    assert row[..1] == [score];
    assert ArgMax(row) == 0;
    var doc, sim := [c, c], [row, row];
    assert MatchedUpTo(doc, doc, sim, threshold, 1) == [MatchedPair(c, c, score, 0, 0)];
    assert AddedUpTo(doc, doc, sim, threshold, 1) == [];
    assert ConsumedUpTo(doc, doc, sim, threshold, 1) == {0};
    assert ConsumedUpTo(doc, doc, sim, threshold, 2) == {0};
    assert Unconsumed(doc, {0}, 1) == [];
  }
}
