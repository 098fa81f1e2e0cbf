/**
 * The clause segmenter of the comparison router: a document's text is split at paragraph
 * breaks, each paragraph is stripped, and paragraphs of ten characters or fewer are dropped.
 */
module ClauseSegmenter {
  import opened Base
  import opened Text
  import opened RegexSplit

  /** A stripped paragraph must be longer than this to count as a clause. */
  const NoiseLength: nat := 10

  /** The paragraph survives the cleaning loop. */
  predicate Kept(piece: string) {
    |Strip(piece)| > NoiseLength
  }

  /** The clauses the cleaning loop keeps from a list of paragraphs, in order. */
  function KeepClauses(pieces: seq<string>): seq<string>
  {
    if pieces == [] then []
    else
      var last := pieces[|pieces| - 1];
      KeepClauses(pieces[..|pieces| - 1]) + (if Kept(last) then [Strip(last)] else [])
  }

  /** Which paragraphs the cleaning loop keeps, by position. */
  function KeptIndices(pieces: seq<string>): seq<nat>
  {
    Positions(pieces, Kept, |pieces|)
  }

  lemma {:induction false} KeptIndicesSelect(pieces: seq<string>)
    ensures var ix, cs := KeptIndices(pieces), KeepClauses(pieces);
      && |ix| == |cs|
      && (forall k :: 0 <= k < |ix| ==> ix[k] < |pieces| && cs[k] == Strip(pieces[ix[k]]))
  {
    if pieces != [] {
      var n := |pieces| - 1;
      var init := pieces[..n];
      KeptIndicesSelect(init);
      PositionsPrefix(pieces, Kept, n, n);
      var ix0 := KeptIndices(init);
      var ix, cs := KeptIndices(pieces), KeepClauses(pieces);
      assert ix == ix0 + (if Kept(pieces[n]) then [n] else []);
      forall k | 0 <= k < |ix0| ensures ix[k] < |pieces| && cs[k] == Strip(pieces[ix[k]]) {
        assert init[ix0[k]] == pieces[ix0[k]];
      }
    }
  }

  /**
   * The kept clauses are exactly the stripped paragraphs longer than ten characters, in
   * document order: the k-th clause is the stripped paragraph at the k-th kept position, those
   * positions increase, and a position is kept exactly when its paragraph is long enough.
   */
  lemma {:induction false} KeptIndicesSpec(pieces: seq<string>)
    ensures var ix, cs := KeptIndices(pieces), KeepClauses(pieces);
      && |ix| == |cs|
      && StrictlyIncreasing(ix)
      && (forall k :: 0 <= k < |ix| ==> ix[k] < |pieces| && cs[k] == Strip(pieces[ix[k]]))
      && (forall i :: i in ix <==> 0 <= i < |pieces| && Kept(pieces[i]))
  {
    KeptIndicesSelect(pieces);
    PositionsOrdered(pieces, Kept, |pieces|);
    PositionsMembers(pieces, Kept, |pieces|);
  }

  /** Every kept clause is trimmed and longer than ten characters. */
  lemma {:induction false} KeptClausesShape(pieces: seq<string>)
    ensures forall c :: c in KeepClauses(pieces) ==> IsTrimmed(c) && |c| > NoiseLength
  {
    if pieces != [] {
      KeptClausesShape(pieces[..|pieces| - 1]);
    }
  }

  /** No clause survives exactly when every paragraph is ten characters or fewer once stripped. */
  lemma {:induction false} NoClausesIff(pieces: seq<string>)
    ensures KeepClauses(pieces) == [] <==> forall i :: 0 <= i < |pieces| ==> !Kept(pieces[i])
  {
    KeptIndicesSpec(pieces);
    if KeepClauses(pieces) != [] {
      var i := KeptIndices(pieces)[0];
      assert i in KeptIndices(pieces);
    } else {
      forall i | 0 <= i < |pieces| ensures !Kept(pieces[i]) {
        assert i !in KeptIndices(pieces);
      }
    }
  }

  /** A blank line inside a slice is a blank line of the whole string. */
  lemma {:induction false} SliceUnbroken(s: string, x: nat, y: nat)
    requires x <= y <= |s| && NoBlankLine(s)
    ensures NoBlankLine(s[x..y])
  {
    var c := s[x..y];
    forall a, b | 0 <= a < b < |c| && c[a] == '\n' && c[b] == '\n' ensures !AllSpace(c[a + 1..b]) {
      assert s[x + a] == '\n' && s[x + b] == '\n';
      assert !AllSpace(s[x + a + 1..x + b]);
      var u, v := c[a + 1..b], s[x + a + 1..x + b];
      assert forall k :: 0 <= k < |u| ==> u[k] == v[k];
      assert u == v;
    }
  }

  /** Clauses cut from paragraphs without a paragraph break hold none either. */
  lemma {:induction false} KeptClausesUnbroken(pieces: seq<string>)
    requires forall p :: p in pieces ==> NoBlankLine(p)
    ensures forall c :: c in KeepClauses(pieces) ==> NoBlankLine(c)
  {
    if pieces != [] {
      var n := |pieces| - 1;
      assert forall p :: p in pieces[..n] ==> p in pieces;
      KeptClausesUnbroken(pieces[..n]);
      var last := pieces[n];
      assert last in pieces;
      StripSlice(last);
      SliceUnbroken(last, StripOffset(last), StripOffset(last) + |Strip(last)|);
    }
  }

  /** Python's segment_into_clauses. */
  method SegmentIntoClauses(text: string) returns (clauses: seq<string>)
    ensures clauses == KeepClauses(Split(ParagraphBreak, text))
    ensures forall c :: c in clauses ==> IsTrimmed(c) && |c| > NoiseLength && NoBlankLine(c)
  {
    var pieces := Split(ParagraphBreak, text);
    clauses := [];
    var i := 0;
    while i < |pieces|
      invariant 0 <= i <= |pieces|
      invariant clauses == KeepClauses(pieces[..i])
    {
      var cleaned := Strip(pieces[i]);
      assert pieces[..i + 1][..i] == pieces[..i];
      if |cleaned| > 0 && |cleaned| > NoiseLength {
        clauses := clauses + [cleaned];
      }
      i := i + 1;
    }
    assert pieces[..i] == pieces;
    ParagraphPiecesUnbroken(text);
    KeptClausesShape(pieces);
    KeptClausesUnbroken(pieces);
  }
}
