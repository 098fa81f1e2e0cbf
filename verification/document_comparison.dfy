/**
 * compare_documents: both uploads must be named *.pdf, both must yield text and clauses; the
 * clauses are matched, the matched pairs whose stripped texts differ are sent for analysis,
 * and the report lists additions, deletions and analysed changes with their counts.
 */
module DocumentComparison {
  import opened Base
  import opened Text
  import opened RegexSplit
  import opened ClauseSegmenter
  import opened SemanticMatcher
  import opened ChangeAnalysis

  /**
   * An uploaded file: its name, and what extract_text_from_pdf made of it (the stripped text of
   * its pages, or the message of the error PyMuPDF raised).
   */
  datatype Upload = Upload(filename: string, extracted: Result<string, string>)

  /** An HTTPException: status code and detail. */
  datatype HttpError = HttpError(status: nat, detail: string)

  /** One result of asyncio.gather(..., return_exceptions=True): the analysis task returned, or raised. */
  datatype TaskOutcome = Completed(reply: ModelReply) | Raised

  datatype ChangedClause = ChangedClause(originalText: string, revisedText: string, aiAnalysis: Analysis)

  datatype ComparisonSummary = ComparisonSummary(
    totalChanges: nat,
    additions: nat,
    deletions: nat,
    originalClauses: nat,
    revisedClauses: nat)

  datatype ComparisonReport = ComparisonReport(
    addedClauses: seq<string>,
    deletedClauses: seq<string>,
    changedClauses: seq<ChangedClause>,
    summary: ComparisonSummary)

  const BadRequest: nat := 400
  const ServerError: nat := 500
  const ExtractionFailedPrefix: string := "Failed to extract text from PDF: "
  const EmbeddingFailedPrefix: string := "Failed to generate embeddings: "

  /** What a task that raised is given instead of an analysis. */
  const NotAnalyzed: Analysis := Fields("Analysis failed", "Could not analyze this change", Neutral)

  /** The default of the report's clause.get('ai_analysis', ...). */
  const NoChangeAnalysis: Analysis := Fields("No changes detected", "Text appears identical", Neutral)

  /** filename.lower().endswith('.pdf'). */
  predicate IsPdfName(name: string) {
    var l := Lower(name);
    |l| >= 4 && l[|l| - 4..] == ".pdf"
  }

  /** The name ends in a dot followed by p, d and f, each in either case. */
  lemma {:induction false} PdfNameIff(name: string)
    ensures IsPdfName(name) <==>
      && |name| >= 4
      && name[|name| - 4] == '.'
      && (name[|name| - 3] == 'p' || name[|name| - 3] == 'P')
      && (name[|name| - 2] == 'd' || name[|name| - 2] == 'D')
      && (name[|name| - 1] == 'f' || name[|name| - 1] == 'F')
  {
    var l := Lower(name);
    if |name| >= 4 {
      var n := |name|;
      assert l[n - 4..] == [l[n - 4], l[n - 3], l[n - 2], l[n - 1]];
    }
  }

  /** The cosine-similarity matrix: row r for revised clause r, column o for original clause o. */
  function SimilarityMatrix(similarity: (nat, nat) -> real, rows: nat, cols: nat): (m: seq<seq<real>>)
    ensures |m| == rows && forall r :: 0 <= r < rows ==> |m[r]| == cols
  {
    seq(rows, r requires 0 <= r < rows => seq(cols, o requires 0 <= o < cols => similarity(r, o)))
  }

  /** The pair's texts still differ once stripped, so it is sent for analysis. */
  predicate Changed(p: MatchedPair) {
    Strip(p.originalText) != Strip(p.revisedText)
  }

  /** The matched pairs sent for analysis, in order. */
  function ChangedPairs(pairs: seq<MatchedPair>): seq<MatchedPair>
  {
    if pairs == [] then []
    else
      var n := |pairs| - 1;
      ChangedPairs(pairs[..n]) + (if Changed(pairs[n]) then [pairs[n]] else [])
  }

  /** The analysis attached for the task at a given position. */
  function AnalysisOf(outcome: TaskOutcome, decodes: string -> bool): Analysis
  {
    match outcome
    case Completed(reply) => AnalyzeSemanticDiff(reply, decodes)
    case Raised => NotAnalyzed
  }

  /** The report's changed clauses: the k-th changed pair with the k-th task's analysis. */
  function ChangedClauses(changed: seq<MatchedPair>, outcome: nat -> TaskOutcome, decodes: string -> bool): seq<ChangedClause>
  {
    seq(|changed|, k requires 0 <= k < |changed| =>
      ChangedClause(changed[k].originalText, changed[k].revisedText, AnalysisOf(outcome(k), decodes)))
  }

  /** The clauses segment_into_clauses finds in an upload's extracted text. */
  function Clauses(u: Upload): seq<string>
    requires u.extracted.Ok?
  {
    KeepClauses(Split(ParagraphBreak, u.extracted.value))
  }

  /** Both uploads are named *.pdf, their text was extracted, and each holds a clause. */
  predicate Admissible(original: Upload, revised: Upload) {
    && IsPdfName(original.filename) && IsPdfName(revised.filename)
    && original.extracted.Ok? && revised.extracted.Ok?
    && Clauses(original) != [] && Clauses(revised) != []
  }

  /** The first check compare_documents fails before it asks for embeddings, if any. */
  function Rejection(original: Upload, revised: Upload): (e: Option<HttpError>)
    ensures e.None? <==> Admissible(original, revised)
    ensures e.Some? ==> e.value.status == BadRequest
  {
    if !IsPdfName(original.filename) then Some(HttpError(BadRequest, "Original file must be a PDF"))
    else if !IsPdfName(revised.filename) then Some(HttpError(BadRequest, "Revised file must be a PDF"))
    else if original.extracted.Err? then Some(HttpError(BadRequest, ExtractionFailedPrefix + original.extracted.error))
    else if revised.extracted.Err? then Some(HttpError(BadRequest, ExtractionFailedPrefix + revised.extracted.error))
    else if Clauses(original) == [] then Some(HttpError(BadRequest, "No readable content found in original document"))
    else if Clauses(revised) == [] then Some(HttpError(BadRequest, "No readable content found in revised document"))
    else None
  }

  /** The report compare_documents builds from the two clause lists. */
  function Report(
    oc: seq<string>, rc: seq<string>,
    similarity: (nat, nat) -> real, outcome: nat -> TaskOutcome, decodes: string -> bool
  ): ComparisonReport
    requires oc != []
  {
    var m := Match(oc, rc, SimilarityMatrix(similarity, |rc|, |oc|), DefaultThreshold);
    var changed := ChangedPairs(m.matchedPairs);
    ComparisonReport(
      m.addedClauses, m.deletedClauses, ChangedClauses(changed, outcome, decodes),
      ComparisonSummary(|changed|, |m.addedClauses|, |m.deletedClauses|, |oc|, |rc|))
  }

  /** What compare_documents answers, given the uploads and what the services return. */
  function Compare(
    original: Upload, revised: Upload, embeddingFailure: Option<string>,
    similarity: (nat, nat) -> real, outcome: nat -> TaskOutcome, decodes: string -> bool
  ): Result<ComparisonReport, HttpError>
  {
    match Rejection(original, revised)
    case Some(e) => Err(e)
    case None =>
      if embeddingFailure.Some? then Err(HttpError(ServerError, EmbeddingFailedPrefix + embeddingFailure.value))
      else Ok(Report(Clauses(original), Clauses(revised), similarity, outcome, decodes))
  }

  /**
   * Step 5 of compare_documents: each changed pair gets the analysis its gathered task
   * produced, written into the pair's slot, and the report reads every slot back with a
   * default that is therefore never used.
   */
  method CombineAnalyses(changed: seq<MatchedPair>, outcome: nat -> TaskOutcome, decodes: string -> bool)
    returns (clauses: seq<ChangedClause>)
    ensures clauses == ChangedClauses(changed, outcome, decodes)
    ensures forall k :: 0 <= k < |clauses| ==> clauses[k].aiAnalysis != NoChangeAnalysis
  {
    var analyses := new Option<Analysis>[|changed|](_ => None);
    if |changed| > 0 {
      var i := 0;
      while i < |changed|
        invariant 0 <= i <= |changed|
        invariant forall j :: 0 <= j < i ==> analyses[j] == Some(AnalysisOf(outcome(j), decodes))
      {
        analyses[i] := Some(AnalysisOf(outcome(i), decodes));
        i := i + 1;
      }
    }
    clauses := seq(|changed|, k requires 0 <= k < |changed| reads analyses =>
      ChangedClause(changed[k].originalText, changed[k].revisedText,
        if analyses[k].Some? then analyses[k].value else NoChangeAnalysis));
    forall k | 0 <= k < |clauses| ensures clauses[k].aiAnalysis != NoChangeAnalysis {
      AnalysisNeverDefault(outcome(k), decodes);
    }
  }

  /** No task outcome produces the "No changes detected" default. */
  lemma {:induction false} AnalysisNeverDefault(outcome: TaskOutcome, decodes: string -> bool)
    ensures AnalysisOf(outcome, decodes) != NoChangeAnalysis
  {
    if outcome.Completed? {
      FallbacksNeutral(outcome.reply, decodes);
    }
  }

  /** The loop of compare_documents that collects the matched pairs whose stripped texts differ. */
  method SelectChanged(pairs: seq<MatchedPair>) returns (changed: seq<MatchedPair>)
    ensures changed == ChangedPairs(pairs)
  {
    changed := [];
    var i := 0;
    while i < |pairs|
      invariant 0 <= i <= |pairs|
      invariant changed == ChangedPairs(pairs[..i])
    {
      ChangedPairsStep(pairs, i);
      changed := changed + (if Changed(pairs[i]) then [pairs[i]] else []);
      i := i + 1;
    }
    assert pairs[..i] == pairs;
  }

  lemma {:induction false} ChangedPairsStep(pairs: seq<MatchedPair>, i: nat)
    requires i < |pairs|
    ensures ChangedPairs(pairs[..i + 1]) == ChangedPairs(pairs[..i]) + (if Changed(pairs[i]) then [pairs[i]] else [])
  {
    assert pairs[..i + 1][..i] == pairs[..i];
  }

  /** Steps 4 to 6 of compare_documents: match, pick the changed pairs, analyse, count. */
  method BuildReport(
    originalClauses: seq<string>, revisedClauses: seq<string>,
    similarity: (nat, nat) -> real, outcome: nat -> TaskOutcome, decodes: string -> bool
  ) returns (report: ComparisonReport)
    requires originalClauses != []
    ensures report == Report(originalClauses, revisedClauses, similarity, outcome, decodes)
  {
    var sim := SimilarityMatrix(similarity, |revisedClauses|, |originalClauses|);
    var matches := FindSemanticMatches(originalClauses, revisedClauses, sim, DefaultThreshold);
    var changed := SelectChanged(matches.matchedPairs);
    var changedClauses := CombineAnalyses(changed, outcome, decodes);
    var summary := ComparisonSummary(
      |changed|, |matches.addedClauses|, |matches.deletedClauses|, |originalClauses|, |revisedClauses|);
    report := ComparisonReport(matches.addedClauses, matches.deletedClauses, changedClauses, summary);
  }

  /** Python's compare_documents. */
  method CompareDocuments(
    original: Upload, revised: Upload, embeddingFailure: Option<string>,
    similarity: (nat, nat) -> real, outcome: nat -> TaskOutcome, decodes: string -> bool
  ) returns (r: Result<ComparisonReport, HttpError>)
    ensures r == Compare(original, revised, embeddingFailure, similarity, outcome, decodes)
  {
    if !IsPdfName(original.filename) {
      return Err(HttpError(BadRequest, "Original file must be a PDF"));
    }
    if !IsPdfName(revised.filename) {
      return Err(HttpError(BadRequest, "Revised file must be a PDF"));
    }
    if original.extracted.Err? {
      return Err(HttpError(BadRequest, ExtractionFailedPrefix + original.extracted.error));
    }
    if revised.extracted.Err? {
      return Err(HttpError(BadRequest, ExtractionFailedPrefix + revised.extracted.error));
    }
    var originalClauses := SegmentIntoClauses(original.extracted.value);
    var revisedClauses := SegmentIntoClauses(revised.extracted.value);
    if originalClauses == [] {
      return Err(HttpError(BadRequest, "No readable content found in original document"));
    }
    if revisedClauses == [] {
      return Err(HttpError(BadRequest, "No readable content found in revised document"));
    }
    if embeddingFailure.Some? {
      return Err(HttpError(ServerError, EmbeddingFailedPrefix + embeddingFailure.value));
    }
    var report := BuildReport(originalClauses, revisedClauses, similarity, outcome, decodes);
    r := Ok(report);
  }

  // ----- properties of the comparison -----

  lemma {:induction false} ChangedPairsMembers(pairs: seq<MatchedPair>)
    ensures forall p :: p in ChangedPairs(pairs) <==> p in pairs && Changed(p)
  {
    if pairs != [] {
      var n := |pairs| - 1;
      var init := pairs[..n];
      ChangedPairsMembers(init);
      assert pairs == init + [pairs[n]];
      var c0, c := ChangedPairs(init), ChangedPairs(pairs);
      assert c == c0 + (if Changed(pairs[n]) then [pairs[n]] else []);
      forall p ensures p in c <==> p in pairs && Changed(p) {
        assert (p in pairs) == (p in init || p == pairs[n]);
      }
    }
  }

  lemma {:induction false} ChangedPairsFewer(pairs: seq<MatchedPair>)
    ensures |ChangedPairs(pairs)| <= |pairs|
  {
    if pairs != [] {
      ChangedPairsFewer(pairs[..|pairs| - 1]);
    }
  }

  /** The positions of the matched pairs that are sent for analysis. */
  function ChangedIndices(pairs: seq<MatchedPair>): seq<nat> {
    Positions(pairs, Changed, |pairs|)
  }

  lemma {:induction false} ChangedPairsSelect(pairs: seq<MatchedPair>)
    ensures var ix, cs := ChangedIndices(pairs), ChangedPairs(pairs);
      && |ix| == |cs|
      && (forall k :: 0 <= k < |ix| ==> ix[k] < |pairs| && cs[k] == pairs[ix[k]])
  {
    if pairs != [] {
      var n := |pairs| - 1;
      var init := pairs[..n];
      ChangedPairsSelect(init);
      PositionsPrefix(pairs, Changed, n, n);
      var ix0 := ChangedIndices(init);
      var ix, cs := ChangedIndices(pairs), ChangedPairs(pairs);
      assert ix == ix0 + (if Changed(pairs[n]) then [n] else []);
      forall k | 0 <= k < |ix0| ensures ix[k] < |pairs| && cs[k] == pairs[ix[k]] {
        assert init[ix0[k]] == pairs[ix0[k]];
      }
    }
  }

  /**
   * The pairs sent for analysis are exactly the matched pairs whose stripped texts differ, one
   * each, in matched-pair order: the k-th change is the pair at the k-th selected position,
   * the positions increase, and a position is selected exactly when its pair changed; there
   * are never more changes than matched pairs.
   */
  lemma {:induction false} ChangedPairsSpec(pairs: seq<MatchedPair>)
    ensures var ix, cs := ChangedIndices(pairs), ChangedPairs(pairs);
      && |ix| == |cs|
      && StrictlyIncreasing(ix)
      && (forall k :: 0 <= k < |ix| ==> ix[k] < |pairs| && cs[k] == pairs[ix[k]])
      && (forall i :: i in ix <==> 0 <= i < |pairs| && Changed(pairs[i]))
    ensures forall p :: p in ChangedPairs(pairs) <==> p in pairs && Changed(p)
    ensures |ChangedPairs(pairs)| <= |pairs|
  {
    ChangedPairsSelect(pairs);
    PositionsOrdered(pairs, Changed, |pairs|);
    PositionsMembers(pairs, Changed, |pairs|);
    ChangedPairsMembers(pairs);
    ChangedPairsFewer(pairs);
  }

  /**
   * The comparison succeeds exactly when both names end in .pdf, both texts were extracted,
   * both hold a clause, and the embeddings were produced. It answers 500 exactly when only the
   * embeddings failed, with the failure's message; every other refusal is a 400.
   */
  lemma {:induction false} SucceedsIff(
    original: Upload, revised: Upload, embeddingFailure: Option<string>,
    similarity: (nat, nat) -> real, outcome: nat -> TaskOutcome, decodes: string -> bool)
    ensures var r := Compare(original, revised, embeddingFailure, similarity, outcome, decodes);
      && (r.Ok? <==> Admissible(original, revised) && embeddingFailure.None?)
      && ((r.Err? && r.error.status == ServerError) <==> Admissible(original, revised) && embeddingFailure.Some?)
      && (r.Err? && r.error.status == ServerError ==> r.error.detail == EmbeddingFailedPrefix + embeddingFailure.value)
      && (r.Err? ==> r.error.status == BadRequest || r.error.status == ServerError)
  {
  }

  /**
   * In a report, the counts are the lengths of the lists they count; every revised clause is
   * either added or matched, so changes and additions together never exceed the revised
   * clauses, and deletions never exceed the original clauses.
   */
  lemma {:induction false} ReportCounts(
    oc: seq<string>, rc: seq<string>,
    similarity: (nat, nat) -> real, outcome: nat -> TaskOutcome, decodes: string -> bool)
    requires oc != []
    ensures var rep := Report(oc, rc, similarity, outcome, decodes);
      && rep.summary.totalChanges == |rep.changedClauses|
      && rep.summary.additions == |rep.addedClauses|
      && rep.summary.deletions == |rep.deletedClauses|
      && rep.summary.originalClauses == |oc|
      && rep.summary.revisedClauses == |rc|
      && rep.summary.totalChanges + rep.summary.additions <= rep.summary.revisedClauses
      && rep.summary.deletions <= rep.summary.originalClauses
  {
    var sim := SimilarityMatrix(similarity, |rc|, |oc|);
    var m := Match(oc, rc, sim, DefaultThreshold);
    RevisedPartition(oc, rc, sim, DefaultThreshold);
    ChangedPairsFewer(m.matchedPairs);
    DeletedClausesSound(oc, rc, sim, DefaultThreshold);
    var ix := DeletedIndices(ConsumedUpTo(oc, rc, sim, DefaultThreshold, |rc|), |oc|);
    IncreasingBelowBound(ix, |oc|);
  }

  /** A strictly increasing list of positions below n has at most n entries. */
  lemma {:induction false} IncreasingBelowBound(xs: seq<nat>, n: nat)
    requires StrictlyIncreasing(xs) && forall k :: 0 <= k < |xs| ==> xs[k] < n
    ensures |xs| <= n
  {
    if xs != [] {
      var init := xs[..|xs| - 1];
      assert forall k :: 0 <= k < |init| ==> init[k] < xs[|xs| - 1];
      IncreasingBelowBound(init, xs[|xs| - 1]);
    }
  }

  /**
   * Every reported change is a matched pair whose stripped texts differ, carrying the analysis
   * of its own task, never the "No changes detected" default.
   */
  lemma {:induction false} ChangesAreAnalysedChanges(
    oc: seq<string>, rc: seq<string>,
    similarity: (nat, nat) -> real, outcome: nat -> TaskOutcome, decodes: string -> bool)
    requires oc != []
    ensures var rep := Report(oc, rc, similarity, outcome, decodes);
      forall k :: 0 <= k < |rep.changedClauses| ==>
        && Strip(rep.changedClauses[k].originalText) != Strip(rep.changedClauses[k].revisedText)
        && rep.changedClauses[k].aiAnalysis == AnalysisOf(outcome(k), decodes)
        && rep.changedClauses[k].aiAnalysis != NoChangeAnalysis
  {
    var m := Match(oc, rc, SimilarityMatrix(similarity, |rc|, |oc|), DefaultThreshold);
    var changed := ChangedPairs(m.matchedPairs);
    ChangedPairsMembers(m.matchedPairs);
    var rep := Report(oc, rc, similarity, outcome, decodes);
    assert rep.changedClauses == ChangedClauses(changed, outcome, decodes);
    forall k | 0 <= k < |changed| ensures Changed(changed[k]) && AnalysisOf(outcome(k), decodes) != NoChangeAnalysis {
      assert changed[k] in changed;
      AnalysisNeverDefault(outcome(k), decodes);
    }
  }

  /**
   * A document compared with itself reports no change, addition or deletion when its clauses
   * pair up one to one: each clause's row of similarities peaks first at its own position, at
   * the threshold or above.
   */
  lemma {:induction false} SelfComparison(
    cs: seq<string>, similarity: (nat, nat) -> real, outcome: nat -> TaskOutcome, decodes: string -> bool)
    requires cs != []
    requires forall r, j :: 0 <= r < |cs| && 0 <= j < |cs| ==>
      similarity(r, j) <= similarity(r, r) && (j < r ==> similarity(r, j) < similarity(r, r))
    requires forall r :: 0 <= r < |cs| ==> similarity(r, r) >= DefaultThreshold
    ensures var rep := Report(cs, cs, similarity, outcome, decodes);
      rep.changedClauses == [] && rep.addedClauses == [] && rep.deletedClauses == []
  {
    var sim := SimilarityMatrix(similarity, |cs|, |cs|);
    Diagonal(cs, cs, sim, DefaultThreshold);
    var m := Match(cs, cs, sim, DefaultThreshold);
    MatchedPairsSound(cs, cs, sim, DefaultThreshold);
    NoneChanged(m.matchedPairs);
  }

  /** Pairs whose two texts are the same clause are never sent for analysis. */
  lemma {:induction false} NoneChanged(pairs: seq<MatchedPair>)
    requires forall k :: 0 <= k < |pairs| ==> pairs[k].originalText == pairs[k].revisedText
    ensures ChangedPairs(pairs) == []
  {
    if pairs != [] {
      NoneChanged(pairs[..|pairs| - 1]);
    }
  }
}
