/**
 * The obligation record and the rule-based extractor that builds it: the document is split
 * into sentences, and every stripped sentence of at least twenty characters that holds an
 * obligation keyword becomes one obligation.
 */
module Obligations {
  import opened Base
  import opened Text
  import opened RegexSplit
  import opened ActionText
  import opened ObligationRules

  /** A deadline's sort key: a point in time, or datetime.max when there is no usable date. */
  datatype SortKey = At(instant: int) | Latest

  /** What the deadline patterns find in a sentence. */
  datatype DeadlineInfo = DeadlineInfo(deadline: string, kind: string, value: Option<int>, sortKey: SortKey)

  /**
   * One obligation. Priority and type are held as the strings the record carries, since the
   * timeline and the summary read them as strings and a record from the generative model may
   * hold any string there.
   */
  datatype Obligation = Obligation(
    id: string,
    action: string,
    responsibleParty: string,
    deadline: string,
    deadlineType: string,
    deadlineValue: Option<int>,
    priority: string,
    obligationType: string,
    consequences: string,
    context: string,
    section: string,
    sortKey: SortKey)

  /**
   * What the extractor delegates to code outside this model: the date patterns of
   * _extract_deadline_from_sentence, Python's hash() of a string, and the consequence
   * patterns of _extract_consequences over the sentence and the raw pieces from it to two after it.
   */
  datatype Helpers = Helpers(
    deadlineOf: string -> DeadlineInfo,
    hash: string -> int,
    consequencesOf: (string, seq<string>) -> string)

  const ObligationKeywords: seq<string> :=
    ["shall", "must", "will", "required to", "obligated to", "agrees to"]
  /** A stripped sentence shorter than this is skipped. */
  const MinSentenceLength: nat := 20
  const IdPrefix: string := "obl_"
  const SectionPrefix: string := "Detected at position "
  /** How much of the sentence the id hashes and the context keeps. */
  const IdSourceLength: nat := 50
  const ContextLength: nat := 200
  /** timedelta(days=30), with instants counted in seconds. */
  const ThirtyDays: int := 30 * 24 * 60 * 60

  /** A stripped sentence that is not empty, survives the length check and holds an obligation keyword. */
  predicate KeepsSentence(sentence: string) {
    |sentence| != 0 && |sentence| >= MinSentenceLength
    && AnyContained(Lower(sentence), ObligationKeywords)
  }

  /** The raw piece the split produced becomes an obligation. */
  predicate IsObligation(piece: string) {
    KeepsSentence(Strip(piece))
  }

  /** Python's str(n) for any integer. */
  function IntToString(n: int): string {
    if n < 0 then "-" + NatToString(-n) else NatToString(n)
  }

  /** Python's sentences[idx:idx+3], the raw pieces the consequence patterns read. */
  function ContextSentences(sentences: seq<string>, idx: nat): (r: seq<string>)
    requires idx < |sentences|
    ensures 1 <= |r| <= 3 && r[0] == sentences[idx]
  {
    sentences[idx..if idx + 3 <= |sentences| then idx + 3 else |sentences|]
  }

  /** The obligation the extractor records for the sentence at position idx. */
  function ObligationAt(sentences: seq<string>, idx: nat, h: Helpers): Obligation
    requires idx < |sentences|
  {
    var sentence := Strip(sentences[idx]);
    var info := h.deadlineOf(sentence);
    Obligation(
      IdPrefix + NatToString(idx) + "_" + IntToString(h.hash(Prefix(sentence, IdSourceLength))),
      CleanActionText(sentence),
      ExtractParty(sentence),
      info.deadline,
      info.kind,
      info.value,
      InferPriority(sentence).Name(),
      InferType(sentence).Name(),
      h.consequencesOf(sentence, ContextSentences(sentences, idx)),
      Prefix(sentence, ContextLength),
      SectionPrefix + NatToString(idx),
      info.sortKey)
  }

  /** The obligations found in the first n sentences, in order. */
  function ObligationsUpTo(sentences: seq<string>, n: nat, h: Helpers): seq<Obligation>
    requires n <= |sentences|
  {
    if n == 0 then []
    else
      ObligationsUpTo(sentences, n - 1, h)
        + (if IsObligation(sentences[n - 1]) then [ObligationAt(sentences, n - 1, h)] else [])
  }

  /** The positions of the sentences among the first n that become obligations. */
  function ObligationIndices(sentences: seq<string>, n: nat): seq<nat>
    requires n <= |sentences|
  {
    Positions(sentences, IsObligation, n)
  }

  /** Python's _extract_with_rules. */
  method ExtractWithRules(text: string, h: Helpers) returns (obligations: seq<Obligation>)
    ensures var sentences := Split(SentenceEnd, text);
      obligations == ObligationsUpTo(sentences, |sentences|, h)
  {
    var sentences := Split(SentenceEnd, text);
    obligations := [];
    var i := 0;
    while i < |sentences|
      invariant 0 <= i <= |sentences|
      invariant obligations == ObligationsUpTo(sentences, i, h)
    {
      var sentence := Strip(sentences[i]);
      if KeepsSentence(sentence) {
        obligations := obligations + [ObligationAt(sentences, i, h)];
      }
      i := i + 1;
    }
  }

  // ----- which sentences become obligations -----

  lemma {:induction false} IndicesSelect(sentences: seq<string>, n: nat, h: Helpers)
    requires n <= |sentences|
    ensures var ix, obs := ObligationIndices(sentences, n), ObligationsUpTo(sentences, n, h);
      && |ix| == |obs|
      && (forall k :: 0 <= k < |ix| ==> ix[k] < n && obs[k] == ObligationAt(sentences, ix[k], h))
  {
    if n > 0 {
      IndicesSelect(sentences, n - 1, h);
    }
  }

  /**
   * The obligations are exactly those of the sentences that pass the length and keyword
   * checks, one each, in document order: the k-th obligation is built from the sentence at
   * the k-th selected position, the positions increase, and a position is selected exactly
   * when its stripped sentence has at least twenty characters and an obligation keyword.
   */
  lemma {:induction false} ObligationsSpec(sentences: seq<string>, h: Helpers)
    ensures var ix, obs := ObligationIndices(sentences, |sentences|), ObligationsUpTo(sentences, |sentences|, h);
      && |ix| == |obs|
      && StrictlyIncreasing(ix)
      && (forall k :: 0 <= k < |ix| ==> ix[k] < |sentences| && obs[k] == ObligationAt(sentences, ix[k], h))
      && (forall i :: i in ix <==> 0 <= i < |sentences| && IsObligation(sentences[i]))
  {
    IndicesSelect(sentences, |sentences|, h);
    PositionsOrdered(sentences, IsObligation, |sentences|);
    PositionsMembers(sentences, IsObligation, |sentences|);
  }

  /**
   * A sentence shorter than twenty characters once stripped, or one without any obligation
   * keyword, yields no obligation.
   */
  lemma {:induction false} SkippedSentences(sentences: seq<string>, i: nat)
    requires i < |sentences|
    requires |Strip(sentences[i])| < MinSentenceLength
      || !AnyContained(Lower(Strip(sentences[i])), ObligationKeywords)
    ensures i !in ObligationIndices(sentences, |sentences|)
  {
    PositionsMembers(sentences, IsObligation, |sentences|);
  }

  // ----- what every extracted obligation looks like -----

  /** The shape of every obligation the rules record. */
  predicate WellFormed(o: Obligation) {
    && |o.action| <= MaxActionLength && SingleSpaced(o.action)
    && MinSentenceLength <= |o.context| <= ContextLength && IsTrimmed(o.context[..1])
    && PriorityWeight(o.priority) > 0
    && (exists t: ObligationType :: o.obligationType == t.Name())
    && SectionPrefix <= o.section && IdPrefix <= o.id
  }

  lemma {:induction false} ObligationAtWellFormed(sentences: seq<string>, idx: nat, h: Helpers)
    requires idx < |sentences| && IsObligation(sentences[idx])
    ensures WellFormed(ObligationAt(sentences, idx, h))
  {
    var sentence := Strip(sentences[idx]);
    var o := ObligationAt(sentences, idx, h);
    CleanActionTextSingleSpaced(sentence);
    CleanActionTextLength(sentence);
    PriorityWeightOrder(InferPriority(sentence), InferPriority(sentence));
    assert o.obligationType == InferType(sentence).Name();
    assert o.section == SectionPrefix + NatToString(idx);
    assert IsTrimmed(o.context[..1]) by {
      assert o.context[0] == sentence[0];
    }
  }

  /**
   * Every extracted obligation has a single-spaced action of at most 150 characters, a context
   * of 20 to 200 characters that starts with no whitespace, a priority with a positive weight,
   * a type that is one of the enum's values, and the id and section prefixes.
   */
  lemma {:induction false} ObligationsWellFormed(sentences: seq<string>, n: nat, h: Helpers)
    requires n <= |sentences|
    ensures forall o :: o in ObligationsUpTo(sentences, n, h) ==> WellFormed(o)
  {
    if n > 0 {
      ObligationsWellFormed(sentences, n - 1, h);
      if IsObligation(sentences[n - 1]) {
        ObligationAtWellFormed(sentences, n - 1, h);
      }
    }
  }

  /** A sentence that says "must" is an obligation of at least HIGH priority. */
  lemma {:induction false} MustSentenceIsHighPriority(sentences: seq<string>, idx: nat, h: Helpers)
    requires idx < |sentences| && |Strip(sentences[idx])| >= MinSentenceLength
    requires Contains(Lower(Strip(sentences[idx])), "must")
    ensures IsObligation(sentences[idx])
    ensures PriorityWeight(ObligationAt(sentences, idx, h).priority) >= 3
  {
    assert ObligationKeywords[1] == "must";
    MustIsHighPriority(Strip(sentences[idx]));
  }
}
