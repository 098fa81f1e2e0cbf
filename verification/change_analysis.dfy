/**
 * analyze_semantic_diff, once the generative model has answered: the reply is stripped, the
 * text from its first '{' to its last '}' is handed to the JSON decoder, and when there is no
 * such text, or it does not decode, or the call failed, a fixed-shape analysis is returned.
 */
module ChangeAnalysis {
  import opened Text

  /** What the call to the generative model produced: its reply text, or the error it raised. */
  datatype ModelReply = Reply(text: string) | CallFailed(message: string)

  /**
   * The analysis of one change: the object the JSON decoder built from a slice of the reply
   * (kept as that slice, since the decoder is not part of this model), or the three fields
   * the fallbacks fill in.
   */
  datatype Analysis =
    | Decoded(json: string)
    | Fields(summary: string, implication: string, classification: string)

  const FallbackSummary: string := "Changes detected between clauses"
  const FailedSummary: string := "Analysis failed"
  const FailedPrefix: string := "Could not analyze changes: "
  const Neutral: string := "Neutral"

  /** Python's s.find(c) when c occurs in s. */
  function FindFirst(s: string, c: char): (i: nat)
    requires HasChar(s, c)
    ensures i < |s| && s[i] == c
    ensures forall j :: 0 <= j < i ==> s[j] != c
  {
    if s[0] == c then 0
    else
      assert HasChar(s[1..], c) by {
        var j :| 0 <= j < |s| && s[j] == c;
        assert s[1..][j - 1] == c;
      }
      1 + FindFirst(s[1..], c)
  }

  /** Python's s.rfind(c) when c occurs in s. */
  function FindLast(s: string, c: char): (i: nat)
    requires HasChar(s, c)
    ensures i < |s| && s[i] == c
    ensures forall j :: i < j < |s| ==> s[j] != c
  {
    var n := |s| - 1;
    if s[n] == c then n
    else
      assert HasChar(s[..n], c) by {
        var j :| 0 <= j < |s| && s[j] == c;
        assert s[..n][j] == c;
      }
      FindLast(s[..n], c)
  }

  /**
   * Python's t[t.find('{'):t.rfind('}') + 1]: the text from the first '{' through the last
   * '}', or nothing when that '}' comes before the '{'.
   */
  function BraceSpan(t: string): string
    requires HasChar(t, '{') && HasChar(t, '}')
  {
    var start, end := FindFirst(t, '{'), FindLast(t, '}') + 1;
    if start <= end then t[start..end] else []
  }

  /** Python's analyze_semantic_diff, given the model's reply and the JSON decoder's verdict. */
  function AnalyzeSemanticDiff(reply: ModelReply, decodes: string -> bool): Analysis
  {
    match reply
    case CallFailed(message) => Fields(FailedSummary, FailedPrefix + message, Neutral)
    case Reply(text) =>
      var t := Strip(text);
      if HasChar(t, '{') && HasChar(t, '}') then
        var json := BraceSpan(t);
        // json.loads("") always raises JSONDecodeError
        if json != [] && decodes(json) then Decoded(json)
        else Fields(FallbackSummary, text, Neutral)
      else Fields(FallbackSummary, t, Neutral)
  }

  /**
   * What is decoded is the text from the first '{' through the last '}' of the stripped
   * reply, and the decoder accepted it.
   */
  lemma {:induction false} DecodedIsBraced(reply: ModelReply, decodes: string -> bool) returns (i: nat, k: nat)
    requires AnalyzeSemanticDiff(reply, decodes).Decoded?
    ensures reply.Reply? && BracedAt(Strip(reply.text), i, k)
    ensures AnalyzeSemanticDiff(reply, decodes).json == Strip(reply.text)[i..k + 1]
    ensures decodes(AnalyzeSemanticDiff(reply, decodes).json)
  {
    var t := Strip(reply.text);
    i, k := FindFirst(t, '{'), FindLast(t, '}');
  }

  /** Conversely, a stripped reply with such a span that the decoder accepts is decoded. */
  lemma {:induction false} BracedIsDecoded(text: string, decodes: string -> bool, i: int, k: int)
    requires BracedAt(Strip(text), i, k) && decodes(Strip(text)[i..k + 1])
    ensures AnalyzeSemanticDiff(Reply(text), decodes) == Decoded(Strip(text)[i..k + 1])
  {
    BracedAtIsFirstLast(Strip(text), i, k);
  }

  /** t[i] is the first '{' of t, t[k] its last '}', and the '{' comes first. */
  predicate BracedAt(t: string, i: int, k: int) {
    && 0 <= i <= k < |t|
    && t[i] == '{' && t[k] == '}'
    && (forall j :: 0 <= j < i ==> t[j] != '{')
    && (forall j :: k < j < |t| ==> t[j] != '}')
  }

  lemma {:induction false} BracedAtIsFirstLast(t: string, i: int, k: int)
    requires BracedAt(t, i, k)
    ensures HasChar(t, '{') && HasChar(t, '}')
    ensures FindFirst(t, '{') == i && FindLast(t, '}') == k
  {
    assert t[i] == '{' && t[k] == '}';
    var f, l := FindFirst(t, '{'), FindLast(t, '}');
    assert !(f < i) && !(i < f);
    assert !(l < k) && !(k < l);
  }

  /** Whatever is not decoded is classified Neutral: only a decoded object can say otherwise. */
  lemma {:induction false} FallbacksNeutral(reply: ModelReply, decodes: string -> bool)
    ensures var a := AnalyzeSemanticDiff(reply, decodes);
      a.Fields? ==> a.classification == Neutral && (a.summary == FallbackSummary || a.summary == FailedSummary)
  {
  }

  /**
   * A stripped reply that lacks a '{' or lacks a '}' is kept whole as the implication, only
   * stripped; nothing but surrounding whitespace is lost.
   */
  lemma {:induction false} PlainReplyKept(text: string, decodes: string -> bool)
    requires !(HasChar(Strip(text), '{') && HasChar(Strip(text), '}'))
    ensures AnalyzeSemanticDiff(Reply(text), decodes) == Fields(FallbackSummary, Strip(text), Neutral)
    ensures NonSpace(AnalyzeSemanticDiff(Reply(text), decodes).implication) == NonSpace(text)
  {
    NonSpaceStrip(text);
  }

  /** In particular a reply with no '{' anywhere is kept that way. */
  lemma {:induction false} BracelessReplyKept(text: string, decodes: string -> bool)
    requires !HasChar(text, '{')
    ensures AnalyzeSemanticDiff(Reply(text), decodes) == Fields(FallbackSummary, Strip(text), Neutral)
  {
    var t := Strip(text);
    StripSlice(text);
    forall j | 0 <= j < |t| ensures t[j] != '{' {
      assert t[j] == text[StripOffset(text) + j];
    }
  }

  /**
   * A reply that has both braces but no first-'{'-to-last-'}' span the decoder accepts (the
   * '}' may even come first) falls back with the reply as the model returned it, unstripped.
   */
  lemma {:induction false} UndecodableReplyKeptRaw(text: string, decodes: string -> bool)
    requires HasChar(Strip(text), '{') && HasChar(Strip(text), '}')
    requires forall i, k :: BracedAt(Strip(text), i, k) ==> !decodes(Strip(text)[i..k + 1])
    ensures AnalyzeSemanticDiff(Reply(text), decodes) == Fields(FallbackSummary, text, Neutral)
  {
    var t := Strip(text);
    var i, k := FindFirst(t, '{'), FindLast(t, '}');
    if i <= k {
      assert BracedAt(t, i, k);
      assert !decodes(t[i..k + 1]);
      assert BraceSpan(t) == t[i..k + 1];
    } else {
      assert BraceSpan(t) == [];
    }
  }

  /** A failed call is reported with its error message after a fixed prefix. */
  lemma {:induction false} FailureReported(message: string, decodes: string -> bool)
    ensures var a := AnalyzeSemanticDiff(CallFailed(message), decodes);
      && a.Fields? && a.summary == FailedSummary
      && FailedPrefix <= a.implication && a.implication[|FailedPrefix|..] == message
  {
  }
}
