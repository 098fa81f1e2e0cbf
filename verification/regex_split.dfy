/**
 * Python's re.split for the two delimiter patterns the program splits on: the paragraph break
 * r'\n\s*\n+' of the clause segmenter and the sentence end r'[.!?]\s+' of the rule-based
 * obligation extractor.
 * re.split scans left to right, takes the leftmost match, resumes scanning where it ended and
 * returns the text between consecutive matches; neither pattern matches the empty string.
 */
module RegexSplit {
  import opened Base
  import opened Text

  datatype Delimiter = ParagraphBreak | SentenceEnd

  /** A slice t[start..end] of the text. */
  datatype Span = Span(start: nat, end: nat)

  /** End (exclusive) of the run of whitespace that starts at i. */
  function SpaceRunEnd(t: string, i: nat): (j: nat)
    requires i <= |t|
    ensures i <= j <= |t|
    ensures forall k :: i <= k < j ==> IsSpace(t[k])
    ensures j == |t| || !IsSpace(t[j])
    decreases |t| - i
  {
    if i < |t| && IsSpace(t[i]) then SpaceRunEnd(t, i + 1) else i
  }

  /** Index of the last newline in t[lo..hi], if there is one. */
  function LastNewline(t: string, lo: nat, hi: nat): (r: Option<nat>)
    requires lo <= hi <= |t|
    ensures r.Some? ==> lo <= r.value < hi && t[r.value] == '\n'
    ensures forall k :: (if r.Some? then r.value + 1 else lo) <= k < hi ==> t[k] != '\n'
    decreases hi - lo
  {
    if lo == hi then None
    else if t[hi - 1] == '\n' then Some(hi - 1)
    else LastNewline(t, lo, hi - 1)
  }

  predicate IsSentencePunct(c: char) {
    c == '.' || c == '!' || c == '?'
  }

  /**
   * Where a match of the delimiter that starts at i ends, if one starts there. For r'\n\s*\n+'
   * the matcher takes \s* greedily and gives characters back until \n+ can match, so the match
   * ends just after the last newline of the whitespace run that follows the first newline.
   */
  function MatchAt(d: Delimiter, t: string, i: nat): (r: Option<nat>)
    requires i < |t|
    ensures r.Some? ==> i + 1 < r.value <= |t|
  {
    match d
    case ParagraphBreak =>
      if t[i] != '\n' then None
      else (
        match LastNewline(t, i + 1, SpaceRunEnd(t, i + 1))
        case None => None
        case Some(k) => Some(k + 1))
    case SentenceEnd =>
      if IsSentencePunct(t[i]) && i + 1 < |t| && IsSpace(t[i + 1]) then Some(SpaceRunEnd(t, i + 1))
      else None
  }

  predicate ValidSpans(t: string, sp: seq<Span>) {
    forall k :: 0 <= k < |sp| ==> sp[k].start <= sp[k].end <= |t|
  }

  /** The scan of re.split from position i, the current piece having begun at start. */
  function SpansFrom(d: Delimiter, t: string, start: nat, i: nat): (sp: seq<Span>)
    requires start <= i <= |t|
    ensures |sp| >= 1 && sp[0].start == start && ValidSpans(t, sp)
    decreases |t| - i
  {
    if i == |t| then [Span(start, |t|)]
    else
      match MatchAt(d, t, i)
      case Some(e) => [Span(start, i)] + SpansFrom(d, t, e, e)
      case None => SpansFrom(d, t, start, i + 1)
  }

  /** The slices of t that the spans name. */
  function Pieces(t: string, sp: seq<Span>): (ps: seq<string>)
    requires ValidSpans(t, sp)
    ensures |ps| == |sp|
    ensures forall k :: 0 <= k < |sp| ==> ps[k] == t[sp[k].start..sp[k].end]
  {
    if sp == [] then [] else [t[sp[0].start..sp[0].end]] + Pieces(t, sp[1..])
  }

  /** Python's re.split(pattern, t). */
  function Split(d: Delimiter, t: string): (ps: seq<string>)
  {
    Pieces(t, SpansFrom(d, t, 0, 0))
  }

  /**
   * What re.split computes, stated without the scan: the spans cover t from 0 to |t|, every gap
   * between two consecutive spans is a match of the delimiter, and no match starts inside a span
   * (every match is found, leftmost first).
   */
  ghost predicate Tiles(d: Delimiter, t: string, sp: seq<Span>)
  {
    && |sp| >= 1
    && sp[0].start == 0
    && sp[|sp| - 1].end == |t|
    && ValidSpans(t, sp)
    && (forall k :: 0 <= k < |sp| - 1 ==> sp[k].end < |t| && MatchAt(d, t, sp[k].end) == Some(sp[k + 1].start))
    && (forall k, p :: 0 <= k < |sp| && sp[k].start <= p < sp[k].end ==> MatchAt(d, t, p) == None)
  }

  /** The tail of the scan, from a point before which (within the piece) nothing matched. */
  lemma {:induction false} SpansFromTile(d: Delimiter, t: string, start: nat, i: nat)
    requires start <= i <= |t|
    requires forall p :: start <= p < i ==> MatchAt(d, t, p) == None
    ensures TilesFrom(d, t, SpansFrom(d, t, start, i))
    decreases |t| - i
  {
    if i < |t| {
      match MatchAt(d, t, i)
      case Some(e) =>
        SpansFromTile(d, t, e, e);
        PrependTile(d, t, start, i, SpansFrom(d, t, e, e));
      case None =>
        SpansFromTile(d, t, start, i + 1);
    }
  }

  /** A piece with no match inside, followed by the match at its end and a tiling of the rest. */
  lemma {:induction false} PrependTile(d: Delimiter, t: string, start: nat, i: nat, rest: seq<Span>)
    requires start <= i < |t| && MatchAt(d, t, i).Some?
    requires forall p :: start <= p < i ==> MatchAt(d, t, p) == None
    requires TilesFrom(d, t, rest) && rest[0].start == MatchAt(d, t, i).value
    ensures TilesFrom(d, t, [Span(start, i)] + rest)
  {
    var sp := [Span(start, i)] + rest;
    forall k | 0 <= k < |sp| - 1
      ensures sp[k].end < |t| && MatchAt(d, t, sp[k].end) == Some(sp[k + 1].start)
    {
      if k > 0 { assert sp[k] == rest[k - 1] && sp[k + 1] == rest[k]; }
    }
    forall k, p | 0 <= k < |sp| && sp[k].start <= p < sp[k].end
      ensures MatchAt(d, t, p) == None
    {
      if k > 0 { assert sp[k] == rest[k - 1]; }
    }
    assert ValidSpans(t, sp) by {
      forall k | 0 <= k < |sp| ensures sp[k].start <= sp[k].end <= |t| {
        if k > 0 { assert sp[k] == rest[k - 1]; }
      }
    }
  }

  /** re.split's scan produces a tiling. */
  lemma {:induction false} SplitTiles(d: Delimiter, t: string)
    ensures Tiles(d, t, SpansFrom(d, t, 0, 0))
  {
    SpansFromTile(d, t, 0, 0);
    assert TilesFrom(d, t, SpansFrom(d, t, 0, 0));
  }

  /** A tiling is unique: the characterization pins down the result of the scan. */
  lemma {:induction false} TilesUnique(d: Delimiter, t: string, a: seq<Span>, b: seq<Span>)
    requires Tiles(d, t, a) && Tiles(d, t, b)
    ensures a == b
  {
    RestEqual(d, t, a, b);
  }

  /** A tiling of t from wherever its first span starts. */
  ghost predicate TilesFrom(d: Delimiter, t: string, sp: seq<Span>)
  {
    && |sp| >= 1
    && sp[|sp| - 1].end == |t|
    && ValidSpans(t, sp)
    && (forall k :: 0 <= k < |sp| - 1 ==> sp[k].end < |t| && MatchAt(d, t, sp[k].end) == Some(sp[k + 1].start))
    && (forall k, p :: 0 <= k < |sp| && sp[k].start <= p < sp[k].end ==> MatchAt(d, t, p) == None)
  }

  lemma {:induction false} RestEqual(d: Delimiter, t: string, a: seq<Span>, b: seq<Span>)
    requires TilesFrom(d, t, a) && TilesFrom(d, t, b) && a[0].start == b[0].start
    ensures a == b
    decreases |a|
  {
    FirstSpanAgrees(d, t, a, b);
    if |a| > 1 {
      TilesFromTail(d, t, a);
      TilesFromTail(d, t, b);
      RestEqual(d, t, a[1..], b[1..]);
      assert a == [a[0]] + a[1..] && b == [b[0]] + b[1..];
    }
  }

  /** The first position at or after i where a match starts, or |t| when there is none. */
  function FirstMatchFrom(d: Delimiter, t: string, i: nat): (p: nat)
    requires i <= |t|
    decreases |t| - i
  {
    if i == |t| then |t|
    else if MatchAt(d, t, i).Some? then i
    else FirstMatchFrom(d, t, i + 1)
  }

  lemma {:induction false} FirstMatchAt(d: Delimiter, t: string, i: nat, e: nat)
    requires i <= e <= |t|
    requires forall p :: i <= p < e ==> MatchAt(d, t, p) == None
    requires e == |t| || MatchAt(d, t, e).Some?
    ensures FirstMatchFrom(d, t, i) == e
    decreases e - i
  {
    if i < e {
      FirstMatchAt(d, t, i + 1, e);
    }
  }

  /** In a tiling, the first span ends where the first match after its start begins. */
  lemma {:induction false} FirstSpanEnd(d: Delimiter, t: string, a: seq<Span>)
    requires TilesFrom(d, t, a)
    ensures a[0].end == FirstMatchFrom(d, t, a[0].start)
    ensures |a| > 1 <==> a[0].end < |t|
  {
    if |a| > 1 {
      assert a[0].end < |t| && MatchAt(d, t, a[0].end) == Some(a[1].start);
    }
    FirstMatchAt(d, t, a[0].start, a[0].end);
  }

  /** Two tilings from the same start agree on their first span and on where the next starts. */
  lemma {:induction false} FirstSpanAgrees(d: Delimiter, t: string, a: seq<Span>, b: seq<Span>)
    requires TilesFrom(d, t, a) && TilesFrom(d, t, b) && a[0].start == b[0].start
    ensures a[0] == b[0] && (|a| == 1 <==> |b| == 1)
    ensures |a| > 1 ==> a[1].start == b[1].start
  {
    FirstSpanEnd(d, t, a);
    FirstSpanEnd(d, t, b);
    if |a| > 1 {
      assert MatchAt(d, t, a[0].end) == Some(a[1].start);
      assert MatchAt(d, t, b[0].end) == Some(b[1].start);
    }
  }

  lemma {:induction false} TilesFromTail(d: Delimiter, t: string, sp: seq<Span>)
    requires TilesFrom(d, t, sp) && |sp| > 1
    ensures TilesFrom(d, t, sp[1..])
  {
    var r := sp[1..];
    forall k | 0 <= k < |r| - 1 ensures r[k].end < |t| && MatchAt(d, t, r[k].end) == Some(r[k + 1].start) {
      assert r[k] == sp[k + 1] && r[k + 1] == sp[k + 2];
    }
    forall k, p | 0 <= k < |r| && r[k].start <= p < r[k].end ensures MatchAt(d, t, p) == None {
      assert r[k] == sp[k + 1];
    }
  }

  /** Two newlines with nothing but whitespace between them: a paragraph break. */
  predicate NoBlankLine(s: string) {
    forall a, b :: 0 <= a < b < |s| && s[a] == '\n' && s[b] == '\n' ==> !AllSpace(s[a + 1..b])
  }

  /** A punctuation mark directly followed by whitespace: the end of a sentence. */
  predicate NoSentenceEnd(s: string) {
    forall p :: 0 <= p < |s| - 1 ==> !(IsSentencePunct(s[p]) && IsSpace(s[p + 1]))
  }

  lemma {:induction false} RunReaches(t: string, i: nat, q: nat)
    requires i <= q < |t|
    requires forall k :: i <= k <= q ==> IsSpace(t[k])
    ensures SpaceRunEnd(t, i) > q
    decreases q - i
  {
    if i < q {
      RunReaches(t, i + 1, q);
    }
  }

  /** A blank line starting at p is where a paragraph-break match starts. */
  lemma {:induction false} BlankLineMatches(t: string, p: nat, q: nat)
    requires p < q < |t| && t[p] == '\n' && t[q] == '\n'
    ensures AllSpace(t[p + 1..q]) ==> MatchAt(ParagraphBreak, t, p).Some?
  {
    if AllSpace(t[p + 1..q]) {
      forall k | p + 1 <= k <= q ensures IsSpace(t[k]) {
        if k < q { assert t[p + 1..q][k - p - 1] == t[k]; }
      }
      RunReaches(t, p + 1, q);
      assert p + 1 <= q < SpaceRunEnd(t, p + 1) && t[q] == '\n';
    }
  }

  /** The pieces of a paragraph split hold no paragraph break. */
  lemma {:induction false} ParagraphPiecesUnbroken(t: string)
    ensures forall piece :: piece in Split(ParagraphBreak, t) ==> NoBlankLine(piece)
  {
    var sp := SpansFrom(ParagraphBreak, t, 0, 0);
    var ps := Split(ParagraphBreak, t);
    SplitTiles(ParagraphBreak, t);
    forall k | 0 <= k < |ps| ensures NoBlankLine(ps[k]) {
      var x, y := sp[k].start, sp[k].end;
      assert forall p :: x <= p < y ==> MatchAt(ParagraphBreak, t, p) == None;
      SpanUnbroken(t, x, y);
    }
  }

  /** A slice inside which no paragraph-break match starts holds no blank line. */
  lemma {:induction false} SpanUnbroken(t: string, x: nat, y: nat)
    requires x <= y <= |t|
    requires forall p :: x <= p < y ==> MatchAt(ParagraphBreak, t, p) == None
    ensures NoBlankLine(t[x..y])
  {
    var s := t[x..y];
    forall a, b | 0 <= a < b < |s| && s[a] == '\n' && s[b] == '\n' ensures !AllSpace(s[a + 1..b]) {
      assert s[a] == t[x + a] && s[b] == t[x + b];
      BlankLineMatches(t, x + a, x + b);
      var u, v := s[a + 1..b], t[x + a + 1..x + b];
      assert |u| == |v| && forall j :: 0 <= j < |u| ==> u[j] == v[j];
      assert u == v;
    }
  }

  /** The pieces of a sentence split hold no sentence end. */
  lemma {:induction false} SentencePiecesUnbroken(t: string)
    ensures forall piece :: piece in Split(SentenceEnd, t) ==> NoSentenceEnd(piece)
  {
    var sp := SpansFrom(SentenceEnd, t, 0, 0);
    var ps := Split(SentenceEnd, t);
    SplitTiles(SentenceEnd, t);
    forall k | 0 <= k < |ps| ensures NoSentenceEnd(ps[k]) {
      var x, y := sp[k].start, sp[k].end;
      var s := ps[k];
      assert s == t[x..y];
      forall p | 0 <= p < |s| - 1 ensures !(IsSentencePunct(s[p]) && IsSpace(s[p + 1])) {
        assert MatchAt(SentenceEnd, t, x + p) == None;
        assert s[p] == t[x + p] && s[p + 1] == t[x + p + 1];
      }
    }
  }

  /** A paragraph-break match is all whitespace, from a newline to a newline. */
  lemma {:induction false} ParagraphGap(t: string, i: nat)
    requires i < |t| && MatchAt(ParagraphBreak, t, i).Some?
    ensures var e := MatchAt(ParagraphBreak, t, i).value;
      t[i] == '\n' && t[e - 1] == '\n' && AllSpace(t[i..e])
  {
    var e := MatchAt(ParagraphBreak, t, i).value;
    var j := SpaceRunEnd(t, i + 1);
    forall k | 0 <= k < e - i ensures IsSpace(t[i..e][k]) {
      assert t[i..e][k] == t[i + k];
    }
  }

  /** The pieces written one after the other. */
  function Concat(ps: seq<string>): string
  {
    if ps == [] then [] else ps[0] + Concat(ps[1..])
  }

  lemma {:induction false} ParagraphScanKeepsText(t: string, start: nat, i: nat)
    requires start <= i <= |t|
    ensures NonSpace(Concat(Pieces(t, SpansFrom(ParagraphBreak, t, start, i)))) == NonSpace(t[start..])
    decreases |t| - i
  {
    var sp := SpansFrom(ParagraphBreak, t, start, i);
    if i == |t| {
      assert sp == [Span(start, |t|)];
      assert sp[1..] == [] && t[start..|t|] == t[start..];
      assert Pieces(t, sp) == [t[start..]];
      var one := [t[start..]];
      assert one[1..] == [];
      assert Concat(one) == t[start..] + Concat([]) == t[start..];
    } else {
      match MatchAt(ParagraphBreak, t, i)
      case Some(e) =>
        ParagraphScanKeepsText(t, e, e);
        var rest := SpansFrom(ParagraphBreak, t, e, e);
        assert sp == [Span(start, i)] + rest;
        assert sp[1..] == rest;
        assert Pieces(t, sp) == [t[start..i]] + Pieces(t, rest);
        PiecesConcat(t[start..i], Pieces(t, rest));
        NonSpaceConcat(t[start..i], Concat(Pieces(t, rest)));
        GapDropsSpace(t, start, i, e);
      case None =>
        ParagraphScanKeepsText(t, start, i + 1);
    }
  }

  lemma {:induction false} PiecesConcat(p: string, ps: seq<string>)
    ensures Concat([p] + ps) == p + Concat(ps)
  {
    assert ([p] + ps)[1..] == ps;
  }

  /** Cutting out a paragraph-break match loses only whitespace. */
  lemma {:induction false} GapDropsSpace(t: string, start: nat, i: nat, e: nat)
    requires start <= i < |t| && MatchAt(ParagraphBreak, t, i) == Some(e)
    ensures NonSpace(t[start..]) == NonSpace(t[start..i]) + NonSpace(t[e..])
  {
    ParagraphGap(t, i);
    NonSpaceOfSpace(t[i..e]);
    assert t[start..] == t[start..i] + (t[i..e] + t[e..]);
    NonSpaceConcat(t[i..e], t[e..]);
    NonSpaceConcat(t[start..i], t[i..e] + t[e..]);
  }

  /** Splitting into paragraphs drops whitespace only: every other character stays, in order. */
  lemma {:induction false} ParagraphSplitKeepsText(t: string)
    ensures NonSpace(Concat(Split(ParagraphBreak, t))) == NonSpace(t)
  {
    ParagraphScanKeepsText(t, 0, 0);
    assert t[0..] == t;
  }
}
