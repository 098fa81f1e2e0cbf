/**
 * _clean_action_text: ' '.join(text.split()) collapses every whitespace run to one space and
 * drops leading and trailing whitespace; the result is cut to 147 characters plus "..." when
 * it is longer than 150.
 */
module ActionText {
  import opened Text

  /** Most characters an action text keeps. */
  const MaxActionLength: nat := 150
  const Ellipsis: string := "..."

  /** A word of str.split(): non-empty, no whitespace. */
  predicate IsWord(w: string) {
    |w| > 0 && forall i :: 0 <= i < |w| ==> !IsSpace(w[i])
  }

  /** Length of the run of non-whitespace characters that starts s. */
  function WordLength(s: string): (n: nat)
    ensures n <= |s|
    ensures forall i :: 0 <= i < n ==> !IsSpace(s[i])
    ensures n == |s| || IsSpace(s[n])
  {
    if s == [] || IsSpace(s[0]) then 0 else 1 + WordLength(s[1..])
  }

  /** Python's str.split() with no separator. */
  function Words(s: string): seq<string>
    decreases |s|
  {
    var t := TrimStart(s);
    if t == [] then []
    else
      var n := WordLength(t);
      [t[..n]] + Words(t[n..])
  }

  /** Python's ' '.join(ws). */
  function JoinWords(ws: seq<string>): string
  {
    if |ws| == 0 then []
    else if |ws| == 1 then ws[0]
    else ws[0] + " " + JoinWords(ws[1..])
  }

  /** ' '.join(s.split()). */
  function Collapse(s: string): string
  {
    JoinWords(Words(s))
  }

  /**
   * Every whitespace character is a plain space with a non-whitespace character on each side:
   * no leading or trailing whitespace, no runs, no tabs or newlines.
   */
  predicate SingleSpaced(s: string) {
    forall i :: 0 <= i < |s| && IsSpace(s[i]) ==>
      s[i] == ' ' && 0 < i < |s| - 1 && !IsSpace(s[i - 1]) && !IsSpace(s[i + 1])
  }

  /** Python's _clean_action_text. */
  function CleanActionText(text: string): string
  {
    var collapsed := Collapse(text);
    if |collapsed| > MaxActionLength then collapsed[..MaxActionLength - 3] + Ellipsis else collapsed
  }

  // ----- the words of a string -----

  lemma {:induction false} WordLengthAt(s: string, n: nat)
    requires n <= |s| && (forall i :: 0 <= i < n ==> !IsSpace(s[i])) && (n == |s| || IsSpace(s[n]))
    ensures WordLength(s) == n
  {
    var m := WordLength(s);
    assert !(m < n);
    assert !(n < m);
  }

  lemma {:induction false} WordsAreWords(s: string)
    ensures forall w :: w in Words(s) ==> IsWord(w)
    decreases |s|
  {
    var t := TrimStart(s);
    if t != [] {
      var n := WordLength(t);
      WordsAreWords(t[n..]);
    }
  }

  /** The words of a string, put end to end. */
  function Flatten(ws: seq<string>): string
  {
    if ws == [] then [] else ws[0] + Flatten(ws[1..])
  }

  lemma {:induction false} NonSpaceOfWord(w: string)
    requires forall i :: 0 <= i < |w| ==> !IsSpace(w[i])
    ensures NonSpace(w) == w
    decreases |w|
  {
    if w != [] {
      NonSpaceOfWord(w[1..]);
    }
  }

  /** One step of str.split(): the first word, and the text after it. */
  lemma {:induction false} WordsStep(s: string) returns (w: string, rest: string)
    requires TrimStart(s) != []
    ensures IsWord(w) && TrimStart(s) == w + rest && |rest| < |s|
    ensures Words(s) == [w] + Words(rest)
  {
    var t := TrimStart(s);
    var n := WordLength(t);
    w, rest := t[..n], t[n..];
    assert t == w + rest;
  }

  /** The words hold exactly the non-whitespace characters of the string, in order. */
  lemma {:induction false} WordsKeepText(s: string)
    ensures Flatten(Words(s)) == NonSpace(s)
    decreases |s|
  {
    NonSpaceTrimStart(s);
    if TrimStart(s) != [] {
      var w, rest := WordsStep(s);
      WordsKeepText(rest);
      assert Flatten([w] + Words(rest)) == w + Flatten(Words(rest));
      NonSpaceConcat(w, rest);
      NonSpaceOfWord(w);
    } else {
      assert Words(s) == [];
    }
  }

  /** Joining with single spaces adds nothing but spaces. */
  lemma {:induction false} JoinKeepsText(ws: seq<string>)
    requires forall w :: w in ws ==> IsWord(w)
    ensures NonSpace(JoinWords(ws)) == Flatten(ws)
  {
    if |ws| == 1 {
      assert ws[0] in ws;
      NonSpaceOfWord(ws[0]);
      assert Flatten(ws) == ws[0] + Flatten([]);
    } else if |ws| > 1 {
      var rest := ws[1..];
      assert forall w :: w in rest ==> w in ws;
      JoinKeepsText(rest);
      assert ws[0] in ws;
      NonSpaceOfWord(ws[0]);
      NonSpaceConcat(ws[0] + " ", JoinWords(rest));
      NonSpaceConcat(ws[0], " ");
      assert NonSpace(" ") == [] by { NonSpaceOfSpace(" "); }
    }
  }

  /** Collapsing whitespace keeps every other character, in order. */
  lemma {:induction false} CollapseKeepsText(s: string)
    ensures NonSpace(Collapse(s)) == NonSpace(s)
  {
    WordsAreWords(s);
    JoinKeepsText(Words(s));
    WordsKeepText(s);
  }

  // ----- joined words are single-spaced -----

  lemma {:induction false} JoinEnds(ws: seq<string>)
    requires ws != [] && forall w :: w in ws ==> IsWord(w)
    ensures |JoinWords(ws)| > 0 && !IsSpace(JoinWords(ws)[0]) && !IsSpace(JoinWords(ws)[|JoinWords(ws)| - 1])
  {
    assert ws[0] in ws;
    if |ws| > 1 {
      var rest := ws[1..];
      assert forall w :: w in rest ==> w in ws;
      JoinEnds(rest);
      var j := JoinWords(ws);
      assert j == ws[0] + " " + JoinWords(rest);
      assert j[0] == ws[0][0];
      assert j[|j| - 1] == JoinWords(rest)[|JoinWords(rest)| - 1];
    }
  }

  lemma {:induction false} JoinSingleSpaced(ws: seq<string>)
    requires forall w :: w in ws ==> IsWord(w)
    ensures SingleSpaced(JoinWords(ws))
  {
    if |ws| == 1 {
      assert ws[0] in ws;
    } else if |ws| > 1 {
      var w, rest := ws[0], ws[1..];
      assert w in ws;
      assert forall v :: v in rest ==> v in ws;
      JoinSingleSpaced(rest);
      JoinEnds(rest);
      var j, tail := JoinWords(ws), JoinWords(rest);
      assert j == w + " " + tail;
      forall i | 0 <= i < |j| && IsSpace(j[i])
        ensures j[i] == ' ' && 0 < i < |j| - 1 && !IsSpace(j[i - 1]) && !IsSpace(j[i + 1])
      {
        assert i >= |w|;
        if i > |w| {
          var k := i - |w| - 1;
          assert j[i] == tail[k];
          assert k > 0;
          assert j[i - 1] == tail[k - 1];
          assert j[i + 1] == tail[k + 1];
        } else {
          assert j[i - 1] == w[|w| - 1];
          assert j[i + 1] == tail[0];
        }
      }
    }
  }

  /** The collapsed text is single-spaced. */
  lemma {:induction false} CollapseSingleSpaced(s: string)
    ensures SingleSpaced(Collapse(s))
  {
    WordsAreWords(s);
    JoinSingleSpaced(Words(s));
  }

  // ----- split and join are inverse -----

  lemma {:induction false} LeadingSpaceIgnored(s: string)
    ensures Words(" " + s) == Words(s)
  {
    assert (" " + s)[1..] == s;
    assert TrimStart(" " + s) == TrimStart(s);
  }

  /** The words of a word followed by whitespace or nothing. */
  lemma {:induction false} WordsCons(w: string, x: string)
    requires IsWord(w) && (x == [] || IsSpace(x[0]))
    ensures Words(w + x) == [w] + Words(x)
  {
    var s := w + x;
    assert s[0] == w[0];
    TrimStartAt(s, 0);
    assert s[..0] == [];
    WordLengthAt(s, |w|);
    assert s[..|w|] == w && s[|w|..] == x;
  }

  lemma {:induction false} JoinCons(w: string, ws: seq<string>)
    requires ws != []
    ensures JoinWords([w] + ws) == w + (" " + JoinWords(ws))
  {
    assert ([w] + ws)[1..] == ws;
  }

  /** Splitting words joined with single spaces gives the words back. */
  lemma {:induction false} SplitJoin(ws: seq<string>)
    requires forall i :: 0 <= i < |ws| ==> IsWord(ws[i])
    ensures Words(JoinWords(ws)) == ws
  {
    if ws == [] {
      WordsEmpty();
    } else {
      var w, rest := ws[0], ws[1..];
      assert ws == [w] + rest;
      SplitJoin(rest);
      SplitHead(w, rest);
    }
  }

  lemma {:induction false} WordsEmpty()
    ensures Words([]) == []
  {
    assert TrimStart([]) == [];
  }

  /** Splitting a joined list yields its first word, then the split of the rest. */
  lemma {:induction false} SplitHead(w: string, rest: seq<string>)
    requires IsWord(w)
    ensures Words(JoinWords([w] + rest)) == [w] + Words(JoinWords(rest))
  {
    if rest == [] {
      assert [w] + rest == [w];
      SplitOne(w);
      WordsEmpty();
    } else {
      SplitCons(w, rest);
    }
  }

  lemma {:induction false} SplitOne(w: string)
    requires IsWord(w)
    ensures Words(JoinWords([w])) == [w]
  {
    WordsEmpty();
    WordsCons(w, []);
    assert w + [] == w;
  }

  lemma {:induction false} SplitCons(w: string, rest: seq<string>)
    requires IsWord(w) && rest != []
    ensures Words(JoinWords([w] + rest)) == [w] + Words(JoinWords(rest))
  {
    var tail := JoinWords(rest);
    JoinCons(w, rest);
    WordsCons(w, " " + tail);
    LeadingSpaceIgnored(tail);
  }

  /** Collapsing twice is collapsing once. */
  lemma {:induction false} CollapseIdempotent(s: string)
    ensures Collapse(Collapse(s)) == Collapse(s)
  {
    WordsAreWords(s);
    assert forall i :: 0 <= i < |Words(s)| ==> Words(s)[i] in Words(s);
    SplitJoin(Words(s));
  }

  /** A single-spaced string is its own collapse. */
  lemma {:induction false} SingleSpacedFixed(s: string)
    requires SingleSpaced(s)
    ensures Collapse(s) == s
    decreases |s|
  {
    if s == [] {
      WordsEmpty();
    } else {
      var n := WordLength(s);
      assert n > 0;
      if n == |s| {
        FixedWord(s);
      } else {
        SingleSpacedRest(s, n);
        SingleSpacedFixed(s[n + 1..]);
        FixedCons(s, n);
      }
    }
  }

  lemma {:induction false} FixedWord(s: string)
    requires s != [] && WordLength(s) == |s|
    ensures Collapse(s) == s
  {
    assert s + [] == s;
    WordsCons(s, []);
    WordsEmpty();
  }

  lemma {:induction false} FixedCons(s: string, n: nat)
    requires 0 < n < |s| - 1 && WordLength(s) == n && s[n] == ' '
    requires Words(s[n + 1..]) != [] && Collapse(s[n + 1..]) == s[n + 1..]
    ensures Collapse(s) == s
  {
    var w, rest := s[..n], s[n + 1..];
    FirstWord(s, n);
    WordsCons(w, " " + rest);
    LeadingSpaceIgnored(rest);
    JoinCons(w, Words(rest));
    calc {
      Collapse(s);
      JoinWords(Words(w + (" " + rest)));
      JoinWords([w] + Words(rest));
      w + (" " + JoinWords(Words(rest)));
      w + (" " + rest);
    }
  }

  /** s is its first word, a space, and the rest. */
  lemma {:induction false} FirstWord(s: string, n: nat)
    requires 0 < n < |s| && WordLength(s) == n && s[n] == ' '
    ensures IsWord(s[..n]) && s == s[..n] + (" " + s[n + 1..])
  {
    var w := s[..n];
    forall i | 0 <= i < n ensures !IsSpace(w[i]) { assert w[i] == s[i]; }
    assert s == w + (" " + s[n + 1..]);
  }

  /** What follows the first word and its space is single-spaced and starts a word. */
  lemma {:induction false} SingleSpacedRest(s: string, n: nat)
    requires SingleSpaced(s) && 0 < n < |s| && n == WordLength(s)
    ensures n + 1 < |s| && SingleSpaced(s[n + 1..]) && Words(s[n + 1..]) != []
  {
    assert s[n] == ' ' && n + 1 < |s| && !IsSpace(s[n + 1]);
    var rest := s[n + 1..];
    forall i | 0 <= i < |rest| && IsSpace(rest[i])
      ensures rest[i] == ' ' && 0 < i < |rest| - 1 && !IsSpace(rest[i - 1]) && !IsSpace(rest[i + 1])
    {
      assert rest[i] == s[n + 1 + i];
    }
    TrimStartAt(rest, 0);
    assert rest[..0] == [];
  }

  // ----- the cleaned action text -----

  /**
   * The cleaned text is single-spaced whether or not it was cut: the cut keeps a prefix of
   * the collapsed text and appends dots, which are not whitespace.
   */
  lemma {:induction false} CleanActionTextSingleSpaced(text: string)
    ensures SingleSpaced(CleanActionText(text))
  {
    var c := Collapse(text);
    CollapseSingleSpaced(text);
    var r := CleanActionText(text);
    if |c| > MaxActionLength {
      forall i | 0 <= i < |r| && IsSpace(r[i])
        ensures r[i] == ' ' && 0 < i < |r| - 1 && !IsSpace(r[i - 1]) && !IsSpace(r[i + 1])
      {
        assert i < MaxActionLength - 3;
        assert r[i] == c[i];
        assert r[i - 1] == c[i - 1];
        if i + 1 < MaxActionLength - 3 {
          assert r[i + 1] == c[i + 1];
        }
      }
    }
  }

  /**
   * The action text is at most 150 characters: the collapsed sentence when it fits, and
   * otherwise its first 147 characters followed by "...".
   */
  lemma {:induction false} CleanActionTextLength(text: string)
    ensures |CleanActionText(text)| <= MaxActionLength
    ensures |Collapse(text)| <= MaxActionLength <==> CleanActionText(text) == Collapse(text)
    ensures |Collapse(text)| > MaxActionLength ==>
      && |CleanActionText(text)| == MaxActionLength
      && Collapse(text)[..MaxActionLength - 3] <= CleanActionText(text)
      && CleanActionText(text)[MaxActionLength - 3..] == Ellipsis
  {
  }

  /** An action text that needed no cut keeps every non-whitespace character of the sentence. */
  lemma {:induction false} CleanActionTextKeepsText(text: string)
    requires |Collapse(text)| <= MaxActionLength
    ensures NonSpace(CleanActionText(text)) == NonSpace(text)
  {
    CollapseKeepsText(text);
  }

  /** Cleaning a cleaned action text changes nothing. */
  lemma {:induction false} CleanActionTextIdempotent(text: string)
    ensures CleanActionText(CleanActionText(text)) == CleanActionText(text)
  {
    var r := CleanActionText(text);
    CleanActionTextSingleSpaced(text);
    SingleSpacedFixed(r);
  }
}
