/**
 * Python string primitives that the clause segmenter, the change analysis and the obligation
 * rules use: whitespace, strip(), lower(), `in`, slicing.
 */
module Text {

  /** Python's str.isspace(), which is also what `\s` matches in a str pattern, by code point. */
  predicate IsSpace(c: char) {
    var n := c as int;
    || 9 <= n <= 13
    || 28 <= n <= 32
    || n == 0x85 || n == 0xA0 || n == 0x1680
    || 0x2000 <= n <= 0x200A
    || n == 0x2028 || n == 0x2029 || n == 0x202F || n == 0x205F || n == 0x3000
  }

  /** Neither starts nor ends with whitespace. */
  predicate IsTrimmed(s: string) {
    s == [] || (!IsSpace(s[0]) && !IsSpace(s[|s| - 1]))
  }

  /** Every character is whitespace. */
  predicate AllSpace(s: string) {
    forall i :: 0 <= i < |s| ==> IsSpace(s[i])
  }

  /** Python's str.lstrip(): the suffix left after the leading whitespace. */
  function TrimStart(s: string): (r: string)
    ensures |r| <= |s|
    ensures r == [] || !IsSpace(r[0])
  {
    if |s| > 0 && IsSpace(s[0]) then TrimStart(s[1..]) else s
  }

  /** Python's str.rstrip(): the prefix left before the trailing whitespace. */
  function TrimEnd(s: string): (r: string)
    ensures |r| <= |s|
    ensures r == [] || !IsSpace(r[|r| - 1])
  {
    if |s| > 0 && IsSpace(s[|s| - 1]) then TrimEnd(s[..|s| - 1]) else s
  }

  /** lstrip() removes a prefix of whitespace and keeps the rest. */
  lemma {:induction false} TrimStartSlice(s: string)
    ensures TrimStart(s) == s[|s| - |TrimStart(s)|..]
    ensures AllSpace(s[..|s| - |TrimStart(s)|])
  {
    if |s| > 0 && IsSpace(s[0]) {
      TrimStartSlice(s[1..]);
      var k := |s| - |TrimStart(s)|;
      assert s[1..][k - 1..] == s[k..];
      forall i | 0 <= i < k ensures IsSpace(s[..k][i]) {
        if 0 < i {
          assert s[..k][i] == s[1..][..k - 1][i - 1];
        }
      }
    } else {
      assert s[..0] == [];
    }
  }

  /** rstrip() removes a suffix of whitespace and keeps the rest. */
  lemma {:induction false} TrimEndSlice(s: string)
    ensures TrimEnd(s) == s[..|TrimEnd(s)|]
    ensures AllSpace(s[|TrimEnd(s)|..])
  {
    if |s| > 0 && IsSpace(s[|s| - 1]) {
      var t := s[..|s| - 1];
      TrimEndSlice(t);
      var r := TrimEnd(t);
      assert t[..|r|] == s[..|r|];
      forall i | 0 <= i < |s| - |r| ensures IsSpace(s[|r|..][i]) {
        if |r| + i < |s| - 1 {
          assert s[|r|..][i] == t[|r|..][i];
        }
      }
    } else {
      assert s[|s|..] == [];
    }
  }

  /** Where Strip(s) starts in s. */
  function StripOffset(s: string): nat
  {
    |s| - |TrimStart(s)|
  }

  /** Python's str.strip(). */
  function Strip(s: string): (r: string)
    ensures IsTrimmed(r) && |r| <= |s|
  {
    TrimEndSlice(TrimStart(s));
    TrimEnd(TrimStart(s))
  }

  /** strip() keeps the slice of s between its leading and its trailing whitespace. */
  lemma {:induction false} StripSlice(s: string)
    ensures StripOffset(s) + |Strip(s)| <= |s| && Strip(s) == s[StripOffset(s)..StripOffset(s) + |Strip(s)|]
    ensures AllSpace(s[..StripOffset(s)]) && AllSpace(s[StripOffset(s) + |Strip(s)|..])
  {
    var t := TrimStart(s);
    TrimStartSlice(s);
    TrimEndSlice(t);
    var a, r := StripOffset(s), Strip(s);
    assert t == s[a..];
    assert r == t[..|r|] == s[a..a + |r|];
    var m := a + |r|;
    forall i | 0 <= i < |s| - m ensures IsSpace(s[m..][i]) {
      assert s[m..][i] == t[|r|..][i];
    }
  }

  /** lstrip() stops at the first non-space character. */
  lemma {:induction false} TrimStartAt(s: string, a: nat)
    requires a <= |s| && AllSpace(s[..a]) && (a == |s| || !IsSpace(s[a]))
    ensures TrimStart(s) == s[a..]
    decreases a
  {
    if a > 0 {
      assert IsSpace(s[0]) by { assert s[..a][0] == s[0]; }
      assert s[1..][..a - 1] == s[1..a];
      forall i | 0 <= i < a - 1 ensures IsSpace(s[1..a][i]) {
        assert s[1..a][i] == s[..a][i + 1];
      }
      TrimStartAt(s[1..], a - 1);
    }
  }

  /** rstrip() stops after the last non-space character. */
  lemma {:induction false} TrimEndAt(s: string, b: nat)
    requires b <= |s| && AllSpace(s[b..]) && (b == 0 || !IsSpace(s[b - 1]))
    ensures TrimEnd(s) == s[..b]
    decreases |s| - b
  {
    if b < |s| {
      var t := s[..|s| - 1];
      assert IsSpace(s[|s| - 1]) by { assert s[b..][|s| - 1 - b] == s[|s| - 1]; }
      assert AllSpace(t[b..]) by {
        forall i | 0 <= i < |t| - b ensures IsSpace(t[b..][i]) {
          assert t[b..][i] == s[b..][i];
        }
      }
      TrimEndAt(t, b);
      assert t[..b] == s[..b];
    }
  }

  /** Strip(s) is the only trimmed slice of s with nothing but whitespace around it. */
  lemma {:induction false} StripUnique(s: string, a: nat, b: nat)
    requires a <= b <= |s|
    requires IsTrimmed(s[a..b]) && AllSpace(s[..a]) && AllSpace(s[b..])
    ensures Strip(s) == s[a..b]
  {
    if a < b {
      StripNonEmpty(s, a, b);
    } else {
      forall i | 0 <= i < |s| ensures IsSpace(s[i]) {
        if i < a { assert s[..a][i] == s[i]; } else { assert s[b..][i - b] == s[i]; }
      }
      assert s[..|s|] == s;
      TrimStartAt(s, |s|);
      assert TrimStart(s) == [];
    }
  }

  lemma {:induction false} StripNonEmpty(s: string, a: nat, b: nat)
    requires a < b <= |s|
    requires !IsSpace(s[a]) && !IsSpace(s[b - 1]) && AllSpace(s[..a]) && AllSpace(s[b..])
    ensures TrimEnd(TrimStart(s)) == s[a..b]
  {
    TrimStartAt(s, a);
    var t := s[a..];
    assert t[b - a..] == s[b..];
    assert t[b - a - 1] == s[b - 1];
    TrimEndAt(t, b - a);
    assert t[..b - a] == s[a..b];
  }

  /** Python's `c in s` for one character. */
  predicate HasChar(s: string, c: char) {
    exists i :: 0 <= i < |s| && s[i] == c
  }

  /** Python's str.lower() on one character, for the Latin capitals. */
  function LowerChar(c: char): char
  {
    if 'A' <= c <= 'Z' then (c as int + 32) as char else c
  }

  /** Python's str.lower(), for the Latin capitals (see README for why that suffices). */
  function Lower(s: string): (r: string)
  {
    seq(|s|, i requires 0 <= i < |s| => LowerChar(s[i]))
  }

  lemma {:induction false} LowerConcat(a: string, b: string)
    ensures Lower(a + b) == Lower(a) + Lower(b)
  {
    assert forall i :: 0 <= i < |a + b| ==> Lower(a + b)[i] == (Lower(a) + Lower(b))[i];
  }

  /** Python's `pat in s` for strings. */
  predicate Contains(s: string, pat: string)
    decreases |s|
  {
    pat <= s || (|s| > 0 && Contains(s[1..], pat))
  }

  /** A substring occurrence found anywhere is what Contains finds. */
  lemma {:induction false} ContainsAt(s: string, pat: string, i: nat)
    requires i + |pat| <= |s| && s[i..i + |pat|] == pat
    ensures Contains(s, pat)
    decreases i
  {
    if i == 0 {
      assert pat <= s;
    } else {
      assert s[1..][i - 1..i - 1 + |pat|] == s[i..i + |pat|];
      ContainsAt(s[1..], pat, i - 1);
    }
  }

  /** Whatever Contains finds is a substring occurrence at some position. */
  lemma {:induction false} ContainsWitness(s: string, pat: string) returns (i: nat)
    requires Contains(s, pat)
    ensures i + |pat| <= |s| && s[i..i + |pat|] == pat
    decreases |s|
  {
    if pat <= s {
      i := 0;
    } else {
      var j := ContainsWitness(s[1..], pat);
      i := j + 1;
      assert s[1..][j..j + |pat|] == s[i..i + |pat|];
    }
  }

  /** A substring stays a substring of any text it is embedded in. */
  lemma {:induction false} ContainsWithin(s: string, pat: string, before: string, after: string)
    requires Contains(s, pat)
    ensures Contains(before + s + after, pat)
  {
    var i := ContainsWitness(s, pat);
    var t := before + s + after;
    assert t[|before| + i..|before| + i + |pat|] == s[i..i + |pat|];
    ContainsAt(t, pat, |before| + i);
  }

  /** Some keyword of the list occurs in s: Python's `any(kw in s for kw in kws)`. */
  predicate AnyContained(s: string, kws: seq<string>) {
    exists k :: 0 <= k < |kws| && Contains(s, kws[k])
  }

  /** Python's s[:n]. */
  function Prefix(s: string, n: nat): (r: string)
  {
    if |s| <= n then s else s[..n]
  }

  function DigitChar(d: nat): char
    requires d < 10
  {
    ('0' as int + d) as char
  }

  /** Python's str(n) for a non-negative integer. */
  function NatToString(n: nat): (r: string)
  {
    if n < 10 then [DigitChar(n)] else NatToString(n / 10) + [DigitChar(n % 10)]
  }

  /** The characters of s that are not whitespace, in order. */
  function NonSpace(s: string): (r: string)
  {
    if s == [] then [] else (if IsSpace(s[0]) then [] else [s[0]]) + NonSpace(s[1..])
  }

  lemma {:induction false} NonSpaceConcat(a: string, b: string)
    ensures NonSpace(a + b) == NonSpace(a) + NonSpace(b)
  {
    if a != [] {
      assert (a + b)[0] == a[0];
      assert (a + b)[1..] == a[1..] + b;
      NonSpaceConcat(a[1..], b);
    } else {
      assert a + b == b;
    }
  }

  lemma {:induction false} NonSpaceOfSpace(s: string)
    requires AllSpace(s)
    ensures NonSpace(s) == []
  {
    if s != [] {
      assert AllSpace(s[1..]) by {
        forall i | 0 <= i < |s| - 1 ensures IsSpace(s[1..][i]) { assert s[1..][i] == s[i + 1]; }
      }
      NonSpaceOfSpace(s[1..]);
    }
  }

  lemma {:induction false} NonSpaceTrimStart(s: string)
    ensures NonSpace(TrimStart(s)) == NonSpace(s)
  {
    if |s| > 0 && IsSpace(s[0]) {
      NonSpaceTrimStart(s[1..]);
    }
  }

  lemma {:induction false} NonSpaceTrimEnd(s: string)
    ensures NonSpace(TrimEnd(s)) == NonSpace(s)
  {
    if |s| > 0 && IsSpace(s[|s| - 1]) {
      var t := s[..|s| - 1];
      assert s == t + [s[|s| - 1]];
      NonSpaceConcat(t, [s[|s| - 1]]);
      NonSpaceTrimEnd(t);
    }
  }

  /** Stripping removes whitespace only. */
  lemma {:induction false} NonSpaceStrip(s: string)
    ensures NonSpace(Strip(s)) == NonSpace(s)
  {
    NonSpaceTrimStart(s);
    NonSpaceTrimEnd(TrimStart(s));
  }

  // ----- ordering -----

  /** Python's a <= b on strings: code point by code point, a proper prefix first. */
  predicate LexLe(a: string, b: string)
    decreases |a|
  {
    a == [] || (b != [] && (a[0] < b[0] || (a[0] == b[0] && LexLe(a[1..], b[1..]))))
  }

  lemma {:induction false} LexLeRefl(a: string)
    ensures LexLe(a, a)
    decreases |a|
  {
    if a != [] {
      LexLeRefl(a[1..]);
    }
  }

  /** Any two strings are ordered one way or the other. */
  lemma {:induction false} LexLeTotal(a: string, b: string)
    ensures LexLe(a, b) || LexLe(b, a)
    decreases |a|
  {
    if a != [] && b != [] && a[0] == b[0] {
      LexLeTotal(a[1..], b[1..]);
    }
  }

  lemma {:induction false} LexLeTrans(a: string, b: string, c: string)
    requires LexLe(a, b) && LexLe(b, c)
    ensures LexLe(a, c)
    decreases |a|
  {
    if a != [] && a[0] == b[0] && b[0] == c[0] {
      LexLeTrans(a[1..], b[1..], c[1..]);
    }
  }

  /** Only equal strings are ordered both ways. */
  lemma {:induction false} LexLeAntisymmetric(a: string, b: string)
    requires LexLe(a, b) && LexLe(b, a)
    ensures a == b
    decreases |a|
  {
    if a != [] {
      LexLeAntisymmetric(a[1..], b[1..]);
      assert a == [a[0]] + a[1..] && b == [b[0]] + b[1..];
    }
  }
}
