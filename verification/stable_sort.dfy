/**
 * Python's list.sort(key=...) over string keys, which is stable: the reference insertion sort
 * as functions, the in-place sort as a method proved against it, and the sort's guarantees.
 */
module StableSort {
  import opened Text

  /** Inserts x after every element whose key is at most x's, scanning from the right. */
  function Insert<T>(x: T, s: seq<T>, key: T -> string): seq<T>
    decreases |s|
  {
    if s == [] then [x]
    else if LexLe(key(s[|s| - 1]), key(x)) then s + [x]
    else Insert(x, s[..|s| - 1], key) + [s[|s| - 1]]
  }

  /** Insertion sort by key: the reference definition of the stable sort. */
  function SortByKey<T>(s: seq<T>, key: T -> string): seq<T> {
    if s == [] then [] else Insert(s[|s| - 1], SortByKey(s[..|s| - 1], key), key)
  }

  predicate SortedByKey<T>(s: seq<T>, key: T -> string) {
    forall p, q :: 0 <= p < q < |s| ==> LexLe(key(s[p]), key(s[q]))
  }

  /** The elements of s whose key is k, in s's order. */
  function WithKey<T>(s: seq<T>, key: T -> string, k: string): seq<T> {
    if s == [] then []
    else WithKey(s[..|s| - 1], key, k) + (if key(s[|s| - 1]) == k then [s[|s| - 1]] else [])
  }

  /** The in-place sort. */
  method SortInPlace<T>(a: array<T>, key: T -> string)
    modifies a
    ensures a[..] == SortByKey(old(a[..]), key)
  {
    ghost var input := a[..];
    var i := 0;
    while i < a.Length
      invariant 0 <= i <= a.Length
      invariant a[..i] == SortByKey(input[..i], key)
      invariant a[i..] == input[i..]
    {
      assert input[..i + 1][..i] == input[..i];
      assert input[i] == a[i];
      InsertAt(a, i, key);
      i := i + 1;
    }
    assert input[..a.Length] == input;
  }

  /** Moves a[i] left past every element with a greater key, into the sorted a[..i]. */
  method InsertAt<T>(a: array<T>, i: nat, key: T -> string)
    requires i < a.Length
    modifies a
    ensures a[..i + 1] == Insert(old(a[i]), old(a[..i]), key)
    ensures a[i + 1..] == old(a[i + 1..])
  {
    var x := a[i];
    ghost var prefix := a[..i];
    var j := i;
    while j > 0 && !LexLe(key(a[j - 1]), key(x))
      invariant 0 <= j <= i
      invariant forall k :: 0 <= k < j ==> a[k] == prefix[k]
      invariant a[j] == x
      invariant forall k :: j < k <= i ==> a[k] == prefix[k - 1]
      invariant forall k :: i < k < a.Length ==> a[k] == old(a[k])
      invariant forall k :: j <= k < i ==> !LexLe(key(prefix[k]), key(x))
    {
      Swap(a, j - 1, j);
      j := j - 1;
    }
    InsertSplit(x, prefix, j, key);
    Shifted(a[..], prefix, x, j);
  }

  /** Exchanges a[p] and a[q]. */
  method Swap<T>(a: array<T>, p: nat, q: nat)
    requires p < a.Length && q < a.Length
    modifies a
    ensures a[p] == old(a[q]) && a[q] == old(a[p])
    ensures forall k :: 0 <= k < a.Length && k != p && k != q ==> a[k] == old(a[k])
  {
    a[p], a[q] := a[q], a[p];
  }

  /** The array after the inner loop: the prefix with x placed at j and the rest moved one right. */
  lemma {:induction false} Shifted<T>(b: seq<T>, prefix: seq<T>, x: T, j: nat)
    requires j <= |prefix| < |b|
    requires forall k :: 0 <= k < j ==> b[k] == prefix[k]
    requires b[j] == x
    requires forall k :: j < k <= |prefix| ==> b[k] == prefix[k - 1]
    ensures b[..|prefix| + 1] == prefix[..j] + [x] + prefix[j..]
  {
    var inserted := prefix[..j] + [x] + prefix[j..];
    assert forall k :: 0 <= k <= |prefix| ==> b[k] == inserted[k];
  }

  /**
   * Insert puts x right after the last element whose key is at most x's, so x goes where
   * the inner loop stops.
   */
  lemma {:induction false} InsertSplit<T>(x: T, prefix: seq<T>, j: nat, key: T -> string)
    requires j <= |prefix|
    requires j == 0 || LexLe(key(prefix[j - 1]), key(x))
    requires forall k :: j <= k < |prefix| ==> !LexLe(key(prefix[k]), key(x))
    ensures Insert(x, prefix, key) == prefix[..j] + [x] + prefix[j..]
    decreases |prefix|
  {
    if j < |prefix| {
      var init := prefix[..|prefix| - 1];
      InsertSplit(x, init, j, key);
      assert init[..j] == prefix[..j];
      assert init[j..] + [prefix[|prefix| - 1]] == prefix[j..];
    } else if j > 0 {
      assert prefix[..j] == prefix;
    }
  }

  // ----- what the sort guarantees -----

  lemma {:induction false} InsertMultiset<T>(x: T, s: seq<T>, key: T -> string)
    ensures multiset(Insert(x, s, key)) == multiset(s) + multiset{x}
    decreases |s|
  {
    if s != [] && !LexLe(key(s[|s| - 1]), key(x)) {
      InsertMultiset(x, s[..|s| - 1], key);
      assert s == s[..|s| - 1] + [s[|s| - 1]];
    }
  }

  lemma {:induction false} InsertSorted<T>(x: T, s: seq<T>, key: T -> string)
    requires SortedByKey(s, key)
    ensures SortedByKey(Insert(x, s, key), key)
    decreases |s|
  {
    if s == [] {
    } else if LexLe(key(s[|s| - 1]), key(x)) {
      var r := s + [x];
      forall p, q | 0 <= p < q < |r| ensures LexLe(key(r[p]), key(r[q])) {
        if q == |s| && p < |s| - 1 {
          LexLeTrans(key(s[p]), key(s[|s| - 1]), key(x));
        }
      }
    } else {
      var init, last := s[..|s| - 1], s[|s| - 1];
      InsertSorted(x, init, key);
      InsertMultiset(x, init, key);
      LexLeTotal(key(last), key(x));
      var ins := Insert(x, init, key);
      forall e | e in ins ensures LexLe(key(e), key(last)) {
        assert e in multiset(ins);
        if e != x {
          assert e in multiset(init);
          var p :| 0 <= p < |init| && init[p] == e;
          assert s[p] == e;
        }
      }
      var r := ins + [last];
      forall p, q | 0 <= p < q < |r| ensures LexLe(key(r[p]), key(r[q])) {
        if q == |ins| {
          assert r[p] in ins;
        }
      }
    }
  }

  /** Appending an element adds it to the elements of its own key only. */
  lemma {:induction false} WithKeySnoc<T>(s: seq<T>, e: T, key: T -> string, k: string)
    ensures WithKey(s + [e], key, k) == WithKey(s, key, k) + (if key(e) == k then [e] else [])
  {
    assert (s + [e])[..|s|] == s;
  }

  lemma {:induction false} InsertWithKey<T>(x: T, s: seq<T>, key: T -> string, k: string)
    ensures WithKey(Insert(x, s, key), key, k) == WithKey(s, key, k) + (if key(x) == k then [x] else [])
    decreases |s|, 1
  {
    if s == [] {
      WithKeySnoc([], x, key, k);
      assert Insert(x, s, key) == [] + [x];
    } else if LexLe(key(s[|s| - 1]), key(x)) {
      WithKeySnoc(s, x, key, k);
    } else {
      InsertPastGreater(x, s, key, k);
    }
  }

  /** InsertWithKey when x moves left past the last element, whose key is greater. */
  lemma {:induction false} InsertPastGreater<T>(x: T, s: seq<T>, key: T -> string, k: string)
    requires s != [] && !LexLe(key(s[|s| - 1]), key(x))
    ensures WithKey(Insert(x, s, key), key, k) == WithKey(s, key, k) + (if key(x) == k then [x] else [])
    decreases |s|, 0
  {
    var init, last := s[..|s| - 1], s[|s| - 1];
    InsertWithKey(x, init, key, k);
    var ins := Insert(x, init, key);
    assert Insert(x, s, key) == ins + [last];
    WithKeySnoc(ins, last, key, k);
    LexLeRefl(key(x));
    assert key(last) != key(x);
  }

  /** Sorting puts the keys in ascending string order. */
  lemma {:induction false} SortByKeySorted<T>(s: seq<T>, key: T -> string)
    ensures SortedByKey(SortByKey(s, key), key)
    decreases |s|
  {
    if s != [] {
      var init := s[..|s| - 1];
      SortByKeySorted(init, key);
      InsertSorted(s[|s| - 1], SortByKey(init, key), key);
    }
  }

  /** Sorting keeps every element, once each. */
  lemma {:induction false} SortByKeyPermutes<T>(s: seq<T>, key: T -> string)
    ensures multiset(SortByKey(s, key)) == multiset(s)
    decreases |s|
  {
    if s != [] {
      var init, last := s[..|s| - 1], s[|s| - 1];
      var sorted := SortByKey(init, key);
      assert SortByKey(s, key) == Insert(last, sorted, key);
      SortByKeyPermutes(init, key);
      InsertMultiset(last, sorted, key);
      assert s == init + [last];
      assert multiset(s) == multiset(init) + multiset{last};
    }
  }

  /** Sorting keeps every element, once each, and puts the keys in ascending string order. */
  lemma {:induction false} SortByKeySpec<T>(s: seq<T>, key: T -> string)
    ensures SortedByKey(SortByKey(s, key), key)
    ensures multiset(SortByKey(s, key)) == multiset(s)
    ensures |SortByKey(s, key)| == |s|
  {
    SortByKeySorted(s, key);
    SortByKeyPermutes(s, key);
    assert |multiset(SortByKey(s, key))| == |multiset(s)|;
  }

  /** The sort is stable: the elements that share a key keep their order. */
  lemma {:induction false} SortByKeyStable<T>(s: seq<T>, key: T -> string, k: string)
    ensures WithKey(SortByKey(s, key), key, k) == WithKey(s, key, k)
    decreases |s|
  {
    if s != [] {
      SortByKeyStable(s[..|s| - 1], key, k);
      InsertWithKey(s[|s| - 1], SortByKey(s[..|s| - 1], key), key, k);
    }
  }
}
