/**
 * Python's `sorted(items, key=..., reverse=...)` on decorated items: a
 * stable sort of (key, item) pairs. With `reverse` the order of keys is
 * reversed but items with equal keys still keep their original order.
 *
 * The keys the inventory code computes are either all numbers (`float(...)`)
 * or all strings, which Python compares by code point.
 */
module StableSort {
  datatype Key = Num(x: real) | Str(s: string)

  /** Lexicographic order on code points. */
  predicate StrLe(a: string, b: string)
  {
    a == [] || (b != [] && (a[0] < b[0] || (a[0] == b[0] && StrLe(a[1..], b[1..]))))
  }

  /** Numbers before strings (never compared in practice), then each by its own order. */
  predicate KeyLe(a: Key, b: Key)
  {
    match (a, b)
    case (Num(x), Num(y)) => x <= y
    case (Num(_), Str(_)) => true
    case (Str(_), Num(_)) => false
    case (Str(s), Str(t)) => StrLe(s, t)
  }

  /** `a` may precede `b` in the output. */
  predicate Ordered(a: Key, b: Key, reverse: bool)
  {
    if reverse then KeyLe(b, a) else KeyLe(a, b)
  }

  lemma {:induction false} StrLeTotal(a: string, b: string)
    ensures StrLe(a, b) || StrLe(b, a)
  {
    if a != [] && b != [] && a[0] == b[0] {
      StrLeTotal(a[1..], b[1..]);
    }
  }

  lemma {:induction false} StrLeAntisymmetric(a: string, b: string)
    requires StrLe(a, b) && StrLe(b, a)
    ensures a == b
  {
    if a != [] {
      StrLeAntisymmetric(a[1..], b[1..]);
      assert a == [a[0]] + a[1..] && b == [b[0]] + b[1..];
    }
  }

  lemma {:induction false} StrLeTransitive(a: string, b: string, c: string)
    requires StrLe(a, b) && StrLe(b, c)
    ensures StrLe(a, c)
  {
    if a != [] && a[0] == b[0] && b[0] == c[0] {
      StrLeTransitive(a[1..], b[1..], c[1..]);
    }
  }

  lemma {:induction false} StrLeReflexive(a: string)
    ensures StrLe(a, a)
  {
    if a != [] {
      StrLeReflexive(a[1..]);
    }
  }

  /** `Ordered` is a total preorder for either direction, and antisymmetric. */
  lemma OrderedIsTotalOrder(a: Key, b: Key, c: Key, reverse: bool)
    ensures Ordered(a, a, reverse)
    ensures Ordered(a, b, reverse) || Ordered(b, a, reverse)
    ensures Ordered(a, b, reverse) && Ordered(b, c, reverse) ==> Ordered(a, c, reverse)
    ensures Ordered(a, b, reverse) && Ordered(b, a, reverse) ==> a == b
  {
    if a.Str? { StrLeReflexive(a.s); }
    if a.Str? && b.Str? {
      StrLeTotal(a.s, b.s);
      if StrLe(a.s, b.s) && StrLe(b.s, a.s) { StrLeAntisymmetric(a.s, b.s); }
    }
    if a.Str? && b.Str? && c.Str? {
      if StrLe(a.s, b.s) && StrLe(b.s, c.s) { StrLeTransitive(a.s, b.s, c.s); }
      if StrLe(c.s, b.s) && StrLe(b.s, a.s) { StrLeTransitive(c.s, b.s, a.s); }
    }
  }

  /** Every pair precedes every later pair. */
  predicate Sorted<T>(s: seq<(Key, T)>, reverse: bool)
  {
    forall i, j :: 0 <= i < j < |s| ==> Ordered(s[i].0, s[j].0, reverse)
  }

  /** Inserts `x` after the last pair that may precede it. */
  function Insert<T>(s: seq<(Key, T)>, x: (Key, T), reverse: bool): (r: seq<(Key, T)>)
    ensures |r| == |s| + 1
  {
    if s == [] then [x]
    else if Ordered(s[|s| - 1].0, x.0, reverse) then s + [x]
    else Insert(s[..|s| - 1], x, reverse) + [s[|s| - 1]]
  }

  /** Insertion sort, taking the items in input order. */
  function Sort<T>(s: seq<(Key, T)>, reverse: bool): (r: seq<(Key, T)>)
    ensures |r| == |s|
  {
    if s == [] then [] else Insert(Sort(s[..|s| - 1], reverse), s[|s| - 1], reverse)
  }

  function Values<T>(s: seq<(Key, T)>): (r: seq<T>)
    ensures |r| == |s| && forall i :: 0 <= i < |s| ==> r[i] == s[i].1
  {
    seq(|s|, i requires 0 <= i < |s| => s[i].1)
  }

  /** The items whose key is `k`, in order. */
  function WithKey<T>(s: seq<(Key, T)>, k: Key): seq<T>
  {
    if s == [] then []
    else WithKey(s[..|s| - 1], k) + (if s[|s| - 1].0 == k then [s[|s| - 1].1] else [])
  }

  lemma {:induction false} InsertPermutes<T>(s: seq<(Key, T)>, x: (Key, T), reverse: bool)
    ensures multiset(Insert(s, x, reverse)) == multiset(s) + multiset{x}
  {
    if s != [] && !Ordered(s[|s| - 1].0, x.0, reverse) {
      InsertPermutes(s[..|s| - 1], x, reverse);
      assert s == s[..|s| - 1] + [s[|s| - 1]];
    }
  }

  lemma {:induction false} InsertPermutesValues<T>(s: seq<(Key, T)>, x: (Key, T), reverse: bool)
    ensures multiset(Values(Insert(s, x, reverse))) == multiset(Values(s)) + multiset{x.1}
  {
    if s == [] {
    } else if Ordered(s[|s| - 1].0, x.0, reverse) {
      assert Values(s + [x]) == Values(s) + [x.1];
    } else {
      var init := s[..|s| - 1];
      var last := s[|s| - 1];
      InsertPermutesValues(init, x, reverse);
      var front := Insert(init, x, reverse);
      assert Values(front + [last]) == Values(front) + [last.1];
      assert Values(s) == Values(init) + [last.1];
    }
  }

  /** The items `sorted` returns are a permutation of its input items. */
  lemma {:induction false} SortPermutesValues<T>(s: seq<(Key, T)>, reverse: bool)
    ensures multiset(Values(Sort(s, reverse))) == multiset(Values(s))
  {
    if s != [] {
      var init := s[..|s| - 1];
      SortPermutesValues(init, reverse);
      InsertPermutesValues(Sort(init, reverse), s[|s| - 1], reverse);
      assert Values(s) == Values(init) + [s[|s| - 1].1];
    }
  }

  lemma {:induction false} InsertSorted<T>(s: seq<(Key, T)>, x: (Key, T), reverse: bool)
    requires Sorted(s, reverse)
    ensures Sorted(Insert(s, x, reverse), reverse)
  {
    if s != [] {
      var last := s[|s| - 1];
      var r := Insert(s, x, reverse);
      if Ordered(last.0, x.0, reverse) {
        forall i | 0 <= i < |s|
          ensures Ordered(s[i].0, x.0, reverse)
        {
          OrderedIsTotalOrder(s[i].0, last.0, x.0, reverse);
        }
      } else {
        var init := s[..|s| - 1];
        OrderedIsTotalOrder(last.0, x.0, last.0, reverse);
        InsertSorted(init, x, reverse);
        InsertPermutes(init, x, reverse);
        var front := Insert(init, x, reverse);
        forall i | 0 <= i < |front|
          ensures Ordered(front[i].0, last.0, reverse)
        {
          assert front[i] in multiset(init) + multiset{x};
          if front[i] != x {
            var k :| 0 <= k < |init| && init[k] == front[i];
            assert s[k] == init[k];
          }
        }
      }
    }
  }

  /** The output of `sorted` is a permutation of its input. */
  lemma {:induction false} SortPermutes<T>(s: seq<(Key, T)>, reverse: bool)
    ensures multiset(Sort(s, reverse)) == multiset(s)
  {
    if s != [] {
      SortPermutes(s[..|s| - 1], reverse);
      InsertPermutes(Sort(s[..|s| - 1], reverse), s[|s| - 1], reverse);
      assert s == s[..|s| - 1] + [s[|s| - 1]];
    }
  }

  /** The output of `sorted` is ordered by key, non-increasing when `reverse` is set. */
  lemma {:induction false} SortSorts<T>(s: seq<(Key, T)>, reverse: bool)
    ensures Sorted(Sort(s, reverse), reverse)
  {
    if s != [] {
      SortSorts(s[..|s| - 1], reverse);
      InsertSorted(Sort(s[..|s| - 1], reverse), s[|s| - 1], reverse);
    }
  }

  lemma {:induction false} InsertKeepsWithKey<T>(s: seq<(Key, T)>, x: (Key, T), reverse: bool, k: Key)
    ensures WithKey(Insert(s, x, reverse), k) == WithKey(s, k) + (if x.0 == k then [x.1] else [])
  {
    if s == [] {
      assert WithKey([x], k) == WithKey([x][..0], k) + (if x.0 == k then [x.1] else []);
    } else {
      var last := s[|s| - 1];
      var init := s[..|s| - 1];
      if Ordered(last.0, x.0, reverse) {
        assert (s + [x])[..|s|] == s;
      } else {
        OrderedIsTotalOrder(last.0, x.0, last.0, reverse);
        assert last.0 != x.0;
        var front := Insert(init, x, reverse);
        InsertKeepsWithKey(init, x, reverse, k);
        assert (front + [last])[..|front|] == front;
      }
    }
  }

  /** Stability: the items sharing any one key keep their relative order. */
  lemma {:induction false} SortIsStable<T>(s: seq<(Key, T)>, reverse: bool, k: Key)
    ensures WithKey(Sort(s, reverse), k) == WithKey(s, k)
  {
    if s != [] {
      SortIsStable(s[..|s| - 1], reverse, k);
      InsertKeepsWithKey(Sort(s[..|s| - 1], reverse), s[|s| - 1], reverse, k);
    }
  }

  /** Sorting an already sorted sequence changes nothing. */
  lemma {:induction false} SortOfSorted<T>(s: seq<(Key, T)>, reverse: bool)
    requires Sorted(s, reverse)
    ensures Sort(s, reverse) == s
  {
    if s != [] {
      var init := s[..|s| - 1];
      assert Sorted(init, reverse);
      SortOfSorted(init, reverse);
      if init != [] {
        assert Ordered(init[|init| - 1].0, s[|s| - 1].0, reverse);
      }
    }
  }

  /** Sorting twice by the same key gives the same result as sorting once. */
  lemma SortIdempotent<T>(s: seq<(Key, T)>, reverse: bool)
    ensures Sort(Sort(s, reverse), reverse) == Sort(s, reverse)
  {
    SortSorts(s, reverse);
    SortOfSorted(Sort(s, reverse), reverse);
  }
}
