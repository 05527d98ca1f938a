/**
 The two sorts the navigator applies to a node's directory names.

 `Array.prototype.sort` is stable, and for a consistent comparator every
 stable sort produces the same output, so one stable algorithm (insertion
 sort that places each element after the ones that compare equal to it)
 stands for it. A comparator returns a negative number when its first
 argument belongs before its second.
 */
module Sorting {
  import opened Lex

  /** Inserts `x` into `s` in front of the first element it must precede. */
  function Insert<T>(x: T, s: seq<T>, cmp: (T, T) -> int): (r: seq<T>)
    ensures |r| == |s| + 1
  {
    if s == [] then [x]
    else if cmp(x, s[0]) < 0 then [x] + s
    else [s[0]] + Insert(x, s[1..], cmp)
  }

  /** Inserting adds exactly `x` and loses nothing. */
  lemma {:induction false} InsertPermutes<T>(x: T, s: seq<T>, cmp: (T, T) -> int)
    ensures multiset(Insert(x, s, cmp)) == multiset(s) + multiset{x}
    decreases |s|
  {
    if s != [] && cmp(x, s[0]) >= 0 {
      InsertPermutes(x, s[1..], cmp);
      assert s == [s[0]] + s[1..];
    }
  }

  /** Stable sort of `xs` by `cmp`: elements are inserted in their input order. */
  function SortBy<T>(xs: seq<T>, cmp: (T, T) -> int): (r: seq<T>)
    ensures multiset(r) == multiset(xs)
    ensures |r| == |xs|
  {
    if xs == [] then []
    else
      assert xs == xs[..|xs| - 1] + [xs[|xs| - 1]];
      InsertPermutes(xs[|xs| - 1], SortBy(xs[..|xs| - 1], cmp), cmp);
      Insert(xs[|xs| - 1], SortBy(xs[..|xs| - 1], cmp), cmp)
  }

  /** The comparator of a `sort()` call without arguments, on strings. */
  function CompareStrings(a: string, b: string): int {
    if LexLess(a, b) then -1 else if LexLess(b, a) then 1 else 0
  }

  /** The comparator `(x, y) => key(y) - key(x)`: larger keys first. */
  function ByKeyDescending<T>(key: T -> int): (T, T) -> int {
    (x: T, y: T) => key(y) - key(x)
  }

  /** Every element is at most every later element, lexicographically. */
  ghost predicate LexSorted(s: seq<string>) {
    forall i, j :: 0 <= i < j < |s| ==> !LexLess(s[j], s[i])
  }

  /** The elements of `s` whose key is `v`, in their order in `s`. */
  function KeyClass<T>(s: seq<T>, key: T -> int, v: int): (r: seq<T>)
    ensures forall i :: 0 <= i < |r| ==> key(r[i]) == v
    ensures multiset(r) <= multiset(s)
  {
    if s == [] then []
    else
      assert s == s[..|s| - 1] + [s[|s| - 1]];
      KeyClass(s[..|s| - 1], key, v) + (if key(s[|s| - 1]) == v then [s[|s| - 1]] else [])
  }

  lemma {:induction false} InsertKeepsLexSorted(x: string, s: seq<string>)
    requires LexSorted(s)
    ensures LexSorted(Insert(x, s, CompareStrings))
    decreases |s|
  {
    if s != [] {
      if LexLess(x, s[0]) {
        forall y | y in s
          ensures !LexLess(y, x)
        {
          if LexLess(y, x) {
            LexLessTransitive(y, x, s[0]);
            LexLessIrreflexive(s[0]);
          }
        }
        assert forall j :: 0 < j <= |s| ==> ([x] + s)[j] in s;
      } else {
        var rest := Insert(x, s[1..], CompareStrings);
        InsertKeepsLexSorted(x, s[1..]);
        InsertPermutes(x, s[1..], CompareStrings);
        forall e | e in rest
          ensures !LexLess(e, s[0])
        {
          assert e in multiset(rest);
          if e != x {
            assert e in s[1..];
          }
        }
      }
    }
  }

  /** The alphabetical pass leaves the names in lexicographic order. */
  lemma {:induction false} SortByStringsIsLexSorted(xs: seq<string>)
    ensures LexSorted(SortBy(xs, CompareStrings))
    decreases |xs|
  {
    if xs != [] {
      SortByStringsIsLexSorted(xs[..|xs| - 1]);
      InsertKeepsLexSorted(xs[|xs| - 1], SortBy(xs[..|xs| - 1], CompareStrings));
    }
  }

  /** A key-0 element goes after everything already present. */
  lemma {:induction false} InsertLowKey<T>(x: T, s: seq<T>, key: T -> int)
    requires key(x) == 0
    requires forall i :: 0 <= i < |s| ==> key(s[i]) == 0 || key(s[i]) == 1
    ensures Insert(x, s, ByKeyDescending(key)) == s + [x]
    decreases |s|
  {
    if s != [] {
      var cmp := ByKeyDescending(key);
      assert cmp(x, s[0]) >= 0;
      InsertLowKey(x, s[1..], key);
      assert s == [s[0]] + s[1..];
    }
  }

  /** A key-1 element goes in front of a sequence that starts with a key-0 element. */
  lemma InsertBeforeLowKey<T>(x: T, b: seq<T>, key: T -> int)
    requires key(x) == 1
    requires b == [] || key(b[0]) == 0
    ensures Insert(x, b, ByKeyDescending(key)) == [x] + b
  {
    if b != [] {
      assert ByKeyDescending(key)(x, b[0]) < 0;
    }
  }

  /** A key-1 element goes after the key-1 prefix and before the key-0 rest. */
  lemma {:induction false} InsertHighKey<T>(x: T, a: seq<T>, b: seq<T>, key: T -> int)
    requires key(x) == 1
    requires forall y :: y in a ==> key(y) == 1
    requires b == [] || key(b[0]) == 0
    ensures Insert(x, a + b, ByKeyDescending(key)) == a + [x] + b
    decreases |a|
  {
    if a == [] {
      assert a + b == b && a + [x] + b == [x] + b;
      InsertBeforeLowKey(x, b, key);
    } else {
      InsertAfterHighKey(x, a[0], a[1..] + b, key);
      assert forall y :: y in a[1..] ==> y in a;
      InsertHighKey(x, a[1..], b, key);
      assert a + b == [a[0]] + (a[1..] + b);
      assert a + [x] + b == [a[0]] + (a[1..] + [x] + b);
    }
  }

  lemma InsertAfterHighKey<T>(x: T, y: T, s: seq<T>, key: T -> int)
    requires key(x) == 1 && key(y) == 1
    ensures Insert(x, [y] + s, ByKeyDescending(key)) == [y] + Insert(x, s, ByKeyDescending(key))
  {
    assert ([y] + s)[0] == y && ([y] + s)[1..] == s;
  }

  /** One insertion step keeps "key-1 elements, then key-0 elements". */
  lemma InsertIntoTwoClasses<T>(x: T, hi: seq<T>, lo: seq<T>, key: T -> int)
    requires forall i :: 0 <= i < |hi| ==> key(hi[i]) == 1
    requires forall i :: 0 <= i < |lo| ==> key(lo[i]) == 0
    requires key(x) == 0 || key(x) == 1
    ensures Insert(x, hi + lo, ByKeyDescending(key))
         == (hi + (if key(x) == 1 then [x] else [])) + (lo + (if key(x) == 0 then [x] else []))
  {
    if key(x) == 1 {
      assert lo == [] || key(lo[0]) == 0;
      assert forall y :: y in hi ==> key(y) == 1;
      InsertHighKey(x, hi, lo, key);
      assert lo + [] == lo;
    } else {
      forall i | 0 <= i < |hi + lo|
        ensures key((hi + lo)[i]) == 0 || key((hi + lo)[i]) == 1
      {
        if i < |hi| {
          assert (hi + lo)[i] == hi[i];
        } else {
          assert (hi + lo)[i] == lo[i - |hi|];
        }
      }
      InsertLowKey(x, hi + lo, key);
      assert hi + lo + [x] == (hi + []) + (lo + [x]);
    }
  }

  /**
   Stably sorting by a key that is 0 or 1, larger first, yields the key-1
   elements followed by the key-0 elements, each group in input order.
   */
  lemma {:induction false} SortByKeyDescendingPartitions<T>(xs: seq<T>, key: T -> int)
    requires forall i :: 0 <= i < |xs| ==> key(xs[i]) == 0 || key(xs[i]) == 1
    ensures SortBy(xs, ByKeyDescending(key)) == KeyClass(xs, key, 1) + KeyClass(xs, key, 0)
    decreases |xs|
  {
    if xs != [] {
      var init, last := xs[..|xs| - 1], xs[|xs| - 1];
      assert forall i :: 0 <= i < |init| ==> init[i] == xs[i];
      SortByKeyDescendingPartitions(init, key);
      InsertIntoTwoClasses(last, KeyClass(init, key, 1), KeyClass(init, key, 0), key);
    }
  }

  /** Taking one key class of a lexicographically sorted sequence keeps it sorted. */
  lemma {:induction false} KeyClassKeepsLexSorted(s: seq<string>, key: string -> int, v: int)
    requires LexSorted(s)
    ensures LexSorted(KeyClass(s, key, v))
    decreases |s|
  {
    if s != [] {
      var init := s[..|s| - 1];
      assert LexSorted(init);
      KeyClassKeepsLexSorted(init, key, v);
      var c := KeyClass(init, key, v);
      forall i | 0 <= i < |c|
        ensures !LexLess(s[|s| - 1], c[i])
      {
        assert c[i] in multiset(init);
        var j :| 0 <= j < |init| && init[j] == c[i];
      }
    }
  }

  /** Larger keys first; within a key, lexicographic order. */
  ghost predicate KeyThenLexSorted(s: seq<string>, key: string -> int) {
    forall i, j :: 0 <= i < j < |s| ==>
      key(s[j]) <= key(s[i]) && (key(s[j]) == key(s[i]) ==> !LexLess(s[j], s[i]))
  }

  /** The order only depends on the key's values. */
  lemma KeyThenLexSortedSameKeys(s: seq<string>, k1: string -> int, k2: string -> int)
    requires forall x :: k1(x) == k2(x)
    requires KeyThenLexSorted(s, k1)
    ensures KeyThenLexSorted(s, k2)
  {
  }

  /** Key-1 names in lexicographic order followed by key-0 names in lexicographic order. */
  lemma TwoSortedClassesAreKeyThenLexSorted(hi: seq<string>, lo: seq<string>, key: string -> int)
    requires forall i :: 0 <= i < |hi| ==> key(hi[i]) == 1
    requires forall i :: 0 <= i < |lo| ==> key(lo[i]) == 0
    requires LexSorted(hi) && LexSorted(lo)
    ensures KeyThenLexSorted(hi + lo, key)
  {
    var s := hi + lo;
    forall i, j | 0 <= i < j < |s|
      ensures key(s[j]) <= key(s[i]) && (key(s[j]) == key(s[i]) ==> !LexLess(s[j], s[i]))
    {
      if j < |hi| {
        assert s[i] == hi[i] && s[j] == hi[j];
      } else if i >= |hi| {
        assert s[i] == lo[i - |hi|] && s[j] == lo[j - |hi|];
      } else {
        assert s[i] == hi[i] && s[j] == lo[j - |hi|];
      }
    }
  }

  /**
   Sorting alphabetically and then stably by a 0/1 key, larger first,
   leaves names in key-then-lexicographic order.
   */
  lemma AlphabeticalThenByKeyIsKeyThenLexSorted(names: seq<string>, key: string -> int)
    requires forall x :: key(x) == 0 || key(x) == 1
    ensures KeyThenLexSorted(SortBy(SortBy(names, CompareStrings), ByKeyDescending(key)), key)
  {
    var alphabetical := SortBy(names, CompareStrings);
    SortByStringsIsLexSorted(names);
    SortByKeyDescendingPartitions(alphabetical, key);
    KeyClassKeepsLexSorted(alphabetical, key, 1);
    KeyClassKeepsLexSorted(alphabetical, key, 0);
    TwoSortedClassesAreKeyThenLexSorted(KeyClass(alphabetical, key, 1), KeyClass(alphabetical, key, 0), key);
  }

  /** Two such arrangements of one multiset start with the same element. */
  lemma SortedHeadsAgree(s1: seq<string>, s2: seq<string>, key: string -> int)
    requires KeyThenLexSorted(s1, key) && KeyThenLexSorted(s2, key)
    requires multiset(s1) == multiset(s2)
    requires |s1| > 0 && |s2| > 0
    ensures s1[0] == s2[0]
  {
    var a, b := s1[0], s2[0];
    if a != b {
      assert b in multiset(s1) && a in multiset(s2);
      var j :| 0 <= j < |s1| && s1[j] == b;
      var k :| 0 <= k < |s2| && s2[k] == a;
      LexLessTotal(a, b);
      assert false;
    }
  }

  lemma TailsAgreeAsMultisets<T>(s1: seq<T>, s2: seq<T>)
    requires multiset(s1) == multiset(s2)
    requires |s1| > 0 && |s2| > 0 && s1[0] == s2[0]
    ensures multiset(s1[1..]) == multiset(s2[1..])
  {
    assert s1 == [s1[0]] + s1[1..] && s2 == [s2[0]] + s2[1..];
    assert multiset(s1[1..]) == multiset(s1) - multiset{s1[0]};
    assert multiset(s2[1..]) == multiset(s2) - multiset{s2[0]};
  }

  /**
   "Key descending, then lexicographic" is a total order on strings, so a
   multiset has exactly one arrangement sorted that way.
   */
  lemma {:induction false} KeyThenLexSortedUnique(s1: seq<string>, s2: seq<string>, key: string -> int)
    requires KeyThenLexSorted(s1, key) && KeyThenLexSorted(s2, key)
    requires multiset(s1) == multiset(s2)
    ensures s1 == s2
    decreases |s1|
  {
    assert |s1| == |multiset(s1)| == |multiset(s2)| == |s2|;
    if |s1| > 0 {
      SortedHeadsAgree(s1, s2, key);
      TailsAgreeAsMultisets(s1, s2);
      KeyThenLexSortedUnique(s1[1..], s2[1..], key);
      assert s1 == [s1[0]] + s1[1..] && s2 == [s2[0]] + s2[1..];
    }
  }
}
