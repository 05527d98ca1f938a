/**
 String ordering used by the navigator's alphabetical sort.

 JavaScript's default `Array.prototype.sort` compares strings element by
 element: a proper prefix comes first, otherwise the first differing
 element decides. Dafny's `<` on sequences means "proper prefix", so the
 lexicographic order is defined here, together with the facts that make it
 a strict total order.
 */
module Lex {

  /** Lexicographic "strictly less than" on strings. */
  predicate LexLess(a: string, b: string)
    decreases |a|
  {
    if |a| == 0 then |b| > 0
    else if |b| == 0 then false
    else if a[0] != b[0] then a[0] < b[0]
    else LexLess(a[1..], b[1..])
  }

  /** `p` is a prefix of `s` (not necessarily proper). */
  ghost predicate IsPrefix(p: string, s: string) {
    |p| <= |s| && s[..|p|] == p
  }

  /** The strings agree before index `k` and `a` is smaller at `k`. */
  ghost predicate LessAt(a: string, b: string, k: nat) {
    k < |a| && k < |b| && a[..k] == b[..k] && a[k] < b[k]
  }

  /**
   The string comparison of ECMAScript's IsLessThan abstract operation,
   written the way the language standard states it: if `b` is a prefix of
   `a` the answer is false; if `a` is a prefix of `b` it is true; otherwise
   the first index at which they differ decides.
   */
  ghost predicate StringLessThan(a: string, b: string) {
    if IsPrefix(b, a) then false
    else if IsPrefix(a, b) then true
    else exists k: nat :: LessAt(a, b, k)
  }

  lemma {:induction false} LexLessIrreflexive(a: string)
    ensures !LexLess(a, a)
    decreases |a|
  {
    if |a| > 0 {
      LexLessIrreflexive(a[1..]);
    }
  }

  lemma {:induction false} LexLessAsymmetric(a: string, b: string)
    ensures LexLess(a, b) ==> !LexLess(b, a)
    decreases |a|
  {
    if |a| > 0 && |b| > 0 && a[0] == b[0] {
      LexLessAsymmetric(a[1..], b[1..]);
    }
  }

  lemma {:induction false} LexLessTransitive(a: string, b: string, c: string)
    requires LexLess(a, b) && LexLess(b, c)
    ensures LexLess(a, c)
    decreases |a|
  {
    if |a| > 0 && a[0] == b[0] && b[0] == c[0] {
      LexLessTransitive(a[1..], b[1..], c[1..]);
    }
  }

  /** Any two different strings are ordered one way or the other. */
  lemma {:induction false} LexLessTotal(a: string, b: string)
    ensures a == b || LexLess(a, b) || LexLess(b, a)
    decreases |a|
  {
    if |a| > 0 && |b| > 0 && a[0] == b[0] {
      LexLessTotal(a[1..], b[1..]);
      if a[1..] == b[1..] {
        assert a == [a[0]] + a[1..] && b == [b[0]] + b[1..];
      }
    }
  }

  /** The recursive definition agrees with the standard's first-difference rule. */
  lemma {:induction false} LexLessIsStringLessThan(a: string, b: string)
    ensures LexLess(a, b) <==> StringLessThan(a, b)
    decreases |a|
  {
    if |a| == 0 || |b| == 0 {
      assert IsPrefix(a, b) || IsPrefix(b, a);
    } else if a[0] != b[0] {
      assert !IsPrefix(a, b) && !IsPrefix(b, a);
      if a[0] < b[0] {
        assert LessAt(a, b, 0);
      }
    } else {
      var a', b' := a[1..], b[1..];
      LexLessIsStringLessThan(a', b');
      assert a == [a[0]] + a' && b == [b[0]] + b';
      assert IsPrefix(b, a) <==> IsPrefix(b', a') by {
        if |b| <= |a| {
          assert a[..|b|] == [a[0]] + a'[..|b'|];
        }
      }
      assert IsPrefix(a, b) <==> IsPrefix(a', b') by {
        if |a| <= |b| {
          assert b[..|a|] == [b[0]] + b'[..|a'|];
        }
      }
      if !IsPrefix(b, a) && !IsPrefix(a, b) {
        if k: nat :| LessAt(a', b', k) {
          assert a[..k + 1] == [a[0]] + a'[..k] && b[..k + 1] == [b[0]] + b'[..k];
          assert LessAt(a, b, k + 1);
        }
        if k: nat :| LessAt(a, b, k) {
          assert k != 0;
          assert a'[..k - 1] == a[..k][1..] && b'[..k - 1] == b[..k][1..];
          assert LessAt(a', b', k - 1);
        }
      }
    }
  }
}
