/**
 Node paths: a node of the fixture tree is named by the directory names
 leading to it, joined with '/'. The joined string is the key of the
 node in the expansion map, so it matters that different nodes get
 different keys; `Split` undoes `Join` and shows that they do, as long as
 no directory name contains the separator.
 */
module Paths {

  const Separator: char := '/'

  /** `parts.join('/')`: the empty list joins to the empty string. */
  function Join(parts: seq<string>): string
    decreases |parts|
  {
    if |parts| == 0 then ""
    else if |parts| == 1 then parts[0]
    else parts[0] + [Separator] + Join(parts[1..])
  }

  /** Splits at every separator; always yields at least one (possibly empty) part. */
  function Split(s: string): (r: seq<string>)
    ensures |r| >= 1
    decreases |s|
  {
    if |s| == 0 then [""]
    else if s[0] == Separator then [""] + Split(s[1..])
    else
      var t := Split(s[1..]);
      [[s[0]] + t[0]] + t[1..]
  }

  /** No part contains the separator. */
  ghost predicate SeparatorFree(parts: seq<string>) {
    forall i :: 0 <= i < |parts| ==> Separator !in parts[i]
  }

  /** Text without a separator glues onto the first part of what follows. */
  lemma {:induction false} SplitPrefix(a: string, s: string)
    requires Separator !in a
    ensures Split(a + s) == [a + Split(s)[0]] + Split(s)[1..]
    decreases |a|
  {
    if |a| > 0 {
      assert (a + s)[0] == a[0] && (a + s)[1..] == a[1..] + s;
      SplitPrefix(a[1..], s);
      assert [a[0]] + (a[1..] + Split(s)[0]) == a + Split(s)[0];
    } else {
      assert a + s == s && a + Split(s)[0] == Split(s)[0];
      assert Split(s) == [Split(s)[0]] + Split(s)[1..];
    }
  }

  /** Splitting a joined path gives back its parts. */
  lemma {:induction false} SplitJoin(parts: seq<string>)
    requires |parts| > 0
    requires SeparatorFree(parts)
    ensures Split(Join(parts)) == parts
    decreases |parts|
  {
    if |parts| == 1 {
      SplitPrefix(parts[0], "");
      assert parts[0] + "" == parts[0];
    } else {
      var rest := parts[1..];
      SplitJoin(rest);
      var tail := [Separator] + Join(rest);
      assert parts[0] + [Separator] + Join(rest) == parts[0] + tail;
      SplitPrefix(parts[0], tail);
      assert tail[0] == Separator && tail[1..] == Join(rest);
      assert Split(tail) == [""] + rest;
      assert parts[0] + "" == parts[0];
      assert parts == [parts[0]] + rest;
    }
  }

  /** Different non-empty, separator-free paths never share a key. */
  lemma JoinInjective(p: seq<string>, q: seq<string>)
    requires |p| > 0 && |q| > 0
    requires SeparatorFree(p) && SeparatorFree(q)
    requires Join(p) == Join(q)
    ensures p == q
  {
    SplitJoin(p);
    SplitJoin(q);
  }

  /** A child's path is its parent's path, a separator and its own name. */
  lemma {:induction false} JoinAppend(parents: seq<string>, name: string)
    requires |parents| > 0
    ensures Join(parents + [name]) == Join(parents) + [Separator] + name
    decreases |parents|
  {
    if |parents| > 1 {
      assert (parents + [name])[1..] == parents[1..] + [name];
      JoinAppend(parents[1..], name);
    }
  }

  /**
   Without the separator-free condition keys collide: the directory
   "a/b" at the top level and the directory "b" inside "a" share a key.
   */
  lemma SeparatorInNameCollides()
    ensures Join(["a/b"]) == Join(["a", "b"])
    ensures ["a/b"] != ["a", "b"]
  {
  }
}
