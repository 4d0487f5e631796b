/** The weighted Levenshtein distance used for property-name suggestions:
    inserting or deleting a character costs 1 and substituting one costs 2
    (so a substitution is never cheaper than a delete plus an insert).
    Defined on prefixes, the way the usual dynamic-programming table is. */
module Levenshtein {

  const InsertCost := 1
  const DeleteCost := 1
  const SubstituteCost := 2

  function Min3(a: nat, b: nat, c: nat): (m: nat)
    ensures m <= a && m <= b && m <= c
    ensures m == a || m == b || m == c
  {
    if a <= b && a <= c then a else if b <= c then b else c
  }

  function Distance(a: string, b: string): nat
    decreases |a| + |b|
  {
    if |a| == 0 then |b| * InsertCost
    else if |b| == 0 then |a| * DeleteCost
    else
      Min3(Distance(a[..|a| - 1], b) + DeleteCost,
           Distance(a, b[..|b| - 1]) + InsertCost,
           Distance(a[..|a| - 1], b[..|b| - 1])
             + (if a[|a| - 1] == b[|b| - 1] then 0 else SubstituteCost))
  }

  /** A string is at distance zero from itself. */
  lemma {:induction false} DistanceToSelf(a: string)
    ensures Distance(a, a) == 0
    decreases |a|
  {
    if |a| > 0 {
      DistanceToSelf(a[..|a| - 1]);
    }
  }

  /** Distance zero only between equal strings. */
  lemma {:induction false} ZeroDistanceMeansEqual(a: string, b: string)
    requires Distance(a, b) == 0
    ensures a == b
    decreases |a| + |b|
  {
    if |a| > 0 && |b| > 0 {
      var a', b' := a[..|a| - 1], b[..|b| - 1];
      ZeroDistanceMeansEqual(a', b');
      assert a == a' + [a[|a| - 1]];
      assert b == b' + [b[|b| - 1]];
    }
  }

  lemma DistanceZeroIff(a: string, b: string)
    ensures Distance(a, b) == 0 <==> a == b
  {
    if a == b { DistanceToSelf(a); }
    if Distance(a, b) == 0 { ZeroDistanceMeansEqual(a, b); }
  }

  /** Strings with no character in common are as far apart as possible:
      every character of one is deleted and every one of the other
      inserted. */
  lemma {:induction false} DisjointDistance(a: string, b: string)
    requires forall i, j :: 0 <= i < |a| && 0 <= j < |b| ==> a[i] != b[j]
    ensures Distance(a, b) == |a| + |b|
    decreases |a| + |b|
  {
    if |a| > 0 && |b| > 0 {
      DisjointDistance(a[..|a| - 1], b);
      DisjointDistance(a, b[..|b| - 1]);
      DisjointDistance(a[..|a| - 1], b[..|b| - 1]);
    }
  }

  /** Deleting one character from anywhere in a word costs at most 1. */
  lemma OneDeletion(p: string, c: char, s: string)
    ensures Distance(p + [c] + s, p + s) <= 1
    decreases |s|
  {
    if |s| == 0 {
      assert (p + [c] + s)[..|p + [c] + s| - 1] == p;
      assert p + s == p;
      DistanceToSelf(p);
    } else {
      var a := p + [c] + s;
      var b := p + s;
      assert a[..|a| - 1] == p + [c] + s[..|s| - 1];
      assert b[..|b| - 1] == p + s[..|s| - 1];
      OneDeletion(p, c, s[..|s| - 1]);
    }
  }

  /** One step of an edit script: a matching last character is free,
      deleting or inserting one costs one. */
  lemma EditStep(a: string, b: string, c: char)
    ensures Distance(a + [c], b + [c]) <= Distance(a, b)
    ensures Distance(a + [c], b) <= Distance(a, b) + DeleteCost
    ensures Distance(a, b + [c]) <= Distance(a, b) + InsertCost
  {
    assert (a + [c])[..|a + [c]| - 1] == a;
    assert (b + [c])[..|b + [c]| - 1] == b;
  }

  /** Swapping two adjacent characters costs at most a delete and an
      insert. */
  lemma {:induction false} AdjacentSwap(p: string, x: char, y: char, s: string)
    ensures Distance(p + [x, y] + s, p + [y, x] + s) <= 2
    decreases |s|
  {
    if |s| == 0 {
      assert p + [x, y] + s == (p + [x]) + [y];
      assert p + [y, x] + s == (p + [y]) + [x];
      EditStep(p + [x], p + [y, x], y);
      EditStep(p, p + [y], x);
      EditStep(p, p, y);
      DistanceToSelf(p);
      assert p + [y] + [x] == p + [y, x];
    } else {
      var s' := s[..|s| - 1];
      AdjacentSwap(p, x, y, s');
      EditStep(p + [x, y] + s', p + [y, x] + s', s[|s| - 1]);
      assert p + [x, y] + s == (p + [x, y] + s') + [s[|s| - 1]];
      assert p + [y, x] + s == (p + [y, x] + s') + [s[|s| - 1]];
    }
  }
}
