/** The handful of Go `strings` package operations the model needs, written
    out over `seq<char>`: prefix/suffix tests, `Split` on a one-character
    separator, `Join`, and `Replace` with an unlimited count. */
module Strings {

  predicate StartsWith(s: string, prefix: string)
  {
    |prefix| <= |s| && s[..|prefix|] == prefix
  }

  predicate EndsWith(s: string, suffix: string)
  {
    |suffix| <= |s| && s[|s| - |suffix|..] == suffix
  }

  lemma StartsWithAppend(a: string, b: string, prefix: string)
    requires StartsWith(a, prefix)
    ensures StartsWith(a + b, prefix)
  {
    assert (a + b)[..|prefix|] == a[..|prefix|];
  }

  /** Appending text after `a` keeps whichever of two prefixes `a` had. */
  lemma StartsWithEitherAppend(a: string, b: string, p: string, q: string)
    requires StartsWith(a, p) || StartsWith(a, q)
    ensures StartsWith(a, p) ==> StartsWith(a + b, p)
    ensures StartsWith(a, q) ==> StartsWith(a + b, q)
  {
    if StartsWith(a, p) { StartsWithAppend(a, b, p); }
    if StartsWith(a, q) { StartsWithAppend(a, b, q); }
  }

  lemma ConcatParts(a: string, b: string)
    ensures StartsWith(a + b, a) && EndsWith(a + b, b)
    ensures (a + b)[..|a|] == a
  {
    assert (a + b)[..|a|] == a;
    assert (a + b)[|a + b| - |b|..] == b;
  }

  /** Text framed by the same prefix and suffix can be read back: equal
      framed strings have equal middles. */
  lemma FramedInjective(p: string, a: string, b: string, q: string)
    requires p + a + q == p + b + q
    ensures a == b
  {
    assert |a| == |b|;
    assert a == (p + a + q)[|p|..|p| + |a|];
    assert b == (p + b + q)[|p|..|p| + |b|];
  }

  /** Strings that differ at some position differ. */
  lemma DifferAt(a: string, b: string, i: nat)
    requires i < |a| && i < |b| && a[i] != b[i]
    ensures a != b
  {
  }

  /** Number of occurrences of `c` in `s`. */
  function Occurrences(s: string, c: char): (n: nat)
    ensures n <= |s|
  {
    if |s| == 0 then 0
    else (if s[0] == c then 1 else 0) + Occurrences(s[1..], c)
  }

  lemma {:induction false} OccurrencesAppend(a: string, b: string, c: char)
    ensures Occurrences(a + b, c) == Occurrences(a, c) + Occurrences(b, c)
    decreases |a|
  {
    if |a| == 0 {
      assert a + b == b;
    } else {
      assert (a + b)[1..] == a[1..] + b;
      OccurrencesAppend(a[1..], b, c);
    }
  }

  /** Go's `strings.Join`: the parts separated by `sep`. */
  function Join(parts: seq<string>, sep: string): string
  {
    if |parts| == 0 then ""
    else if |parts| == 1 then parts[0]
    else parts[0] + sep + Join(parts[1..], sep)
  }

  /** Go's `strings.Split` with a one-character separator: the maximal
      pieces between occurrences of `c`, one more piece than there are
      occurrences, and joining them back with `c` gives `s` again. */
  function Split(s: string, c: char): (pieces: seq<string>)
    ensures |pieces| == Occurrences(s, c) + 1
    ensures forall i :: 0 <= i < |pieces| ==> Occurrences(pieces[i], c) == 0
    ensures Join(pieces, [c]) == s
    decreases |s|
  {
    if |s| == 0 then [""]
    else
      var rest := Split(s[1..], c);
      if s[0] == c then
        assert Join([""] + rest, [c]) == [c] + Join(rest, [c]) by {
          assert ([""] + rest)[1..] == rest;
        }
        assert [c] + s[1..] == s;
        [""] + rest
      else
        var pieces := [[s[0]] + rest[0]] + rest[1..];
        assert Join(pieces, [c]) == [s[0]] + Join(rest, [c]) by {
          if |rest| > 1 {
            assert pieces[1..] == rest[1..];
          }
        }
        assert [s[0]] + s[1..] == s;
        assert Occurrences([s[0]] + rest[0], c) == 0 by {
          assert ([s[0]] + rest[0])[1..] == rest[0];
        }
        assert forall i :: 1 <= i < |pieces| ==> pieces[i] == rest[i];
        pieces
  }

  /** Go's `strings.Replace(s, pattern, replacement, -1)`: every non-overlapping
      occurrence of `pattern`, scanning left to right, becomes `replacement`. */
  function ReplaceAll(s: string, pattern: string, replacement: string): string
    requires |pattern| > 0
    decreases |s|
  {
    if |s| < |pattern| then s
    else if s[..|pattern|] == pattern then replacement + ReplaceAll(s[|pattern|..], pattern, replacement)
    else [s[0]] + ReplaceAll(s[1..], pattern, replacement)
  }

  /** A string whose first character cannot start a match keeps it. */
  lemma ReplaceAllStep(s: string, pattern: string, replacement: string)
    requires |pattern| > 0 && |s| > 0 && s[0] != pattern[0]
    ensures ReplaceAll(s, pattern, replacement) == [s[0]] + ReplaceAll(s[1..], pattern, replacement)
  {
    if |s| >= |pattern| {
      assert s[..|pattern|][0] == s[0];
    }
  }

  /** A prefix none of whose characters can start a match passes through
      `ReplaceAll` untouched. */
  lemma {:induction false} ReplaceAllSkipsPrefix(p: string, s: string, pattern: string, replacement: string)
    requires |pattern| > 0
    requires forall i :: 0 <= i < |p| ==> p[i] != pattern[0]
    ensures ReplaceAll(p + s, pattern, replacement) == p + ReplaceAll(s, pattern, replacement)
    decreases |p|
  {
    if |p| == 0 {
      assert p + s == s;
    } else {
      var t := p + s;
      var tail := p[1..];
      assert t[0] == p[0] && p[0] != pattern[0];
      assert t[1..] == tail + s;
      ReplaceAllStep(t, pattern, replacement);
      assert forall i :: 0 <= i < |tail| ==> tail[i] == p[i + 1];
      ReplaceAllSkipsPrefix(tail, s, pattern, replacement);
      assert p == [p[0]] + tail;
    }
  }
}
