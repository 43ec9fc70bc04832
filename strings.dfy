/**
 * Cutting text at a separator and gluing it back together. `Join` is Rust's
 * `join`; `Split` is the plain "cut at every separator" reading of a line- or
 * comma-separated text, against which the combinator parser is compared.
 */
module Strings {

  /** Number of leading characters of `s` that are not in `stop`. */
  function Span(s: string, stop: set<char>): (n: nat)
    ensures n <= |s|
    ensures forall i :: 0 <= i < n ==> s[i] !in stop
    ensures n < |s| ==> s[n] in stop
    decreases |s|
  {
    if s == [] || s[0] in stop then 0 else 1 + Span(s[1..], stop)
  }

  /** The three facts above determine `Span`. */
  lemma SpanIs(s: string, stop: set<char>, n: nat)
    requires n <= |s|
    requires forall i :: 0 <= i < n ==> s[i] !in stop
    requires n == |s| || s[n] in stop
    ensures Span(s, stop) == n
  {
  }

  /** `s` cut at every occurrence of `d`: always at least one piece, and no piece holds `d`. */
  function Split(s: string, d: char): (parts: seq<string>)
    ensures |parts| >= 1
    ensures forall i :: 0 <= i < |parts| ==> d !in parts[i]
    decreases |s|
  {
    var n := Span(s, {d});
    if n == |s| then [s] else [s[..n]] + Split(s[n + 1..], d)
  }

  /** Cutting at the first `d`, at position `n`. */
  lemma SplitStep(s: string, d: char, n: nat)
    requires Span(s, {d}) == n < |s|
    ensures Split(s, d) == [s[..n]] + Split(s[n + 1..], d)
  {
  }

  /** The parts in order, with `sep` between neighbours. */
  function Join(parts: seq<string>, sep: string): string
  {
    if parts == [] then []
    else if |parts| == 1 then parts[0]
    else parts[0] + sep + Join(parts[1..], sep)
  }

  /** Gluing the pieces back together with the separator restores the text. */
  lemma {:induction false} JoinSplit(s: string, d: char)
    ensures Join(Split(s, d), [d]) == s
    decreases |s|
  {
    var n := Span(s, {d});
    if n < |s| {
      var parts := Split(s, d);
      var later := Split(s[n + 1..], d);
      assert parts == [s[..n]] + later;
      assert parts[1..] == later;
      assert Join(parts, [d]) == s[..n] + [d] + Join(later, [d]);
      JoinSplit(s[n + 1..], d);
      assert s == s[..n] + [d] + s[n + 1..];
    }
  }

  /** Cutting a join of separator-free parts gives the parts back. */
  lemma {:induction false} SplitJoin(parts: seq<string>, d: char)
    requires |parts| >= 1
    requires forall i :: 0 <= i < |parts| ==> d !in parts[i]
    ensures Split(Join(parts, [d]), d) == parts
    decreases |parts|
  {
    var s := Join(parts, [d]);
    if |parts| == 1 {
      SpanIs(s, {d}, |s|);
    } else {
      var rest := Join(parts[1..], [d]);
      assert s == parts[0] + [d] + rest;
      SpanIs(s, {d}, |parts[0]|);
      assert s[..|parts[0]|] == parts[0];
      assert s[|parts[0]| + 1..] == rest;
      SplitJoin(parts[1..], d);
    }
  }

  /** Putting `p` in front of a join is the same as putting it in front of the first part. */
  lemma PrependJoin(p: string, parts: seq<string>, sep: string)
    requires |parts| >= 1
    ensures p + Join(parts, sep) == Join([p + parts[0]] + parts[1..], sep)
  {
    var q := [p + parts[0]] + parts[1..];
    assert q[1..] == parts[1..];
  }

  /** A character in neither the parts nor the separator is not in their join. */
  lemma {:induction false} JoinAvoids(parts: seq<string>, sep: string, c: char)
    requires c !in sep
    requires forall i :: 0 <= i < |parts| ==> c !in parts[i]
    ensures c !in Join(parts, sep)
    decreases |parts|
  {
    if |parts| > 1 {
      JoinAvoids(parts[1..], sep, c);
    }
  }

  /** Cutting at the first `d` of `a + [d] + b`, where `a` holds no `d`. */
  lemma SplitAt(a: string, d: char, b: string)
    requires d !in a
    ensures Split(a + [d] + b, d) == [a] + Split(b, d)
  {
    var s := a + [d] + b;
    SpanIs(s, {d}, |a|);
    assert s[..|a|] == a;
    assert s[|a| + 1..] == b;
  }

  /** Cutting a join of separator-free parts followed by a separator and more text. */
  lemma {:induction false} SplitJoinThen(parts: seq<string>, d: char, b: string)
    requires |parts| >= 1
    requires forall i :: 0 <= i < |parts| ==> d !in parts[i]
    ensures Split(Join(parts, [d]) + [d] + b, d) == parts + Split(b, d)
    decreases |parts|
  {
    if |parts| == 1 {
      SplitAt(parts[0], d, b);
    } else {
      SplitJoinThen(parts[1..], d, b);
      SplitJoinThenStep(parts, d, b);
    }
  }

  lemma SplitJoinThenStep(parts: seq<string>, d: char, b: string)
    requires |parts| >= 2 && d !in parts[0]
    requires Split(Join(parts[1..], [d]) + [d] + b, d) == parts[1..] + Split(b, d)
    ensures Split(Join(parts, [d]) + [d] + b, d) == parts + Split(b, d)
  {
    var tail := Join(parts[1..], [d]) + [d] + b;
    assert Join(parts, [d]) + [d] + b == parts[0] + [d] + tail;
    SplitAt(parts[0], d, tail);
    assert parts == [parts[0]] + parts[1..];
  }

  /** Adding a last part adds the separator and that part at the end. */
  lemma {:induction false} JoinSnoc(parts: seq<string>, x: string, sep: string)
    requires |parts| >= 1
    ensures Join(parts + [x], sep) == Join(parts, sep) + sep + x
    decreases |parts|
  {
    var q := parts + [x];
    assert q[0] == parts[0] && q[1..] == parts[1..] + [x];
    if |parts| > 1 {
      JoinSnoc(parts[1..], x, sep);
    }
  }
}
