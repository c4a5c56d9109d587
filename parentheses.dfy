/** `locate_parenthesis`: the top-level (depth-1) `(`...`)` groups of a string,
    found by counting depth. Strings are ASCII, so a byte offset and a
    character index are the same number. */
module Parentheses {

  /** `usize::MAX` on a 64-bit target: the initial value of `current`. */
  const USIZE_MAX: nat := 0xFFFF_FFFF_FFFF_FFFF

  /** How a character moves the parenthesis depth. */
  function Delta(c: char): int {
    if c == '(' then 1 else if c == ')' then -1 else 0
  }

  /** The depth after reading all of `t`: opened minus closed parentheses.
      A stray `)` makes it negative. */
  function Depth(t: string): int {
    if t == [] then 0 else Depth(t[..|t| - 1]) + Delta(t[|t| - 1])
  }

  /** The parenthesis group opened at `a` is still open after `n` characters:
      `s[a]` is `(` read at depth 0 and the depth has stayed at 1 or more since. */
  ghost predicate OpenSince(s: string, a: nat, n: nat)
    requires n <= |s|
  {
    a < n && s[a] == '(' && Depth(s[..a]) == 0 &&
    forall k :: a < k <= n ==> Depth(s[..k]) >= 1
  }

  /** `(a, b)` is a top-level group: `s[a]` opens it from depth 0, the depth
      never falls back to 0 inside, and the `)` at `b` closes it from depth 1. */
  ghost predicate IsTopSpan(s: string, a: nat, b: nat) {
    b < |s| && OpenSince(s, a, b) && s[b] == ')' && Depth(s[..b]) == 1
  }

  /** Each span ends before the next one starts. */
  predicate Ordered(spans: seq<(nat, nat)>) {
    forall k :: 0 <= k < |spans| - 1 ==> spans[k].1 < spans[k + 1].0
  }

  /** The three mutable variables of `locate_parenthesis`. */
  datatype LocateState = LocateState(depth: int, current: nat, indices: seq<(nat, nat)>)

  /** One iteration of the loop at expression.rs:100-114 on the character `c`
      at index `i`; characters other than parentheses are filtered out. */
  function LocateStep(st: LocateState, i: nat, c: char): LocateState {
    if c == '(' then
      LocateState(st.depth + 1, if st.depth == 0 then i else st.current, st.indices)
    else if c == ')' then
      LocateState(st.depth - 1, st.current,
                  if st.depth == 1 then st.indices + [(st.current, i)] else st.indices)
    else
      st
  }

  /** The state of the loop once it has read the first `n` characters. */
  function LocateAfter(s: string, n: nat): LocateState
    requires n <= |s|
  {
    if n == 0 then LocateState(0, USIZE_MAX, [])
    else LocateStep(LocateAfter(s, n - 1), n - 1, s[n - 1])
  }

  /** What `locate_parenthesis(s)` returns. */
  function Locate(s: string): seq<(nat, nat)> {
    LocateAfter(s, |s|).indices
  }

  /** expression.rs:95-117, the loop itself. */
  method LocateParenthesis(s: string) returns (indices: seq<(nat, nat)>)
    ensures indices == Locate(s)
    ensures forall a: nat, b: nat :: (a, b) in indices <==> IsTopSpan(s, a, b)
    ensures Ordered(indices)
  {
    indices := [];
    var depth: int := 0;
    var current: nat := USIZE_MAX;
    for i := 0 to |s|
      invariant LocateAfter(s, i) == LocateState(depth, current, indices)
    {
      var token := s[i];
      if token == '(' {
        if depth == 0 {
          current := i;
        }
        depth := depth + 1;
      } else if token == ')' {
        if depth == 1 {
          indices := indices + [(current, i)];
        }
        depth := depth - 1;
      }
    }
    LocateSpans(s);
  }

  lemma DepthStep(s: string, n: nat)
    requires n < |s|
    ensures Depth(s[..n + 1]) == Depth(s[..n]) + Delta(s[n])
  {
    assert s[..n + 1][..n] == s[..n];
  }

  /** Depth is additive over concatenation. */
  lemma {:induction false} DepthAppend(x: string, y: string)
    ensures Depth(x + y) == Depth(x) + Depth(y)
  {
    if y != [] {
      assert (x + y)[..|x + y| - 1] == x + y[..|y| - 1];
      DepthAppend(x, y[..|y| - 1]);
    } else {
      assert x + y == x;
    }
  }

  /** A group cannot be open since two different indices. */
  lemma OpenSinceUnique(s: string, a: nat, c: nat, n: nat)
    requires n <= |s| && OpenSince(s, a, n) && OpenSince(s, c, n)
    ensures a == c
  {
  }

  /** The invariant of the loop after `n` characters. */
  ghost predicate LocateInvariant(s: string, n: nat, st: LocateState)
    requires n <= |s|
  {
    st.depth == Depth(s[..n]) &&
    (st.depth >= 1 ==> OpenSince(s, st.current, n)) &&
    (forall p :: p in st.indices ==> p.1 < n && IsTopSpan(s, p.0, p.1)) &&
    Ordered(st.indices) &&
    (forall a: nat, b: nat :: b < n && IsTopSpan(s, a, b) ==> (a, b) in st.indices)
  }

  lemma {:induction false} LocateAfterInvariant(s: string, n: nat)
    requires n <= |s|
    ensures LocateInvariant(s, n, LocateAfter(s, n))
  {
    if n > 0 {
      LocateAfterInvariant(s, n - 1);
      LocateStepInvariant(s, n - 1, LocateAfter(s, n - 1));
    }
  }

  /** One loop iteration keeps the invariant. */
  lemma LocateStepInvariant(s: string, m: nat, st: LocateState)
    requires m < |s| && LocateInvariant(s, m, st)
    ensures LocateInvariant(s, m + 1, LocateStep(st, m, s[m]))
  {
    DepthStep(s, m);
    var st' := LocateStep(st, m, s[m]);
    if s[m] == ')' && st.depth == 1 {
      CloseKeepsInvariant(s, m, st);
    } else {
      assert st'.indices == st.indices;
      forall a: nat, b: nat | b < m + 1 && IsTopSpan(s, a, b)
        ensures (a, b) in st'.indices
      {
        assert b < m;
      }
      if st'.depth >= 1 {
        assert st'.current == st.current || (s[m] == '(' && st.depth == 0 && st'.current == m);
      }
    }
  }

  /** The iteration that closes a top-level group. */
  lemma CloseKeepsInvariant(s: string, m: nat, st: LocateState)
    requires m < |s| && LocateInvariant(s, m, st)
    requires s[m] == ')' && st.depth == 1
    ensures LocateInvariant(s, m + 1, LocateStep(st, m, s[m]))
  {
    DepthStep(s, m);
    var st' := LocateStep(st, m, s[m]);
    assert st'.indices == st.indices + [(st.current, m)];
    assert IsTopSpan(s, st.current, m);
    if st.indices != [] {
      var b := st.indices[|st.indices| - 1].1;
      assert st.indices[|st.indices| - 1] in st.indices;
      DepthStep(s, b);
      assert Depth(s[..b + 1]) == 0;
      assert b < st.current;
    }
    assert Ordered(st'.indices);
    forall a: nat, b: nat | b < m + 1 && IsTopSpan(s, a, b)
      ensures (a, b) in st'.indices
    {
      if b == m {
        OpenSinceUnique(s, a, st.current, m);
      }
    }
  }

  /** The spans are exactly the top-level groups, in increasing order. */
  lemma LocateSpans(s: string)
    ensures forall a: nat, b: nat :: (a, b) in Locate(s) <==> IsTopSpan(s, a, b)
    ensures Ordered(Locate(s))
  {
    LocateAfterInvariant(s, |s|);
  }

  /** Span shape: every span is an `(` before a `)`, and spans are strictly
      increasing and do not overlap. */
  lemma SpanShape(s: string, k: nat)
    requires k < |Locate(s)|
    ensures Locate(s)[k].0 < Locate(s)[k].1 < |s|
    ensures s[Locate(s)[k].0] == '(' && s[Locate(s)[k].1] == ')'
    ensures k + 1 < |Locate(s)| ==> Locate(s)[k].1 < Locate(s)[k + 1].0
  {
    LocateSpans(s);
    var p := Locate(s)[k];
    assert p in Locate(s);
    assert IsTopSpan(s, p.0, p.1);
  }

  /** Spans are ordered pairwise, not only neighbour by neighbour. */
  lemma {:induction false} OrderedApart(s: string, k: nat, m: nat)
    requires k < m < |Locate(s)|
    ensures Locate(s)[k].1 < Locate(s)[m].0
    decreases m - k
  {
    SpanShape(s, m - 1);
    if k + 1 < m {
      OrderedApart(s, k, m - 1);
    }
  }

  /** No prefix holds more `)` than `(`: no `)` is stray. */
  ghost predicate NoStrayClose(s: string) {
    forall k :: 0 <= k <= |s| ==> Depth(s[..k]) >= 0
  }

  /** Index `i` lies strictly inside a top-level group. */
  ghost predicate InsideGroup(s: string, i: nat) {
    exists a: nat, b: nat :: IsTopSpan(s, a, b) && a < i < b
  }

  /** Depth only moves by one: falling from 1 or more to 0 or less, it
      passes a `)` read at depth 1. */
  lemma {:induction false} DepthDrop(s: string, lo: nat, hi: nat)
    requires lo < hi <= |s| && Depth(s[..lo]) >= 1 && Depth(s[..hi]) <= 0
    ensures exists m :: lo <= m < hi && s[m] == ')' && Depth(s[..m]) == 1
    decreases hi - lo
  {
    DepthStep(s, lo);
    if !(s[lo] == ')' && Depth(s[..lo]) == 1) {
      DepthDrop(s, lo + 1, hi);
    }
  }

  /** A `)` read at depth 1 closes a span. */
  lemma CloseAtDepthOne(s: string, m: nat)
    requires m < |s| && s[m] == ')' && Depth(s[..m]) == 1
    ensures exists k :: 0 <= k < |Locate(s)| && Locate(s)[k].1 == m
  {
    LocateAfterInvariant(s, m);
    var a := LocateAfter(s, m).current;
    assert IsTopSpan(s, a, m);
    LocateSpans(s);
    assert (a, m) in Locate(s);
  }

  /** The text strictly between the parentheses of a span is balanced. */
  ghost predicate Balanced(t: string) {
    Depth(t) == 0 && forall k :: 0 <= k <= |t| ==> Depth(t[..k]) >= 0
  }

  /** Span contents: inside a span the depth never returns to 0 before its
      `)`, so what lies between its parentheses is balanced. */
  lemma SpanContents(s: string, a: nat, b: nat)
    requires (a, b) in Locate(s)
    ensures a < b < |s| && Balanced(s[a + 1..b])
    ensures forall k :: a < k <= b ==> Depth(s[..k]) >= 1
  {
    LocateSpans(s);
    assert IsTopSpan(s, a, b);
    var inner := s[a + 1..b];
    forall k | 0 <= k <= |inner|
      ensures Depth(inner[..k]) == Depth(s[..a + 1 + k]) - 1
    {
      assert s[..a + 1 + k] == s[..a + 1] + inner[..k];
      DepthAppend(s[..a + 1], inner[..k]);
      DepthStep(s, a);
    }
    assert inner[..|inner|] == inner;
  }
}
