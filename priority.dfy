/** `find_minimum_priority_token`: the scan that picks the index where
    `from_str` splits a string. */
module Priority {
  import opened Wrappers
  import opened Parentheses

  /** `u8::MAX`: the initial stored priority, and the priority of every
      character that is not an operator, `(`, or skipped whitespace. */
  const U8_MAX: nat := 255

  /** The characters `from_str` and `try_from` treat as binary operators. */
  predicate IsOperatorChar(c: char) {
    c == '+' || c == '-' || c == '*' || c == '/' || c == '^'
  }

  /** The whitespace the scan skips at expression.rs:140 (a tab is not among it). */
  predicate IsBlank(c: char) {
    c == ' ' || c == '\n' || c == '\r'
  }

  /** Rust's `char::is_ascii_whitespace`: space, tab, line feed, form feed, carriage return. */
  predicate IsAsciiWhitespace(c: char) {
    c == ' ' || c == '\t' || c == '\n' || c == '\U{000C}' || c == '\r'
  }

  /** `t.chars().rev().find(|c| !c.is_ascii_whitespace())`. */
  function LastNonWhitespace(t: string): (r: Option<char>)
    ensures r.None? <==> forall k :: 0 <= k < |t| ==> IsAsciiWhitespace(t[k])
    ensures r.Some? ==> exists k :: 0 <= k < |t| && t[k] == r.value && !IsAsciiWhitespace(t[k])
                                    && forall m :: k < m < |t| ==> IsAsciiWhitespace(t[m])
  {
    if t == [] then None
    else if IsAsciiWhitespace(t[|t| - 1]) then
      var r := LastNonWhitespace(t[..|t| - 1]);
      assert forall k :: 0 <= k < |t| - 1 ==> t[..|t| - 1][k] == t[k];
      r
    else Some(t[|t| - 1])
  }

  /** A negation marker (expression.rs:131-137): a `-` at index 0, or a `-`
      whose nearest earlier non-whitespace character is an operator. */
  predicate IsNegation(s: string, i: nat)
    requires i < |s|
  {
    s[i] == '-' &&
    (i == 0 ||
     (LastNonWhitespace(s[..i]).Some? && IsOperatorChar(LastNonWhitespace(s[..i]).value)))
  }

  /** The priority table at expression.rs:139-147, for a character that is not skipped. */
  function TokenPriority(c: char, negation: bool): nat {
    if c == '(' then 5
    else if c == '-' && negation then 4
    else if c == '^' then 3
    else if c == '*' || c == '/' then 2
    else if c == '+' || c == '-' then 1
    else U8_MAX
  }

  /** The loop state: the position of the span iterator in `indices`
      (`current_index` is `indices[cursor]`, or `None` past the end) and
      the running best `min_priority_index == (index, priority)`. */
  datatype ScanState = ScanState(cursor: nat, index: nat, priority: nat)

  /** Index `i` lies strictly inside the span the iterator is at. */
  predicate Skips(indices: seq<(nat, nat)>, cursor: nat, i: nat) {
    cursor < |indices| && indices[cursor].0 < i < indices[cursor].1
  }

  /** One iteration of the loop at expression.rs:124-164, at index `i`. */
  function ScanStep(s: string, indices: seq<(nat, nat)>, i: nat, st: ScanState): ScanState
    requires i < |s|
  {
    if Skips(indices, st.cursor, i) || IsBlank(s[i]) then st
    else if s[i] == ')' then st.(cursor := st.cursor + 1)
    else if IsNegation(s, i) then
      if st.priority > TokenPriority(s[i], true) then st.(index := i, priority := TokenPriority(s[i], true))
      else st
    else if st.priority >= TokenPriority(s[i], false) then st.(index := i, priority := 6)
    else st
  }

  /** The state of the loop once it has read the first `n` characters. */
  function ScanAfter(s: string, indices: seq<(nat, nat)>, n: nat): ScanState
    requires n <= |s|
  {
    if n == 0 then ScanState(0, USIZE_MAX, U8_MAX)
    else ScanStep(s, indices, n - 1, ScanAfter(s, indices, n - 1))
  }

  /** What `find_minimum_priority_token(s, indices)` returns. */
  function MinimumPriorityIndex(s: string, indices: seq<(nat, nat)>): nat {
    ScanAfter(s, indices, |s|).index
  }

  /** The scan looks at index `i`: it is neither inside the current span nor skipped whitespace. */
  ghost predicate Counted(s: string, indices: seq<(nat, nat)>, i: nat)
    requires i < |s|
  {
    !Skips(indices, ScanAfter(s, indices, i).cursor, i) && !IsBlank(s[i])
  }

  /** A character the scan may choose: looked at, and not `)`. */
  ghost predicate IsCandidate(s: string, indices: seq<(nat, nat)>, i: nat)
    requires i < |s|
  {
    Counted(s, indices, i) && s[i] != ')'
  }

  /** An operator character that is not a negation marker. */
  predicate IsBinaryOperatorAt(s: string, i: nat)
    requires i < |s|
  {
    IsOperatorChar(s[i]) && !IsNegation(s, i)
  }

  /** The characters `from_str` does not parse as a number literal. */
  predicate IsSplitChar(c: char) {
    IsOperatorChar(c) || c == '('
  }

  /** No binary operator is looked at strictly between `lo` and `hi`. */
  ghost predicate NoBinaryOperatorBetween(s: string, indices: seq<(nat, nat)>, lo: nat, hi: nat)
    requires hi <= |s|
  {
    forall k :: lo < k < hi && Counted(s, indices, k) ==> !IsBinaryOperatorAt(s, k)
  }

  /** expression.rs:119-167, the loop itself. */
  method FindMinimumPriorityToken(s: string, indices: seq<(nat, nat)>) returns (index: nat)
    ensures index == MinimumPriorityIndex(s, indices)
    ensures index == USIZE_MAX || (index < |s| && IsCandidate(s, indices, index))
  {
    var cursor: nat := 0;
    var minIndex: nat, minPriority: nat := USIZE_MAX, U8_MAX;
    for i := 0 to |s|
      invariant ScanAfter(s, indices, i) == ScanState(cursor, minIndex, minPriority)
    {
      var token := s[i];
      if cursor < |indices| && indices[cursor].0 < i < indices[cursor].1 {
        continue;
      }
      var isNegation := IsNegation(s, i);
      if IsBlank(token) {
        continue;
      }
      var priority := TokenPriority(token, isNegation);
      if token == ')' {
        cursor := cursor + 1;
      } else if isNegation {
        if minPriority > priority {
          minIndex, minPriority := i, priority;
        }
      } else if minPriority >= priority {
        minIndex, minPriority := i, 6;
      }
    }
    index := minIndex;
    MinimumPriorityIndexValid(s, indices);
  }

  /** The invariant of the scan after `n` characters, in five parts. */
  ghost predicate ScanInvariant(s: string, indices: seq<(nat, nat)>, n: nat, st: ScanState)
    requires n <= |s|
  {
    ScanBest(s, indices, n, st) && ScanOperators(s, indices, n, st) &&
    ScanNegations(s, indices, n, st) && ScanSplits(s, indices, n, st) &&
    ScanParens(s, indices, n, st)
  }

  /** The stored priority is `u8::MAX` (nothing chosen yet), 6 or 4 (a
      negation marker), and a chosen index is a candidate already read. */
  ghost predicate ScanBest(s: string, indices: seq<(nat, nat)>, n: nat, st: ScanState)
    requires n <= |s|
  {
    (st.priority == U8_MAX || st.priority == 6 || st.priority == 4) &&
    (st.priority == U8_MAX <==> forall i :: 0 <= i < n ==> !IsCandidate(s, indices, i)) &&
    (st.priority == U8_MAX ==> st.index == USIZE_MAX) &&
    (st.priority != U8_MAX ==>
       st.index < n && IsCandidate(s, indices, st.index) &&
       (st.priority == 4 <==> IsNegation(s, st.index)))
  }

  /** The chosen index is at or after every binary operator read so far. */
  ghost predicate ScanOperators(s: string, indices: seq<(nat, nat)>, n: nat, st: ScanState)
    requires n <= |s|
  {
    (st.priority != U8_MAX ==> NoBinaryOperatorBetween(s, indices, st.index, n)) &&
    (forall j :: 0 <= j < n && Counted(s, indices, j) && IsBinaryOperatorAt(s, j) ==> j <= st.index)
  }

  /** A negation marker with no binary operator after it holds the result. */
  ghost predicate ScanNegations(s: string, indices: seq<(nat, nat)>, n: nat, st: ScanState)
    requires n <= |s|
  {
    forall j :: (0 <= j < n && Counted(s, indices, j) && IsNegation(s, j) &&
                 NoBinaryOperatorBetween(s, indices, j, n)) ==> st.index <= j && st.priority == 4
  }

  /** Once an operator or `(` has been read, the chosen character is one too. */
  ghost predicate ScanSplits(s: string, indices: seq<(nat, nat)>, n: nat, st: ScanState)
    requires n <= |s|
  {
    forall j :: 0 <= j < n && Counted(s, indices, j) && IsSplitChar(s[j]) ==>
                st.index < n && IsSplitChar(s[st.index])
  }

  /** Every negation marker looked at before `j` has a binary operator
      looked at between it and `j`. */
  ghost predicate NegationsBroken(s: string, indices: seq<(nat, nat)>, j: nat)
    requires j <= |s|
  {
    forall k :: 0 <= k < j && Counted(s, indices, k) && IsNegation(s, k) ==>
                !NoBinaryOperatorBetween(s, indices, k, j)
  }

  /** A `(` read while no negation marker is stored replaces the best, so
      the chosen index is at or after it. */
  ghost predicate ScanParens(s: string, indices: seq<(nat, nat)>, n: nat, st: ScanState)
    requires n <= |s|
  {
    forall j :: 0 <= j < n && Counted(s, indices, j) && s[j] == '(' && NegationsBroken(s, indices, j) ==>
                j <= st.index
  }

  /** The whole invariant holds after every prefix. */
  lemma ScanAfterInvariant(s: string, indices: seq<(nat, nat)>, n: nat)
    requires n <= |s|
    ensures ScanInvariant(s, indices, n, ScanAfter(s, indices, n))
  {
    ScanBestAfter(s, indices, n);
    ScanOperatorsAfter(s, indices, n);
    ScanNegationsAfter(s, indices, n);
    ScanSplitsAfter(s, indices, n);
    ScanParensAfter(s, indices, n);
  }

  lemma {:induction false} ScanBestAfter(s: string, indices: seq<(nat, nat)>, n: nat)
    requires n <= |s|
    ensures ScanBest(s, indices, n, ScanAfter(s, indices, n))
  {
    if n > 0 {
      ScanBestAfter(s, indices, n - 1);
      ScanBestStep(s, indices, n - 1);
    }
  }

  lemma {:induction false} ScanOperatorsAfter(s: string, indices: seq<(nat, nat)>, n: nat)
    requires n <= |s|
    ensures ScanOperators(s, indices, n, ScanAfter(s, indices, n))
  {
    if n > 0 {
      ScanBestAfter(s, indices, n - 1);
      ScanOperatorsAfter(s, indices, n - 1);
      ScanOperatorsStep(s, indices, n - 1);
    }
  }

  lemma {:induction false} ScanNegationsAfter(s: string, indices: seq<(nat, nat)>, n: nat)
    requires n <= |s|
    ensures ScanNegations(s, indices, n, ScanAfter(s, indices, n))
  {
    if n > 0 {
      ScanBestAfter(s, indices, n - 1);
      ScanOperatorsAfter(s, indices, n - 1);
      ScanNegationsAfter(s, indices, n - 1);
      ScanNegationsStep(s, indices, n - 1);
    }
  }

  lemma {:induction false} ScanSplitsAfter(s: string, indices: seq<(nat, nat)>, n: nat)
    requires n <= |s|
    ensures ScanSplits(s, indices, n, ScanAfter(s, indices, n))
  {
    if n > 0 {
      ScanBestAfter(s, indices, n - 1);
      ScanSplitsAfter(s, indices, n - 1);
      ScanSplitsStep(s, indices, n - 1);
    }
  }

  lemma {:induction false} ScanParensAfter(s: string, indices: seq<(nat, nat)>, n: nat)
    requires n <= |s|
    ensures ScanParens(s, indices, n, ScanAfter(s, indices, n))
  {
    if n > 0 {
      ScanBestAfter(s, indices, n - 1);
      ScanOperatorsAfter(s, indices, n - 1);
      ScanParensAfter(s, indices, n - 1);
      ScanParensStep(s, indices, n - 1);
    }
  }

  lemma ScanBestStep(s: string, indices: seq<(nat, nat)>, n: nat)
    requires n < |s|
    requires ScanBest(s, indices, n, ScanAfter(s, indices, n))
    ensures ScanBest(s, indices, n + 1, ScanAfter(s, indices, n + 1))
  {
    var st := ScanAfter(s, indices, n);
    var st' := ScanAfter(s, indices, n + 1);
    if IsCandidate(s, indices, n) {
      assert st'.priority != U8_MAX;
    } else {
      assert st'.index == st.index && st'.priority == st.priority;
    }
  }

  lemma ScanOperatorsStep(s: string, indices: seq<(nat, nat)>, n: nat)
    requires n < |s|
    requires ScanBest(s, indices, n, ScanAfter(s, indices, n))
    requires ScanOperators(s, indices, n, ScanAfter(s, indices, n))
    ensures ScanOperators(s, indices, n + 1, ScanAfter(s, indices, n + 1))
  {
    var st := ScanAfter(s, indices, n);
    var st' := ScanAfter(s, indices, n + 1);
    if Counted(s, indices, n) && IsBinaryOperatorAt(s, n) {
      assert TokenPriority(s[n], false) <= 3;
      assert st'.index == n;
    } else {
      assert st'.index == st.index || st'.index == n;
    }
  }

  lemma ScanNegationsStep(s: string, indices: seq<(nat, nat)>, n: nat)
    requires n < |s|
    requires ScanBest(s, indices, n, ScanAfter(s, indices, n))
    requires ScanOperators(s, indices, n, ScanAfter(s, indices, n))
    requires ScanNegations(s, indices, n, ScanAfter(s, indices, n))
    ensures ScanNegations(s, indices, n + 1, ScanAfter(s, indices, n + 1))
  {
    var st := ScanAfter(s, indices, n);
    var st' := ScanAfter(s, indices, n + 1);
    forall j | (0 <= j < n + 1 && Counted(s, indices, j) && IsNegation(s, j) &&
               NoBinaryOperatorBetween(s, indices, j, n + 1))
      ensures st'.index <= j && st'.priority == 4
    {
      if j < n {
        assert NoBinaryOperatorBetween(s, indices, j, n);
        assert st.index <= j && st.priority == 4;
        assert !(Counted(s, indices, n) && IsBinaryOperatorAt(s, n));
        assert st' == st || st' == st.(cursor := st.cursor + 1);
      }
    }
  }

  lemma ScanSplitsStep(s: string, indices: seq<(nat, nat)>, n: nat)
    requires n < |s|
    requires ScanBest(s, indices, n, ScanAfter(s, indices, n))
    requires ScanSplits(s, indices, n, ScanAfter(s, indices, n))
    ensures ScanSplits(s, indices, n + 1, ScanAfter(s, indices, n + 1))
  {
    var st := ScanAfter(s, indices, n);
    var st' := ScanAfter(s, indices, n + 1);
    if Counted(s, indices, n) && s[n] != ')' && !IsNegation(s, n) && st.priority >= TokenPriority(s[n], false) {
      assert st'.index == n;
      if !IsSplitChar(s[n]) {
        assert st.priority == U8_MAX;
        forall j | 0 <= j < n
          ensures !(Counted(s, indices, j) && IsSplitChar(s[j]))
        {
          assert !IsCandidate(s, indices, j);
        }
      }
    } else {
      assert st'.index == st.index || (st'.index == n && IsSplitChar(s[n]));
    }
  }

  lemma ScanParensStep(s: string, indices: seq<(nat, nat)>, n: nat)
    requires n < |s|
    requires ScanBest(s, indices, n, ScanAfter(s, indices, n))
    requires ScanOperators(s, indices, n, ScanAfter(s, indices, n))
    requires ScanParens(s, indices, n, ScanAfter(s, indices, n))
    ensures ScanParens(s, indices, n + 1, ScanAfter(s, indices, n + 1))
  {
    var st := ScanAfter(s, indices, n);
    var st' := ScanAfter(s, indices, n + 1);
    assert st'.index == st.index || st'.index == n;
    forall j | 0 <= j < n + 1 && Counted(s, indices, j) && s[j] == '(' && NegationsBroken(s, indices, j)
      ensures j <= st'.index
    {
      if j < n {
        assert IsCandidate(s, indices, j);
      } else if st.priority == 4 {
        assert false;
      }
    }
  }

  /** The span iterator of a scan over `Locate(s)` has passed exactly the
      spans that end before index `n`. */
  ghost predicate CursorTracks(s: string, n: nat, cursor: nat) {
    (forall k :: 0 <= k < cursor && k < |Locate(s)| ==> Locate(s)[k].1 < n) &&
    (cursor < |Locate(s)| ==> n <= Locate(s)[cursor].1)
  }

  lemma {:induction false} CursorAfter(s: string, n: nat)
    requires NoStrayClose(s) && n <= |s|
    ensures CursorTracks(s, n, ScanAfter(s, Locate(s), n).cursor)
  {
    if n > 0 {
      CursorAfter(s, n - 1);
      CursorStep(s, n - 1);
    }
  }

  /** Without a stray `)`, a `)` before the next span is impossible: the
      depth would have to fall back to 0 at the `)` of an earlier span. */
  lemma NoCloseBeforeSpan(s: string, j: nat, c: nat)
    requires NoStrayClose(s) && j < |s| && c < |Locate(s)|
    requires forall k :: 0 <= k < c ==> Locate(s)[k].1 < j
    requires j < Locate(s)[c].0
    ensures s[j] != ')'
  {
    var spans := Locate(s);
    if s[j] == ')' {
      var a := spans[c].0;
      DepthStep(s, j);
      LocateSpans(s);
      assert spans[c] in spans;
      DepthDrop(s, j, a);
      var m :| j <= m < a && s[m] == ')' && Depth(s[..m]) == 1;
      CloseAtDepthOne(s, m);
      var k :| 0 <= k < |spans| && spans[k].1 == m;
      SpanShape(s, k);
      if c < k {
        OrderedApart(s, c, k);
      }
      assert false;
    }
  }

  /** The iterator moves on exactly at the `)` that ends the current span. */
  lemma CursorStep(s: string, j: nat)
    requires NoStrayClose(s) && j < |s|
    requires CursorTracks(s, j, ScanAfter(s, Locate(s), j).cursor)
    ensures CursorTracks(s, j + 1, ScanAfter(s, Locate(s), j + 1).cursor)
  {
    var spans := Locate(s);
    var c := ScanAfter(s, spans, j).cursor;
    var c' := ScanAfter(s, spans, j + 1).cursor;
    assert c' == c || (c' == c + 1 && s[j] == ')' && !Skips(spans, c, j));
    if c < |spans| {
      SpanShape(s, c);
      if spans[c].1 == j {
        if c + 1 < |spans| {
          SpanShape(s, c + 1);
        }
      } else if j < spans[c].0 {
        NoCloseBeforeSpan(s, j, c);
      }
    }
  }

  /** Group opacity: in a string with no stray `)`, the scan looks at an
      index exactly when it is not blank and lies strictly inside no
      top-level group. */
  lemma CountedOutsideGroups(s: string, i: nat)
    requires NoStrayClose(s) && i < |s|
    ensures Counted(s, Locate(s), i) <==> !IsBlank(s[i]) && !InsideGroup(s, i)
  {
    var spans := Locate(s);
    var c := ScanAfter(s, spans, i).cursor;
    CursorAfter(s, i);
    LocateSpans(s);
    forall a: nat, b: nat | IsTopSpan(s, a, b) && a < i < b
      ensures Skips(spans, c, i)
    {
      assert (a, b) in spans;
      var k :| 0 <= k < |spans| && spans[k] == (a, b);
      if c < k {
        OrderedApart(s, c, k);
      }
    }
    if Skips(spans, c, i) {
      assert spans[c] in spans;
      assert IsTopSpan(s, spans[c].0, spans[c].1);
    }
  }

  /** The result is the sentinel or a valid index of a character the scan may choose. */
  lemma MinimumPriorityIndexValid(s: string, indices: seq<(nat, nat)>)
    ensures var r := MinimumPriorityIndex(s, indices);
            r == USIZE_MAX || (r < |s| && IsCandidate(s, indices, r))
  {
    ScanBestAfter(s, indices, |s|);
  }

  /** Sentinel: the result is `usize::MAX` exactly when every character the
      scan looks at is `)`. (A Rust string is shorter than `usize::MAX` bytes.) */
  lemma Sentinel(s: string, indices: seq<(nat, nat)>)
    requires |s| <= USIZE_MAX
    ensures MinimumPriorityIndex(s, indices) == USIZE_MAX <==>
            forall i :: 0 <= i < |s| && Counted(s, indices, i) ==> s[i] == ')'
  {
    ScanBestAfter(s, indices, |s|);
    var st := ScanAfter(s, indices, |s|);
    if forall i :: 0 <= i < |s| && Counted(s, indices, i) ==> s[i] == ')' {
      forall i | 0 <= i < |s| ensures !IsCandidate(s, indices, i) {}
      assert st.index == USIZE_MAX;
    } else {
      var i :| 0 <= i < |s| && Counted(s, indices, i) && s[i] != ')';
      assert IsCandidate(s, indices, i);
      assert st.index < |s|;
    }
  }

  /** Rightmost operator wins: no binary operator the scan looks at lies after
      the result, and every one it looks at lies at or before it. */
  lemma RightmostBinaryOperator(s: string, indices: seq<(nat, nat)>)
    ensures var r := MinimumPriorityIndex(s, indices);
            r < |s| ==> NoBinaryOperatorBetween(s, indices, r, |s|)
    ensures forall j :: 0 <= j < |s| && Counted(s, indices, j) && IsBinaryOperatorAt(s, j) ==>
                        j <= MinimumPriorityIndex(s, indices)
  {
    ScanBestAfter(s, indices, |s|);
    ScanOperatorsAfter(s, indices, |s|);
  }

  /** Negation marker: once a negation marker is looked at, only a later
      binary operator moves the result past it, and the result is then
      itself a negation marker at or before it. */
  lemma NegationMarkerHolds(s: string, indices: seq<(nat, nat)>, j: nat)
    requires j < |s| && Counted(s, indices, j) && IsNegation(s, j)
    requires NoBinaryOperatorBetween(s, indices, j, |s|)
    ensures MinimumPriorityIndex(s, indices) <= j
    ensures IsNegation(s, MinimumPriorityIndex(s, indices))
  {
    ScanBestAfter(s, indices, |s|);
    ScanNegationsAfter(s, indices, |s|);
  }

  /** A `(` the scan looks at replaces the best unless a negation marker is
      stored, that is, unless some negation marker before it has no binary
      operator between the two: the result is then at or after the `(`. */
  lemma ParenthesisReplaces(s: string, indices: seq<(nat, nat)>, j: nat)
    requires j < |s| && Counted(s, indices, j) && s[j] == '('
    requires NegationsBroken(s, indices, j)
    ensures j <= MinimumPriorityIndex(s, indices) < |s|
    ensures IsSplitChar(s[MinimumPriorityIndex(s, indices)])
  {
    ScanBestAfter(s, indices, |s|);
    ScanSplitsAfter(s, indices, |s|);
    ScanParensAfter(s, indices, |s|);
  }

  /** When the scan looks at any operator or `(`, the result is one too, so
      `from_str` does not treat the string as a number literal. */
  lemma SplitCharChosen(s: string, indices: seq<(nat, nat)>, j: nat)
    requires j < |s| && Counted(s, indices, j) && IsSplitChar(s[j])
    ensures MinimumPriorityIndex(s, indices) < |s|
    ensures IsSplitChar(s[MinimumPriorityIndex(s, indices)])
  {
    ScanSplitsAfter(s, indices, |s|);
  }
}
