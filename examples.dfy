/** Worked examples: the scan and `from_str` on small inputs built from
    arbitrary decimal digits, with a one-digit literal parser standing in
    for `str::parse::<f64>`. */
module Examples {
  import opened Wrappers
  import opened Text
  import opened Parentheses
  import opened Priority
  import opened Expressions

  predicate IsDigit(c: char) {
    '0' <= c <= '9'
  }

  function Digit(c: char): int {
    c as int - '0' as int
  }

  /** Parses a single decimal digit; every other string is rejected. */
  function SingleDigit(t: string): (r: Option<int>)
    ensures r.Some? <==> |t| == 1 && IsDigit(t[0])
    ensures r.Some? ==> r.value == Digit(t[0]) && 0 <= r.value < 10
  {
    if |t| == 1 && IsDigit(t[0]) then Some(Digit(t[0])) else None
  }

  /** A digit is not skipped, not a parenthesis, not an operator and has
      the lowest priority. */
  lemma DigitToken(d: char)
    requires IsDigit(d)
    ensures !IsBlank(d) && !IsAsciiWhitespace(d) && !IsTrimChar(d)
    ensures d != '(' && d != ')' && !IsOperatorChar(d)
    ensures TokenPriority(d, false) == U8_MAX
  {
  }

  // ---------------------------------------------------------------------
  // The scan of `find_minimum_priority_token` on concrete shapes.

  lemma ScanSum(a: char, b: char)
    requires IsDigit(a) && IsDigit(b)
    ensures Locate([a, '+', b]) == []
    ensures SplitIndex([a, '+', b]) == 1
  {
    DigitToken(a);
    DigitToken(b);
    var s := [a, '+', b];
    assert LocateAfter(s, 1) == LocateState(0, USIZE_MAX, []);
    assert LocateAfter(s, 2) == LocateState(0, USIZE_MAX, []);
    assert LocateAfter(s, 3) == LocateState(0, USIZE_MAX, []);
    assert ScanAfter(s, [], 1) == ScanState(0, 0, 6);
    assert ScanAfter(s, [], 2) == ScanState(0, 1, 6);
    assert ScanAfter(s, [], 3) == ScanState(0, 1, 6);
  }

  /** `a+b*c`: the scan stops at the rightmost operator, not at the `+`. */
  lemma ScanSumProduct(a: char, b: char, c: char)
    requires IsDigit(a) && IsDigit(b) && IsDigit(c)
    ensures Locate([a, '+', b, '*', c]) == []
    ensures SplitIndex([a, '+', b, '*', c]) == 3
  {
    DigitToken(a);
    DigitToken(b);
    DigitToken(c);
    var s := [a, '+', b, '*', c];
    assert LocateAfter(s, 1) == LocateState(0, USIZE_MAX, []);
    assert LocateAfter(s, 2) == LocateState(0, USIZE_MAX, []);
    assert LocateAfter(s, 3) == LocateState(0, USIZE_MAX, []);
    assert LocateAfter(s, 4) == LocateState(0, USIZE_MAX, []);
    assert LocateAfter(s, 5) == LocateState(0, USIZE_MAX, []);
    assert ScanAfter(s, [], 1) == ScanState(0, 0, 6);
    assert ScanAfter(s, [], 2) == ScanState(0, 1, 6);
    assert ScanAfter(s, [], 3) == ScanState(0, 1, 6);
    assert ScanAfter(s, [], 4) == ScanState(0, 3, 6);
    assert ScanAfter(s, [], 5) == ScanState(0, 3, 6);
  }

  /** `a-b`: a `-` after a digit is a binary operator. */
  lemma ScanDifference(a: char, b: char)
    requires IsDigit(a) && IsDigit(b)
    ensures Locate([a, '-', b]) == []
    ensures SplitIndex([a, '-', b]) == 1
  {
    DigitToken(a);
    DigitToken(b);
    var s := [a, '-', b];
    assert LocateAfter(s, 1) == LocateState(0, USIZE_MAX, []);
    assert LocateAfter(s, 2) == LocateState(0, USIZE_MAX, []);
    assert LocateAfter(s, 3) == LocateState(0, USIZE_MAX, []);
    assert ScanAfter(s, [], 1) == ScanState(0, 0, 6);
    assert LastNonWhitespace(s[..1]) == Some(a);
    assert ScanAfter(s, [], 2) == ScanState(0, 1, 6);
    assert ScanAfter(s, [], 3) == ScanState(0, 1, 6);
  }

  lemma ScanDifferences(a: char, b: char, c: char)
    requires IsDigit(a) && IsDigit(b) && IsDigit(c)
    ensures Locate([a, '-', b, '-', c]) == []
    ensures SplitIndex([a, '-', b, '-', c]) == 3
  {
    DigitToken(a);
    DigitToken(b);
    DigitToken(c);
    var s := [a, '-', b, '-', c];
    assert LocateAfter(s, 1) == LocateState(0, USIZE_MAX, []);
    assert LocateAfter(s, 2) == LocateState(0, USIZE_MAX, []);
    assert LocateAfter(s, 3) == LocateState(0, USIZE_MAX, []);
    assert LocateAfter(s, 4) == LocateState(0, USIZE_MAX, []);
    assert LocateAfter(s, 5) == LocateState(0, USIZE_MAX, []);
    assert ScanAfter(s, [], 1) == ScanState(0, 0, 6);
    assert LastNonWhitespace(s[..1]) == Some(a);
    assert ScanAfter(s, [], 2) == ScanState(0, 1, 6);
    assert ScanAfter(s, [], 3) == ScanState(0, 1, 6);
    assert LastNonWhitespace(s[..3]) == Some(b);
    assert ScanAfter(s, [], 4) == ScanState(0, 3, 6);
    assert ScanAfter(s, [], 5) == ScanState(0, 3, 6);
  }

  /** `-a`: a leading `-` is a negation marker. */
  lemma ScanNegation(a: char)
    requires IsDigit(a)
    ensures Locate(['-', a]) == []
    ensures SplitIndex(['-', a]) == 0
  {
    DigitToken(a);
    var s := ['-', a];
    assert LocateAfter(s, 1) == LocateState(0, USIZE_MAX, []);
    assert LocateAfter(s, 2) == LocateState(0, USIZE_MAX, []);
    assert ScanAfter(s, [], 1) == ScanState(0, 0, 4);
    assert ScanAfter(s, [], 2) == ScanState(0, 0, 4);
  }

  /** `--a`: the second `-` is a negation marker and does not replace the first. */
  lemma ScanDoubleNegation(a: char)
    requires IsDigit(a)
    ensures Locate(['-', '-', a]) == []
    ensures SplitIndex(['-', '-', a]) == 0
  {
    DigitToken(a);
    var s := ['-', '-', a];
    assert LocateAfter(s, 1) == LocateState(0, USIZE_MAX, []);
    assert LocateAfter(s, 2) == LocateState(0, USIZE_MAX, []);
    assert LocateAfter(s, 3) == LocateState(0, USIZE_MAX, []);
    assert ScanAfter(s, [], 1) == ScanState(0, 0, 4);
    assert LastNonWhitespace(s[..1]) == Some('-');
    assert ScanAfter(s, [], 2) == ScanState(0, 0, 4);
    assert ScanAfter(s, [], 3) == ScanState(0, 0, 4);
  }

  /** `-a^b`: the `^` after a negated operand replaces the negation marker. */
  lemma ScanNegatedPower(a: char, b: char)
    requires IsDigit(a) && IsDigit(b)
    ensures Locate(['-', a, '^', b]) == []
    ensures SplitIndex(['-', a, '^', b]) == 2
  {
    DigitToken(a);
    DigitToken(b);
    var s := ['-', a, '^', b];
    assert LocateAfter(s, 1) == LocateState(0, USIZE_MAX, []);
    assert LocateAfter(s, 2) == LocateState(0, USIZE_MAX, []);
    assert LocateAfter(s, 3) == LocateState(0, USIZE_MAX, []);
    assert LocateAfter(s, 4) == LocateState(0, USIZE_MAX, []);
    assert ScanAfter(s, [], 1) == ScanState(0, 0, 4);
    assert ScanAfter(s, [], 2) == ScanState(0, 0, 4);
    assert ScanAfter(s, [], 3) == ScanState(0, 2, 6);
    assert ScanAfter(s, [], 4) == ScanState(0, 2, 6);
  }

  /** `(a+b)`: the characters inside the span are skipped. */
  lemma ScanGroup(a: char, b: char)
    requires IsDigit(a) && IsDigit(b)
    ensures Locate(['(', a, '+', b, ')']) == [(0, 4)]
    ensures SplitIndex(['(', a, '+', b, ')']) == 0
  {
    DigitToken(a);
    DigitToken(b);
    var s := ['(', a, '+', b, ')'];
    assert LocateAfter(s, 1) == LocateState(1, 0, []);
    assert LocateAfter(s, 2) == LocateState(1, 0, []);
    assert LocateAfter(s, 3) == LocateState(1, 0, []);
    assert LocateAfter(s, 4) == LocateState(1, 0, []);
    assert LocateAfter(s, 5) == LocateState(0, 0, [(0, 4)]);
    assert ScanAfter(s, [(0, 4)], 1) == ScanState(0, 0, 6);
    assert ScanAfter(s, [(0, 4)], 2) == ScanState(0, 0, 6);
    assert ScanAfter(s, [(0, 4)], 3) == ScanState(0, 0, 6);
    assert ScanAfter(s, [(0, 4)], 4) == ScanState(0, 0, 6);
    assert ScanAfter(s, [(0, 4)], 5) == ScanState(1, 0, 6);
  }

  lemma ScanGroupedProduct(a: char, b: char, c: char)
    requires IsDigit(a) && IsDigit(b) && IsDigit(c)
    ensures Locate(['(', a, '+', b, ')', '*', c]) == [(0, 4)]
    ensures SplitIndex(['(', a, '+', b, ')', '*', c]) == 5
  {
    DigitToken(a);
    DigitToken(b);
    DigitToken(c);
    var s := ['(', a, '+', b, ')', '*', c];
    assert LocateAfter(s, 1) == LocateState(1, 0, []);
    assert LocateAfter(s, 2) == LocateState(1, 0, []);
    assert LocateAfter(s, 3) == LocateState(1, 0, []);
    assert LocateAfter(s, 4) == LocateState(1, 0, []);
    assert LocateAfter(s, 5) == LocateState(0, 0, [(0, 4)]);
    assert LocateAfter(s, 6) == LocateState(0, 0, [(0, 4)]);
    assert LocateAfter(s, 7) == LocateState(0, 0, [(0, 4)]);
    assert ScanAfter(s, [(0, 4)], 1) == ScanState(0, 0, 6);
    assert ScanAfter(s, [(0, 4)], 2) == ScanState(0, 0, 6);
    assert ScanAfter(s, [(0, 4)], 3) == ScanState(0, 0, 6);
    assert ScanAfter(s, [(0, 4)], 4) == ScanState(0, 0, 6);
    assert ScanAfter(s, [(0, 4)], 5) == ScanState(1, 0, 6);
    assert ScanAfter(s, [(0, 4)], 6) == ScanState(1, 5, 6);
    assert ScanAfter(s, [(0, 4)], 7) == ScanState(1, 5, 6);
  }

  lemma ScanSingleGroup(a: char)
    requires IsDigit(a)
    ensures Locate(['(', a, ')']) == [(0, 2)]
    ensures SplitIndex(['(', a, ')']) == 0
  {
    DigitToken(a);
    var s := ['(', a, ')'];
    assert LocateAfter(s, 1) == LocateState(1, 0, []);
    assert LocateAfter(s, 2) == LocateState(1, 0, []);
    assert LocateAfter(s, 3) == LocateState(0, 0, [(0, 2)]);
    assert ScanAfter(s, [(0, 2)], 1) == ScanState(0, 0, 6);
    assert ScanAfter(s, [(0, 2)], 2) == ScanState(0, 0, 6);
    assert ScanAfter(s, [(0, 2)], 3) == ScanState(1, 0, 6);
  }

  /** `a(b)c`: the `(` replaces the digit before it, and nothing after the
      span replaces it. */
  lemma ScanJuxtaposed(a: char, b: char, c: char)
    requires IsDigit(a) && IsDigit(b) && IsDigit(c)
    ensures Locate([a, '(', b, ')', c]) == [(1, 3)]
    ensures SplitIndex([a, '(', b, ')', c]) == 1
  {
    DigitToken(a);
    DigitToken(b);
    DigitToken(c);
    var s := [a, '(', b, ')', c];
    assert LocateAfter(s, 1) == LocateState(0, USIZE_MAX, []);
    assert LocateAfter(s, 2) == LocateState(1, 1, []);
    assert LocateAfter(s, 3) == LocateState(1, 1, []);
    assert LocateAfter(s, 4) == LocateState(0, 1, [(1, 3)]);
    assert LocateAfter(s, 5) == LocateState(0, 1, [(1, 3)]);
    assert ScanAfter(s, [(1, 3)], 1) == ScanState(0, 0, 6);
    assert ScanAfter(s, [(1, 3)], 2) == ScanState(0, 1, 6);
    assert ScanAfter(s, [(1, 3)], 3) == ScanState(0, 1, 6);
    assert ScanAfter(s, [(1, 3)], 4) == ScanState(1, 1, 6);
    assert ScanAfter(s, [(1, 3)], 5) == ScanState(1, 1, 6);
  }

  lemma ScanDanglingOperator(a: char)
    requires IsDigit(a)
    ensures Locate([a, '*']) == []
    ensures SplitIndex([a, '*']) == 1
  {
    DigitToken(a);
    var s := [a, '*'];
    assert LocateAfter(s, 1) == LocateState(0, USIZE_MAX, []);
    assert LocateAfter(s, 2) == LocateState(0, USIZE_MAX, []);
    assert ScanAfter(s, [], 1) == ScanState(0, 0, 6);
    assert ScanAfter(s, [], 2) == ScanState(0, 1, 6);
  }

  /** `a*-b`: the negation marker after `*` is chosen, although it is not at
      index 0. */
  lemma ScanNegatedOperand(a: char, b: char)
    requires IsDigit(a) && IsDigit(b)
    ensures Locate([a, '*', '-', b]) == []
    ensures SplitIndex([a, '*', '-', b]) == 2
  {
    DigitToken(a);
    DigitToken(b);
    var s := [a, '*', '-', b];
    assert LocateAfter(s, 1) == LocateState(0, USIZE_MAX, []);
    assert LocateAfter(s, 2) == LocateState(0, USIZE_MAX, []);
    assert LocateAfter(s, 3) == LocateState(0, USIZE_MAX, []);
    assert LocateAfter(s, 4) == LocateState(0, USIZE_MAX, []);
    assert ScanAfter(s, [], 1) == ScanState(0, 0, 6);
    assert ScanAfter(s, [], 2) == ScanState(0, 1, 6);
    assert LastNonWhitespace(s[..2]) == Some('*');
    assert ScanAfter(s, [], 3) == ScanState(0, 2, 4);
    assert ScanAfter(s, [], 4) == ScanState(0, 2, 4);
  }

  lemma ScanUnclosedOperand(a: char)
    requires IsDigit(a)
    ensures Locate(['(', a]) == []
    ensures SplitIndex(['(', a]) == 0
  {
    DigitToken(a);
    var s := ['(', a];
    assert LocateAfter(s, 1) == LocateState(1, 0, []);
    assert LocateAfter(s, 2) == LocateState(1, 0, []);
    assert ScanAfter(s, [], 1) == ScanState(0, 0, 6);
    assert ScanAfter(s, [], 2) == ScanState(0, 0, 6);
  }

  /** `(a+b`: an unclosed `(` opens no span. */
  lemma ScanUnclosed(a: char, b: char)
    requires IsDigit(a) && IsDigit(b)
    ensures Locate(['(', a, '+', b]) == []
    ensures SplitIndex(['(', a, '+', b]) == 2
  {
    DigitToken(a);
    DigitToken(b);
    var s := ['(', a, '+', b];
    assert LocateAfter(s, 1) == LocateState(1, 0, []);
    assert LocateAfter(s, 2) == LocateState(1, 0, []);
    assert LocateAfter(s, 3) == LocateState(1, 0, []);
    assert LocateAfter(s, 4) == LocateState(1, 0, []);
    assert ScanAfter(s, [], 1) == ScanState(0, 0, 6);
    assert ScanAfter(s, [], 2) == ScanState(0, 0, 6);
    assert ScanAfter(s, [], 3) == ScanState(0, 2, 6);
    assert ScanAfter(s, [], 4) == ScanState(0, 2, 6);
  }

  /** `(a)+(b)`: the span iterator moves past the first group, the `+`
      is chosen, and then the `(` of the second group replaces it. */
  lemma ScanGroupSum(a: char, b: char)
    requires IsDigit(a) && IsDigit(b)
    ensures Locate(['(', a, ')', '+', '(', b, ')']) == [(0, 2), (4, 6)]
    ensures SplitIndex(['(', a, ')', '+', '(', b, ')']) == 4
  {
    DigitToken(a);
    DigitToken(b);
    var s := ['(', a, ')', '+', '(', b, ')'];
    var spans := [(0, 2), (4, 6)];
    assert LocateAfter(s, 1) == LocateState(1, 0, []);
    assert LocateAfter(s, 2) == LocateState(1, 0, []);
    assert LocateAfter(s, 3) == LocateState(0, 0, [(0, 2)]);
    assert LocateAfter(s, 4) == LocateState(0, 0, [(0, 2)]);
    assert LocateAfter(s, 5) == LocateState(1, 4, [(0, 2)]);
    assert LocateAfter(s, 6) == LocateState(1, 4, [(0, 2)]);
    assert LocateAfter(s, 7) == LocateState(0, 4, spans);
    assert ScanAfter(s, spans, 1) == ScanState(0, 0, 6);
    assert ScanAfter(s, spans, 2) == ScanState(0, 0, 6);
    assert ScanAfter(s, spans, 3) == ScanState(1, 0, 6);
    assert ScanAfter(s, spans, 4) == ScanState(1, 3, 6);
    assert ScanAfter(s, spans, 5) == ScanState(1, 4, 6);
    assert ScanAfter(s, spans, 6) == ScanState(1, 4, 6);
    assert ScanAfter(s, spans, 7) == ScanState(2, 4, 6);
  }

  /** `a)+(b`: a `)` at depth 0 drives the depth negative, so the `(` after
      it opens no span; the `(` is the last split character. */
  lemma ScanStrayClose(a: char, b: char)
    requires IsDigit(a) && IsDigit(b)
    ensures Locate([a, ')', '+', '(', b]) == []
    ensures SplitIndex([a, ')', '+', '(', b]) == 3
  {
    DigitToken(a);
    DigitToken(b);
    var s := [a, ')', '+', '(', b];
    assert LocateAfter(s, 1) == LocateState(0, USIZE_MAX, []);
    assert LocateAfter(s, 2) == LocateState(-1, USIZE_MAX, []);
    assert LocateAfter(s, 3) == LocateState(-1, USIZE_MAX, []);
    assert LocateAfter(s, 4) == LocateState(0, USIZE_MAX, []);
    assert LocateAfter(s, 5) == LocateState(0, USIZE_MAX, []);
    assert ScanAfter(s, [], 1) == ScanState(0, 0, 6);
    assert ScanAfter(s, [], 2) == ScanState(1, 0, 6);
    assert ScanAfter(s, [], 3) == ScanState(1, 2, 6);
    assert ScanAfter(s, [], 4) == ScanState(1, 3, 6);
    assert ScanAfter(s, [], 5) == ScanState(1, 3, 6);
  }

  /** `(ab`: an unclosed `(` opens no span, and the `(` holds the split. */
  lemma ScanOpenPair(a: char, b: char)
    requires IsDigit(a) && IsDigit(b)
    ensures Locate(['(', a, b]) == []
    ensures SplitIndex(['(', a, b]) == 0
  {
    DigitToken(a);
    DigitToken(b);
    var s := ['(', a, b];
    assert LocateAfter(s, 1) == LocateState(1, 0, []);
    assert LocateAfter(s, 2) == LocateState(1, 0, []);
    assert LocateAfter(s, 3) == LocateState(1, 0, []);
    assert ScanAfter(s, [], 1) == ScanState(0, 0, 6);
    assert ScanAfter(s, [], 2) == ScanState(0, 0, 6);
    assert ScanAfter(s, [], 3) == ScanState(0, 0, 6);
  }

  /** `)((a+b))`: the stray `)` at index 0 moves the span iterator past the
      only group `(2, 6)` before the scan reaches it, so the scan looks
      inside that top-level group and stops at its `+`. */
  lemma ScanEarlyAdvance(a: char, b: char)
    requires IsDigit(a) && IsDigit(b)
    ensures Locate([')', '(', '(', a, '+', b, ')', ')']) == [(2, 6)]
    ensures IsTopSpan([')', '(', '(', a, '+', b, ')', ')'], 2, 6)
    ensures SplitIndex([')', '(', '(', a, '+', b, ')', ')']) == 4
  {
    DigitToken(a);
    DigitToken(b);
    var s := [')', '(', '(', a, '+', b, ')', ')'];
    assert LocateAfter(s, 1) == LocateState(-1, USIZE_MAX, []);
    assert LocateAfter(s, 2) == LocateState(0, USIZE_MAX, []);
    assert LocateAfter(s, 3) == LocateState(1, 2, []);
    assert LocateAfter(s, 4) == LocateState(1, 2, []);
    assert LocateAfter(s, 5) == LocateState(1, 2, []);
    assert LocateAfter(s, 6) == LocateState(1, 2, []);
    assert LocateAfter(s, 7) == LocateState(0, 2, [(2, 6)]);
    assert LocateAfter(s, 8) == LocateState(-1, 2, [(2, 6)]);
    LocateSpans(s);
    assert (2, 6) in Locate(s);
    var spans := [(2, 6)];
    assert ScanAfter(s, spans, 1) == ScanState(1, USIZE_MAX, U8_MAX);
    assert ScanAfter(s, spans, 2) == ScanState(1, 1, 6);
    assert ScanAfter(s, spans, 3) == ScanState(1, 2, 6);
    assert ScanAfter(s, spans, 4) == ScanState(1, 2, 6);
    assert ScanAfter(s, spans, 5) == ScanState(1, 4, 6);
    assert ScanAfter(s, spans, 6) == ScanState(1, 4, 6);
    assert ScanAfter(s, spans, 7) == ScanState(2, 4, 6);
    assert ScanAfter(s, spans, 8) == ScanState(3, 4, 6);
  }

  lemma ScanInsideOut()
    ensures Locate(")+(") == []
    ensures SplitIndex(")+(") == 2
  {
    var s := ")+(";
    assert LocateAfter(s, 1) == LocateState(-1, USIZE_MAX, []);
    assert LocateAfter(s, 2) == LocateState(-1, USIZE_MAX, []);
    assert LocateAfter(s, 3) == LocateState(0, USIZE_MAX, []);
    assert ScanAfter(s, [], 1) == ScanState(1, USIZE_MAX, U8_MAX);
    assert ScanAfter(s, [], 2) == ScanState(1, 1, 6);
    assert ScanAfter(s, [], 3) == ScanState(1, 2, 6);
  }

  lemma ScanLoneOperator()
    ensures Locate("+") == []
    ensures SplitIndex("+") == 0
  {
    var s := "+";
    assert LocateAfter(s, 1) == LocateState(0, USIZE_MAX, []);
    assert ScanAfter(s, [], 1) == ScanState(0, 0, 6);
  }

  // ---------------------------------------------------------------------
  // `from_str` on the same shapes.

  /** `Build...` for a string that is already trimmed and whose split
      index is known. */
  lemma SplitBinary(s: string, i: nat, op: BinaryOperator, left: Expression<int>, right: Expression<int>)
    requires Trim(s) == s
    requires SplitIndex(s) == i
    requires 0 < i < |s|
    requires s[i] == OperatorChar(op)
    requires Parsed(Parse(s[..i], SingleDigit), left)
    requires Parsed(Parse(s[i + 1..], SingleDigit), right)
    ensures Parsed(Parse(s, SingleDigit), BinaryOperation(op, left, right))
  {
    BuildBinaryOperation(s, SingleDigit, op, left, right);
  }

  /** A lone digit is a number leaf. */
  lemma ParseDigit(a: char)
    requires IsDigit(a)
    ensures Parsed(Parse([a], SingleDigit), Number(Digit(a)))
  {
    DigitToken(a);
    var s := [a];
    TrimKeeps(s);
    assert Locate(s) == [] by {
      assert LocateAfter(s, 0) == LocateState(0, USIZE_MAX, []);
    }
    assert ScanAfter(s, [], 1) == ScanState(0, 0, 6);
    BuildNumber(s, SingleDigit, Digit(a));
  }

  lemma ParseSum(a: char, b: char)
    requires IsDigit(a) && IsDigit(b)
    ensures Parsed(Parse([a, '+', b], SingleDigit), BinaryOperation(Addition, Number(Digit(a)), Number(Digit(b))))
  {
    var s := [a, '+', b];
    assert Trim(s) == s by {
      DigitToken(a);
      DigitToken(b);
      TrimKeeps(s);
    }
    assert SplitIndex(s) == 1 by {
      ScanSum(a, b);
    }
    assert Parsed(Parse(s[..1], SingleDigit), Number(Digit(a))) by {
      assert s[..1] == [a];
      ParseDigit(a);
    }
    assert Parsed(Parse(s[2..], SingleDigit), Number(Digit(b))) by {
      assert s[2..] == [b];
      ParseDigit(b);
    }
    SplitBinary(s, 1, Addition, Number(Digit(a)), Number(Digit(b)));
  }

  /** `a+b*c` is `(a+b)*c`: every operator splits as late as it can, so
      there is no precedence of `*` over `+`. */
  lemma ParseLeftToRight(a: char, b: char, c: char)
    requires IsDigit(a) && IsDigit(b) && IsDigit(c)
    ensures Parsed(Parse([a, '+', b, '*', c], SingleDigit),
                   BinaryOperation(Multiplication,
                                   BinaryOperation(Addition, Number(Digit(a)), Number(Digit(b))),
                                   Number(Digit(c))))
  {
    var s := [a, '+', b, '*', c];
    var sum := BinaryOperation(Addition, Number(Digit(a)), Number(Digit(b)));
    assert Trim(s) == s by {
      DigitToken(a);
      DigitToken(b);
      DigitToken(c);
      TrimKeeps(s);
    }
    assert SplitIndex(s) == 3 by {
      ScanSumProduct(a, b, c);
    }
    assert Parsed(Parse(s[..3], SingleDigit), sum) by {
      assert s[..3] == [a, '+', b];
      ParseSum(a, b);
    }
    assert Parsed(Parse(s[4..], SingleDigit), Number(Digit(c))) by {
      assert s[4..] == [c];
      ParseDigit(c);
    }
    SplitBinary(s, 3, Multiplication, sum, Number(Digit(c)));
  }

  lemma ParseDifference(a: char, b: char)
    requires IsDigit(a) && IsDigit(b)
    ensures Parsed(Parse([a, '-', b], SingleDigit),
                   BinaryOperation(Subtraction, Number(Digit(a)), Number(Digit(b))))
  {
    var s := [a, '-', b];
    assert Trim(s) == s by {
      DigitToken(a);
      DigitToken(b);
      TrimKeeps(s);
    }
    assert SplitIndex(s) == 1 by {
      ScanDifference(a, b);
    }
    assert Parsed(Parse(s[..1], SingleDigit), Number(Digit(a))) by {
      assert s[..1] == [a];
      ParseDigit(a);
    }
    assert Parsed(Parse(s[2..], SingleDigit), Number(Digit(b))) by {
      assert s[2..] == [b];
      ParseDigit(b);
    }
    SplitBinary(s, 1, Subtraction, Number(Digit(a)), Number(Digit(b)));
  }

  /** `a-b-c` is `(a-b)-c`: a chain of operators groups to the left. */
  lemma ParseDifferences(a: char, b: char, c: char)
    requires IsDigit(a) && IsDigit(b) && IsDigit(c)
    ensures Parsed(Parse([a, '-', b, '-', c], SingleDigit),
                   BinaryOperation(Subtraction,
                                   BinaryOperation(Subtraction, Number(Digit(a)), Number(Digit(b))),
                                   Number(Digit(c))))
  {
    var s := [a, '-', b, '-', c];
    var difference := BinaryOperation(Subtraction, Number(Digit(a)), Number(Digit(b)));
    assert Trim(s) == s by {
      DigitToken(a);
      DigitToken(b);
      DigitToken(c);
      TrimKeeps(s);
    }
    assert SplitIndex(s) == 3 by {
      ScanDifferences(a, b, c);
    }
    assert Parsed(Parse(s[..3], SingleDigit), difference) by {
      assert s[..3] == [a, '-', b];
      ParseDifference(a, b);
    }
    assert Parsed(Parse(s[4..], SingleDigit), Number(Digit(c))) by {
      assert s[4..] == [c];
      ParseDigit(c);
    }
    SplitBinary(s, 3, Subtraction, difference, Number(Digit(c)));
  }

  lemma ParseNegation(a: char)
    requires IsDigit(a)
    ensures Parsed(Parse(['-', a], SingleDigit), UnaryNegation(Number(Digit(a))))
  {
    DigitToken(a);
    var s := ['-', a];
    TrimKeeps(s);
    ScanNegation(a);
    assert s[1..] == [a];
    ParseDigit(a);
    BuildUnaryNegation(s, SingleDigit, Number(Digit(a)));
  }

  /** `--a` is a double negation. */
  lemma ParseDoubleNegation(a: char)
    requires IsDigit(a)
    ensures Parsed(Parse(['-', '-', a], SingleDigit), UnaryNegation(UnaryNegation(Number(Digit(a)))))
  {
    DigitToken(a);
    var s := ['-', '-', a];
    TrimKeeps(s);
    ScanDoubleNegation(a);
    assert s[1..] == ['-', a];
    ParseNegation(a);
    BuildUnaryNegation(s, SingleDigit, UnaryNegation(Number(Digit(a))));
  }

  /** `-a^b` is `(-a)^b`: the negation binds tighter than `^`. */
  lemma ParseNegatedPower(a: char, b: char)
    requires IsDigit(a) && IsDigit(b)
    ensures Parsed(Parse(['-', a, '^', b], SingleDigit),
                   BinaryOperation(Exponentiation, UnaryNegation(Number(Digit(a))), Number(Digit(b))))
  {
    var s := ['-', a, '^', b];
    assert Trim(s) == s by {
      DigitToken(a);
      DigitToken(b);
      TrimKeeps(s);
    }
    assert SplitIndex(s) == 2 by {
      ScanNegatedPower(a, b);
    }
    assert Parsed(Parse(s[..2], SingleDigit), UnaryNegation(Number(Digit(a)))) by {
      assert s[..2] == ['-', a];
      ParseNegation(a);
    }
    assert Parsed(Parse(s[3..], SingleDigit), Number(Digit(b))) by {
      assert s[3..] == [b];
      ParseDigit(b);
    }
    SplitBinary(s, 2, Exponentiation, UnaryNegation(Number(Digit(a))), Number(Digit(b)));
  }

  lemma ParseGroup(a: char, b: char)
    requires IsDigit(a) && IsDigit(b)
    ensures Parsed(Parse(['(', a, '+', b, ')'], SingleDigit),
                   Parenthesis(BinaryOperation(Addition, Number(Digit(a)), Number(Digit(b)))))
  {
    DigitToken(a);
    DigitToken(b);
    var s := ['(', a, '+', b, ')'];
    TrimKeeps(s);
    ScanGroup(a, b);
    assert s[1..4] == [a, '+', b];
    ParseSum(a, b);
    BuildParenthesis(s, SingleDigit, BinaryOperation(Addition, Number(Digit(a)), Number(Digit(b))));
  }

  /** `(a+b)*c`: a parenthesised operand. */
  lemma ParseGroupedProduct(a: char, b: char, c: char)
    requires IsDigit(a) && IsDigit(b) && IsDigit(c)
    ensures Parsed(Parse(['(', a, '+', b, ')', '*', c], SingleDigit),
                   BinaryOperation(Multiplication,
                                   Parenthesis(BinaryOperation(Addition, Number(Digit(a)), Number(Digit(b)))),
                                   Number(Digit(c))))
  {
    var s := ['(', a, '+', b, ')', '*', c];
    var group := Parenthesis(BinaryOperation(Addition, Number(Digit(a)), Number(Digit(b))));
    assert Trim(s) == s by {
      DigitToken(a);
      DigitToken(b);
      DigitToken(c);
      TrimKeeps(s);
    }
    assert SplitIndex(s) == 5 by {
      ScanGroupedProduct(a, b, c);
    }
    assert Parsed(Parse(s[..5], SingleDigit), group) by {
      assert s[..5] == ['(', a, '+', b, ')'];
      ParseGroup(a, b);
    }
    assert Parsed(Parse(s[6..], SingleDigit), Number(Digit(c))) by {
      assert s[6..] == [c];
      ParseDigit(c);
    }
    SplitBinary(s, 5, Multiplication, group, Number(Digit(c)));
  }

  lemma ParseSingleGroup(a: char)
    requires IsDigit(a)
    ensures Parsed(Parse(['(', a, ')'], SingleDigit), Parenthesis(Number(Digit(a))))
  {
    DigitToken(a);
    var s := ['(', a, ')'];
    TrimKeeps(s);
    ScanSingleGroup(a);
    assert s[1..2] == [a];
    ParseDigit(a);
    BuildParenthesis(s, SingleDigit, Number(Digit(a)));
  }

  /** `a(b)c` parses, silently dropping `a` and `c`: the parenthesis branch
      strips the first and last characters whatever they are. */
  lemma ParseJuxtaposed(a: char, b: char, c: char)
    requires IsDigit(a) && IsDigit(b) && IsDigit(c)
    ensures Parsed(Parse([a, '(', b, ')', c], SingleDigit), Parenthesis(Parenthesis(Number(Digit(b)))))
  {
    DigitToken(a);
    DigitToken(b);
    DigitToken(c);
    var s := [a, '(', b, ')', c];
    TrimKeeps(s);
    ScanJuxtaposed(a, b, c);
    assert s[1..4] == ['(', b, ')'];
    ParseSingleGroup(b);
    BuildParenthesis(s, SingleDigit, Parenthesis(Number(Digit(b))));
  }

  /** `(` alone: the slice `s[1..0]` is out of bounds. */
  lemma ParseLoneParenthesis()
    ensures Parse("(", SingleDigit).Failure? && Parse("(", SingleDigit).error == SliceOutOfBounds
  {
    TrimKeeps("(");
    LoneParenthesis("(", SingleDigit);
  }

  /** Blank input fails with `Index out of range`. */
  lemma ParseBlank()
    ensures Parse(" \t\n", SingleDigit).Failure? && Parse(" \t\n", SingleDigit).error == IndexOutOfRange
  {
    var s := " \t\n";
    assert SkipLeading(s, 3) == 3;
    assert SkipLeading(s, 2) == 3;
    assert SkipLeading(s, 1) == 3;
    assert Trim(s) == [];
    ParseEmpty(s, SingleDigit);
  }

  /** `a*` fails: the right operand of `*` is empty. */
  lemma ParseDanglingOperator(a: char)
    requires IsDigit(a)
    ensures Parse([a, '*'], SingleDigit).Failure? && Parse([a, '*'], SingleDigit).error == IndexOutOfRange
  {
    DigitToken(a);
    var s := [a, '*'];
    TrimKeeps(s);
    ScanDanglingOperator(a);
    assert s[..1] == [a] && s[2..] == [];
    ParseDigit(a);
    ParseEmpty([], SingleDigit);
    RightOperandFails(s, SingleDigit);
  }

  /** `a*-b` fails: the scan picks the `-` after `*`, which splits as a
      binary operator and leaves `a*` with no right operand. */
  lemma ParseNegatedOperand(a: char, b: char)
    requires IsDigit(a) && IsDigit(b)
    ensures Parse([a, '*', '-', b], SingleDigit).Failure?
    ensures Parse([a, '*', '-', b], SingleDigit).error == IndexOutOfRange
  {
    DigitToken(a);
    DigitToken(b);
    var s := [a, '*', '-', b];
    TrimKeeps(s);
    ScanNegatedOperand(a, b);
    assert s[..2] == [a, '*'];
    ParseDanglingOperator(a);
    LeftOperandFails(s, SingleDigit);
  }

  /** `(a` fails: the enclosed slice `s[1..1]` is empty. */
  lemma ParseUnclosedOperand(a: char)
    requires IsDigit(a)
    ensures Parse(['(', a], SingleDigit).Failure? && Parse(['(', a], SingleDigit).error == IndexOutOfRange
  {
    DigitToken(a);
    var s := ['(', a];
    TrimKeeps(s);
    ScanUnclosedOperand(a);
    assert s[1..1] == [];
    ParseEmpty([], SingleDigit);
    EnclosedOperandFails(s, SingleDigit);
  }

  /** `(a+b` fails with `Index out of range`, not with a report about the
      missing `)`. */
  lemma ParseUnclosed(a: char, b: char)
    requires IsDigit(a) && IsDigit(b)
    ensures Parse(['(', a, '+', b], SingleDigit).Failure?
    ensures Parse(['(', a, '+', b], SingleDigit).error == IndexOutOfRange
  {
    DigitToken(a);
    DigitToken(b);
    var s := ['(', a, '+', b];
    TrimKeeps(s);
    ScanUnclosed(a, b);
    assert s[..2] == ['(', a];
    ParseUnclosedOperand(a);
    LeftOperandFails(s, SingleDigit);
  }

  /** `(ab` parses to `(a)`: the unclosed `(` wins the scan, and the
      parenthesis branch drops it together with the last digit. */
  lemma ParseOpenPair(a: char, b: char)
    requires IsDigit(a) && IsDigit(b)
    ensures Parsed(Parse(['(', a, b], SingleDigit), Parenthesis(Number(Digit(a))))
  {
    DigitToken(a);
    DigitToken(b);
    var s := ['(', a, b];
    TrimKeeps(s);
    ScanOpenPair(a, b);
    assert s[1..2] == [a];
    ParseDigit(a);
    BuildParenthesis(s, SingleDigit, Number(Digit(a)));
  }

  /** `+` alone fails: its left operand is empty. */
  lemma ParseLoneOperator()
    ensures Parse("+", SingleDigit).Failure? && Parse("+", SingleDigit).error == IndexOutOfRange
  {
    var s := "+";
    TrimKeeps(s);
    ScanLoneOperator();
    assert s[..0] == [];
    ParseEmpty([], SingleDigit);
    LeftOperandFails(s, SingleDigit);
  }

  lemma ParseInsideOut()
    ensures Parse(")+(", SingleDigit).Failure? && Parse(")+(", SingleDigit).error == IndexOutOfRange
  {
    var s := ")+(";
    TrimKeeps(s);
    ScanInsideOut();
    assert s[1..2] == "+";
    ParseLoneOperator();
    EnclosedOperandFails(s, SingleDigit);
  }

  lemma ParseStrayClose(a: char, b: char)
    requires IsDigit(a) && IsDigit(b)
    ensures Parse([a, ')', '+', '(', b], SingleDigit).Failure?
    ensures Parse([a, ')', '+', '(', b], SingleDigit).error == IndexOutOfRange
  {
    var s := [a, ')', '+', '(', b];
    assert Trim(s) == s by {
      DigitToken(a);
      DigitToken(b);
      TrimKeeps(s);
    }
    assert SplitIndex(s) == 3 by {
      ScanStrayClose(a, b);
    }
    assert s[1..4] == ")+(";
    ParseInsideOut();
    EnclosedOperandFails(s, SingleDigit);
  }

  /** `(a)+(b)` fails with `Index out of range`: the scan stops at the
      second `(`, so the parenthesis branch strips the outer characters and
      parses `a)+(b`, then `)+(`, then `+`, whose left operand is empty. */
  lemma ParseGroupSum(a: char, b: char)
    requires IsDigit(a) && IsDigit(b)
    ensures Parse(['(', a, ')', '+', '(', b, ')'], SingleDigit).Failure?
    ensures Parse(['(', a, ')', '+', '(', b, ')'], SingleDigit).error == IndexOutOfRange
  {
    var s := ['(', a, ')', '+', '(', b, ')'];
    assert Trim(s) == s by {
      TrimKeeps(s);
    }
    assert SplitIndex(s) == 4 by {
      ScanGroupSum(a, b);
    }
    assert s[1..6] == [a, ')', '+', '(', b];
    ParseStrayClose(a, b);
    EnclosedOperandFails(s, SingleDigit);
  }
}
