/** The expression tree and `Expression::from_str`, the recursive builder
    that trims its input, locates the top-level parentheses, asks the scan
    where to split, and dispatches on the character found there. */
module Expressions {
  import opened Wrappers
  import opened Text
  import opened Parentheses
  import opened Priority

  datatype BinaryOperator = Addition | Subtraction | Multiplication | Division | Exponentiation

  /** The tree `from_str` builds. A leaf holds whatever the number-literal
      parser returned for its text; `N` stands for `f64`. */
  datatype Expression<N> =
    | BinaryOperation(operator: BinaryOperator, left: Expression<N>, right: Expression<N>)
    | UnaryNegation(operand: Expression<N>)
    | Parenthesis(operand: Expression<N>)
    | Number(value: N)

  /** The failures of `from_str`: the `Index out of range` report at
      expression.rs:47, the `Invalid operator` report of `try_from`, a leaf
      the number parser rejects, and the slice panic of `"("` at :58. */
  datatype ParseError = IndexOutOfRange | InvalidOperator | InvalidNumber(literal: string) | SliceOutOfBounds

  /** The character each operator is written with. */
  function OperatorChar(op: BinaryOperator): char {
    match op
    case Addition => '+'
    case Subtraction => '-'
    case Multiplication => '*'
    case Division => '/'
    case Exponentiation => '^'
  }

  /** `TryFrom<char> for BinaryOperator`: exactly the five operator
      characters map, each to the operator written with it. */
  function OperatorFromChar(c: char): (r: Result<BinaryOperator, ParseError>)
    ensures r.Success? <==> IsOperatorChar(c)
    ensures r.Success? ==> OperatorChar(r.value) == c
    ensures r.Failure? ==> r.error == InvalidOperator
  {
    match c
    case '+' => Success(Addition)
    case '-' => Success(Subtraction)
    case '*' => Success(Multiplication)
    case '/' => Success(Division)
    case '^' => Success(Exponentiation)
    case _ => Failure(InvalidOperator)
  }

  /** Number of nodes of a tree. */
  function Size<N>(e: Expression<N>): nat {
    match e
    case BinaryOperation(_, left, right) => 1 + Size(left) + Size(right)
    case UnaryNegation(operand) => 1 + Size(operand)
    case Parenthesis(operand) => 1 + Size(operand)
    case Number(_) => 1
  }

  /** Where `from_str` splits the trimmed string `t` (expression.rs:41-43). */
  function SplitIndex(t: string): nat {
    MinimumPriorityIndex(t, Locate(t))
  }

  /** `Expression::from_str` (expression.rs:37-62), with `number` in the
      place of `str::parse::<f64>`: trim, scan, then dispatch on the index
      the scan returned. */
  function Parse<N>(s: string, number: string -> Option<N>): Result<Expression<N>, ParseError>
    decreases |s|, 1
  {
    var t := Trim(s);
    ParseAt(t, SplitIndex(t), number)
  }

  /** expression.rs:44-60: the dispatch on the character at index `i` of the
      trimmed string `t`. Each slice is parsed by `from_str` again, so it is
      trimmed again; a failing sub-parse fails the whole parse. */
  function ParseAt<N>(t: string, i: nat, number: string -> Option<N>): Result<Expression<N>, ParseError>
    decreases |t|, 0
  {
    if i >= |t| then
      Failure(IndexOutOfRange)
    else if t[i] == '-' && i == 0 then
      var operand := Parse(t[1..], number);
      if operand.Failure? then operand else Success(UnaryNegation(operand.value))
    else if IsOperatorChar(t[i]) then
      var operator := OperatorFromChar(t[i]);
      if operator.Failure? then Failure(InvalidOperator)
      else
        var left := Parse(t[..i], number);
        if left.Failure? then left
        else
          var right := Parse(t[i + 1..], number);
          if right.Failure? then right
          else Success(BinaryOperation(operator.value, left.value, right.value))
    else if t[i] == '(' then
      if |t| < 2 then Failure(SliceOutOfBounds)
      else
        var operand := Parse(t[1..|t| - 1], number);
        if operand.Failure? then operand else Success(Parenthesis(operand.value))
    else
      var literal := number(t);
      if literal.None? then Failure(InvalidNumber(t)) else Success(Number(literal.value))
  }

  /** A parse succeeds with `e`. */
  ghost predicate Parsed<N>(r: Result<Expression<N>, ParseError>, e: Expression<N>) {
    r.Success? && r.value == e
  }

  /** Every operator is recovered from its character. */
  lemma OperatorRoundTrip(op: BinaryOperator)
    ensures OperatorFromChar(OperatorChar(op)) == Success(op)
  {
  }

  /** Whitespace of the four trimmed kinds around the input changes nothing. */
  lemma ParseIgnoresSurroundingWhitespace<N>(w1: string, s: string, w2: string, number: string -> Option<N>)
    requires AllTrimChars(w1) && AllTrimChars(w2)
    ensures Parse(w1 + s + w2, number) == Parse(s, number)
  {
    TrimSurrounded(w1, s, w2);
  }

  /** The empty (or all-whitespace) input fails with `Index out of range`. */
  lemma ParseEmpty<N>(s: string, number: string -> Option<N>)
    requires Trim(s) == []
    ensures Parse(s, number).Failure? && Parse(s, number).error == IndexOutOfRange
  {
    assert SplitIndex([]) == USIZE_MAX;
  }

  /** When the scan finds nothing but `)` to look at, `from_str` fails with
      `Index out of range`. */
  lemma ParseNothingToSplit<N>(s: string, number: string -> Option<N>)
    requires |s| <= USIZE_MAX
    requires forall i :: 0 <= i < |Trim(s)| && Counted(Trim(s), Locate(Trim(s)), i) ==> Trim(s)[i] == ')'
    ensures Parse(s, number).Failure? && Parse(s, number).error == IndexOutOfRange
  {
    Sentinel(Trim(s), Locate(Trim(s)));
  }

  /** `try_from` never fails inside `from_str`: the dispatch only converts
      one of the five operator characters, so no parse ends in `Invalid operator`. */
  lemma {:induction false} ParseNeverInvalidOperator<N>(s: string, number: string -> Option<N>)
    ensures Parse(s, number).Failure? ==> Parse(s, number).error != InvalidOperator
    decreases |s|, 1
  {
    var t := Trim(s);
    DispatchNeverInvalidOperator(t, SplitIndex(t), number);
  }

  lemma {:induction false} DispatchNeverInvalidOperator<N>(t: string, i: nat, number: string -> Option<N>)
    ensures ParseAt(t, i, number).Failure? ==> ParseAt(t, i, number).error != InvalidOperator
    decreases |t|, 0
  {
    if i < |t| {
      if t[i] == '-' && i == 0 {
        ParseNeverInvalidOperator(t[1..], number);
      } else if IsOperatorChar(t[i]) {
        ParseNeverInvalidOperator(t[..i], number);
        ParseNeverInvalidOperator(t[i + 1..], number);
      } else if t[i] == '(' && 2 <= |t| {
        ParseNeverInvalidOperator(t[1..|t| - 1], number);
      }
    }
  }

  /** A tree has no more nodes than the trimmed input has characters, so the
      recursion depth is bounded by the input length. */
  lemma {:induction false} ParseSizeBound<N>(s: string, number: string -> Option<N>)
    ensures Parse(s, number).Success? ==> Size(Parse(s, number).value) <= |Trim(s)|
    decreases |s|, 1
  {
    var t := Trim(s);
    DispatchSizeBound(t, SplitIndex(t), number);
  }

  lemma {:induction false} DispatchSizeBound<N>(t: string, i: nat, number: string -> Option<N>)
    ensures ParseAt(t, i, number).Success? ==> Size(ParseAt(t, i, number).value) <= |t|
    decreases |t|, 0
  {
    if i < |t| {
      if t[i] == '-' && i == 0 {
        ParseSizeBound(t[1..], number);
      } else if IsOperatorChar(t[i]) {
        ParseSizeBound(t[..i], number);
        ParseSizeBound(t[i + 1..], number);
      } else if t[i] == '(' && 2 <= |t| {
        ParseSizeBound(t[1..|t| - 1], number);
      }
    }
  }

  /** A binary node comes from a binary operator at a positive index `i`;
      the two slices beside it parse to its children. */
  lemma DispatchBinary<N>(t: string, i: nat, number: string -> Option<N>,
                          op: BinaryOperator, left: Expression<N>, right: Expression<N>)
    requires Parsed(ParseAt(t, i, number), BinaryOperation(op, left, right))
    ensures 0 < i < |t| && t[i] == OperatorChar(op)
    ensures Parsed(Parse(t[..i], number), left) && Parsed(Parse(t[i + 1..], number), right)
  {
    if i == 0 {
      ParseEmpty(t[..0], number);
    }
  }

  /** A binary node splits the trimmed input at the scan's index, which
      holds its operator, is not the first character, has no binary
      operator the scan looks at after it and (for a string shorter than
      `usize::MAX`) is a candidate of the scan, not inside the group the
      span iterator is at; when no `)` of the input is stray, it lies
      inside no top-level group. Both halves parse to its children. */
  lemma ParseBinaryOperation<N>(s: string, number: string -> Option<N>,
                                op: BinaryOperator, left: Expression<N>, right: Expression<N>)
    requires Parsed(Parse(s, number), BinaryOperation(op, left, right))
    ensures var t := Trim(s);
            var i := SplitIndex(t);
            0 < i < |t| && t[i] == OperatorChar(op) &&
            NoBinaryOperatorBetween(t, Locate(t), i, |t|) &&
            (|t| <= USIZE_MAX ==> IsCandidate(t, Locate(t), i)) &&
            (|t| <= USIZE_MAX && NoStrayClose(t) ==> !InsideGroup(t, i)) &&
            Parsed(Parse(t[..i], number), left) && Parsed(Parse(t[i + 1..], number), right)
  {
    var t := Trim(s);
    DispatchBinary(t, SplitIndex(t), number, op, left, right);
    RightmostBinaryOperator(t, Locate(t));
    MinimumPriorityIndexValid(t, Locate(t));
    if NoStrayClose(t) {
      CountedOutsideGroups(t, SplitIndex(t));
    }
  }

  /** Conversely, a binary operator where the scan stops, with both slices
      beside it parsing, gives the binary node. */
  lemma BuildBinaryOperation<N>(s: string, number: string -> Option<N>,
                                op: BinaryOperator, left: Expression<N>, right: Expression<N>)
    requires var t := Trim(s);
             var i := SplitIndex(t);
             0 < i < |t| && t[i] == OperatorChar(op) &&
             Parsed(Parse(t[..i], number), left) && Parsed(Parse(t[i + 1..], number), right)
    ensures Parsed(Parse(s, number), BinaryOperation(op, left, right))
  {
    OperatorRoundTrip(op);
  }

  /** A negation node comes from a `-` at index 0. */
  lemma DispatchNegation<N>(t: string, i: nat, number: string -> Option<N>, operand: Expression<N>)
    requires Parsed(ParseAt(t, i, number), UnaryNegation(operand))
    ensures i == 0 < |t| && t[0] == '-' && Parsed(Parse(t[1..], number), operand)
  {
  }

  /** A negation node comes from a trimmed input that starts with `-` where
      the scan stops, with no binary operator looked at anywhere. */
  lemma ParseUnaryNegation<N>(s: string, number: string -> Option<N>, operand: Expression<N>)
    requires Parsed(Parse(s, number), UnaryNegation(operand))
    ensures var t := Trim(s);
            t != [] && t[0] == '-' && SplitIndex(t) == 0 && !IsBinaryOperatorAt(t, 0) &&
            NoBinaryOperatorBetween(t, Locate(t), 0, |t|) &&
            Parsed(Parse(t[1..], number), operand)
  {
    var t := Trim(s);
    DispatchNegation(t, SplitIndex(t), number, operand);
    RightmostBinaryOperator(t, Locate(t));
  }

  /** Conversely, a `-` at index 0 where the scan stops, with the rest
      parsing, gives the negation node. */
  lemma BuildUnaryNegation<N>(s: string, number: string -> Option<N>, operand: Expression<N>)
    requires var t := Trim(s);
             t != [] && t[0] == '-' && SplitIndex(t) == 0 && Parsed(Parse(t[1..], number), operand)
    ensures Parsed(Parse(s, number), UnaryNegation(operand))
  {
  }

  /** A parenthesis node comes from a `(` at index `i`; its operand is the
      parse of the slice without the first and last characters. */
  lemma DispatchParenthesis<N>(t: string, i: nat, number: string -> Option<N>, operand: Expression<N>)
    requires Parsed(ParseAt(t, i, number), Parenthesis(operand))
    ensures 2 <= |t| && i < |t| && t[i] == '('
    ensures Parsed(Parse(t[1..|t| - 1], number), operand)
  {
  }

  /** A parenthesis node comes from a scan that stops at a `(` that (for a
      string shorter than `usize::MAX`) is not inside the group the span
      iterator is at, and inside no top-level group when no `)` of the
      input is stray; its operand is the parse of the trimmed input with
      its first and last characters dropped, whatever they are. */
  lemma ParseParenthesis<N>(s: string, number: string -> Option<N>, operand: Expression<N>)
    requires Parsed(Parse(s, number), Parenthesis(operand))
    ensures var t := Trim(s);
            var i := SplitIndex(t);
            2 <= |t| && i < |t| && t[i] == '(' && NoBinaryOperatorBetween(t, Locate(t), i, |t|) &&
            (|t| <= USIZE_MAX ==> IsCandidate(t, Locate(t), i)) &&
            (|t| <= USIZE_MAX && NoStrayClose(t) ==> !InsideGroup(t, i)) &&
            Parsed(Parse(t[1..|t| - 1], number), operand)
  {
    var t := Trim(s);
    DispatchParenthesis(t, SplitIndex(t), number, operand);
    RightmostBinaryOperator(t, Locate(t));
    MinimumPriorityIndexValid(t, Locate(t));
    if NoStrayClose(t) {
      CountedOutsideGroups(t, SplitIndex(t));
    }
  }

  /** Conversely, a `(` where the scan stops, in a trimmed input of two or
      more characters whose inner slice parses, gives the parenthesis node. */
  lemma BuildParenthesis<N>(s: string, number: string -> Option<N>, operand: Expression<N>)
    requires var t := Trim(s);
             var i := SplitIndex(t);
             2 <= |t| && i < |t| && t[i] == '(' && Parsed(Parse(t[1..|t| - 1], number), operand)
    ensures Parsed(Parse(s, number), Parenthesis(operand))
  {
  }

  /** A number leaf comes from an index holding neither an operator nor `(`,
      and holds the number parser's value for the whole string. */
  lemma DispatchNumber<N>(t: string, i: nat, number: string -> Option<N>, v: N)
    requires Parsed(ParseAt(t, i, number), Number(v))
    ensures i < |t| && !IsSplitChar(t[i])
    ensures number(t).Some? && number(t).value == v
  {
  }

  /** A number leaf is the number parser's value for the whole trimmed
      input, in which the scan looks at no operator and no `(`; when no
      `)` is stray, every operator or `(` lies inside a top-level group. */
  lemma ParseNumber<N>(s: string, number: string -> Option<N>, v: N)
    requires Parsed(Parse(s, number), Number(v))
    ensures var t := Trim(s);
            t != [] && number(t).Some? && number(t).value == v &&
            (forall j :: 0 <= j < |t| && Counted(t, Locate(t), j) ==> !IsSplitChar(t[j])) &&
            (NoStrayClose(t) ==>
               forall j :: 0 <= j < |t| && !IsBlank(t[j]) && !InsideGroup(t, j) ==> !IsSplitChar(t[j]))
  {
    var t := Trim(s);
    DispatchNumber(t, SplitIndex(t), number, v);
    forall j | 0 <= j < |t| && Counted(t, Locate(t), j)
      ensures !IsSplitChar(t[j])
    {
      if IsSplitChar(t[j]) {
        SplitCharChosen(t, Locate(t), j);
      }
    }
    if NoStrayClose(t) {
      forall j | 0 <= j < |t| && !IsBlank(t[j]) && !InsideGroup(t, j)
        ensures !IsSplitChar(t[j])
      {
        CountedOutsideGroups(t, j);
      }
    }
  }

  /** Conversely, a scan that stops at neither an operator nor `(`, on an
      input the number parser accepts, gives the number leaf. */
  lemma BuildNumber<N>(s: string, number: string -> Option<N>, v: N)
    requires var t := Trim(s);
             SplitIndex(t) < |t| && !IsSplitChar(t[SplitIndex(t)]) &&
             number(t).Some? && number(t).value == v
    ensures Parsed(Parse(s, number), Number(v))
  {
  }

  /** A scan that stops at neither an operator nor `(`, on an input the
      number parser rejects, fails with that literal. */
  lemma RejectNumber<N>(s: string, number: string -> Option<N>)
    requires var t := Trim(s);
             SplitIndex(t) < |t| && !IsSplitChar(t[SplitIndex(t)]) && number(t).None?
    ensures Parse(s, number).Failure? && Parse(s, number).error == InvalidNumber(Trim(s))
  {
  }

  /** A scan that stops at `(` in a one-character input: the slice `s[1..0]`
      panics in the source. */
  lemma LoneParenthesis<N>(s: string, number: string -> Option<N>)
    requires var t := Trim(s);
             |t| == 1 && t[0] == '('
    ensures Parse(s, number).Failure? && Parse(s, number).error == SliceOutOfBounds
  {
    var t := Trim(s);
    assert Locate(t) == [] by {
      assert LocateAfter(t, 0) == LocateState(0, USIZE_MAX, []);
    }
    assert ScanAfter(t, [], 1) == ScanState(0, 0, 6);
  }

  /** The binary dispatch the scan selects: an operator character that is
      not a `-` at index 0. */
  predicate SplitsAsBinary(t: string) {
    var i := SplitIndex(t);
    i < |t| && IsOperatorChar(t[i]) && !(t[i] == '-' && i == 0)
  }

  /** A failing left operand fails the parse with its own error (the `?` at
      expression.rs:55). */
  lemma LeftOperandFails<N>(s: string, number: string -> Option<N>)
    requires SplitsAsBinary(Trim(s))
    requires Parse(Trim(s)[..SplitIndex(Trim(s))], number).Failure?
    ensures Parse(s, number).Failure?
    ensures Parse(s, number).error == Parse(Trim(s)[..SplitIndex(Trim(s))], number).error
  {
  }

  /** With the left operand parsed, a failing right operand fails the parse
      with its own error (the `?` at expression.rs:56). */
  lemma RightOperandFails<N>(s: string, number: string -> Option<N>)
    requires SplitsAsBinary(Trim(s))
    requires Parse(Trim(s)[..SplitIndex(Trim(s))], number).Success?
    requires Parse(Trim(s)[SplitIndex(Trim(s)) + 1..], number).Failure?
    ensures Parse(s, number).Failure?
    ensures Parse(s, number).error == Parse(Trim(s)[SplitIndex(Trim(s)) + 1..], number).error
  {
  }

  /** A failing operand of a negation fails the parse with its own error. */
  lemma NegatedOperandFails<N>(s: string, number: string -> Option<N>)
    requires var t := Trim(s);
             t != [] && t[0] == '-' && SplitIndex(t) == 0 && Parse(t[1..], number).Failure?
    ensures Parse(s, number).Failure?
    ensures Parse(s, number).error == Parse(Trim(s)[1..], number).error
  {
  }

  /** A failing inner slice of a parenthesis fails the parse with its own error. */
  lemma EnclosedOperandFails<N>(s: string, number: string -> Option<N>)
    requires var t := Trim(s);
             2 <= |t| && SplitIndex(t) < |t| && t[SplitIndex(t)] == '(' &&
             Parse(t[1..|t| - 1], number).Failure?
    ensures Parse(s, number).Failure?
    ensures Parse(s, number).error == Parse(Trim(s)[1..|Trim(s)| - 1], number).error
  {
  }
}
