/**
 * The two-stack (shunting-yard) evaluator of `evaluate`, `precedence` and
 * `apply_op`. The server and the client carry the same code except for a zero
 * divisor: the server throws, the client yields 0. That single difference is the
 * `DivisionPolicy` parameter.
 *
 * The specification is layered the way the loop reads the text: `Tokenize` cuts
 * the text into digit runs and operator characters (white space vanishes), `Step`
 * is what one token does to the two stacks, `Run` folds `Step` over the tokens and
 * `Finish` drains the operator stack. The method `Evaluate` is the loop itself.
 */
module Evaluator {
  import opened Text

  /** What `apply_op` does with `'/'` and a zero divisor. */
  datatype DivisionPolicy =
    | Raise      // tcp_server.cpp: throw std::runtime_error("Division by zero")
    | YieldZero  // tcp_client.cpp: return 0

  /** Why `evaluate` does not return a value. */
  datatype EvalError =
    | DivisionByZero   // thrown by apply_op on the server
    | UnknownOperator  // thrown by apply_op for a character other than + - * /
    | EmptyExpression  // thrown when no operand is left at the end
    | StackUnderflow   // values.top() on an empty stack: undefined behaviour in C++

  datatype Result<+T> = Ok(value: T) | Err(error: EvalError)

  predicate IsAdditive(c: char) {
    c == '+' || c == '-'
  }

  predicate IsMultiplicative(c: char) {
    c == '*' || c == '/'
  }

  predicate IsOperator(c: char) {
    IsAdditive(c) || IsMultiplicative(c)
  }

  /** `precedence`: 2 binds tighter than 1; every other character gets 0. */
  function Precedence(op: char): (p: int)
    ensures 0 <= p <= 2
    ensures p == 2 <==> IsMultiplicative(op)
    ensures p == 1 <==> IsAdditive(op)
  {
    if op == '+' || op == '-' then 1
    else if op == '*' || op == '/' then 2
    else 0
  }

  function Abs(x: int): nat {
    if x < 0 then -x else x
  }

  /**
   * C++ integer division: the quotient is truncated toward zero, so the remainder
   * `a - q * b` is smaller than the divisor and has the sign of the dividend.
   */
  function TruncDiv(a: int, b: int): (q: int)
    requires b != 0
    ensures Abs(a - q * b) < Abs(b)
    ensures a - q * b == 0 || (a - q * b < 0 <==> a < 0)
    ensures Abs(q * b) <= Abs(a)
  {
    var m := Abs(a) / Abs(b);
    var q := if (a < 0) == (b < 0) then m else -m;
    TruncDivRemainder(a, b, m, q);
    q
  }

  lemma TruncDivRemainder(a: int, b: int, m: int, q: int)
    requires b != 0 && m == Abs(a) / Abs(b)
    requires q == if (a < 0) == (b < 0) then m else -m
    ensures Abs(a - q * b) < Abs(b)
    ensures a - q * b == 0 || (a - q * b < 0 <==> a < 0)
    ensures Abs(q * b) <= Abs(a)
  {
    var mb, rem := DivisionFacts(Abs(a), Abs(b));
    var p := q * b;
    if a >= 0 && b > 0 {
      assert p == mb;
    } else if a < 0 && b < 0 {
      assert p == m * b;
      TimesNeg(m, Abs(b));
      assert p == -mb;
    } else if a >= 0 {
      assert p == -m * b;
      NegTimesNeg(m, Abs(b));
      assert p == mb;
    } else {
      assert p == -m * b;
      TimesNeg(Abs(b), m);
      assert p == -mb;
    }
  }

  /** Euclidean division of naturals: x == (x / y) * y + x % y with 0 <= x % y < y. */
  lemma DivisionFacts(x: nat, y: nat) returns (mb: int, rem: int)
    requires y > 0
    ensures mb == (x / y) * y && rem == x % y
    ensures x == mb + rem && 0 <= rem < y && 0 <= mb
  {
    mb, rem := (x / y) * y, x % y;
  }

  lemma TimesNeg(x: int, y: int)
    ensures x * -y == -(x * y) && -y * x == -(x * y)
  {
  }

  lemma NegTimesNeg(x: int, y: int)
    ensures -x * -y == x * y
  {
  }

  /**
   * The arithmetic every operator means, with the client's convention that a
   * division by zero gives 0.
   */
  function Arith(a: int, b: int, op: char): int
    requires IsOperator(op)
  {
    match op
    case '+' => a + b
    case '-' => a - b
    case '*' => a * b
    case '/' => if b == 0 then 0 else TruncDiv(a, b)
  }

  /** `apply_op(a, b, op)`, under the given treatment of a zero divisor. */
  function ApplyOp(a: int, b: int, op: char, policy: DivisionPolicy): (r: Result<int>)
    ensures !IsOperator(op) ==> r == Err(UnknownOperator)
    ensures IsOperator(op) && r.Err? ==> r == Err(DivisionByZero)
    ensures r.Err? <==> !IsOperator(op) || (op == '/' && b == 0 && policy == Raise)
    ensures r.Ok? ==> r.value == Arith(a, b, op)
  {
    if op == '+' then Ok(a + b)
    else if op == '-' then Ok(a - b)
    else if op == '*' then Ok(a * b)
    else if op == '/' then
      if b != 0 then Ok(TruncDiv(a, b))
      else if policy == Raise then Err(DivisionByZero)
      else Ok(0)
    else Err(UnknownOperator)
  }

  /** A digit run (read as its decimal value) or any other non-space character. */
  datatype Token = Num(value: int) | Op(op: char)

  /** The tokens the scan of `evaluate` meets, in order; white space is skipped. */
  function Tokenize(s: string): seq<Token>
    decreases |s|
  {
    if s == [] then []
    else if IsSpace(s[0]) then Tokenize(s[1..])
    else if IsDigit(s[0]) then
      var n := DigitRunLength(s);
      [Num(DecimalValue(s[..n]))] + Tokenize(s[n..])
    else [Op(s[0])] + Tokenize(s[1..])
  }

  /** The operand stack and the operator stack; the top is the last element. */
  datatype Stacks = Stacks(values: seq<int>, ops: seq<char>)

  /** Pop `b`, pop `a`, pop the operator, push `apply_op(a, b, op)`. */
  function ReduceTop(st: Stacks, policy: DivisionPolicy): (r: Result<Stacks>)
    requires st.ops != []
    ensures |st.values| < 2 ==> r == Err(StackUnderflow)
    ensures r.Ok? ==> |r.value.values| == |st.values| - 1 && r.value.ops == st.ops[..|st.ops| - 1]
    ensures r.Ok? ==> r.value.values[..|r.value.values| - 1] == st.values[..|st.values| - 2]
  {
    if |st.values| < 2 then Err(StackUnderflow)
    else
      var n := |st.values|;
      match ApplyOp(st.values[n - 2], st.values[n - 1], st.ops[|st.ops| - 1], policy)
      case Err(e) => Err(e)
      case Ok(v) => Ok(Stacks(st.values[..n - 2] + [v], st.ops[..|st.ops| - 1]))
  }

  /** Reduce while the top operator has precedence at least `p`. */
  function ReduceWhile(st: Stacks, p: int, policy: DivisionPolicy): Result<Stacks>
    decreases |st.ops|
  {
    if st.ops != [] && Precedence(st.ops[|st.ops| - 1]) >= p then
      match ReduceTop(st, policy)
      case Err(e) => Err(e)
      case Ok(st') => ReduceWhile(st', p, policy)
    else Ok(st)
  }

  /** What one token does: a number is pushed; an operator first reduces, then is pushed. */
  function Step(st: Stacks, t: Token, policy: DivisionPolicy): Result<Stacks> {
    match t
    case Num(v) => Ok(Stacks(st.values + [v], st.ops))
    case Op(c) =>
      match ReduceWhile(st, Precedence(c), policy)
      case Err(e) => Err(e)
      case Ok(st') => Ok(Stacks(st'.values, st'.ops + [c]))
  }

  function Run(st: Stacks, ts: seq<Token>, policy: DivisionPolicy): Result<Stacks>
    decreases |ts|
  {
    if ts == [] then Ok(st)
    else
      match Step(st, ts[0], policy)
      case Err(e) => Err(e)
      case Ok(st') => Run(st', ts[1..], policy)
  }

  /**
   * Drain the operator stack (every precedence is at least 0), then answer the top
   * operand, or fail when there is none.
   */
  function Finish(st: Stacks, policy: DivisionPolicy): Result<int> {
    match ReduceWhile(st, 0, policy)
    case Err(e) => Err(e)
    case Ok(st') => if st'.values == [] then Err(EmptyExpression) else Ok(st'.values[|st'.values| - 1])
  }

  const Empty := Stacks([], [])

  /** What `evaluate(s)` returns or throws. */
  function Eval(s: string, policy: DivisionPolicy): Result<int> {
    match Run(Empty, Tokenize(s), policy)
    case Err(e) => Err(e)
    case Ok(st) => Finish(st, policy)
  }

  /** Operator precedences strictly increase from the bottom of the stack to its top. */
  ghost predicate IncreasingPrecedence(ops: seq<char>) {
    forall i, j :: 0 <= i < j < |ops| ==> Precedence(ops[i]) < Precedence(ops[j])
  }

  /**
   * The reduction loop of `evaluate` (tcp_server.cpp:70-75, and with `p == 0` the
   * final drain at lines 81-86, since every precedence is at least 0).
   */
  method ReduceLoop(values: seq<int>, ops: seq<char>, p: int, policy: DivisionPolicy) returns (r: Result<Stacks>)
    ensures r == ReduceWhile(Stacks(values, ops), p, policy)
    ensures r.Ok? ==> r.value.ops <= ops
    ensures r.Ok? ==> r.value.ops == [] || Precedence(r.value.ops[|r.value.ops| - 1]) < p
  {
    var vs, os := values, ops;
    while os != [] && Precedence(os[|os| - 1]) >= p
      invariant ReduceWhile(Stacks(vs, os), p, policy) == ReduceWhile(Stacks(values, ops), p, policy)
      invariant os <= ops
    {
      if |vs| < 2 {
        return Err(StackUnderflow);
      }
      var b := vs[|vs| - 1];
      var a := vs[|vs| - 2];
      var top := os[|os| - 1];
      var res := ApplyOp(a, b, top, policy);
      if res.Err? {
        return Err(res.error);
      }
      vs := vs[..|vs| - 2] + [res.value];
      os := os[..|os| - 1];
    }
    r := Ok(Stacks(vs, os));
  }

  lemma TokenizeSpace(s: string)
    requires s != [] && IsSpace(s[0])
    ensures Tokenize(s) == Tokenize(s[1..])
  {
  }

  lemma TokenizeOperator(s: string)
    requires s != [] && !IsSpace(s[0]) && !IsDigit(s[0])
    ensures Tokenize(s) == [Op(s[0])] + Tokenize(s[1..])
  {
  }

  lemma TokenizeDigits(s: string)
    requires s != [] && IsDigit(s[0])
    ensures Tokenize(s) == [Num(DecimalValue(s[..DigitRunLength(s)]))] + Tokenize(s[DigitRunLength(s)..])
  {
  }

  /** The scan skips a blank at `i`. */
  lemma ScanSpace(s: string, i: nat, st: Stacks, policy: DivisionPolicy)
    requires i < |s| && IsSpace(s[i])
    ensures Run(st, Tokenize(s[i..]), policy) == Run(st, Tokenize(s[i + 1..]), policy)
  {
    TokenizeSpace(s[i..]);
    assert s[i..][1..] == s[i + 1..];
  }

  /** The scan reads the digit run s[i..j] as one number and pushes it. */
  lemma ScanNumber(s: string, i: nat, j: nat, val: int, st: Stacks, policy: DivisionPolicy)
    requires i < |s| && IsDigit(s[i])
    requires j == i + DigitRunLength(s[i..]) && val == DecimalValue(s[i..j])
    ensures j <= |s|
    ensures Run(st, Tokenize(s[i..]), policy) == Run(Stacks(st.values + [val], st.ops), Tokenize(s[j..]), policy)
  {
    var rest := s[i..];
    TokenizeDigits(rest);
    assert rest[..j - i] == s[i..j];
    assert rest[j - i..] == s[j..];
    RunNum(st, val, Tokenize(s[j..]), policy);
  }

  /** The scan reads any other character at `i` as an operator token. */
  lemma ScanOperator(s: string, i: nat, st: Stacks, policy: DivisionPolicy)
    requires i < |s| && !IsSpace(s[i]) && !IsDigit(s[i])
    ensures var r := Step(st, Op(s[i]), policy);
            Run(st, Tokenize(s[i..]), policy) == if r.Err? then Err(r.error) else Run(r.value, Tokenize(s[i + 1..]), policy)
  {
    var ts := Tokenize(s[i + 1..]);
    TokenizeOperator(s[i..]);
    assert s[i..][1..] == s[i + 1..];
    assert ([Op(s[i])] + ts)[0] == Op(s[i]) && ([Op(s[i])] + ts)[1..] == ts;
  }

  /**
   * An operator in the scan: reduce while the top of the operator stack binds at
   * least as tightly, then push the operator.
   */
  method PushOperator(values: seq<int>, ops: seq<char>, op: char, policy: DivisionPolicy) returns (r: Result<Stacks>)
    requires IncreasingPrecedence(ops)
    ensures r == Step(Stacks(values, ops), Op(op), policy)
    ensures r.Ok? ==> IncreasingPrecedence(r.value.ops)
  {
    var reduced := ReduceLoop(values, ops, Precedence(op), policy);
    if reduced.Err? {
      return Err(reduced.error);
    }
    PushKeepsIncreasing(ops, reduced.value.ops, op);
    r := Ok(Stacks(reduced.value.values, reduced.value.ops + [op]));
  }

  /** A scan that throws makes `evaluate` throw the same error. */
  lemma EvalStops(s: string, policy: DivisionPolicy)
    requires Run(Empty, Tokenize(s), policy).Err?
    ensures Eval(s, policy) == Err(Run(Empty, Tokenize(s), policy).error)
  {
  }

  lemma RunNum(st: Stacks, v: int, ts: seq<Token>, policy: DivisionPolicy)
    ensures Run(st, [Num(v)] + ts, policy) == Run(Stacks(st.values + [v], st.ops), ts, policy)
  {
    assert ([Num(v)] + ts)[0] == Num(v) && ([Num(v)] + ts)[1..] == ts;
  }

  lemma RunOp(st: Stacks, op: char, ts: seq<Token>, policy: DivisionPolicy)
    ensures var r := ReduceWhile(st, Precedence(op), policy);
            Run(st, [Op(op)] + ts, policy) ==
              if r.Err? then Err(r.error) else Run(Stacks(r.value.values, r.value.ops + [op]), ts, policy)
  {
    assert ([Op(op)] + ts)[0] == Op(op) && ([Op(op)] + ts)[1..] == ts;
  }

  /** Pushing an operator after the reductions keeps the operator stack increasing. */
  lemma PushKeepsIncreasing(ops: seq<char>, shorter: seq<char>, op: char)
    requires IncreasingPrecedence(ops) && shorter <= ops
    requires shorter == [] || Precedence(shorter[|shorter| - 1]) < Precedence(op)
    ensures IncreasingPrecedence(shorter + [op])
  {
    assert forall i :: 0 <= i < |shorter| ==> shorter[i] == ops[i];
    var pushed := shorter + [op];
    forall i, j | 0 <= i < j < |pushed|
      ensures Precedence(pushed[i]) < Precedence(pushed[j])
    {
      if j == |shorter| && i < |shorter| - 1 {
        assert Precedence(ops[i]) < Precedence(ops[|shorter| - 1]);
      }
    }
  }

  lemma EvalAfterScan(s: string, st: Stacks, policy: DivisionPolicy)
    requires Run(st, [], policy) == Run(Empty, Tokenize(s), policy)
    ensures Eval(s, policy) == Finish(st, policy)
  {
  }

  /** The digit loop of `evaluate`: accumulate the digit run that starts at `i`. */
  method ReadNumber(s: string, i: nat) returns (val: int, j: nat)
    requires i <= |s|
    ensures j == i + DigitRunLength(s[i..]) && val == DecimalValue(s[i..j])
  {
    j, val := i, 0;
    while j < |s| && IsDigit(s[j])
      invariant i <= j <= |s|
      invariant val == DecimalValue(s[i..j])
      invariant DigitRunLength(s[i..]) == (j - i) + DigitRunLength(s[j..])
    {
      AccumulateDigit(s, i, j);
      val := val * 10 + DigitValue(s[j]);
      j := j + 1;
    }
  }

  /** One more digit: the value grows by one decimal place and the run left to read shrinks by one. */
  lemma AccumulateDigit(s: string, i: nat, j: nat)
    requires i <= j < |s| && IsDigit(s[j])
    ensures DecimalValue(s[i..j + 1]) == DecimalValue(s[i..j]) * 10 + DigitValue(s[j])
    ensures DigitRunLength(s[j..]) == 1 + DigitRunLength(s[j + 1..])
  {
    assert s[i..j + 1][..j - i] == s[i..j];
    assert s[j..][1..] == s[j + 1..];
  }

  /** `evaluate`: one scan over the text with an operand stack and an operator stack. */
  method Evaluate(s: string, policy: DivisionPolicy) returns (r: Result<int>)
    ensures r == Eval(s, policy)
  {
    var values: seq<int> := [];
    var ops: seq<char> := [];
    var i := 0;
    ghost var whole := Run(Empty, Tokenize(s), policy);
    while i < |s|
      invariant 0 <= i <= |s|
      invariant Run(Stacks(values, ops), Tokenize(s[i..]), policy) == whole
      invariant IncreasingPrecedence(ops)
    {
      if IsSpace(s[i]) {
        ScanSpace(s, i, Stacks(values, ops), policy);
        i := i + 1;
      } else if IsDigit(s[i]) {
        var start := i;
        var val;
        val, i := ReadNumber(s, i);
        ScanNumber(s, start, i, val, Stacks(values, ops), policy);
        values := values + [val];
      } else {
        ScanOperator(s, i, Stacks(values, ops), policy);
        var pushed := PushOperator(values, ops, s[i], policy);
        if pushed.Err? {
          EvalStops(s, policy);
          return Err(pushed.error);
        }
        values, ops := pushed.value.values, pushed.value.ops;
        i := i + 1;
      }
    }
    assert s[|s|..] == [];
    EvalAfterScan(s, Stacks(values, ops), policy);
    r := Answer(values, ops, policy);
  }

  /** After the scan: reduce every operator left, then answer the top operand. */
  method Answer(values: seq<int>, ops: seq<char>, policy: DivisionPolicy) returns (r: Result<int>)
    ensures r == Finish(Stacks(values, ops), policy)
  {
    var drained := ReduceLoop(values, ops, 0, policy);
    if drained.Err? {
      return Err(drained.error);
    }
    if drained.value.values == [] {
      return Err(EmptyExpression);
    }
    r := Ok(drained.value.values[|drained.value.values| - 1]);
  }
}
