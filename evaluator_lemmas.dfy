/**
 * Properties of the evaluator that hold on every input, well-formed or not: the
 * client's copy agrees with the server's wherever the server does not divide by
 * zero, the operator stack keeps one operator per precedence level, and an input
 * without operands fails.
 */
module EvaluatorLemmas {
  import opened Text
  import opened Evaluator

  /** The client's `apply_op` differs from the server's only for `/` by zero, where it yields 0. */
  lemma ClientApplyOp(a: int, b: int, op: char)
    ensures ApplyOp(a, b, op, YieldZero) ==
              if op == '/' && b == 0 then Ok(0) else ApplyOp(a, b, op, Raise)
  {
  }

  lemma {:induction false} ReduceWhileAgrees(st: Stacks, p: int)
    requires ReduceWhile(st, p, Raise) != Err(DivisionByZero)
    ensures ReduceWhile(st, p, YieldZero) == ReduceWhile(st, p, Raise)
    decreases |st.ops|
  {
    if st.ops != [] && Precedence(st.ops[|st.ops| - 1]) >= p {
      var r := ReduceTop(st, Raise);
      assert ReduceTop(st, YieldZero) == r;
      if r.Ok? {
        ReduceWhileAgrees(r.value, p);
      }
    }
  }

  lemma {:induction false} RunAgrees(st: Stacks, ts: seq<Token>)
    requires Run(st, ts, Raise) != Err(DivisionByZero)
    ensures Run(st, ts, YieldZero) == Run(st, ts, Raise)
    decreases |ts|
  {
    if ts != [] {
      var t := ts[0];
      if t.Op? {
        ReduceWhileAgrees(st, Precedence(t.op));
      }
      assert Step(st, t, YieldZero) == Step(st, t, Raise);
      var r := Step(st, t, Raise);
      if r.Ok? {
        RunAgrees(r.value, ts[1..]);
      }
    }
  }

  /**
   * The client's `evaluate` returns what the server's returns, and fails the same
   * way, on every input on which the server does not throw "Division by zero".
   */
  lemma ClientAgreesWithServer(s: string)
    requires Eval(s, Raise) != Err(DivisionByZero)
    ensures Eval(s, YieldZero) == Eval(s, Raise)
  {
    var r := Run(Empty, Tokenize(s), Raise);
    RunAgrees(Empty, Tokenize(s));
    if r.Ok? {
      ReduceWhileAgrees(r.value, 0);
    }
  }

  lemma {:induction false} ReduceWhileLowersTop(st: Stacks, p: int, policy: DivisionPolicy)
    requires ReduceWhile(st, p, policy).Ok?
    ensures var ops := ReduceWhile(st, p, policy).value.ops;
            ops <= st.ops && (ops == [] || Precedence(ops[|ops| - 1]) < p)
    decreases |st.ops|
  {
    if st.ops != [] && Precedence(st.ops[|st.ops| - 1]) >= p {
      var r := ReduceTop(st, policy);
      ReduceWhileLowersTop(r.value, p, policy);
    }
  }

  /**
   * Every push keeps the operator stack strictly increasing in precedence from
   * bottom to top: an operator is pushed only once every operator of equal or
   * higher precedence has been reduced.
   */
  lemma {:induction false} OperatorStackIncreasing(st: Stacks, ts: seq<Token>, policy: DivisionPolicy)
    requires IncreasingPrecedence(st.ops) && Run(st, ts, policy).Ok?
    ensures IncreasingPrecedence(Run(st, ts, policy).value.ops)
    decreases |ts|
  {
    if ts != [] {
      var r := Step(st, ts[0], policy);
      if ts[0].Op? {
        var c := ts[0].op;
        ReduceWhileLowersTop(st, Precedence(c), policy);
        var kept := ReduceWhile(st, Precedence(c), policy).value.ops;
        PushKeepsIncreasing(st.ops, kept, c);
      }
      OperatorStackIncreasing(r.value, ts[1..], policy);
    }
  }

  lemma {:induction false} LevelAtLeastDepth(ops: seq<char>, i: nat)
    requires IncreasingPrecedence(ops) && i < |ops|
    ensures Precedence(ops[i]) >= i
  {
    if i > 0 {
      LevelAtLeastDepth(ops, i - 1);
    }
  }

  /** An increasing stack holds at most one operator per precedence level 0, 1, 2. */
  lemma AtMostOnePerLevel(ops: seq<char>)
    requires IncreasingPrecedence(ops)
    ensures |ops| <= 3
  {
    if |ops| > 3 {
      LevelAtLeastDepth(ops, 3);
    }
  }

  lemma {:induction false} TokenizeBlank(s: string)
    requires forall i :: 0 <= i < |s| ==> IsSpace(s[i])
    ensures Tokenize(s) == []
    decreases |s|
  {
    if s != [] {
      TokenizeBlank(s[1..]);
    }
  }

  /** Empty or all-white-space input: no operand is read, "Empty expression" is thrown. */
  lemma BlankIsEmptyExpression(s: string, policy: DivisionPolicy)
    requires forall i :: 0 <= i < |s| ==> IsSpace(s[i])
    ensures Eval(s, policy) == Err(EmptyExpression)
  {
    TokenizeBlank(s);
  }

  lemma {:induction false} OperatorsOnlyRun(ops: seq<char>, ts: seq<Token>, policy: DivisionPolicy)
    requires forall i :: 0 <= i < |ts| ==> ts[i].Op?
    ensures var r := Run(Stacks([], ops), ts, policy);
            r == Err(StackUnderflow) || (r.Ok? && r.value.values == [] && (ts != [] ==> r.value.ops != []))
    decreases |ts|
  {
    if ts != [] {
      var c := ts[0].op;
      var st := Stacks([], ops);
      if ops != [] && Precedence(ops[|ops| - 1]) >= Precedence(c) {
        assert ReduceWhile(st, Precedence(c), policy) == Err(StackUnderflow);
      } else {
        var next := Stacks([], ops + [c]);
        assert Step(st, ts[0], policy) == Ok(next);
        OperatorsOnlyRun(ops + [c], ts[1..], policy);
      }
    }
  }

  /**
   * Operators without any operand: the first reduction pops an empty operand stack.
   * In C++ that is undefined behaviour; the model reports `StackUnderflow`.
   */
  lemma OperatorsOnlyUnderflow(s: string, policy: DivisionPolicy)
    requires Tokenize(s) != [] && forall i :: 0 <= i < |Tokenize(s)| ==> Tokenize(s)[i].Op?
    ensures Eval(s, policy) == Err(StackUnderflow)
  {
    OperatorsOnlyRun([], Tokenize(s), policy);
    var r := Run(Empty, Tokenize(s), policy);
    if r.Ok? {
      var ops := r.value.ops;
      assert Precedence(ops[|ops| - 1]) >= 0;
      assert ReduceWhile(r.value, 0, policy) == Err(StackUnderflow);
    }
  }

  /** Every operator on the stack is one of `+ - * /`. */
  predicate KnownOperators(ops: seq<char>) {
    forall i :: 0 <= i < |ops| ==> IsOperator(ops[i])
  }

  /** A reduction that succeeds never pops an unknown operator: `apply_op` throws on it. */
  lemma {:induction false} ReduceWhileKeepsUnknown(st: Stacks, p: int, policy: DivisionPolicy)
    requires !KnownOperators(st.ops) && ReduceWhile(st, p, policy).Ok?
    ensures !KnownOperators(ReduceWhile(st, p, policy).value.ops)
    decreases |st.ops|
  {
    if st.ops != [] && Precedence(st.ops[|st.ops| - 1]) >= p {
      var r := ReduceTop(st, policy);
      var n := |st.ops|;
      assert IsOperator(st.ops[n - 1]);
      assert r.value.ops == st.ops[..n - 1];
      assert !KnownOperators(r.value.ops) by {
        var i :| 0 <= i < n && !IsOperator(st.ops[i]);
        assert st.ops[..n - 1][i] == st.ops[i];
      }
      ReduceWhileKeepsUnknown(r.value, p, policy);
    }
  }

  /** Once an unknown operator is on the stack, a scan that goes on succeeding keeps one there. */
  lemma {:induction false} RunKeepsUnknown(st: Stacks, ts: seq<Token>, policy: DivisionPolicy)
    requires !KnownOperators(st.ops) && Run(st, ts, policy).Ok?
    ensures !KnownOperators(Run(st, ts, policy).value.ops)
    decreases |ts|
  {
    if ts != [] {
      var r := Step(st, ts[0], policy);
      if ts[0].Op? {
        ReduceWhileKeepsUnknown(st, Precedence(ts[0].op), policy);
        var kept := ReduceWhile(st, Precedence(ts[0].op), policy).value.ops;
        assert !KnownOperators(r.value.ops) by {
          var i :| 0 <= i < |kept| && !IsOperator(kept[i]);
          assert r.value.ops[i] == kept[i];
        }
      }
      RunKeepsUnknown(r.value, ts[1..], policy);
    }
  }

  /** A scan whose tokens hold an unknown operator either throws or leaves one on the stack. */
  lemma {:induction false} RunMeetsUnknown(st: Stacks, ts: seq<Token>, j: nat, policy: DivisionPolicy)
    requires j < |ts| && ts[j].Op? && !IsOperator(ts[j].op)
    ensures Run(st, ts, policy).Ok? ==> !KnownOperators(Run(st, ts, policy).value.ops)
    decreases |ts|
  {
    var r := Step(st, ts[0], policy);
    if r.Ok? {
      if j == 0 {
        assert r.value.ops[|r.value.ops| - 1] == ts[0].op;
        if Run(r.value, ts[1..], policy).Ok? {
          RunKeepsUnknown(r.value, ts[1..], policy);
        }
      } else {
        RunMeetsUnknown(r.value, ts[1..], j - 1, policy);
      }
    }
  }

  /** The final drain fails when an unknown operator is left: it must pop every operator. */
  lemma FinishUnknown(st: Stacks, policy: DivisionPolicy)
    requires !KnownOperators(st.ops)
    ensures Finish(st, policy).Err?
  {
    var r := ReduceWhile(st, 0, policy);
    if r.Ok? {
      ReduceWhileKeepsUnknown(st, 0, policy);
      ReduceWhileLowersTop(st, 0, policy);
    }
  }

  /** Past a digit run: the operator tokens after it are operator tokens of `s`. */
  lemma SkipDigitRun(s: string, i: nat)
    requires i < |s| && IsDigit(s[0]) && !IsDigit(s[i])
    ensures var n := DigitRunLength(s);
            0 < n <= i && s[n..][i - n] == s[i] &&
            (Op(s[i]) in Tokenize(s[n..]) ==> Op(s[i]) in Tokenize(s))
  {
    TokenizeDigits(s);
  }

  /** Past one character that is not a digit: the tokens after it are tokens of `s`. */
  lemma SkipOne(s: string, i: nat)
    requires 0 < i < |s| && !IsDigit(s[0])
    ensures s[1..][i - 1] == s[i]
    ensures Op(s[i]) in Tokenize(s[1..]) ==> Op(s[i]) in Tokenize(s)
  {
    if IsSpace(s[0]) {
      TokenizeSpace(s);
    } else {
      TokenizeOperator(s);
    }
  }

  /** A character that is neither white space nor a digit becomes an operator token. */
  lemma {:induction false} TokenizeUnknown(s: string, i: nat)
    requires i < |s| && !IsSpace(s[i]) && !IsDigit(s[i])
    ensures Op(s[i]) in Tokenize(s)
    decreases |s|
  {
    if IsDigit(s[0]) {
      SkipDigitRun(s, i);
      var n := DigitRunLength(s);
      TokenizeUnknown(s[n..], i - n);
    } else if i > 0 {
      SkipOne(s, i);
      TokenizeUnknown(s[1..], i - 1);
    } else {
      TokenizeOperator(s);
    }
  }

  /**
   * `evaluate` fails on every text holding a character that is not white space, not
   * a digit and not one of `+ - * /`: the scan takes it as an operator, and sooner
   * or later, in the final drain at the latest, `apply_op` throws on it.
   */
  lemma UnknownCharacterFails(s: string, i: nat, policy: DivisionPolicy)
    requires i < |s| && !IsSpace(s[i]) && !IsDigit(s[i]) && !IsOperator(s[i])
    ensures Eval(s, policy).Err?
  {
    TokenizeUnknown(s, i);
    var j :| 0 <= j < |Tokenize(s)| && Tokenize(s)[j] == Op(s[i]);
    RunMeetsUnknown(Empty, Tokenize(s), j, policy);
    var r := Run(Empty, Tokenize(s), policy);
    if r.Ok? {
      FinishUnknown(r.value, policy);
    }
  }
}
