/**
 * The meaning `evaluate` is meant to have on a well-formed expression
 * n0 op0 n1 op1 ... nk (operators + - * / only, white space anywhere between
 * tokens): the grammar
 *     E ::= E addop T | T        T ::= T mulop n | n
 * that is, `*` and `/` bind tighter than `+` and `-` and equal precedence groups
 * to the left. `Value` reads the grammar off the operator list; the theorem
 * `EvalWellFormed` proves that the stack machine computes it.
 */
module Reference {
  import opened Text
  import opened Evaluator

  /** n0 op0 n1 ... nk: one more number than operators, every operator one of + - * /. */
  predicate WellFormed(nums: seq<int>, ops: seq<char>) {
    |nums| == |ops| + 1 && forall i :: 0 <= i < |ops| ==> IsOperator(ops[i])
  }

  /** The tokens of the prefix n0 op0 ... nk. */
  function Tokens(nums: seq<int>, ops: seq<char>, k: nat): seq<Token>
    requires |nums| == |ops| + 1 && k < |nums|
  {
    if k == 0 then [Num(nums[0])] else Tokens(nums, ops, k - 1) + [Op(ops[k - 1]), Num(nums[k])]
  }

  /** The last `+` or `-` among ops[..k], or -1 when there is none. */
  function LastAdditive(ops: seq<char>, k: nat): (j: int)
    requires k <= |ops|
    ensures -1 <= j < k
    ensures j >= 0 ==> IsAdditive(ops[j])
    ensures forall i :: j < i < k ==> !IsAdditive(ops[i])
  {
    if k == 0 then -1 else if IsAdditive(ops[k - 1]) then k - 1 else LastAdditive(ops, k - 1)
  }

  /** The product nums[lo] op nums[lo + 1] ... nums[hi], grouped to the left. */
  function TermValue(nums: seq<int>, ops: seq<char>, lo: nat, hi: nat): int
    requires WellFormed(nums, ops) && lo <= hi < |nums|
    decreases hi
  {
    if hi == lo then nums[lo]
    else Arith(TermValue(nums, ops, lo, hi - 1), nums[hi], ops[hi - 1])
  }

  /** The value of n0 op0 ... nk by the grammar: the last `+`/`-` splits off the last term. */
  function Value(nums: seq<int>, ops: seq<char>, k: nat): int
    requires WellFormed(nums, ops) && k < |nums|
    decreases k
  {
    var j := LastAdditive(ops, k);
    if j < 0 then TermValue(nums, ops, 0, k)
    else Arith(Value(nums, ops, j), TermValue(nums, ops, j + 1, k), ops[j])
  }

  /** Some `/` among ops[..n] is immediately followed by the literal 0. */
  predicate ZeroDivisorBefore(nums: seq<int>, ops: seq<char>, n: nat)
    requires |nums| == |ops| + 1 && n <= |ops|
  {
    exists i :: 0 <= i < n && ops[i] == '/' && nums[i + 1] == 0
  }

  /**
   * The stacks after the tokens up to nk: the sum of the terms closed so far with
   * its pending `+`/`-`, then the current term's product so far with its pending
   * `*`/`/`, then nk.
   */
  function Pending(nums: seq<int>, ops: seq<char>, k: nat): Stacks
    requires WellFormed(nums, ops) && k < |nums|
  {
    var j := LastAdditive(ops, k);
    var sumValues := if j >= 0 then [Value(nums, ops, j)] else [];
    var sumOps := if j >= 0 then [ops[j]] else [];
    if k > j + 1 then Stacks(sumValues + [TermValue(nums, ops, j + 1, k - 1), nums[k]], sumOps + [ops[k - 1]])
    else Stacks(sumValues + [nums[k]], sumOps)
  }

  /** The stacks once the current term is closed: the pending sum and the term's value. */
  function Closed(nums: seq<int>, ops: seq<char>, k: nat): Stacks
    requires WellFormed(nums, ops) && k < |nums|
  {
    var j := LastAdditive(ops, k);
    var sumValues := if j >= 0 then [Value(nums, ops, j)] else [];
    var sumOps := if j >= 0 then [ops[j]] else [];
    Stacks(sumValues + [TermValue(nums, ops, j + 1, k)], sumOps)
  }

  /** The server throws when the pending `*`/`/` in front of nk is a `/` and nk is 0. */
  predicate FailsAt(nums: seq<int>, ops: seq<char>, k: nat, policy: DivisionPolicy)
    requires |nums| == |ops| + 1 && k < |nums|
  {
    policy == Raise && k >= 1 && ops[k - 1] == '/' && nums[k] == 0
  }

  lemma RunAppend(st: Stacks, a: seq<Token>, b: seq<Token>, policy: DivisionPolicy)
    ensures var r := Run(st, a, policy);
            Run(st, a + b, policy) == if r.Err? then Err(r.error) else Run(r.value, b, policy)
    decreases |a|
  {
    if a == [] {
      assert a + b == b;
    } else {
      assert (a + b)[0] == a[0] && (a + b)[1..] == a[1..] + b;
      var r := Step(st, a[0], policy);
      if r.Ok? {
        RunAppend(r.value, a[1..], b, policy);
      }
    }
  }

  /** Reducing the pending `*`/`/` (if any) closes the current term. */
  lemma {:induction false} CloseTerm(nums: seq<int>, ops: seq<char>, k: nat, p: int, policy: DivisionPolicy)
    requires WellFormed(nums, ops) && k < |nums| && p <= 2
    ensures ReduceWhile(Pending(nums, ops, k), p, policy) ==
              if FailsAt(nums, ops, k, policy) then Err(DivisionByZero)
              else ReduceWhile(Closed(nums, ops, k), p, policy)
  {
    var j := LastAdditive(ops, k);
    var st := Pending(nums, ops, k);
    if k > j + 1 {
      ReduceProduct(nums, ops, k, policy);
    } else {
      assert st == Closed(nums, ops, k);
      assert !FailsAt(nums, ops, k, policy) by {
        if k >= 1 {
          assert j == k - 1;
        }
      }
    }
  }

  /** With a `*`/`/` pending, one reduction applies it to the term so far and nk. */
  lemma ReduceProduct(nums: seq<int>, ops: seq<char>, k: nat, policy: DivisionPolicy)
    requires WellFormed(nums, ops) && k < |nums| && k > LastAdditive(ops, k) + 1
    ensures var st := Pending(nums, ops, k);
            st.ops != [] && Precedence(st.ops[|st.ops| - 1]) == 2 &&
            ReduceTop(st, policy) == if FailsAt(nums, ops, k, policy) then Err(DivisionByZero) else Ok(Closed(nums, ops, k))
  {
    var j := LastAdditive(ops, k);
    var st := Pending(nums, ops, k);
    var sumValues := if j >= 0 then [Value(nums, ops, j)] else [];
    var sumOps := if j >= 0 then [ops[j]] else [];
    var t := TermValue(nums, ops, j + 1, k - 1);
    assert !IsAdditive(ops[k - 1]);
    assert Precedence(st.ops[|st.ops| - 1]) == 2;
    assert st.values[..|st.values| - 2] == sumValues;
    assert st.ops[..|st.ops| - 1] == sumOps;
    var applied := ApplyOp(t, nums[k], ops[k - 1], policy);
    if FailsAt(nums, ops, k, policy) {
      assert applied == Err(DivisionByZero);
    } else {
      assert applied == Ok(TermValue(nums, ops, j + 1, k));
      assert ReduceTop(st, policy) == Ok(Closed(nums, ops, k));
    }
  }

  /** Before a `*` or `/` nothing beyond the current term is reduced. */
  lemma ClosedBeforeProduct(nums: seq<int>, ops: seq<char>, k: nat, policy: DivisionPolicy)
    requires WellFormed(nums, ops) && k < |nums|
    ensures ReduceWhile(Closed(nums, ops, k), 2, policy) == Ok(Closed(nums, ops, k))
  {
  }

  /** Before a `+`, `-` or the end, the pending sum is reduced too: only the value is left. */
  lemma {:induction false} ClosedBeforeSum(nums: seq<int>, ops: seq<char>, k: nat, p: int, policy: DivisionPolicy)
    requires WellFormed(nums, ops) && k < |nums| && p <= 1
    ensures ReduceWhile(Closed(nums, ops, k), p, policy) == Ok(Stacks([Value(nums, ops, k)], []))
  {
    var j := LastAdditive(ops, k);
    var st := Closed(nums, ops, k);
    if j >= 0 {
      assert Precedence(ops[j]) == 1;
      var applied := ApplyOp(Value(nums, ops, j), TermValue(nums, ops, j + 1, k), ops[j], policy);
      assert applied == Ok(Value(nums, ops, k));
      assert st.values[..0] == [];
      assert ReduceTop(st, policy) == Ok(Stacks([Value(nums, ops, k)], []));
      assert ReduceWhile(Stacks([Value(nums, ops, k)], []), p, policy) == Ok(Stacks([Value(nums, ops, k)], []));
    } else {
      assert st == Stacks([Value(nums, ops, k)], []);
    }
  }

  /** Reading the operator in front of nk+1 and then nk+1 moves from `Pending(k)` to `Pending(k + 1)`. */
  lemma {:induction false} StepPending(nums: seq<int>, ops: seq<char>, m: nat, policy: DivisionPolicy)
    requires WellFormed(nums, ops) && m + 1 < |nums|
    ensures Run(Pending(nums, ops, m), [Op(ops[m]), Num(nums[m + 1])], policy) ==
              if FailsAt(nums, ops, m, policy) then Err(DivisionByZero) else Ok(Pending(nums, ops, m + 1))
  {
    var k := m + 1;
    var st := Pending(nums, ops, m);
    assert [Op(ops[m]), Num(nums[k])] == [Op(ops[m])] + [Num(nums[k])];
    RunOp(st, ops[m], [Num(nums[k])], policy);
    CloseTerm(nums, ops, m, Precedence(ops[m]), policy);
    if !FailsAt(nums, ops, m, policy) {
      var reduced := ReduceBeforeOp(nums, ops, m, policy);
      var pushed := Stacks(reduced.values, reduced.ops + [ops[m]]);
      RunNum(pushed, nums[k], [], policy);
      assert [Num(nums[k])] + [] == [Num(nums[k])];
    }
  }

  /**
   * The reductions that the operator in front of nk+1 triggers leave the stacks
   * that, with the operator and nk+1 pushed, are `Pending(k + 1)`.
   */
  lemma ReduceBeforeOp(nums: seq<int>, ops: seq<char>, m: nat, policy: DivisionPolicy) returns (reduced: Stacks)
    requires WellFormed(nums, ops) && m + 1 < |nums|
    ensures ReduceWhile(Closed(nums, ops, m), Precedence(ops[m]), policy) == Ok(reduced)
    ensures Pending(nums, ops, m + 1) == Stacks(reduced.values + [nums[m + 1]], reduced.ops + [ops[m]])
  {
    var k := m + 1;
    var j := LastAdditive(ops, m);
    if IsAdditive(ops[m]) {
      ClosedBeforeSum(nums, ops, m, 1, policy);
      reduced := Stacks([Value(nums, ops, m)], []);
      assert LastAdditive(ops, k) == m;
    } else {
      ClosedBeforeProduct(nums, ops, m, policy);
      reduced := Closed(nums, ops, m);
      assert LastAdditive(ops, k) == j;
    }
  }

  lemma ZeroDivisorStep(nums: seq<int>, ops: seq<char>, m: nat)
    requires |nums| == |ops| + 1 && m < |nums| && m <= |ops|
    ensures ZeroDivisorBefore(nums, ops, m) <==>
            ZeroDivisorBefore(nums, ops, if m == 0 then 0 else m - 1) || FailsAt(nums, ops, m, Raise)
  {
    if m > 0 && ZeroDivisorBefore(nums, ops, m) {
      var i :| 0 <= i < m && ops[i] == '/' && nums[i + 1] == 0;
      if i < m - 1 {
        assert ZeroDivisorBefore(nums, ops, m - 1);
      }
    }
  }

  /** Prefix by prefix, the stack machine holds exactly `Pending`, or has thrown. */
  lemma {:induction false} RunTokens(nums: seq<int>, ops: seq<char>, k: nat, policy: DivisionPolicy)
    requires WellFormed(nums, ops) && k < |nums|
    ensures Run(Empty, Tokens(nums, ops, k), policy) ==
              if policy == Raise && ZeroDivisorBefore(nums, ops, if k == 0 then 0 else k - 1) then Err(DivisionByZero)
              else Ok(Pending(nums, ops, k))
  {
    if k == 0 {
      RunNum(Empty, nums[0], [], policy);
      assert [Num(nums[0])] + [] == [Num(nums[0])];
    } else {
      var m := k - 1;
      RunTokens(nums, ops, m, policy);
      var tail := [Op(ops[m]), Num(nums[k])];
      RunAppend(Empty, Tokens(nums, ops, m), tail, policy);
      ZeroDivisorStep(nums, ops, m);
      if Run(Empty, Tokens(nums, ops, m), policy).Ok? {
        StepPending(nums, ops, m, policy);
      }
    }
  }

  /**
   * On a well-formed expression, in any spacing, `evaluate` computes `Value`: the
   * precedence-respecting, left-grouping value. The server throws exactly when some
   * `/` is followed by the literal 0; the client never throws there.
   */
  lemma EvalWellFormed(s: string, nums: seq<int>, ops: seq<char>, policy: DivisionPolicy)
    requires WellFormed(nums, ops) && Tokenize(s) == Tokens(nums, ops, |ops|)
    ensures Eval(s, policy) ==
              if policy == Raise && ZeroDivisorBefore(nums, ops, |ops|) then Err(DivisionByZero)
              else Ok(Value(nums, ops, |ops|))
  {
    var k := |ops|;
    RunTokens(nums, ops, k, policy);
    var before := if k == 0 then 0 else k - 1;
    ZeroDivisorStep(nums, ops, k);
    if !(policy == Raise && ZeroDivisorBefore(nums, ops, before)) {
      CloseTerm(nums, ops, k, 0, policy);
      if !FailsAt(nums, ops, k, policy) {
        ClosedBeforeSum(nums, ops, k, 0, policy);
      }
    }
  }
}
