/**
 * The client's test data: `build_expression` writes n random numbers from 1 to 10
 * separated by random operators from + - * and /, and the message `expr + ' '` is cut
 * into random non-empty fragments that are sent one after another. The random
 * draws are parameters: `numDraws` and `opDraws` are what the two
 * `uniform_int_distribution`s return, `lens` the fragment lengths.
 */
module Generator {
  import opened Text
  import opened Evaluator
  import opened Reference

  /** The operator table `ops[4]` of `build_expression`, indexed by a draw from 0 to 3. */
  const OpChars: string := "+-*/"

  /** The operators for the draws `d`. */
  function OpsOf(d: seq<nat>): (ops: seq<char>)
    requires forall i :: 0 <= i < |d| ==> d[i] < 4
    ensures |ops| == |d| && forall i :: 0 <= i < |d| ==> IsOperator(ops[i])
  {
    seq(|d|, i requires 0 <= i < |d| => OpChars[d[i]])
  }

  /** The text n0 op0 n1 ... nk, each number in decimal with no sign and no leading zero. */
  function Render(nums: seq<nat>, ops: seq<char>, k: nat): string
    requires |nums| == |ops| + 1 && k < |nums|
  {
    if k == 0 then DecimalString(nums[0])
    else Render(nums, ops, k - 1) + [ops[k - 1]] + DecimalString(nums[k])
  }

  /** Every draw is one `dist_num(rng)`: a number from 1 to 10. */
  predicate NumberDraws(d: seq<nat>) {
    forall i :: 0 <= i < |d| ==> 1 <= d[i] <= 10
  }

  /** Every draw is one `dist_op(rng)`: an index from 0 to 3. */
  predicate OperatorDraws(d: seq<nat>) {
    forall i :: 0 <= i < |d| ==> d[i] < 4
  }

  /**
   * `build_expression(n, rng)`: for i from 0 below n, the i-th number, then an
   * operator unless it was the last number. With n <= 0 the result is empty.
   */
  method BuildExpression(n: int, numDraws: seq<nat>, opDraws: seq<nat>) returns (s: string)
    requires NumberDraws(numDraws) && OperatorDraws(opDraws)
    requires n <= |numDraws| && n - 1 <= |opDraws|
    ensures n <= 0 ==> s == []
    ensures n >= 1 ==> s == Render(numDraws[..n], OpsOf(opDraws[..n - 1]), n - 1)
  {
    s := [];
    if n <= 0 {
      return;
    }
    ghost var nums := numDraws[..n];
    ghost var ops := OpsOf(opDraws[..n - 1]);
    var i := 0;
    while i < n
      invariant 0 <= i <= n
      invariant i == 0 ==> s == []
      invariant 0 < i < n ==> s == Render(nums, ops, i - 1) + [ops[i - 1]]
      invariant i == n ==> s == Render(nums, ops, n - 1)
    {
      s := s + DecimalString(numDraws[i]);
      assert s == Render(nums, ops, i);
      if i + 1 < n {
        s := s + [OpChars[opDraws[i]]];
      }
      i := i + 1;
    }
  }

  /** Concatenation of fragments, in order. */
  function Concat(fs: seq<string>): string {
    if fs == [] then [] else Concat(fs[..|fs| - 1]) + fs[|fs| - 1]
  }

  function Sum(lens: seq<nat>): nat {
    if lens == [] then 0 else Sum(lens[..|lens| - 1]) + lens[|lens| - 1]
  }

  /**
   * The lengths `uniform_int_distribution(1, max_len)` can draw while cutting a
   * message of `total` bytes: each at least 1, together exactly `total` (each is
   * then at most what is left of the message).
   */
  predicate Cuts(lens: seq<nat>, total: nat) {
    (forall i :: 0 <= i < |lens| ==> lens[i] >= 1) && Sum(lens) == total
  }

  /** Sum of a prefix, one more length at a time. */
  lemma SumStep(lens: seq<nat>, i: nat)
    requires i < |lens|
    ensures Sum(lens[..i + 1]) == Sum(lens[..i]) + lens[i]
  {
    assert lens[..i + 1][..i] == lens[..i];
  }

  /** With every length at least 1, each length still to come adds at least 1. */
  lemma {:induction false} SumPrefixBound(lens: seq<nat>, i: nat)
    requires forall j :: 0 <= j < |lens| ==> lens[j] >= 1
    requires i <= |lens|
    ensures Sum(lens[..i]) + (|lens| - i) <= Sum(lens)
    decreases |lens| - i
  {
    if i == |lens| {
      assert lens[..i] == lens;
    } else {
      SumPrefixBound(lens, i + 1);
      SumStep(lens, i);
    }
  }

  /** The consecutive pieces of `msg` with the lengths `lens`, in order. */
  function FragmentsOf(msg: string, lens: seq<nat>): seq<string>
    requires Cuts(lens, |msg|)
    decreases |lens|
  {
    if lens == [] then []
    else
      var init, last := lens[..|lens| - 1], lens[|lens| - 1];
      FragmentsOf(msg[..|msg| - last], init) + [msg[|msg| - last..]]
  }

  /**
   * The pieces have the drawn lengths, so none is empty, and together they are
   * the message.
   */
  lemma {:induction false} FragmentsCover(msg: string, lens: seq<nat>)
    requires Cuts(lens, |msg|)
    ensures var frags := FragmentsOf(msg, lens);
            |frags| == |lens| &&
            (forall i :: 0 <= i < |frags| ==> |frags[i]| == lens[i] > 0) &&
            Concat(frags) == msg
    decreases |lens|
  {
    if lens != [] {
      var init, last := lens[..|lens| - 1], lens[|lens| - 1];
      var head := msg[..|msg| - last];
      FragmentsCover(head, init);
      var frags := FragmentsOf(msg, lens);
      assert frags[..|frags| - 1] == FragmentsOf(head, init);
      assert head + msg[|msg| - last..] == msg;
    }
  }

  /** A prefix of the lengths cuts the prefix of the message it covers. */
  lemma CutsPrefix(lens: seq<nat>, total: nat, i: nat)
    requires Cuts(lens, total) && i <= |lens|
    ensures Sum(lens[..i]) <= total && Cuts(lens[..i], Sum(lens[..i]))
  {
    SumPrefixBound(lens, i);
    assert forall j :: 0 <= j < i ==> lens[..i][j] == lens[j];
  }

  /**
   * The fragmentation loop of the client's set-up: from position 0, cut the next
   * `len` bytes off the message until it is used up.
   */
  method Fragment(msg: string, lens: seq<nat>) returns (frags: seq<string>)
    requires Cuts(lens, |msg|)
    ensures frags == FragmentsOf(msg, lens)
  {
    frags := [];
    var pos := 0;
    var i := 0;
    while pos < |msg|
      invariant 0 <= i <= |lens| && pos == Sum(lens[..i]) && pos <= |msg|
      invariant Cuts(lens[..i], pos) && frags == FragmentsOf(msg[..pos], lens[..i])
      invariant i == |lens| ==> pos == |msg|
      decreases |msg| - pos
    {
      SumStep(lens, i);
      SumPrefixBound(lens, i + 1);
      CutsPrefix(lens, |msg|, i + 1);
      var len := lens[i];
      var frag := msg[pos..pos + len];
      assert lens[..i + 1][..i] == lens[..i] && lens[..i + 1][i] == len;
      assert msg[..pos + len][..pos] == msg[..pos] && msg[..pos + len][pos..] == frag;
      if i + 1 == |lens| {
        assert lens[..i + 1] == lens;
      }
      frags := frags + [frag];
      pos := pos + len;
      i := i + 1;
    }
    SumPrefixBound(lens, i);
    assert msg[..pos] == msg && lens[..i] == lens;
  }

  /**
   * Scanning splits where a digit run ends: text that does not end inside a
   * number scans as its own tokens followed by those of what comes after it.
   */
  lemma {:induction false} TokenizeAppend(a: string, b: string)
    requires a == [] || b == [] || !IsDigit(a[|a| - 1]) || !IsDigit(b[0])
    ensures Tokenize(a + b) == Tokenize(a) + Tokenize(b)
    decreases |a|, 1
  {
    if a == [] {
      assert a + b == b;
    } else if IsDigit(a[0]) {
      TokenizeAppendNumber(a, b);
    } else {
      TokenizeAppendSingle(a, b);
    }
  }

  /** `TokenizeAppend` when `a` starts with white space or an operator character. */
  lemma {:induction false} TokenizeAppendSingle(a: string, b: string)
    requires a != [] && !IsDigit(a[0])
    requires b == [] || !IsDigit(a[|a| - 1]) || !IsDigit(b[0])
    ensures Tokenize(a + b) == Tokenize(a) + Tokenize(b)
    decreases |a|, 0
  {
    var t := a[1..];
    assert t == [] || t[|t| - 1] == a[|a| - 1];
    TokenizeAppend(t, b);
    if IsSpace(a[0]) {
      PrependSpace(a, b);
    } else {
      PrependOperator(a, b);
    }
  }

  /** A leading blank adds no token, on either side of the split. */
  lemma PrependSpace(a: string, b: string)
    requires a != [] && IsSpace(a[0])
    requires Tokenize(a[1..] + b) == Tokenize(a[1..]) + Tokenize(b)
    ensures Tokenize(a + b) == Tokenize(a) + Tokenize(b)
  {
    DropFirst(a, b);
    TokenizeSpace(a);
    TokenizeSpace(a + b);
  }

  /** A leading operator character is one token, on either side of the split. */
  lemma PrependOperator(a: string, b: string)
    requires a != [] && !IsSpace(a[0]) && !IsDigit(a[0])
    requires Tokenize(a[1..] + b) == Tokenize(a[1..]) + Tokenize(b)
    ensures Tokenize(a + b) == Tokenize(a) + Tokenize(b)
  {
    var t, head := a[1..], [Op(a[0])];
    DropFirst(a, b);
    TokenizeOperator(a);
    TokenizeOperator(a + b);
    TokensAssoc(head, Tokenize(t), Tokenize(b));
  }

  lemma DropFirst(a: string, b: string)
    requires a != []
    ensures (a + b)[0] == a[0] && (a + b)[1..] == a[1..] + b
  {
  }

  lemma TokensAssoc(x: seq<Token>, y: seq<Token>, z: seq<Token>)
    ensures x + (y + z) == (x + y) + z
  {
  }

  /** `TokenizeAppend` when `a` starts with a number: its digit run stays whole. */
  lemma {:induction false} TokenizeAppendNumber(a: string, b: string)
    requires a != [] && IsDigit(a[0])
    requires b == [] || !IsDigit(a[|a| - 1]) || !IsDigit(b[0])
    ensures Tokenize(a + b) == Tokenize(a) + Tokenize(b)
    decreases |a|, 0
  {
    var rest := a[DigitRunLength(a)..];
    assert rest == [] || rest[|rest| - 1] == a[|a| - 1];
    TokenizeAppend(rest, b);
    PrependNumber(a, b);
  }

  /** A leading digit run is one number token, on either side of the split. */
  lemma PrependNumber(a: string, b: string)
    requires a != [] && IsDigit(a[0])
    requires b == [] || !IsDigit(a[|a| - 1]) || !IsDigit(b[0])
    requires Tokenize(a[DigitRunLength(a)..] + b) == Tokenize(a[DigitRunLength(a)..]) + Tokenize(b)
    ensures Tokenize(a + b) == Tokenize(a) + Tokenize(b)
  {
    var n := DigitRunLength(a);
    var d, rest := a[..n], a[n..];
    CutAppend(a, b, n);
    assert rest + b == [] || !IsDigit((rest + b)[0]) by {
      if rest == [] {
        assert a == d && a[|a| - 1] == d[n - 1];
      } else {
        assert (rest + b)[0] == a[n];
      }
    }
    DigitRunConcat(d, rest + b);
    TokenizeDigits(a);
    TokenizeDigits(a + b);
    TokensAssoc([Num(DecimalValue(d))], Tokenize(rest), Tokenize(b));
  }

  lemma CutAppend(a: string, b: string, n: nat)
    requires n <= |a|
    ensures a == a[..n] + a[n..] && a + b == a[..n] + (a[n..] + b)
    ensures (a + b)[..n] == a[..n] && (a + b)[n..] == a[n..] + b
  {
  }

  /** A number written by `DecimalString` scans back as that number. */
  lemma DecimalTokens(v: nat)
    ensures Tokenize(DecimalString(v)) == [Num(v)]
  {
    var d := DecimalString(v);
    DigitRunOfDigits(d);
    DecimalRoundTrip(v);
    assert d[..|d|] == d && d[|d|..] == [];
  }

  /** The generated text scans as exactly the tokens n0 op0 n1 ... nk. */
  lemma {:induction false} RenderTokens(nums: seq<nat>, ops: seq<char>, k: nat)
    requires |nums| == |ops| + 1 && k < |nums|
    requires forall i :: 0 <= i < |ops| ==> IsOperator(ops[i])
    ensures Tokenize(Render(nums, ops, k)) == Tokens(nums, ops, k)
    ensures Render(nums, ops, k) != [] && IsDigit(Render(nums, ops, k)[|Render(nums, ops, k)| - 1])
    ensures NoSpace(Render(nums, ops, k))
  {
    var ds := DecimalString(nums[k]);
    DecimalTokens(nums[k]);
    IntToStringNoSpace(nums[k]);
    if k > 0 {
      RenderTokens(nums, ops, k - 1);
      var head := Render(nums, ops, k - 1);
      var op := ops[k - 1];
      assert Render(nums, ops, k) == head + ([op] + ds);
      ScanOperatorNumber(head, op, nums[k]);
      assert ' ' !in [op] + ds;
    }
  }

  /** Text ending in a digit, then an operator and a number, scans as its tokens, the operator and the number. */
  lemma ScanOperatorNumber(head: string, op: char, v: nat)
    requires head != [] && IsDigit(head[|head| - 1]) && IsOperator(op)
    ensures Tokenize(head + ([op] + DecimalString(v))) == Tokenize(head) + [Op(op), Num(v)]
  {
    var ds := DecimalString(v);
    var tail := [op] + ds;
    assert !IsDigit(op) && !IsSpace(op);
    assert tail[0] == op && [op][0] == op;
    DecimalTokens(v);
    TokenizeAppend([op], ds);
    assert Tokenize([op]) == [Op(op)] by {
      assert [op][1..] == [];
    }
    assert Tokenize(tail) == [Op(op), Num(v)];
    TokenizeAppend(head, tail);
  }

  /**
   * Every expression the client generates evaluates, on either side, to its value
   * by the grammar: no number is 0, so no division by zero can happen.
   */
  lemma GeneratedValue(nums: seq<nat>, ops: seq<char>, policy: DivisionPolicy)
    requires NumberDraws(nums) && |nums| == |ops| + 1
    requires forall i :: 0 <= i < |ops| ==> IsOperator(ops[i])
    ensures Eval(Render(nums, ops, |ops|), policy) == Ok(Value(nums, ops, |ops|))
  {
    RenderTokens(nums, ops, |ops|);
    EvalWellFormed(Render(nums, ops, |ops|), nums, ops, policy);
    assert !ZeroDivisorBefore(nums, ops, |ops|) by {
      forall i | 0 <= i < |ops|
        ensures ops[i] != '/' || nums[i + 1] != 0
      {
      }
    }
  }

  /** With n <= 0 the expression is empty, and the client's own `evaluate` throws on it. */
  lemma EmptyExpressionThrows()
    ensures Eval([], YieldZero) == Err(EmptyExpression)
  {
  }
}
