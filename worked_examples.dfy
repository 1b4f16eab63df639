/**
 * Worked instances of the general theorems: the values the evaluator gives
 * for a few fixed expressions, and the replies the server queues for a few
 * fixed byte streams.
 */
module Examples {
  import opened Text
  import opened Evaluator
  import opened Reference
  import opened Generator
  import opened Framing
  import opened TcpServer

  /** `*` binds tighter than `+`: 2 + (3 * 4). */
  lemma ProductFirst()
    ensures Eval("2+3*4", Raise) == Ok(14)
  {
    var nums: seq<nat>, ops := [2, 3, 4], "+*";
    assert Render(nums, ops, 2) == "2+3*4";
    GeneratedValue(nums, ops, Raise);
  }

  /** Equal precedence groups to the left: (8 - 3) - 2. */
  lemma LeftToRight()
    ensures Eval("8-3-2", Raise) == Ok(3)
  {
    var nums: seq<nat>, ops := [8, 3, 2], "--";
    assert Render(nums, ops, 2) == "8-3-2";
    GeneratedValue(nums, ops, Raise);
  }

  /** The server throws on a zero divisor; the client's copy gives 0 instead. */
  lemma ZeroDivisor()
    ensures Eval("5/0", Raise) == Err(DivisionByZero)
    ensures Eval("5/0", YieldZero) == Ok(0)
  {
    ZeroDivisorRaise();
    ZeroDivisorYield();
  }

  lemma ZeroDivisorRaise()
    ensures Eval("5/0", Raise) == Err(DivisionByZero)
  {
    var nums, ops := FiveOverZero();
    assert ZeroDivisorBefore(nums, ops, 1) by {
      assert ops[0] == '/' && nums[1] == 0;
    }
    EvalWellFormed("5/0", nums, ops, Raise);
  }

  lemma ZeroDivisorYield()
    ensures Eval("5/0", YieldZero) == Ok(0)
  {
    var nums, ops := FiveOverZero();
    EvalWellFormed("5/0", nums, ops, YieldZero);
  }

  /** "5/0" is the well-formed expression 5 / 0. */
  lemma FiveOverZero() returns (nums: seq<int>, ops: seq<char>)
    ensures nums == [5, 0] && ops == "/"
    ensures WellFormed(nums, ops) && Tokenize("5/0") == Tokens(nums, ops, |ops|)
  {
    var ns: seq<nat> := [5, 0];
    nums, ops := ns, "/";
    assert Render(ns, ops, 1) == "5/0";
    RenderTokens(ns, ops, 1);
  }

  lemma Sum34()
    ensures Eval("3+4", Raise) == Ok(7)
  {
    var nums: seq<nat>, ops := [3, 4], "+";
    assert Render(nums, ops, 1) == "3+4";
    GeneratedValue(nums, ops, Raise);
  }

  /** Two complete requests in the buffer: one reply each, in order, and nothing left over. */
  lemma TwoRequests(s: string, a: string, b: string)
    requires NoSpace(a) && NoSpace(b) && s == a + " " + b + " "
    ensures Owed(s) == ReplyToken(a) + " " + ReplyToken(b) + " "
    ensures Rest(s) == []
  {
    TwoFrames(s, a, b);
    TwoReplies(a, b);
  }

  lemma TwoFrames(s: string, a: string, b: string)
    requires NoSpace(a) && NoSpace(b) && s == a + " " + b + " "
    ensures Frames(s) == [a, b] && Rest(s) == []
  {
    var fs := [a, b];
    assert Join(fs) + [] == s by {
      assert Join(fs) == a + " " + Join([b]);
      assert Join([b]) == b + " " + Join([]);
    }
    FramesOfJoin(fs, []);
  }

  lemma TwoReplies(a: string, b: string)
    ensures Responses([a, b]) == ReplyToken(a) + " " + ReplyToken(b) + " "
  {
    assert [a, b] == [a] + [b];
    ResponsesAppend([a], [b]);
    ResponsesSingle(a);
    ResponsesSingle(b);
  }

  /** One complete request and nothing after it: a fresh record queues its reply. */
  lemma OneRequest(s: string, a: string)
    requires NoSpace(a) && s == a + " "
    ensures Absorb(Fresh, s) == ConnState([], ReplyToken(a) + " ", true)
  {
    FreshAbsorb(s);
    OneFrame(s, a);
    ResponsesSingle(a);
  }

  /** A fresh record answers what a first read brings. */
  lemma FreshAbsorb(s: string)
    ensures Absorb(Fresh, s) == ConnState(Rest(s), Responses(Frames(s)), Frames(s) != [])
  {
    assert Fresh.inBuf + s == s;
    assert [] + Responses(Frames(s)) == Responses(Frames(s));
  }

  lemma OneFrame(s: string, a: string)
    requires NoSpace(a) && s == a + " "
    ensures Frames(s) == [a] && Rest(s) == []
  {
    assert Join([a]) + [] == s by {
      assert Join([a]) == a + " " + Join([]);
    }
    FramesOfJoin([a], []);
  }

  /** An expression that evaluates is answered with the decimal text of its value. */
  lemma ReplyOf(expr: string, v: int, text: string)
    requires Eval(expr, Raise) == Ok(v) && text == IntToString(v)
    ensures ReplyToken(expr) == text
  {
  }

  lemma ReplyErr()
    ensures ReplyToken("5/0") == "ERR"
  {
    ZeroDivisor();
  }

  lemma ReplySeven()
    ensures ReplyToken("3+4") == "7"
  {
    Sum34();
    ReplyOf("3+4", 7, "7");
  }

  /** A failing expression is answered with "ERR" and does not stop the next one. */
  lemma ErrThenValue(s: string)
    requires s == "5/0 3+4 "
    ensures Owed(s) == "ERR" + " " + "7" + " " && Rest(s) == []
  {
    TwoRequests(s, "5/0", "3+4");
    ReplyErr();
    ReplySeven();
  }

  lemma ReplyFour()
    ensures ReplyToken("2+2") == "4"
  {
    var nums: seq<nat>, ops := [2, 2], "+";
    assert Render(nums, ops, 1) == "2+2";
    GeneratedValue(nums, ops, Raise);
    ReplyOf("2+2", 4, "4");
  }

  lemma ReplyThree()
    ensures ReplyToken("9/3") == "3"
  {
    var nums: seq<nat>, ops := [9, 3], "/";
    assert Render(nums, ops, 1) == "9/3";
    GeneratedValue(nums, ops, Raise);
    assert TruncDiv(9, 3) == 3;
    ReplyOf("9/3", 3, "3");
  }

  /** Two requests in one stream get two replies, in order. */
  lemma RepliesInOrder(s: string)
    requires s == "2+2 9/3 "
    ensures Owed(s) == "4" + " " + "3" + " " && Rest(s) == []
  {
    TwoRequests(s, "2+2", "9/3");
    ReplyFour();
    ReplyThree();
  }

  lemma ReplyThirtySix()
    ensures ReplyToken("12*3") == "36"
  {
    ProductValue();
    ThirtySixText();
    ReplyOf("12*3", 36, "36");
  }

  lemma ThirtySixText()
    ensures IntToString(36) == "36"
  {
    assert DecimalString(3) == "3";
    assert DecimalString(36) == DecimalString(3) + [DigitChar(6)];
  }

  /** 12 is read as one number: a digit run is one operand. */
  lemma ProductValue()
    ensures Eval("12*3", Raise) == Ok(36)
  {
    var nums, ops := TwelveTimesThree();
    EvalWellFormed("12*3", nums, ops, Raise);
  }

  /** "12*3" is the well-formed expression 12 * 3. */
  lemma TwelveTimesThree() returns (nums: seq<int>, ops: seq<char>)
    ensures nums == [12, 3] && ops == "*"
    ensures WellFormed(nums, ops) && Tokenize("12*3") == Tokens(nums, ops, |ops|)
  {
    var ns: seq<nat> := [12, 3];
    nums, ops := ns, "*";
    assert DecimalString(12) == "12";
    assert Render(ns, ops, 1) == "12*3";
    RenderTokens(ns, ops, 1);
  }

  /** The record after one read event per chunk, in order (the first on `c` as it is). */
  function AbsorbEach(c: ConnState, chunks: seq<string>): ConnState {
    if chunks == [] then Absorb(c, [])
    else Absorb(AbsorbEach(c, chunks[..|chunks| - 1]), chunks[|chunks| - 1])
  }

  /** However the bytes are spread over read events, the record is the one for all of them at once. */
  lemma {:induction false} AbsorbEachConcat(c: ConnState, chunks: seq<string>)
    ensures AbsorbEach(c, chunks) == Absorb(c, Concat(chunks))
  {
    if chunks != [] {
      var init := chunks[..|chunks| - 1];
      AbsorbEachConcat(c, init);
      AbsorbSplit(c, Concat(init), chunks[|chunks| - 1]);
    }
  }

  /** "12*3 " read one byte per event leaves the record it leaves when read at once. */
  lemma BytewiseReads(s: string, chunks: seq<string>)
    requires s == "12*3 " && chunks == ["1", "2", "*", "3", " "]
    ensures AbsorbEach(Fresh, chunks) == Absorb(Fresh, s)
  {
    AbsorbEachConcat(Fresh, chunks);
    ByteChunks(s, chunks);
  }

  lemma ByteChunks(s: string, chunks: seq<string>)
    requires s == "12*3 " && chunks == ["1", "2", "*", "3", " "]
    ensures Concat(chunks) == s
  {
    var one, two, three, four := ["1"], ["1", "2"], ["1", "2", "*"], ["1", "2", "*", "3"];
    assert Concat(one) == "1" by {
      ConcatPush([], "1");
      assert [] + ["1"] == one;
    }
    ConcatPush(one, "2");
    assert one + ["2"] == two;
    ConcatPush(two, "*");
    assert two + ["*"] == three;
    ConcatPush(three, "3");
    assert three + ["3"] == four;
    ConcatPush(four, " ");
    assert four + [" "] == chunks;
  }

  lemma ConcatPush(fs: seq<string>, f: string)
    ensures Concat(fs + [f]) == Concat(fs) + f
  {
    assert (fs + [f])[..|fs|] == fs;
  }

  /** Read at once, "12*3 " is answered with "36 " and leaves nothing buffered. */
  lemma WholeRead(s: string)
    requires s == "12*3 "
    ensures Absorb(Fresh, s) == ConnState([], "36" + " ", true)
  {
    OneRequest(s, "12*3");
    ReplyThirtySix();
  }
}
