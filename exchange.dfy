/**
 * The two programs against each other. A client session sends its expression,
 * cut into fragments, with a ' ' terminator; the server evaluates every complete
 * expression and answers with the result and a ' '. Because the client draws
 * numbers from 1 to 10, no division by zero can happen, so the server answers
 * with the expected value, and the client never reports a mismatch and never
 * terminates on an "ERR".
 */
module Exchange {
  import opened Optional
  import opened Text
  import opened Evaluator
  import opened Framing
  import opened Generator
  import opened TcpServer
  import opened TcpClient

  /** The message a session sends: its expression and the terminator. */
  function Message(n: int, plan: Plan): (msg: string)
    requires Drawable(n, plan) && n >= 1
    ensures msg == Concat(SessionOf(n, plan).job.frags)
  {
    Render(plan.numDraws[..n], OpsOf(plan.opDraws[..n - 1]), n - 1) + " "
  }

  /** The message is one expression without a ' ', then the terminator. */
  lemma MessageShape(n: int, plan: Plan)
    requires Drawable(n, plan) && n >= 1
    ensures var msg := Message(n, plan);
            msg != [] && msg[|msg| - 1] == ' ' && NoSpace(msg[..|msg| - 1])
  {
    var nums, ops := plan.numDraws[..n], OpsOf(plan.opDraws[..n - 1]);
    var expr := Render(nums, ops, n - 1);
    RenderTokens(nums, ops, n - 1);
    assert (expr + " ")[..|expr|] == expr;
  }

  /**
   * The reply the server owes a session that has sent its whole message: the
   * expected value and a ' '; nothing stays buffered.
   */
  lemma ServerAnswers(n: int, plan: Plan)
    requires Drawable(n, plan) && n >= 1
    ensures Owed(Message(n, plan)) == IntToString(SessionOf(n, plan).job.expected) + " "
    ensures Rest(Message(n, plan)) == []
  {
    var msg := Message(n, plan);
    MessageShape(n, plan);
    var expr := msg[..|msg| - 1];
    assert msg == Join([expr]) + [] by {
      assert Join([expr]) == expr + " " + Join([]);
    }
    FramesOfJoin([expr], []);
    DrawnServerValue(n, plan);
    ResponsesSingle(expr);
  }

  /** With the server's policy too, the drawn expression evaluates to its value: no number is 0. */
  lemma DrawnServerValue(n: int, plan: Plan)
    requires Drawable(n, plan) && n >= 1
    ensures var msg := Message(n, plan);
            Eval(msg[..|msg| - 1], Raise) == Ok(SessionOf(n, plan).job.expected)
  {
    var nums, ops := plan.numDraws[..n], OpsOf(plan.opDraws[..n - 1]);
    var msg := Message(n, plan);
    assert msg[..|msg| - 1] == Render(nums, ops, n - 1);
    assert NumberDraws(nums);
    GeneratedValue(nums, ops, Raise);
  }

  /** Before the terminator has arrived the server owes nothing, however the bytes were split. */
  lemma ServerWaits(n: int, plan: Plan, received: string)
    requires Drawable(n, plan) && n >= 1
    requires received < Message(n, plan)
    ensures Owed(received) == []
  {
    var msg := Message(n, plan);
    MessageShape(n, plan);
    assert received <= msg[..|msg| - 1];
    assert NoSpace(received) by {
      assert forall i :: 0 <= i < |received| ==> received[i] == msg[..|msg| - 1][i];
    }
    FramesOfJoin([], received);
    assert Join([]) + received == received;
  }

  /**
   * Whatever prefix of the server's reply the client has received, its verdict is
   * either "not yet" or a match: it never reports a mismatch and never aborts.
   */
  lemma ClientNeverMismatches(n: int, plan: Plan, got: string)
    requires Drawable(n, plan) && n >= 1
    requires got <= Owed(Message(n, plan))
    ensures var v := Judge(got, SessionOf(n, plan).job.expected);
            v.None? || v == Some(Match)
  {
    var expected := SessionOf(n, plan).job.expected;
    var t := IntToString(expected);
    ServerAnswers(n, plan);
    IntToStringNoSpace(expected);
    if |got| <= |t| {
      assert NoSpace(got) by {
        assert forall i :: 0 <= i < |got| ==> got[i] == t[i];
      }
    } else {
      assert got == t + " " + [];
      JudgeToken(t, [], expected);
      StolOfIntToString(expected);
    }
  }

  /**
   * The whole exchange over the server's record of the connection: however the
   * server's reads cut the message, once all of it has been received, and however
   * much of the reply has been written, what was sent followed by what is queued
   * is the expected value and its ' ', and the client's verdict on what was sent
   * is "not yet" or a match.
   */
  lemma ExchangeAccounts(n: int, plan: Plan, c: ConnState, sent: string)
    requires Drawable(n, plan) && n >= 1
    requires Accounts(c, Message(n, plan), sent)
    ensures sent + c.outBuf == IntToString(SessionOf(n, plan).job.expected) + " "
    ensures c.inBuf == []
    ensures var v := Judge(sent, SessionOf(n, plan).job.expected);
            v.None? || v == Some(Match)
  {
    AccountsMeaning(c, Message(n, plan), sent);
    ServerAnswers(n, plan);
    ClientNeverMismatches(n, plan, sent);
  }
}
