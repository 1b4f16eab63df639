/**
 * The calculator server's per-connection logic: bytes read from a client are
 * appended to its input buffer, every complete (' '-terminated) expression is cut
 * off and evaluated, and its result, or "ERR" when `evaluate` throws, is queued
 * with a ' ' terminator in the output buffer, which is written back whenever the
 * socket accepts bytes. Write interest (EPOLLOUT) is switched on when a reply is
 * queued and off once the output buffer is empty.
 *
 * The pure functions state what one readiness event does to one connection and
 * to the table of connections; the loops and the class `EventLoop` are the
 * event loop itself and are proved to behave as those functions say.
 */
module TcpServer {
  import opened Optional
  import opened Text
  import opened Evaluator
  import opened Framing
  import opened Transport

  /**
   * The reply to one expression, without its terminator: `std::to_string` of the
   * result, or "ERR" when `evaluate` throws.
   */
  function ReplyToken(expr: string): (t: string)
    ensures t != [] && NoSpace(t)
  {
    var e := Eval(expr, Raise);
    if e.Ok? then
      IntToStringNoSpace(e.value);
      IntToString(e.value)
    else
      "ERR"
  }

  /** A reply reads back, through `std::stol`, as the result; "ERR" reads back as nothing. */
  lemma ReplyTokenReadsBack(expr: string)
    ensures var e := Eval(expr, Raise);
            Stol(ReplyToken(expr)) == if e.Ok? then Some(e.value) else None
  {
    var e := Eval(expr, Raise);
    if e.Ok? {
      StolOfIntToString(e.value);
    } else {
      StolRejectsErr();
    }
  }

  function ReplyTokens(exprs: seq<string>): (ts: seq<string>)
    ensures |ts| == |exprs| && AllNoSpace(ts)
  {
    seq(|exprs|, i requires 0 <= i < |exprs| => ReplyToken(exprs[i]))
  }

  /** The bytes queued for a sequence of expressions: each reply with its ' '. */
  function Responses(exprs: seq<string>): string {
    Join(ReplyTokens(exprs))
  }

  /** The state the server keeps for one client, and whether EPOLLOUT is registered. */
  datatype ConnState = ConnState(inBuf: string, outBuf: string, writeInterest: bool)

  /** `conns[fd] = Connection{}`: empty buffers, registered for EPOLLIN only. */
  const Fresh := ConnState([], [], false)

  /** Write interest is registered exactly while there is something to write. */
  predicate Coherent(c: ConnState) {
    c.writeInterest == (c.outBuf != [])
  }

  /**
   * The read loop: append every chunk until EAGAIN; `None` when a read returns 0
   * or fails, which closes and forgets the connection.
   */
  function Drain(readScript: seq<ReadResult>): Option<string>
    decreases |readScript|
  {
    if readScript == [] then Some([])
    else match readScript[0]
      case Chunk(d) =>
        if d == [] then None
        else Prefixed(d, Drain(readScript[1..]))
      case ReadWouldBlock => Some([])
      case ReadFailed => None
  }

  /**
   * Cut every complete expression off the input buffer, queue its reply, and
   * register write interest if anything was queued; the unterminated tail stays.
   */
  function AnswerAll(c: ConnState): ConnState {
    var exprs := Frames(c.inBuf);
    ConnState(Rest(c.inBuf), c.outBuf + Responses(exprs), c.writeInterest || exprs != [])
  }

  /** What a read of `data` does: append it, then answer what is complete. */
  function Absorb(c: ConnState, data: string): ConnState {
    AnswerAll(c.(inBuf := c.inBuf + data))
  }

  /** `a` in front of the data of `r`, if there is any. */
  function Prefixed(a: string, r: Option<string>): Option<string> {
    if r.None? then None else Some(a + r.value)
  }

  lemma PrefixedTwice(a: string, b: string, r: Option<string>)
    ensures Prefixed(a, Prefixed(b, r)) == Prefixed(a + b, r)
  {
    if r.Some? {
      AppendAssoc(a, b, r.value);
    }
  }

  /** An EPOLLIN event on a connection: `None` when it is closed. */
  function OnReadable(c: ConnState, readScript: seq<ReadResult>): Option<ConnState> {
    var d := Drain(readScript);
    if d.None? then None else Some(Absorb(c, d.value))
  }

  /**
   * The write loop: write while there is output, dropping what each call accepted;
   * `None` when a write returns 0 or fails, which closes the connection. What is
   * left is always the tail of what was queued.
   */
  function Flush(out: string, writeScript: seq<WriteResult>): (r: Option<string>)
    decreases |writeScript|
  {
    if out == [] || writeScript == [] then Some(out)
    else match writeScript[0]
      case Accepted(k) =>
        var n := Min(k, |out|);
        if n == 0 then None else Flush(out[n..], writeScript[1..])
      case WriteWouldBlock => Some(out)
      case WriteFailed => None
  }

  /** What is left after writing is always a tail of what was queued. */
  lemma {:induction false} FlushTail(out: string, writeScript: seq<WriteResult>)
    ensures var r := Flush(out, writeScript);
            r.Some? ==> |r.value| <= |out| && r.value == out[|out| - |r.value|..]
    decreases |writeScript|
  {
    if out != [] && writeScript != [] && writeScript[0].Accepted? {
      var n := Min(writeScript[0].limit, |out|);
      if n != 0 {
        FlushTail(out[n..], writeScript[1..]);
      }
    }
  }

  /** An EPOLLOUT event: flush, and drop write interest once the output buffer is empty. */
  function OnWritable(c: ConnState, writeScript: seq<WriteResult>): Option<ConnState> {
    var r := Flush(c.outBuf, writeScript);
    if r.None? then None
    else Some(ConnState(c.inBuf, r.value, if r.value == [] then false else c.writeInterest))
  }

  /** One event on a client socket: the EPOLLIN part, then the EPOLLOUT part. */
  function ServeConnection(c: ConnState, readable: bool, writable: bool,
                           readScript: seq<ReadResult>, writeScript: seq<WriteResult>): Option<ConnState>
  {
    var afterRead := if readable then OnReadable(c, readScript) else Some(c);
    if afterRead.None? || !writable then afterRead
    else OnWritable(afterRead.value, writeScript)
  }

  /**
   * One entry of the array `epoll_wait` filled: the descriptor, its EPOLLIN and
   * EPOLLOUT bits, and the scripts of what `accept`, `read` and `write` return on it
   * while the event is handled.
   */
  datatype Event = Event(fd: int, readable: bool, writable: bool,
                         acceptScript: seq<AcceptResult>, readScript: seq<ReadResult>, writeScript: seq<WriteResult>)

  /** The accept loop: the new descriptors, up to the first call that returns -1. */
  function AcceptedFds(acceptScript: seq<AcceptResult>): (fds: seq<nat>)
    ensures |fds| <= |acceptScript|
    ensures forall i :: 0 <= i < |fds| ==> acceptScript[i] == NewConnection(fds[i])
    ensures |fds| < |acceptScript| ==> !acceptScript[|fds|].NewConnection?
  {
    if acceptScript == [] || !acceptScript[0].NewConnection? then []
    else [acceptScript[0].fd] + AcceptedFds(acceptScript[1..])
  }

  /** Each accepted descriptor gets a fresh entry, replacing any stale one. */
  function AddFresh(conns: map<int, ConnState>, fds: seq<nat>): map<int, ConnState>
    decreases |fds|
  {
    if fds == [] then conns else AddFresh(conns[fds[0] := Fresh], fds[1..])
  }

  /**
   * One event on the table of connections. `conns[fd]` creates an entry for an
   * unknown descriptor before it is used; a closed connection is erased.
   */
  function Serve(conns: map<int, ConnState>, listenFd: int, ev: Event): map<int, ConnState> {
    if ev.fd == listenFd then AddFresh(conns, AcceptedFds(ev.acceptScript))
    else
      var c := if ev.fd in conns then conns[ev.fd] else Fresh;
      var r := ServeConnection(c, ev.readable, ev.writable, ev.readScript, ev.writeScript);
      if r.None? then conns - {ev.fd} else conns[ev.fd := r.value]
  }

  /** The events of one `epoll_wait` batch, handled in order. */
  function ServeAll(conns: map<int, ConnState>, listenFd: int, evs: seq<Event>): map<int, ConnState>
    decreases |evs|
  {
    if evs == [] then conns else ServeAll(Serve(conns, listenFd, evs[0]), listenFd, evs[1..])
  }

  lemma ReplyTokensAppend(a: seq<string>, b: seq<string>)
    ensures ReplyTokens(a + b) == ReplyTokens(a) + ReplyTokens(b)
  {
    var whole, parts := ReplyTokens(a + b), ReplyTokens(a) + ReplyTokens(b);
    forall i | 0 <= i < |whole|
      ensures whole[i] == parts[i]
    {
      if i < |a| {
        calc {
          whole[i];
          ReplyToken((a + b)[i]);
          { assert (a + b)[i] == a[i]; }
          ReplyToken(a[i]);
          ReplyTokens(a)[i];
        }
      } else {
        calc {
          whole[i];
          ReplyToken((a + b)[i]);
          { assert (a + b)[i] == b[i - |a|]; }
          ReplyToken(b[i - |a|]);
          ReplyTokens(b)[i - |a|];
        }
      }
    }
  }

  /** Replies to consecutive batches of expressions are queued back to back. */
  lemma ResponsesAppend(a: seq<string>, b: seq<string>)
    ensures Responses(a + b) == Responses(a) + Responses(b)
  {
    ReplyTokensAppend(a, b);
    JoinAppend(ReplyTokens(a), ReplyTokens(b));
  }

  /**
   * The reply stream frames back into exactly one reply token per expression, in
   * order, with nothing left over; there is output exactly when there were
   * expressions.
   */
  lemma RepliesFrameBack(exprs: seq<string>)
    ensures Frames(Responses(exprs)) == ReplyTokens(exprs) && Rest(Responses(exprs)) == []
    ensures Responses(exprs) == [] <==> exprs == []
  {
    var ts := ReplyTokens(exprs);
    FramesOfJoin(ts, []);
    assert Join(ts) + [] == Join(ts);
    if exprs != [] {
      assert |Join(ts)| >= |ts[0]| > 0;
    }
  }

  /**
   * How the client's bytes were split between reads and events does not matter:
   * absorbing `x` and then `y` leaves the connection as absorbing `x + y` at once.
   */
  lemma AbsorbSplit(c: ConnState, x: string, y: string)
    ensures Absorb(Absorb(c, x), y) == Absorb(c, x + y)
  {
    var bx := c.inBuf + x;
    var f1, f2 := Frames(bx), Frames(Rest(bx) + y);
    var r1, r2 := Responses(f1), Responses(f2);
    var c1 := Absorb(c, x);
    assert c1 == ConnState(Rest(bx), c.outBuf + r1, c.writeInterest || f1 != []);
    var twice := Absorb(c1, y);
    assert twice == ConnState(Rest(Rest(bx) + y), c.outBuf + r1 + r2, c.writeInterest || f1 != [] || f2 != []);
    FramesAppend(bx, y);
    AppendAssoc(c.inBuf, x, y);
    ResponsesAppend(f1, f2);
    AppendAssoc(c.outBuf, r1, r2);
    assert f1 + f2 != [] <==> f1 != [] || f2 != [];
  }

  /** Everything the server owes a client that has sent `received`: one reply per complete expression, in order. */
  function Owed(received: string): string {
    Responses(Frames(received))
  }

  /**
   * The record the server should hold for a client that has sent `received` and
   * has been sent the head `sent` of what it is owed: the unterminated tail of what
   * was received, the rest of what it is owed, and write interest exactly while
   * that rest is not empty.
   */
  function Settled(received: string, sent: string): ConnState
    requires sent <= Owed(received)
  {
    var owed := Owed(received);
    ConnState(Rest(received), owed[|sent|..], |sent| < |owed|)
  }

  /** The server's bookkeeping: the record is determined by what was received and what was sent. */
  predicate Accounts(c: ConnState, received: string, sent: string) {
    sent <= Owed(received) && c == Settled(received, sent)
  }

  /**
   * The bookkeeping, buffer by buffer: the input buffer holds the unterminated tail
   * of what was received, what was sent followed by what is queued is everything
   * owed, and write interest is registered exactly while output is queued.
   */
  lemma AccountsMeaning(c: ConnState, received: string, sent: string)
    ensures Accounts(c, received, sent) <==>
            c.inBuf == Rest(received) && sent + c.outBuf == Owed(received) && Coherent(c)
  {
    var owed := Owed(received);
    if Accounts(c, received, sent) {
      assert sent + c.outBuf == owed by {
        assert owed == owed[..|sent|] + owed[|sent|..];
      }
    }
    if c.inBuf == Rest(received) && sent + c.outBuf == owed && Coherent(c) {
      assert owed[..|sent|] == sent && owed[|sent|..] == c.outBuf;
    }
  }

  lemma FreshAccounts()
    ensures Accounts(Fresh, [], [])
  {
    assert Frames([]) == [];
    AccountsMeaning(Fresh, [], []);
  }

  /** Reading more bytes keeps the bookkeeping: every newly completed expression is answered once. */
  lemma AbsorbAccounts(c: ConnState, received: string, sent: string, data: string)
    requires Accounts(c, received, sent)
    ensures Accounts(Absorb(c, data), received + data, sent)
  {
    AccountsMeaning(c, received, sent);
    FramesAppend(received, data);
    var older, newer := Frames(received), Frames(c.inBuf + data);
    ResponsesAppend(older, newer);
    RepliesFrameBack(newer);
    AppendAssoc(sent, c.outBuf, Responses(newer));
    AccountsMeaning(Absorb(c, data), received + data, sent);
  }

  /**
   * Writing keeps the bookkeeping: the bytes the socket accepted are the head of the
   * output buffer, and they join what was sent.
   */
  lemma FlushAccounts(c: ConnState, received: string, sent: string, writeScript: seq<WriteResult>)
    requires Accounts(c, received, sent) && OnWritable(c, writeScript).Some?
    ensures var c' := OnWritable(c, writeScript).value;
            |c'.outBuf| <= |c.outBuf| &&
            Accounts(c', received, sent + c.outBuf[..|c.outBuf| - |c'.outBuf|])
  {
    AccountsMeaning(c, received, sent);
    var r := Flush(c.outBuf, writeScript).value;
    FlushTail(c.outBuf, writeScript);
    SentGrows(sent, c.outBuf, r);
    var c' := ConnState(c.inBuf, r, if r == [] then false else c.writeInterest);
    assert OnWritable(c, writeScript).value == c';
    AccountsMeaning(c', received, sent + c.outBuf[..|c.outBuf| - |r|]);
  }

  /** Moving the written head of the output buffer over to what was sent changes nothing in their sum. */
  lemma SentGrows(sent: string, out: string, left: string)
    requires |left| <= |out| && left == out[|out| - |left|..]
    ensures (sent + out[..|out| - |left|]) + left == sent + out
  {
    var k := |out| - |left|;
    assert out == out[..k] + left;
    AppendAssoc(sent, out[..k], left);
  }

  /** Absorbing no bytes changes nothing: the buffered tail holds no complete expression. */
  lemma AbsorbNothing(c: ConnState, received: string, sent: string)
    requires Accounts(c, received, sent)
    ensures Absorb(c, []) == c
  {
    AccountsMeaning(c, received, sent);
    assert c.inBuf + [] == c.inBuf;
    SplitFrames(received);
    AnswerNone(c);
  }

  /** The bytes the EPOLLIN part of an event reads: none when the socket was not readable or the read loop closed it. */
  function Got(readable: bool, readScript: seq<ReadResult>): string {
    if readable && Drain(readScript).Some? then Drain(readScript).value else []
  }

  /** The EPOLLIN part keeps the bookkeeping: the bytes read join what was received. */
  lemma ReadAccounts(c: ConnState, received: string, sent: string, readable: bool, readScript: seq<ReadResult>)
    requires Accounts(c, received, sent)
    ensures Accounts(Absorb(c, Got(readable, readScript)), received + Got(readable, readScript), sent)
    ensures !readable ==> Absorb(c, Got(readable, readScript)) == c
  {
    var got := Got(readable, readScript);
    AbsorbAccounts(c, received, sent, got);
    if !readable {
      AbsorbNothing(c, received, sent);
    }
  }

  /** An event on a connection that has nothing unanswered: absorb what was read, then write. */
  lemma ServeConnectionShape(c: ConnState, mid: ConnState, readable: bool, writable: bool,
                             readScript: seq<ReadResult>, writeScript: seq<WriteResult>)
    requires mid == Absorb(c, Got(readable, readScript))
    requires !readable ==> mid == c
    ensures ServeConnection(c, readable, writable, readScript, writeScript) ==
            if readable && Drain(readScript).None? then None else WriteStep(mid, writable, writeScript)
  {
  }

  /** The EPOLLOUT part of an event, if the socket was writable. */
  function WriteStep(c: ConnState, writable: bool, writeScript: seq<WriteResult>): Option<ConnState> {
    if writable then OnWritable(c, writeScript) else Some(c)
  }

  /** The EPOLLOUT part keeps the bookkeeping: the bytes the socket accepted join what was sent. */
  lemma WriteStepAccounts(c: ConnState, received: string, sent: string, writable: bool, writeScript: seq<WriteResult>)
    requires Accounts(c, received, sent)
    ensures var r := WriteStep(c, writable, writeScript);
            r.Some? ==>
              |r.value.outBuf| <= |c.outBuf| &&
              Accounts(r.value, received, sent + c.outBuf[..|c.outBuf| - |r.value.outBuf|])
  {
    if writable {
      if OnWritable(c, writeScript).Some? {
        FlushAccounts(c, received, sent, writeScript);
      }
    } else {
      assert c.outBuf[..|c.outBuf| - |c.outBuf|] == [] && sent + [] == sent;
    }
  }

  /**
   * Every event keeps the bookkeeping: the bytes it read join what was received,
   * the bytes the socket accepted join what was sent.
   */
  lemma ServeConnectionAccounts(c: ConnState, received: string, sent: string, readable: bool, writable: bool,
                                readScript: seq<ReadResult>, writeScript: seq<WriteResult>)
    requires Accounts(c, received, sent)
    ensures var r := ServeConnection(c, readable, writable, readScript, writeScript);
            var got := Got(readable, readScript);
            var mid := Absorb(c, got);
            r.Some? ==>
              |r.value.outBuf| <= |mid.outBuf| &&
              Accounts(r.value, received + got, sent + mid.outBuf[..|mid.outBuf| - |r.value.outBuf|])
  {
    var got := Got(readable, readScript);
    var mid := Absorb(c, got);
    ReadAccounts(c, received, sent, readable, readScript);
    ServeConnectionShape(c, mid, readable, writable, readScript, writeScript);
    WriteStepAccounts(mid, received + got, sent, writable, writeScript);
  }

  /** Every event keeps write interest registered exactly while output is queued. */
  lemma ServeConnectionCoherent(c: ConnState, readable: bool, writable: bool,
                                readScript: seq<ReadResult>, writeScript: seq<WriteResult>)
    requires Coherent(c)
    ensures var r := ServeConnection(c, readable, writable, readScript, writeScript);
            r.Some? ==> Coherent(r.value)
  {
    if readable && Drain(readScript).Some? {
      RepliesFrameBack(Frames(c.inBuf + Drain(readScript).value));
    }
  }

  /**
   * Writing makes progress: when every write takes at least one byte, as many
   * writes as there are queued bytes empty the output buffer.
   */
  lemma {:induction false} FlushEmpties(out: string, writeScript: seq<WriteResult>)
    requires |writeScript| >= |out|
    requires forall i :: 0 <= i < |writeScript| ==> writeScript[i].Accepted? && writeScript[i].limit > 0
    ensures Flush(out, writeScript) == Some([])
    decreases |writeScript|
  {
    if out != [] {
      FlushEmpties(out[Min(writeScript[0].limit, |out|)..], writeScript[1..]);
    }
  }

  lemma {:induction false} AddFreshEffect(conns: map<int, ConnState>, fds: seq<nat>)
    ensures var r := AddFresh(conns, fds);
            forall fd :: fd in r <==> fd in conns || fd in fds
    ensures var r := AddFresh(conns, fds);
            forall fd :: fd in r ==> r[fd] == if fd in fds then Fresh else conns[fd]
    decreases |fds|
  {
    if fds == [] {
      assert AddFresh(conns, fds) == conns;
    } else {
      var next := conns[fds[0] := Fresh];
      AddFreshEffect(next, fds[1..]);
      assert AddFresh(conns, fds) == AddFresh(next, fds[1..]);
      assert forall fd: int :: fd in fds <==> fd == fds[0] || fd in fds[1..] by {
        assert fds == [fds[0]] + fds[1..];
      }
      assert forall fd :: fd in next <==> fd in conns || fd == fds[0];
    }
  }

  /**
   * An event on the listening socket adds one fresh connection per accepted
   * descriptor and changes nothing else.
   */
  lemma ServeListen(conns: map<int, ConnState>, listenFd: int, ev: Event)
    requires ev.fd == listenFd
    ensures var r := Serve(conns, listenFd, ev);
            var fds := AcceptedFds(ev.acceptScript);
            (forall fd :: fd in r <==> fd in conns || fd in fds) &&
            forall fd :: fd in r ==> r[fd] == if fd in fds then Fresh else conns[fd]
  {
    AddFreshEffect(conns, AcceptedFds(ev.acceptScript));
  }

  /**
   * An event on a client socket touches that connection only: it is updated or
   * erased, and every other entry is kept as it was.
   */
  lemma ServeClient(conns: map<int, ConnState>, listenFd: int, ev: Event)
    requires ev.fd != listenFd
    ensures var r := Serve(conns, listenFd, ev);
            var c := if ev.fd in conns then conns[ev.fd] else Fresh;
            var s := ServeConnection(c, ev.readable, ev.writable, ev.readScript, ev.writeScript);
            (ev.fd in r <==> s.Some?) && (s.Some? ==> r[ev.fd] == s.value) &&
            r.Keys - {ev.fd} == conns.Keys - {ev.fd} &&
            forall fd :: fd in r && fd != ev.fd ==> r[fd] == conns[fd]
  {
  }

  /** Every event batch keeps each connection's write interest coherent. */
  lemma {:induction false} ServeAllCoherent(conns: map<int, ConnState>, listenFd: int, evs: seq<Event>)
    requires forall fd :: fd in conns ==> Coherent(conns[fd])
    ensures var r := ServeAll(conns, listenFd, evs);
            forall fd :: fd in r ==> Coherent(r[fd])
    decreases |evs|
  {
    if evs != [] {
      var ev := evs[0];
      var next := Serve(conns, listenFd, ev);
      if ev.fd == listenFd {
        ServeListen(conns, listenFd, ev);
      } else {
        var c := if ev.fd in conns then conns[ev.fd] else Fresh;
        ServeConnectionCoherent(c, ev.readable, ev.writable, ev.readScript, ev.writeScript);
        ServeClient(conns, listenFd, ev);
      }
      assert forall fd :: fd in next ==> Coherent(next[fd]);
      ServeAllCoherent(next, listenFd, evs[1..]);
      assert ServeAll(conns, listenFd, evs) == ServeAll(next, listenFd, evs[1..]);
    }
  }

  /** The outer `while (true)` loop, over the batches `epoll_wait` returned so far. */
  function ServeBatches(conns: map<int, ConnState>, listenFd: int, batches: seq<seq<Event>>): map<int, ConnState>
    decreases |batches|
  {
    if batches == [] then conns else ServeBatches(ServeAll(conns, listenFd, batches[0]), listenFd, batches[1..])
  }

  /** However many batches the server handles, every connection's write interest stays coherent. */
  lemma {:induction false} ServeBatchesCoherent(conns: map<int, ConnState>, listenFd: int, batches: seq<seq<Event>>)
    requires forall fd :: fd in conns ==> Coherent(conns[fd])
    ensures var r := ServeBatches(conns, listenFd, batches);
            forall fd :: fd in r ==> Coherent(r[fd])
    decreases |batches|
  {
    if batches != [] {
      var evs := batches[0];
      ServeAllCoherent(conns, listenFd, evs);
      assert forall fd :: fd in ServeAll(conns, listenFd, evs) ==> Coherent(ServeAll(conns, listenFd, evs)[fd]);
      ServeBatchesCoherent(ServeAll(conns, listenFd, evs), listenFd, batches[1..]);
      assert ServeBatches(conns, listenFd, batches) == ServeBatches(ServeAll(conns, listenFd, evs), listenFd, batches[1..]);
    }
  }

  lemma ResponsesSingle(e: string)
    ensures Responses([e]) == ReplyToken(e) + " "
  {
    var ts := ReplyTokens([e]);
    assert ts == [ReplyToken(e)] && ts[1..] == [];
    assert Join(ts) == ReplyToken(e) + " " + [];
  }

  /** Answering the first complete expression, then the rest, answers them all. */
  lemma AnswerOne(c: ConnState, p: nat)
    requires FindSpace(c.inBuf) == Some(p)
    ensures AnswerAll(c) ==
            AnswerAll(ConnState(c.inBuf[p + 1..], c.outBuf + (ReplyToken(c.inBuf[..p]) + " "), true))
  {
    var e, t := c.inBuf[..p], c.inBuf[p + 1..];
    FramesCut(c.inBuf, p);
    ResponsesAppend([e], Frames(t));
    ResponsesSingle(e);
    AppendAssoc(c.outBuf, ReplyToken(e) + " ", Responses(Frames(t)));
  }

  /** With no complete expression buffered, answering changes nothing. */
  lemma AnswerNone(c: ConnState)
    requires FindSpace(c.inBuf).None?
    ensures AnswerAll(c) == c
  {
    assert c.outBuf + Responses([]) == c.outBuf;
  }

  // ----- The loops of one connection -----

  /** The read loop of an EPOLLIN event; `open` is false when the connection must close. */
  method ReadAll(inBuf: string, readScript: seq<ReadResult>) returns (open: bool, received: string)
    ensures open == Drain(readScript).Some?
    ensures open ==> received == inBuf + Drain(readScript).value
  {
    received := inBuf;
    var k := 0;
    ghost var acc: string := [];
    assert readScript[k..] == readScript;
    assert Prefixed([], Drain(readScript)) == Drain(readScript) by {
      if Drain(readScript).Some? {
        assert [] + Drain(readScript).value == Drain(readScript).value;
      }
    }
    while k < |readScript|
      invariant 0 <= k <= |readScript|
      invariant received == inBuf + acc
      invariant Drain(readScript) == Prefixed(acc, Drain(readScript[k..]))
    {
      assert readScript[k..][0] == readScript[k] && readScript[k..][1..] == readScript[k + 1..];
      match readScript[k]
      case Chunk(d) =>
        if d == [] {
          return false, received;
        }
        received := received + d;
        PrefixedTwice(acc, d, Drain(readScript[k + 1..]));
        acc := acc + d;
        k := k + 1;
      case ReadWouldBlock =>
        assert Drain(readScript[k..]) == Some([]) && acc + [] == acc;
        return true, received;
      case ReadFailed =>
        return false, received;
    }
    assert Drain(readScript[k..]) == Some([]) && acc + [] == acc;
    open := true;
  }

  /** The framing loop: answer every complete expression in the input buffer, in order. */
  method AnswerFrames(c: ConnState) returns (d: ConnState)
    ensures d == AnswerAll(c)
  {
    d := c;
    var pos := FindSpace(d.inBuf);
    while pos.Some?
      invariant pos == FindSpace(d.inBuf)
      invariant AnswerAll(c) == AnswerAll(d)
      decreases |d.inBuf|
    {
      var p := pos.value;
      var expr := d.inBuf[..p];
      AnswerOne(d, p);
      var r := Evaluate(expr, Raise);
      var reply := if r.Ok? then IntToString(r.value) else "ERR";
      d := ConnState(d.inBuf[p + 1..], d.outBuf + (reply + " "), true);
      pos := FindSpace(d.inBuf);
    }
    AnswerNone(d);
  }

  /** An EPOLLIN event: read, then answer; `open` is false when the connection must close. */
  method Receive(c: ConnState, readScript: seq<ReadResult>) returns (open: bool, d: ConnState)
    ensures open == OnReadable(c, readScript).Some?
    ensures open ==> d == OnReadable(c, readScript).value
  {
    var received;
    open, received := ReadAll(c.inBuf, readScript);
    d := c;
    if open {
      d := AnswerFrames(c.(inBuf := received));
    }
  }

  /** The write loop: write while output is queued; `open` is false when the connection must close. */
  method WriteAll(outBuf: string, writeScript: seq<WriteResult>) returns (open: bool, left: string)
    ensures open == Flush(outBuf, writeScript).Some?
    ensures open ==> left == Flush(outBuf, writeScript).value
  {
    left := outBuf;
    var k := 0;
    while left != [] && k < |writeScript|
      invariant 0 <= k <= |writeScript|
      invariant Flush(outBuf, writeScript) == Flush(left, writeScript[k..])
    {
      assert writeScript[k..][0] == writeScript[k] && writeScript[k..][1..] == writeScript[k + 1..];
      match writeScript[k]
      case Accepted(limit) =>
        var n := Min(limit, |left|);
        if n == 0 {
          return false, left;
        }
        left := left[n..];
        k := k + 1;
      case WriteWouldBlock =>
        return true, left;
      case WriteFailed =>
        return false, left;
    }
    open := true;
  }

  /**
   * An EPOLLOUT event: write while output is queued, then drop write interest if
   * the buffer emptied; `open` is false when the connection must close.
   */
  method Send(c: ConnState, writeScript: seq<WriteResult>) returns (open: bool, d: ConnState)
    ensures open == OnWritable(c, writeScript).Some?
    ensures open ==> d == OnWritable(c, writeScript).value
  {
    var left;
    open, left := WriteAll(c.outBuf, writeScript);
    d := c.(outBuf := left);
    if open && left == [] {
      d := d.(writeInterest := false);
    }
  }

  /**
   * One event on a client's socket: the EPOLLIN part, then the EPOLLOUT part;
   * `open` is false when the connection is closed. Write interest stays
   * registered exactly while output is queued.
   */
  method ServeRecord(c: ConnState, readable: bool, writable: bool,
                     readScript: seq<ReadResult>, writeScript: seq<WriteResult>)
    returns (open: bool, d: ConnState)
    requires Coherent(c)
    ensures var r := ServeConnection(c, readable, writable, readScript, writeScript);
            open == r.Some? && (open ==> d == r.value && Coherent(d))
  {
    open, d := true, c;
    if readable {
      open, d := Receive(c, readScript);
    }
    if open && writable {
      open, d := Send(d, writeScript);
    }
    ServeConnectionCoherent(c, readable, writable, readScript, writeScript);
  }

  /**
   * The server's event loop: the listening descriptor and the table of
   * connections (`std::unordered_map<int, Connection>`), one record per
   * descriptor, updated in place.
   */
  class EventLoop {
    const listenFd: int
    var conns: map<int, ConnState>

    ghost predicate Valid()
      reads this
    {
      forall fd :: fd in conns ==> Coherent(conns[fd])
    }

    constructor (listenFd: int)
      ensures this.listenFd == listenFd && conns == map[] && Valid()
    {
      this.listenFd := listenFd;
      conns := map[];
    }

    /** The accept loop: a fresh record for each new descriptor until `accept` returns -1. */
    method AcceptAll(acceptScript: seq<AcceptResult>)
      requires Valid()
      modifies this
      ensures Valid() && conns == AddFresh(old(conns), AcceptedFds(acceptScript))
    {
      var k := 0;
      while k < |acceptScript| && acceptScript[k].NewConnection?
        invariant 0 <= k <= |acceptScript|
        invariant Valid()
        invariant AddFresh(old(conns), AcceptedFds(acceptScript)) == AddFresh(conns, AcceptedFds(acceptScript[k..]))
      {
        assert acceptScript[k..][0] == acceptScript[k] && acceptScript[k..][1..] == acceptScript[k + 1..];
        conns := conns[acceptScript[k].fd := Fresh];
        k := k + 1;
      }
    }

    /**
     * One event from `epoll_wait`: new connections on the listening socket;
     * otherwise `conns[fd]` (creating a record for an unknown descriptor) is
     * served, and erased when it closes.
     */
    method HandleEvent(ev: Event)
      requires Valid()
      modifies this
      ensures Valid() && conns == Serve(old(conns), listenFd, ev)
    {
      if ev.fd == listenFd {
        AcceptAll(ev.acceptScript);
      } else {
        var c := if ev.fd in conns then conns[ev.fd] else Fresh;
        var open, d := ServeRecord(c, ev.readable, ev.writable, ev.readScript, ev.writeScript);
        if open {
          conns := conns[ev.fd := d];
        } else {
          conns := conns - {ev.fd};
        }
      }
    }

    /** The events of one `epoll_wait` batch, in order. */
    method Dispatch(evs: seq<Event>)
      requires Valid()
      modifies this
      ensures Valid() && conns == ServeAll(old(conns), listenFd, evs)
    {
      var i := 0;
      while i < |evs|
        invariant 0 <= i <= |evs|
        invariant Valid()
        invariant ServeAll(old(conns), listenFd, evs) == ServeAll(conns, listenFd, evs[i..])
      {
        assert evs[i..][0] == evs[i] && evs[i..][1..] == evs[i + 1..];
        HandleEvent(evs[i]);
        i := i + 1;
      }
    }

    /** The main loop: one `epoll_wait` batch after another. */
    method Run(batches: seq<seq<Event>>)
      requires Valid()
      modifies this
      ensures Valid() && conns == ServeBatches(old(conns), listenFd, batches)
    {
      var b := 0;
      while b < |batches|
        invariant 0 <= b <= |batches|
        invariant Valid()
        invariant ServeBatches(old(conns), listenFd, batches) == ServeBatches(conns, listenFd, batches[b..])
      {
        assert batches[b..][0] == batches[b] && batches[b..][1..] == batches[b + 1..];
        Dispatch(batches[b]);
        b := b + 1;
      }
    }
  }
}
