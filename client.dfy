/**
 * The validating client: each session sends its expression, terminated by ' ',
 * as a series of fragments over a non-blocking socket, collects the reply, reads
 * the first ' '-terminated token of it with `std::stol`, compares that with its
 * own evaluation of the expression (division by zero gives 0 here), reports a
 * match or a mismatch, and closes the session.
 *
 * The pure functions state what one readiness event does to one session and to
 * the table of sessions; the loops and the class `EventLoop` are the event loop
 * itself and are proved to behave as those functions say. The record of one
 * session, `Connection`, is a value stored in the table.
 */
module TcpClient {
  import opened Optional
  import opened Text
  import opened Evaluator
  import opened Framing
  import opened Transport
  import opened Generator

  /**
   * What the client concludes from a reply: the number matches the expected
   * value, or it does not, or the reply token is not a number (the "ERR" reply),
   * on which `std::stol` throws `std::invalid_argument`; nothing catches it, so
   * the whole client terminates.
   */
  datatype Verdict = Match | Mismatch(got: int) | Aborted

  /**
   * The response check: nothing yet while no ' ' has arrived; otherwise the
   * verdict on the token in front of the first ' '.
   */
  function Judge(inBuf: string, expected: int): (v: Option<Verdict>)
    ensures v.None? <==> NoSpace(inBuf)
  {
    match FindSpace(inBuf)
    case None => None
    case Some(p) =>
      match Stol(inBuf[..p])
      case None => Some(Aborted)
      case Some(got) => Some(if got == expected then Match else Mismatch(got))
  }

  /** The receive loop: append every chunk until a read returns 0, EAGAIN or an error. */
  function Collect(readScript: seq<ReadResult>): string
    decreases |readScript|
  {
    if readScript == [] then []
    else match readScript[0]
      case Chunk(d) => if d == [] then [] else d + Collect(readScript[1..])
      case ReadWouldBlock => []
      case ReadFailed => []
  }

  /** `frag_idx` and `frag_offset`: the next fragment to send and how much of it has gone. */
  datatype Cursor = Cursor(idx: nat, off: nat)

  /** A cursor inside a fragment, or just past the last one. */
  predicate CursorIn(frags: seq<string>, c: Cursor) {
    c.idx <= |frags| &&
    (c.idx < |frags| ==> c.off < |frags[c.idx]|) &&
    (c.idx == |frags| ==> c.off == 0)
  }

  predicate NonEmpty(frags: seq<string>) {
    forall i :: 0 <= i < |frags| ==> frags[i] != []
  }

  /**
   * The send loop: hand the rest of the current fragment to the socket; a call
   * that takes the rest of it moves on to the next fragment. It stops after the
   * last fragment or on EAGAIN; `None` when a call returns 0 or fails, which
   * closes the session.
   */
  function SendLoop(frags: seq<string>, c: Cursor, writeScript: seq<WriteResult>): Option<Cursor>
    requires NonEmpty(frags) && CursorIn(frags, c)
    decreases |writeScript|
  {
    if c.idx == |frags| || writeScript == [] then Some(c)
    else match writeScript[0]
      case Accepted(k) =>
        var frag := frags[c.idx];
        var sent := Min(k, |frag| - c.off);
        if sent == 0 then None
        else if c.off + sent == |frag| then SendLoop(frags, Cursor(c.idx + 1, 0), writeScript[1..])
        else SendLoop(frags, Cursor(c.idx, c.off + sent), writeScript[1..])
      case WriteWouldBlock => Some(c)
      case WriteFailed => None
  }

  /** How many bytes of the message have been handed to the socket. */
  function Position(frags: seq<string>, c: Cursor): nat
    requires c.idx <= |frags|
  {
    |Concat(frags[..c.idx])| + c.off
  }

  /** What set-up fixes for a session: its fragments and the value it expects. */
  datatype Job = Job(frags: seq<string>, expected: int)

  /** What a session's events change: its cursor, input buffer and EPOLLOUT registration. */
  datatype Session = Session(cursor: Cursor, inBuf: string, writeInterest: bool)

  /**
   * The fragments are non-empty, the cursor is inside them, and EPOLLOUT is
   * registered exactly while there is a fragment left to send.
   */
  predicate Healthy(job: Job, s: Session) {
    NonEmpty(job.frags) && CursorIn(job.frags, s.cursor) && s.writeInterest == (s.cursor.idx < |job.frags|)
  }

  /** A session that is still open, or the verdict with which it closed (`None`: a send failed). */
  datatype Outcome = Open(session: Session) | Closed(verdict: Option<Verdict>)

  /** The EPOLLOUT part of an event: send, and drop EPOLLOUT once every fragment has gone. */
  function OnWritable(job: Job, s: Session, writeScript: seq<WriteResult>): Option<Session>
    requires NonEmpty(job.frags) && CursorIn(job.frags, s.cursor)
  {
    if s.cursor.idx == |job.frags| then Some(s)
    else
      match SendLoop(job.frags, s.cursor, writeScript)
      case None => None
      case Some(c) => Some(s.(cursor := c, writeInterest := if c.idx == |job.frags| then false else s.writeInterest))
  }

  /** The EPOLLIN part: collect what arrived, then close with a verdict once a ' ' has come. */
  function OnReadable(job: Job, s: Session, readScript: seq<ReadResult>): Outcome {
    var s' := s.(inBuf := s.inBuf + Collect(readScript));
    match Judge(s'.inBuf, job.expected)
    case None => Open(s')
    case Some(v) => Closed(Some(v))
  }

  /** One event on a session's socket: the EPOLLOUT part, then the EPOLLIN part. */
  function OnEvent(job: Job, s: Session, readable: bool, writable: bool,
                   readScript: seq<ReadResult>, writeScript: seq<WriteResult>): Outcome
    requires NonEmpty(job.frags) && CursorIn(job.frags, s.cursor)
  {
    var afterSend := if writable then OnWritable(job, s, writeScript) else Some(s);
    if afterSend.None? then Closed(None)
    else if readable then OnReadable(job, afterSend.value, readScript)
    else Open(afterSend.value)
  }

  // ----- Lemmas about one session -----

  lemma ConcatSnoc(fs: seq<string>, i: nat)
    requires i < |fs|
    ensures Concat(fs[..i + 1]) == Concat(fs[..i]) + fs[i]
  {
    assert fs[..i + 1][..i] == fs[..i];
  }

  /** The message is what the first `i` fragments make up followed by what the others do. */
  lemma {:induction false} ConcatSplit(fs: seq<string>, i: nat)
    requires i <= |fs|
    ensures Concat(fs) == Concat(fs[..i]) + Concat(fs[i..])
    decreases |fs|
  {
    if i == |fs| {
      assert fs[..i] == fs && fs[i..] == [];
    } else {
      var n := |fs| - 1;
      var init := fs[..n];
      ConcatSplit(init, i);
      assert init[..i] == fs[..i] && init[i..] == fs[i..n];
      assert fs[i..][..|fs[i..]| - 1] == fs[i..n];
      AppendAssoc(Concat(fs[..i]), Concat(fs[i..n]), fs[n]);
    }
  }

  /** The message starts with its first fragment. */
  lemma ConcatCons(fs: seq<string>)
    requires fs != []
    ensures Concat(fs) == fs[0] + Concat(fs[1..])
  {
    ConcatSplit(fs, 1);
    assert fs[..1] == [fs[0]];
    assert Concat([fs[0]]) == fs[0] by {
      assert [fs[0]][..0] == [];
    }
  }

  lemma TakeAppend(a: string, b: string, k: nat)
    requires k <= |b|
    ensures (a + b)[..|a| + k] == a + b[..k]
  {
  }

  /**
   * The cursor names a prefix of the message: the bytes handed to the socket so far
   * are the whole fragments before it and the first `off` bytes of its fragment.
   */
  lemma SentPrefix(frags: seq<string>, c: Cursor)
    requires CursorIn(frags, c)
    ensures Position(frags, c) <= |Concat(frags)|
    ensures Concat(frags)[..Position(frags, c)] ==
            Concat(frags[..c.idx]) + (if c.idx < |frags| then frags[c.idx][..c.off] else [])
  {
    var before, after := Concat(frags[..c.idx]), Concat(frags[c.idx..]);
    ConcatSplit(frags, c.idx);
    if c.idx == |frags| {
      assert frags[c.idx..] == [];
      TakeAppend(before, after, 0);
      assert after[..0] == [] && before + [] == before;
    } else {
      var frag, rest := frags[c.idx], Concat(frags[c.idx + 1..]);
      ConcatCons(frags[c.idx..]);
      assert frags[c.idx..][1..] == frags[c.idx + 1..];
      TakeAppend(before, after, c.off);
      assert after[..c.off] == frag[..c.off] by {
        assert after == frag + rest;
      }
    }
  }

  /** One call that takes `sent` bytes moves the cursor `sent` bytes further into the message. */
  lemma AdvanceCursor(frags: seq<string>, c: Cursor, sent: nat)
    requires CursorIn(frags, c) && c.idx < |frags| && 0 < sent <= |frags[c.idx]| - c.off
    ensures var next := if c.off + sent == |frags[c.idx]| then Cursor(c.idx + 1, 0) else Cursor(c.idx, c.off + sent);
            Position(frags, next) == Position(frags, c) + sent
  {
    ConcatSnoc(frags, c.idx);
  }

  /**
   * A send loop that keeps the session open leaves the cursor inside the message
   * and never moves it back; with `SentPrefix`, what has been sent so far is a
   * prefix of the message that only grows.
   */
  lemma {:induction false} SendLoopAdvances(frags: seq<string>, c: Cursor, writeScript: seq<WriteResult>)
    requires NonEmpty(frags) && CursorIn(frags, c)
    ensures var r := SendLoop(frags, c, writeScript);
            r.Some? ==> CursorIn(frags, r.value) && Position(frags, c) <= Position(frags, r.value)
    decreases |writeScript|
  {
    if c.idx < |frags| && writeScript != [] && writeScript[0].Accepted? {
      var frag := frags[c.idx];
      var sent := Min(writeScript[0].limit, |frag| - c.off);
      if sent > 0 {
        AdvanceCursor(frags, c, sent);
        if c.off + sent == |frag| {
          SendLoopAdvances(frags, Cursor(c.idx + 1, 0), writeScript[1..]);
        } else {
          SendLoopAdvances(frags, Cursor(c.idx, c.off + sent), writeScript[1..]);
        }
      }
    }
  }

  /**
   * Sending finishes: when every call takes at least one byte and there are as many
   * calls as bytes left, the whole message goes out.
   */
  lemma {:induction false} SendLoopCompletes(frags: seq<string>, c: Cursor, writeScript: seq<WriteResult>)
    requires NonEmpty(frags) && CursorIn(frags, c)
    requires |writeScript| >= |Concat(frags)| - Position(frags, c)
    requires forall i :: 0 <= i < |writeScript| ==> writeScript[i].Accepted? && writeScript[i].limit > 0
    ensures SendLoop(frags, c, writeScript) == Some(Cursor(|frags|, 0))
    decreases |writeScript|
  {
    if c.idx < |frags| {
      SentPrefix(frags, c);
      SentPrefix(frags, Cursor(c.idx + 1, 0));
      ConcatSnoc(frags, c.idx);
      assert writeScript != [];
      var frag := frags[c.idx];
      var sent := Min(writeScript[0].limit, |frag| - c.off);
      AdvanceCursor(frags, c, sent);
      if c.off + sent == |frag| {
        SendLoopCompletes(frags, Cursor(c.idx + 1, 0), writeScript[1..]);
      } else {
        SentPrefix(frags, Cursor(c.idx, c.off + sent));
        SendLoopCompletes(frags, Cursor(c.idx, c.off + sent), writeScript[1..]);
      }
    }
  }

  /** Every event keeps a session healthy. */
  lemma StepHealthy(job: Job, s: Session, readable: bool, writable: bool,
                    readScript: seq<ReadResult>, writeScript: seq<WriteResult>)
    requires Healthy(job, s)
    ensures var r := OnEvent(job, s, readable, writable, readScript, writeScript);
            r.Open? ==> Healthy(job, r.session)
  {
    if writable && s.cursor.idx < |job.frags| {
      SendLoopAdvances(job.frags, s.cursor, writeScript);
    }
  }

  /** Once a ' ' has arrived, later bytes do not change where the first token ends. */
  lemma FindSpaceKept(x: string, y: string)
    requires FindSpace(x).Some?
    ensures FindSpace(x + y) == FindSpace(x)
  {
    var p := FindSpace(x).value;
    CutAt(x, p);
    AppendAssoc(x[..p] + " ", x[p + 1..], y);
    assert x + y == x[..p] + " " + (x[p + 1..] + y);
    FindSpaceAfter(x[..p], x[p + 1..] + y);
  }

  /** The verdict rests on the first reply token alone: what follows it changes nothing. */
  lemma JudgeStable(x: string, y: string, expected: int)
    requires Judge(x, expected).Some?
    ensures Judge(x + y, expected) == Judge(x, expected)
  {
    FindSpaceKept(x, y);
    var p := FindSpace(x).value;
    assert (x + y)[..p] == x[..p];
  }

  /** The verdict on a reply token `t` followed by ' ' and anything else. */
  lemma JudgeToken(t: string, more: string, expected: int)
    requires NoSpace(t)
    ensures Judge(t + " " + more, expected) ==
            match Stol(t)
            case None => Some(Aborted)
            case Some(got) => Some(if got == expected then Match else Mismatch(got))
  {
    FindSpaceAfter(t, more);
    assert (t + " " + more)[..|t|] == t;
  }

  /** The server's "ERR" reply makes the client terminate. */
  lemma ErrReplyAborts(more: string, expected: int)
    ensures Judge("ERR" + " " + more, expected) == Some(Aborted)
  {
    StolRejectsErr();
    IntToStringNoSpace(0);
    assert NoSpace("ERR");
    JudgeToken("ERR", more, expected);
  }

  /**
   * Once every fragment has gone, EPOLLOUT is no longer registered, and a write
   * event that still arrives sends nothing and changes nothing.
   */
  lemma SentStaysSent(job: Job, s: Session, writeScript: seq<WriteResult>)
    requires Healthy(job, s) && s.cursor.idx == |job.frags|
    ensures !s.writeInterest && OnWritable(job, s, writeScript) == Some(s)
  {
  }

  /**
   * A `recv` that returns 0 only ends the receive loop: before any ' ' has arrived,
   * the session stays open with its input unchanged, whatever follows in the script.
   */
  lemma PeerCloseKeepsSession(job: Job, s: Session, later: seq<ReadResult>)
    requires NoSpace(s.inBuf)
    ensures Collect([Chunk([])] + later) == []
    ensures OnReadable(job, s, [Chunk([])] + later) == Open(s)
  {
    assert s.inBuf + [] == s.inBuf;
  }

  // ----- The loops of one session -----

  /**
   * The send loop of an EPOLLOUT event, on the record's `frag_idx` and
   * `frag_offset`; `open` is false when a call returned 0 or failed.
   */
  method SendFragments(frags: seq<string>, cursor: Cursor, writeScript: seq<WriteResult>)
    returns (open: bool, next: Cursor)
    requires NonEmpty(frags) && CursorIn(frags, cursor)
    ensures var r := SendLoop(frags, cursor, writeScript);
            open == r.Some? && (open ==> next == r.value)
  {
    next := cursor;
    var k := 0;
    while next.idx < |frags| && k < |writeScript|
      invariant 0 <= k <= |writeScript|
      invariant CursorIn(frags, next)
      invariant SendLoop(frags, cursor, writeScript) == SendLoop(frags, next, writeScript[k..])
    {
      assert writeScript[k..][0] == writeScript[k] && writeScript[k..][1..] == writeScript[k + 1..];
      var frag := frags[next.idx];
      match writeScript[k]
      case Accepted(limit) =>
        var sent := Min(limit, |frag| - next.off);
        if sent == 0 {
          return false, next;
        }
        if next.off + sent == |frag| {
          next := Cursor(next.idx + 1, 0);
        } else {
          next := Cursor(next.idx, next.off + sent);
        }
        k := k + 1;
      case WriteWouldBlock =>
        return true, next;
      case WriteFailed =>
        return false, next;
    }
    open := true;
  }

  /** The receive loop of an EPOLLIN event: append every chunk until a read returns 0, EAGAIN or an error. */
  method ReceiveAll(inBuf: string, readScript: seq<ReadResult>) returns (received: string)
    ensures received == inBuf + Collect(readScript)
  {
    received := inBuf;
    var k := 0;
    ghost var acc: string := [];
    assert readScript[0..] == readScript && [] + Collect(readScript) == Collect(readScript);
    while k < |readScript|
      invariant 0 <= k <= |readScript|
      invariant received == inBuf + acc
      invariant Collect(readScript) == acc + Collect(readScript[k..])
    {
      assert readScript[k..][0] == readScript[k] && readScript[k..][1..] == readScript[k + 1..];
      match readScript[k]
      case Chunk(d) =>
        if d == [] {
          assert acc + [] == acc;
          return;
        }
        AppendAssoc(acc, d, Collect(readScript[k + 1..]));
        received := received + d;
        acc := acc + d;
        k := k + 1;
      case ReadWouldBlock =>
        assert acc + [] == acc;
        return;
      case ReadFailed =>
        assert acc + [] == acc;
        return;
    }
    assert acc + [] == acc;
  }

  /**
   * One event on a session's socket: the EPOLLOUT part (send, then drop EPOLLOUT
   * once every fragment has gone), then the EPOLLIN part (receive, then judge the
   * reply once a ' ' has come). `open` is false when the session closes, and
   * then `verdict` is what it closed with.
   */
  method ServeSession(job: Job, s: Session, readable: bool, writable: bool,
                      readScript: seq<ReadResult>, writeScript: seq<WriteResult>)
    returns (open: bool, next: Session, verdict: Option<Verdict>)
    requires Healthy(job, s)
    ensures var r := OnEvent(job, s, readable, writable, readScript, writeScript);
            open == r.Open? &&
            (open ==> next == r.session && Healthy(job, next) && verdict.None?) &&
            (!open ==> verdict == r.verdict)
  {
    StepHealthy(job, s, readable, writable, readScript, writeScript);
    open, next, verdict := true, s, None;
    if writable && s.cursor.idx < |job.frags| {
      var cursor;
      open, cursor := SendFragments(job.frags, s.cursor, writeScript);
      if !open {
        return;
      }
      next := next.(cursor := cursor);
      if cursor.idx == |job.frags| {
        next := next.(writeInterest := false);
      }
    }
    if readable {
      var received := ReceiveAll(next.inBuf, readScript);
      next := next.(inBuf := received);
      verdict := Judge(received, job.expected);
      open := verdict.None?;
    }
  }

  // ----- The table of sessions -----

  /** The client's record of one session (`struct Connection`), with the EPOLLOUT registration of its socket. */
  datatype Connection = Connection(job: Job, session: Session)

  /** One entry of the array `epoll_wait` filled, with what `send` and `recv` return on it. */
  datatype ClientEvent = ClientEvent(fd: int, readable: bool, writable: bool,
                                     readScript: seq<ReadResult>, writeScript: seq<WriteResult>)

  predicate AllHealthy(conns: map<int, Connection>) {
    forall fd :: fd in conns ==> Healthy(conns[fd].job, conns[fd].session)
  }

  /** The table after one event, and the verdict reported by a session it closed. */
  datatype Tick = Tick(conns: map<int, Connection>, verdict: Option<Verdict>)

  /**
   * One event: ignored when its descriptor has no session; otherwise the session
   * is updated, or erased when it closes.
   */
  function Serve(conns: map<int, Connection>, ev: ClientEvent): Tick
    requires AllHealthy(conns)
  {
    if ev.fd !in conns then Tick(conns, None)
    else
      var c := conns[ev.fd];
      match OnEvent(c.job, c.session, ev.readable, ev.writable, ev.readScript, ev.writeScript)
      case Open(s) => Tick(conns[ev.fd := c.(session := s)], None)
      case Closed(v) => Tick(conns - {ev.fd}, v)
  }

  /** Every event keeps every session healthy. */
  lemma ServeHealthy(conns: map<int, Connection>, ev: ClientEvent)
    requires AllHealthy(conns)
    ensures AllHealthy(Serve(conns, ev).conns)
  {
    if ev.fd in conns {
      var c := conns[ev.fd];
      StepHealthy(c.job, c.session, ev.readable, ev.writable, ev.readScript, ev.writeScript);
    }
  }

  /**
   * An event touches its own session only and never its job; a session leaves the
   * table exactly when the event closes it, and a verdict is only reported by a
   * session that closes.
   */
  lemma ServeEffect(conns: map<int, Connection>, ev: ClientEvent)
    requires AllHealthy(conns)
    ensures var t := Serve(conns, ev);
            (forall fd :: fd != ev.fd ==> (fd in t.conns <==> fd in conns)) &&
            (forall fd :: fd in t.conns && fd != ev.fd ==> t.conns[fd] == conns[fd]) &&
            (ev.fd in t.conns ==> ev.fd in conns && t.conns[ev.fd].job == conns[ev.fd].job) &&
            (t.verdict.Some? ==> ev.fd in conns && ev.fd !in t.conns)
  {
  }

  /** The verdict an event reports, as a sequence of at most one. */
  function Reported(v: Option<Verdict>): seq<Verdict> {
    if v.Some? then [v.value] else []
  }

  /** The verdicts reported while handling a batch, and the table after it. */
  datatype Log = Log(conns: map<int, Connection>, verdicts: seq<Verdict>)

  /**
   * The events of one `epoll_wait` batch, in order, collecting the verdicts; an
   * `Aborted` verdict ends everything, since the client terminates there.
   */
  function ServeAll(conns: map<int, Connection>, evs: seq<ClientEvent>): Log
    requires AllHealthy(conns)
    decreases |evs|
  {
    if evs == [] then Log(conns, [])
    else
      var t := Serve(conns, evs[0]);
      ServeHealthy(conns, evs[0]);
      if t.verdict == Some(Aborted) then Log(t.conns, [Aborted])
      else
        var rest := ServeAll(t.conns, evs[1..]);
        Log(rest.conns, Reported(t.verdict) + rest.verdicts)
  }

  /** `ServeAll` on a non-empty batch: the first event, then the rest. */
  lemma ServeAllStep(conns: map<int, Connection>, evs: seq<ClientEvent>)
    requires AllHealthy(conns) && evs != []
    ensures var t := Serve(conns, evs[0]);
            AllHealthy(t.conns) &&
            ServeAll(conns, evs) ==
              if t.verdict == Some(Aborted) then Log(t.conns, [Aborted])
              else Log(ServeAll(t.conns, evs[1..]).conns, Reported(t.verdict) + ServeAll(t.conns, evs[1..]).verdicts)
  {
    ServeHealthy(conns, evs[0]);
  }

  lemma AppendAssoc3<T>(a: seq<T>, b: seq<T>, c: seq<T>)
    ensures a + (b + c) == (a + b) + c
  {
  }

  /**
   * The main loop: batch after batch while any session is active, until the
   * client terminates on an `Aborted` verdict.
   */
  function RunAll(conns: map<int, Connection>, batches: seq<seq<ClientEvent>>): Log
    requires AllHealthy(conns)
    decreases |batches|
  {
    if |conns| == 0 || batches == [] then Log(conns, [])
    else
      var l := ServeAll(conns, batches[0]);
      ServeAllHealthy(conns, batches[0]);
      if Aborted in l.verdicts then l
      else
        var rest := RunAll(l.conns, batches[1..]);
        Log(rest.conns, l.verdicts + rest.verdicts)
  }

  /** `RunAll` on a table with a session in it and a batch to come: the batch, then the rest. */
  lemma RunAllStep(conns: map<int, Connection>, batches: seq<seq<ClientEvent>>)
    requires AllHealthy(conns) && |conns| > 0 && batches != []
    ensures var l := ServeAll(conns, batches[0]);
            AllHealthy(l.conns) &&
            RunAll(conns, batches) ==
              if Aborted in l.verdicts then l
              else Log(RunAll(l.conns, batches[1..]).conns, l.verdicts + RunAll(l.conns, batches[1..]).verdicts)
  {
    ServeAllHealthy(conns, batches[0]);
  }

  lemma {:induction false} ServeAllHealthy(conns: map<int, Connection>, evs: seq<ClientEvent>)
    requires AllHealthy(conns)
    ensures AllHealthy(ServeAll(conns, evs).conns)
    decreases |evs|
  {
    if evs != [] {
      ServeHealthy(conns, evs[0]);
      ServeAllHealthy(Serve(conns, evs[0]).conns, evs[1..]);
    }
  }

  /**
   * Sessions only ever leave the table, and each that leaves with a verdict reports
   * it once: a batch reports at most one verdict per session it erased.
   */
  lemma {:induction false} ServeAllShrinks(conns: map<int, Connection>, evs: seq<ClientEvent>)
    requires AllHealthy(conns)
    ensures var l := ServeAll(conns, evs);
            l.conns.Keys <= conns.Keys && |l.verdicts| <= |conns.Keys - l.conns.Keys|
    decreases |evs|
  {
    if evs != [] {
      var ev := evs[0];
      var t := Serve(conns, ev);
      ServeAllStep(conns, evs);
      ServeEffect(conns, ev);
      assert t.conns.Keys <= conns.Keys;
      var reported := |Reported(t.verdict)|;
      if t.verdict == Some(Aborted) {
        ShrinkCount(conns.Keys, t.conns.Keys, t.conns.Keys, ev.fd, reported, 0);
      } else {
        ServeAllShrinks(t.conns, evs[1..]);
        var rest := ServeAll(t.conns, evs[1..]);
        ShrinkCount(conns.Keys, t.conns.Keys, rest.conns.Keys, ev.fd, reported, |rest.verdicts|);
      }
    }
  }

  /**
   * Counting for one step: an event that reports a verdict erased its own session,
   * and the later verdicts are bounded by the later erasures.
   */
  lemma ShrinkCount(before: set<int>, mid: set<int>, after: set<int>, fd: int, reported: nat, later: nat)
    requires after <= mid <= before
    requires reported <= 1 && (reported == 1 ==> fd in before && fd !in mid)
    requires later <= |mid - after|
    ensures reported + later <= |before - after|
  {
    var gone, goneLater := before - after, mid - after;
    if reported == 1 {
      assert fd in gone && fd !in goneLater;
      SubsetCard(goneLater, gone - {fd});
      assert |gone - {fd}| == |gone| - 1;
    } else {
      SubsetCard(goneLater, gone);
    }
  }

  lemma SubsetCard<T>(a: set<T>, b: set<T>)
    requires a <= b
    ensures |a| <= |b|
  {
    assert b == a + (b - a);
  }

  /** Erasing a present entry shrinks the table by one. */
  lemma EraseCard<V>(m: map<int, V>, k: int)
    requires k in m
    ensures |m - {k}| == |m| - 1
  {
    assert (m - {k}).Keys == m.Keys - {k};
  }

  /** The random draws and the socket for one session of the set-up loop. */
  datatype Plan = Plan(numDraws: seq<nat>, opDraws: seq<nat>, lens: seq<nat>, fd: int)

  /**
   * Draws the random distributions can produce: numbers from 1 to 10, operator
   * indices from 0 to 3, enough of each, and fragment lengths that cut the message.
   */
  predicate Drawable(n: int, plan: Plan) {
    NumberDraws(plan.numDraws) && OperatorDraws(plan.opDraws) &&
    n <= |plan.numDraws| && n - 1 <= |plan.opDraws| &&
    (n >= 1 ==> Cuts(plan.lens, |Render(plan.numDraws[..n], OpsOf(plan.opDraws[..n - 1]), n - 1)| + 1))
  }

  /**
   * The session the set-up loop builds from the draws of `plan`: the fragments
   * of `expr + ' '`, the value the client expects, nothing sent or received yet,
   * and EPOLLIN and EPOLLOUT registered.
   */
  function SessionOf(n: int, plan: Plan): (c: Connection)
    requires Drawable(n, plan) && n >= 1
    ensures Healthy(c.job, c.session)
    ensures var nums := plan.numDraws[..n];
            var ops := OpsOf(plan.opDraws[..n - 1]);
            Concat(c.job.frags) == Render(nums, ops, n - 1) + " " &&
            c.job.expected == Reference.Value(nums, ops, n - 1)
  {
    var nums := plan.numDraws[..n];
    var ops := OpsOf(plan.opDraws[..n - 1]);
    var msg := Render(nums, ops, n - 1) + " ";
    FragmentsCover(msg, plan.lens);
    Connection(Job(FragmentsOf(msg, plan.lens), Reference.Value(nums, ops, n - 1)), Session(Cursor(0, 0), [], true))
  }

  /**
   * One iteration of the set-up loop: build the expression, evaluate it, cut
   * `expr + ' '` into fragments and make the record of the session. `evaluate`
   * throws on the empty expression that n <= 0 gives, and nothing catches it, so
   * the client terminates: `ok` is false.
   */
  method NewSession(n: int, plan: Plan) returns (ok: bool, c: Connection)
    requires Drawable(n, plan)
    ensures ok == (n >= 1)
    ensures ok ==> c == SessionOf(n, plan)
  {
    if n < 1 {
      var expr := BuildExpression(n, plan.numDraws, plan.opDraws);
      var r := Evaluate(expr, YieldZero);
      EmptyExpressionThrows();
      assert r.Err?;
      return false, Connection(Job([], 0), Session(Cursor(0, 0), [], false));
    }
    ok := true;
    c := MakeSession(n, plan);
  }

  /** The set-up loop's body for n >= 1: the expression and its value, then the fragments. */
  method MakeSession(n: int, plan: Plan) returns (c: Connection)
    requires Drawable(n, plan) && n >= 1
    ensures c == SessionOf(n, plan)
  {
    var expr, expected := Expression(n, plan);
    var fragments := Fragment(expr + " ", plan.lens);
    c := Connection(Job(fragments, expected), Session(Cursor(0, 0), [], true));
  }

  /**
   * `build_expression` and then `evaluate` on it: for n >= 1, `evaluate` returns
   * the value of the expression by the grammar.
   */
  method Expression(n: int, plan: Plan) returns (expr: string, expected: int)
    requires Drawable(n, plan) && n >= 1
    ensures var nums, ops := plan.numDraws[..n], OpsOf(plan.opDraws[..n - 1]);
            expr == Render(nums, ops, n - 1) && expected == Reference.Value(nums, ops, n - 1)
  {
    expr := BuildExpression(n, plan.numDraws, plan.opDraws);
    var r := Evaluate(expr, YieldZero);
    DrawnValue(n, plan);
    expected := r.value;
  }

  /** The expression drawn for a session evaluates, on the client, to its value by the grammar. */
  lemma DrawnValue(n: int, plan: Plan)
    requires Drawable(n, plan) && n >= 1
    ensures var nums, ops := plan.numDraws[..n], OpsOf(plan.opDraws[..n - 1]);
            Reference.WellFormed(nums, ops) && Eval(Render(nums, ops, n - 1), YieldZero) == Ok(Reference.Value(nums, ops, n - 1))
  {
    var nums, ops := plan.numDraws[..n], OpsOf(plan.opDraws[..n - 1]);
    assert NumberDraws(nums);
    GeneratedValue(nums, ops, YieldZero);
  }

  /** Every plan holds draws the random distributions can produce. */
  predicate AllDrawable(n: int, plans: seq<Plan>) {
    forall i :: 0 <= i < |plans| ==> Drawable(n, plans[i])
  }

  lemma DrawableTail(n: int, plans: seq<Plan>)
    requires AllDrawable(n, plans) && plans != []
    ensures Drawable(n, plans[0]) && AllDrawable(n, plans[1..])
  {
    assert forall i :: 0 <= i < |plans| - 1 ==> plans[1..][i] == plans[i + 1];
  }

  /** The descriptors of the sockets the plans open. */
  function Descriptors(plans: seq<Plan>): set<int>
    decreases |plans|
  {
    if plans == [] then {} else {plans[0].fd} + Descriptors(plans[1..])
  }

  /**
   * The set-up loop, one plan per session: every session is stored under the
   * descriptor of its socket. `None` when the client terminates on the first one
   * because n <= 0 leaves `evaluate` nothing to evaluate.
   */
  function OpenSessions(conns: map<int, Connection>, n: int, plans: seq<Plan>): Option<map<int, Connection>>
    requires AllDrawable(n, plans)
    decreases |plans|
  {
    if plans == [] then Some(conns)
    else if n < 1 then None
    else
      DrawableTail(n, plans);
      OpenSessions(conns[plans[0].fd := SessionOf(n, plans[0])], n, plans[1..])
  }

  /**
   * Set-up fails exactly when there is a session to open and n <= 0; otherwise the
   * table holds an entry for each plan's descriptor besides the entries it had.
   */
  lemma {:induction false} OpenSessionsEffect(conns: map<int, Connection>, n: int, plans: seq<Plan>)
    requires AllDrawable(n, plans)
    ensures var r := OpenSessions(conns, n, plans);
            (r.None? <==> plans != [] && n < 1) &&
            (r.Some? ==> r.value.Keys == conns.Keys + Descriptors(plans))
    decreases |plans|
  {
    if plans != [] && n >= 1 {
      DrawableTail(n, plans);
      OpenSessionsEffect(conns[plans[0].fd := SessionOf(n, plans[0])], n, plans[1..]);
    }
  }

  /** The last plan's session is the one stored under its descriptor. */
  lemma {:induction false} OpenSessionsLast(conns: map<int, Connection>, n: int, plans: seq<Plan>)
    requires AllDrawable(n, plans) && plans != [] && n >= 1
    ensures var r := OpenSessions(conns, n, plans);
            var last := plans[|plans| - 1];
            r.Some? && last.fd in r.value && r.value[last.fd] == SessionOf(n, last)
    decreases |plans|
  {
    DrawableTail(n, plans);
    var next := conns[plans[0].fd := SessionOf(n, plans[0])];
    if |plans| > 1 {
      OpenSessionsLast(next, n, plans[1..]);
      assert plans[1..][|plans| - 2] == plans[|plans| - 1];
    } else {
      assert plans[1..] == [];
    }
  }

  /** Every session set-up opens starts healthy: nothing sent, nothing received, EPOLLOUT on. */
  lemma {:induction false} OpenSessionsHealthy(conns: map<int, Connection>, n: int, plans: seq<Plan>)
    requires AllHealthy(conns) && AllDrawable(n, plans)
    ensures var r := OpenSessions(conns, n, plans);
            r.Some? ==> AllHealthy(r.value)
    decreases |plans|
  {
    if plans != [] && n >= 1 {
      DrawableTail(n, plans);
      var c := SessionOf(n, plans[0]);
      var next := conns[plans[0].fd := c];
      assert AllHealthy(next);
      OpenSessionsHealthy(next, n, plans[1..]);
    }
  }

  /**
   * The client's event loop: the table of sessions (`std::unordered_map<int,
   * Connection>`), whose records the loop updates in place, and the count of
   * active sessions.
   */
  class EventLoop {
    var conns: map<int, Connection>
    var active: int

    /** After set-up, `active` counts the sessions in the table, and each is healthy. */
    ghost predicate Valid()
      reads this
    {
      AllHealthy(conns) && active == |conns|
    }

    constructor ()
      ensures conns == map[] && Valid()
    {
      conns := map[];
      active := 0;
    }

    /**
     * One iteration of the set-up loop: store the new session under the descriptor
     * of its socket; `ok` is false when the client terminates instead.
     */
    method AddSession(n: int, plan: Plan) returns (ok: bool)
      requires AllHealthy(conns) && Drawable(n, plan)
      modifies this
      ensures ok == (n >= 1) && active == old(active)
      ensures ok ==> AllHealthy(conns) && conns == old(conns)[plan.fd := SessionOf(n, plan)]
      ensures !ok ==> conns == old(conns)
    {
      var c;
      ok, c := NewSession(n, plan);
      if ok {
        conns := conns[plan.fd := c];
      }
    }

    /**
     * The set-up loop, `for (int i = 0; i < connections; ++i)`, one plan per
     * session, and then `int active = conns.size()`. `ok` is false when the client
     * terminates during set-up.
     */
    method SetUp(n: int, plans: seq<Plan>) returns (ok: bool)
      requires AllHealthy(conns) && AllDrawable(n, plans)
      modifies this
      ensures ok == OpenSessions(old(conns), n, plans).Some?
      ensures ok ==> Valid() && conns == OpenSessions(old(conns), n, plans).value
    {
      var i := 0;
      while i < |plans|
        invariant 0 <= i <= |plans|
        invariant AllHealthy(conns)
        invariant OpenSessions(old(conns), n, plans) == OpenSessions(conns, n, plans[i..])
      {
        assert plans[i..][0] == plans[i] && plans[i..][1..] == plans[i + 1..];
        DrawableTail(n, plans[i..]);
        ok := AddSession(n, plans[i]);
        if !ok {
          return;
        }
        i := i + 1;
      }
      assert plans[i..] == [];
      CountActive();
      ok := true;
    }

    /** `int active = conns.size()`, once set-up is over. */
    method CountActive()
      requires AllHealthy(conns)
      modifies this
      ensures Valid() && conns == old(conns)
    {
      active := |conns|;
    }

    /**
     * One event from `epoll_wait`; an unknown descriptor is skipped. `verdict` is
     * the verdict of the session it closed, if any.
     */
    method HandleEvent(ev: ClientEvent) returns (verdict: Option<Verdict>)
      requires Valid()
      modifies this
      ensures Valid() && Tick(conns, verdict) == Serve(old(conns), ev)
    {
      if ev.fd !in conns {
        return None;
      }
      var c := conns[ev.fd];
      var open, next;
      open, next, verdict := ServeSession(c.job, c.session, ev.readable, ev.writable, ev.readScript, ev.writeScript);
      if open {
        conns := conns[ev.fd := c.(session := next)];
      } else {
        EraseCard(conns, ev.fd);
        conns := conns - {ev.fd};
        active := active - 1;
      }
    }

    /** The events of one `epoll_wait` batch, in order, up to an `Aborted` verdict. */
    method Dispatch(evs: seq<ClientEvent>) returns (verdicts: seq<Verdict>)
      requires Valid()
      modifies this
      ensures Valid() && Log(conns, verdicts) == ServeAll(old(conns), evs)
    {
      verdicts := [];
      var i := 0;
      assert evs[i..] == evs && [] + ServeAll(conns, evs).verdicts == ServeAll(conns, evs).verdicts;
      while i < |evs|
        invariant 0 <= i <= |evs|
        invariant Valid()
        invariant var rest := ServeAll(conns, evs[i..]);
                  ServeAll(old(conns), evs) == Log(rest.conns, verdicts + rest.verdicts)
      {
        ghost var before := conns;
        var v := HandleEvent(evs[i]);
        ServeAllStep(before, evs[i..]);
        assert evs[i..][0] == evs[i] && evs[i..][1..] == evs[i + 1..];
        if v == Some(Aborted) {
          return verdicts + [Aborted];
        }
        ghost var rest := ServeAll(conns, evs[i + 1..]);
        AppendAssoc3(verdicts, Reported(v), rest.verdicts);
        verdicts := verdicts + Reported(v);
        i := i + 1;
      }
      assert verdicts + [] == verdicts;
    }

    /** The main loop: `while (active > 0)`, one batch per `epoll_wait`. */
    method Run(batches: seq<seq<ClientEvent>>) returns (verdicts: seq<Verdict>)
      requires Valid()
      modifies this
      ensures Valid() && Log(conns, verdicts) == RunAll(old(conns), batches)
    {
      verdicts := [];
      var b := 0;
      assert batches[b..] == batches && [] + RunAll(conns, batches).verdicts == RunAll(conns, batches).verdicts;
      while active > 0 && b < |batches|
        invariant 0 <= b <= |batches|
        invariant Valid()
        invariant var rest := RunAll(conns, batches[b..]);
                  RunAll(old(conns), batches) == Log(rest.conns, verdicts + rest.verdicts)
        decreases |batches| - b
      {
        ghost var before := conns;
        var vs := Dispatch(batches[b]);
        RunAllStep(before, batches[b..]);
        assert batches[b..][0] == batches[b] && batches[b..][1..] == batches[b + 1..];
        if Aborted in vs {
          return verdicts + vs;
        }
        AppendAssoc3(verdicts, vs, RunAll(conns, batches[b + 1..]).verdicts);
        verdicts := verdicts + vs;
        b := b + 1;
      }
      assert RunAll(conns, batches[b..]) == Log(conns, []) by {
        if b == |batches| {
          assert batches[b..] == [];
        }
      }
      assert verdicts + [] == verdicts;
    }
  }
}
