/**
 * What the non-blocking socket calls can return, as seen by the two event loops.
 * A socket is modelled by the script of results its calls return during one
 * readiness event; a script that runs out means the call would block (EAGAIN).
 */
module Transport {
  /**
   * One `read`/`recv`: the bytes it returned (an empty chunk is the 0 that means
   * the peer closed), -1 with EAGAIN/EWOULDBLOCK, or -1 with any other error.
   */
  datatype ReadResult = Chunk(data: string) | ReadWouldBlock | ReadFailed

  /**
   * One `write`/`send` offered `len` bytes: `Accepted(k)` takes min(k, len) of them
   * (k == 0 is a call that returns 0), or -1 with EAGAIN/EWOULDBLOCK, or -1 with
   * any other error.
   */
  datatype WriteResult = Accepted(limit: nat) | WriteWouldBlock | WriteFailed

  /** One `accept` on the listening socket: a new descriptor, EAGAIN, or an error. */
  datatype AcceptResult = NewConnection(fd: nat) | AcceptWouldBlock | AcceptFailed

  function Min(a: nat, b: nat): nat {
    if a <= b then a else b
  }
}
