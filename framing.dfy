/**
 * Space-delimited framing of a byte stream. Both programs cut their input buffer
 * at the first ' ' (`std::string::find(' ')`): what precedes it is one complete
 * message, the space itself is dropped, and whatever follows the last space stays
 * buffered until more bytes arrive.
 */
module Framing {
  import opened Optional
  import opened Text

  /** Index of the first ' ' in `s`; `None` plays the part of `std::string::npos`. */
  function FindSpace(s: string): (r: Option<nat>)
    ensures r.None? <==> NoSpace(s)
    ensures r.Some? ==> r.value < |s| && s[r.value] == ' ' && NoSpace(s[..r.value])
  {
    if s == [] then None
    else if s[0] == ' ' then Some(0)
    else
      assert s == [s[0]] + s[1..];
      match FindSpace(s[1..])
      case None => None
      case Some(i) =>
        assert s[..i + 1] == [s[0]] + s[1..][..i];
        Some(i + 1)
  }

  /** The complete messages in `buf`, in order: every piece that a ' ' terminates. */
  function Frames(buf: string): seq<string>
    decreases |buf|
  {
    match FindSpace(buf)
    case None => []
    case Some(p) => [buf[..p]] + Frames(buf[p + 1..])
  }

  /** What stays buffered after every complete message has been cut off. */
  function Rest(buf: string): string
    decreases |buf|
  {
    match FindSpace(buf)
    case None => buf
    case Some(p) => Rest(buf[p + 1..])
  }

  /** The messages written back to back, each followed by its ' ' terminator. */
  function Join(fs: seq<string>): string {
    if fs == [] then [] else fs[0] + " " + Join(fs[1..])
  }

  predicate AllNoSpace(fs: seq<string>) {
    forall i :: 0 <= i < |fs| ==> NoSpace(fs[i])
  }

  lemma {:induction false} FindSpaceAfter(a: string, b: string)
    requires NoSpace(a)
    ensures FindSpace(a + " " + b) == Some(|a|)
  {
    if a != [] {
      assert (a + " " + b)[1..] == a[1..] + " " + b;
      FindSpaceAfter(a[1..], b);
    }
  }

  lemma AllNoSpaceCons(f: string, fs: seq<string>)
    requires NoSpace(f) && AllNoSpace(fs)
    ensures AllNoSpace([f] + fs)
  {
    forall i | 0 <= i < |[f] + fs|
      ensures NoSpace(([f] + fs)[i])
    {
      if i > 0 {
        assert ([f] + fs)[i] == fs[i - 1];
      }
    }
  }

  /** One cut: a buffer with a ' ' at `p` frames as its first message, then its tail. */
  lemma FramesCut(buf: string, p: nat)
    requires FindSpace(buf) == Some(p)
    ensures Frames(buf) == [buf[..p]] + Frames(buf[p + 1..])
    ensures Rest(buf) == Rest(buf[p + 1..])
  {
    var tail := buf[p + 1..];
    FramesStep(buf, p, tail);
    RestStep(buf, p, tail);
  }

  lemma FramesStep(buf: string, p: nat, tail: string)
    requires FindSpace(buf) == Some(p) && tail == buf[p + 1..]
    ensures Frames(buf) == [buf[..p]] + Frames(tail)
  {
  }

  lemma RestStep(buf: string, p: nat, tail: string)
    requires FindSpace(buf) == Some(p) && tail == buf[p + 1..]
    ensures Rest(buf) == Rest(tail)
  {
  }

  lemma CutAt(buf: string, p: nat)
    requires p < |buf| && buf[p] == ' '
    ensures buf == buf[..p] + " " + buf[p + 1..]
  {
    assert buf[..p + 1] == buf[..p] + [buf[p]];
    assert buf == buf[..p + 1] + buf[p + 1..];
  }

  lemma AppendAssoc(a: string, b: string, c: string)
    ensures a + b + c == a + (b + c)
  {
  }

  lemma JoinCons(head: string, fs: seq<string>)
    ensures Join([head] + fs) == head + " " + Join(fs)
  {
    var gs := [head] + fs;
    assert gs[0] == head && gs[1..] == fs;
  }

  lemma SplitCons(buf: string, p: nat)
    requires FindSpace(buf) == Some(p)
    requires buf[p + 1..] == Join(Frames(buf[p + 1..])) + Rest(buf[p + 1..])
    ensures buf == Join(Frames(buf)) + Rest(buf)
  {
    var head, tail := buf[..p], buf[p + 1..];
    var ft, rt := Frames(tail), Rest(tail);
    FramesCut(buf, p);
    JoinCons(head, ft);
    CutAt(buf, p);
    calc {
      Join(Frames(buf)) + Rest(buf);
      Join([head] + ft) + rt;
      head + " " + Join(ft) + rt;
      { AppendAssoc(head + " ", Join(ft), rt); }
      head + " " + (Join(ft) + rt);
      buf;
    }
  }

  /**
   * Every buffer is its complete messages, each with its terminator, followed by a
   * remainder that holds no ' '; no message contains a ' '.
   */
  lemma {:induction false} SplitFrames(buf: string)
    ensures buf == Join(Frames(buf)) + Rest(buf)
    ensures NoSpace(Rest(buf)) && AllNoSpace(Frames(buf))
    decreases |buf|
  {
    var r := FindSpace(buf);
    if r.None? {
      assert Frames(buf) == [] && Rest(buf) == buf;
      assert Join([]) + buf == buf;
    } else {
      var p := r.value;
      SplitFrames(buf[p + 1..]);
      SplitCons(buf, p);
      FramesCut(buf, p);
      AllNoSpaceCons(buf[..p], Frames(buf[p + 1..]));
    }
  }

  /**
   * Conversely, messages without a ' ' written with their terminators, followed by
   * an unterminated remainder, are cut back into exactly those messages.
   */
  lemma {:induction false} FramesOfJoin(fs: seq<string>, r: string)
    requires AllNoSpace(fs) && NoSpace(r)
    ensures Frames(Join(fs) + r) == fs && Rest(Join(fs) + r) == r
  {
    if fs == [] {
      assert Join(fs) + r == r;
    } else {
      var s, tail := Join(fs) + r, Join(fs[1..]) + r;
      JoinFirst(fs, r);
      FindSpaceAfter(fs[0], tail);
      FramesCut(s, |fs[0]|);
      FramesOfJoin(fs[1..], r);
      assert fs == [fs[0]] + fs[1..];
    }
  }

  /** A joined list is its first message, a ' ', then the rest of the list. */
  lemma JoinFirst(fs: seq<string>, r: string)
    requires fs != []
    ensures var s, tail := Join(fs) + r, Join(fs[1..]) + r;
            s == fs[0] + " " + tail && s[..|fs[0]|] == fs[0] && s[|fs[0]| + 1..] == tail
  {
    var tail := Join(fs[1..]) + r;
    assert Join(fs) == fs[0] + " " + Join(fs[1..]);
    AppendAssoc(fs[0] + " ", Join(fs[1..]), r);
    Around(fs[0], tail);
  }

  lemma Around(a: string, b: string)
    ensures (a + " " + b)[..|a|] == a && (a + " " + b)[|a| + 1..] == b
  {
    var s := a + " " + b;
    assert forall i :: 0 <= i < |a| ==> s[..|a|][i] == a[i];
    assert forall i :: 0 <= i < |b| ==> s[|a| + 1..][i] == b[i];
  }

  lemma AllNoSpaceAppend(fs: seq<string>, gs: seq<string>)
    requires AllNoSpace(fs) && AllNoSpace(gs)
    ensures AllNoSpace(fs + gs)
  {
    forall i | 0 <= i < |fs + gs|
      ensures NoSpace((fs + gs)[i])
    {
      if i >= |fs| {
        assert (fs + gs)[i] == gs[i - |fs|];
      }
    }
  }

  lemma {:induction false} JoinAppend(fs: seq<string>, gs: seq<string>)
    ensures Join(fs + gs) == Join(fs) + Join(gs)
  {
    if fs == [] {
      assert fs + gs == gs;
    } else {
      assert (fs + gs)[0] == fs[0] && (fs + gs)[1..] == fs[1..] + gs;
      JoinAppend(fs[1..], gs);
    }
  }

  /**
   * Framing does not depend on how the stream was cut into reads: framing `x + y`
   * gives the messages of `x`, then those of what `x` left buffered followed by `y`.
   */
  lemma FramesAppend(x: string, y: string)
    ensures Frames(x + y) == Frames(x) + Frames(Rest(x) + y)
    ensures Rest(x + y) == Rest(Rest(x) + y)
  {
    var z := Rest(x) + y;
    SplitFrames(x);
    SplitFrames(z);
    var fx, fz := Frames(x), Frames(z);
    calc {
      x + y;
      Join(fx) + Rest(x) + y;
      { AppendAssoc(Join(fx), Rest(x), y); }
      Join(fx) + z;
      Join(fx) + (Join(fz) + Rest(z));
      { AppendAssoc(Join(fx), Join(fz), Rest(z)); }
      Join(fx) + Join(fz) + Rest(z);
      { JoinAppend(fx, fz); }
      Join(fx + fz) + Rest(z);
    }
    AllNoSpaceAppend(fx, fz);
    FramesOfJoin(fx + fz, Rest(z));
  }
}
