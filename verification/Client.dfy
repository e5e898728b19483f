/** `get_cmd`, the parser at the client's end of the connection. */
module Client {
  import opened Bytes
  import opened Wire
  import opened ServerFrames

  /** What `select` and `recv` give the client next: a byte, or nothing for
      half a second. */
  datatype Event = Incoming(value: byte) | Quiet

  datatype Command = Command(typ: byte, size: nat, data: seq<byte>)

  datatype Reply = Got(cmd: Command) | TimedOut

  /** The events begin with the bytes bs. */
  ghost predicate Heard(es: seq<Event>, bs: seq<byte>) {
    |bs| <= |es| && forall i :: 0 <= i < |bs| ==> es[i] == Incoming(bs[i])
  }

  // ----- the reference: substring search -----

  predicate MagicStarts(bs: seq<byte>, q: int) {
    0 <= q && q + 4 <= |bs| && bs[q] == 0x56 && bs[q + 1] == 0x13 && bs[q + 2] == 0x42 && bs[q + 3] == 0x41
  }

  /** Byte `i` is the last one of a magic number. */
  predicate Completes(bs: seq<byte>, i: int) {
    i < |bs| && MagicStarts(bs, i - 3)
  }

  ghost predicate FirstMagic(bs: seq<byte>, p: nat) {
    MagicStarts(bs, p) && forall q :: 0 <= q < p ==> !MagicStarts(bs, q)
  }

  /** No magic number in these bytes. */
  ghost predicate MagicFree(bs: seq<byte>) {
    forall q :: !MagicStarts(bs, q)
  }

  /** The bytes of bs[from..until] without those that complete a magic number. */
  function Kept(bs: seq<byte>, from: nat, until: nat): seq<byte>
    requires from <= until <= |bs|
    decreases until
  {
    if from == until then []
    else if Completes(bs, until - 1) then Kept(bs, from, until - 1)
    else Kept(bs, from, until - 1) + [bs[until - 1]]
  }

  /** The header's idea of how many bytes follow it. */
  function Announced(frame: seq<byte>): nat
    requires |frame| >= 3
  {
    LittleEndian16(frame[1], frame[2])
  }

  /** Byte number n of `bs` is kept and is the last one of the frame that
      begins after the magic number at `p`. */
  predicate FrameEnds(bs: seq<byte>, p: nat, n: nat) {
    && p + 4 < n <= |bs|
    && !Completes(bs, n - 1)
    && var frame := Kept(bs, p + 4, n);
       |frame| > 3 && |frame| == 3 + Announced(frame)
  }

  /** `c` is the command that the first n bytes of `bs` carry. */
  ghost predicate Answers(bs: seq<byte>, p: nat, n: nat, c: Command) {
    && FirstMagic(bs, p)
    && FrameEnds(bs, p, n)
    && var frame := Kept(bs, p + 4, n);
       c == Command(frame[0], Announced(frame), frame[3..])
  }

  // ----- the sliding window -----

  function At(bs: seq<byte>, i: int): byte
    requires i < |bs|
  {
    if i < 0 then 0 else bs[i]
  }

  /** One step of the client's 32-bit window. */
  function Slide(window: nat, value: byte): nat {
    window / 256 + 0x100_0000 * value as nat
  }

  function WindowAfter(bs: seq<byte>): nat {
    if bs == [] then 0 else Slide(WindowAfter(bs[..|bs| - 1]), bs[|bs| - 1])
  }

  lemma {:induction false} SlideShifts(a: byte, b: byte, c: byte, d: byte, e: byte)
    ensures Slide(BigEndian32(a, b, c, d), e) == BigEndian32(e, a, b, c)
  {}

  lemma {:induction false} MagicWord(a: byte, b: byte, c: byte, d: byte)
    ensures BigEndian32(a, b, c, d) == MAGIC_WORD <==> a == 0x41 && b == 0x42 && c == 0x13 && d == 0x56
  {}

  /** The window holds the last four bytes, zeros standing in for bytes before
      the beginning. */
  lemma {:induction false} WindowIsLastFour(bs: seq<byte>)
    ensures var n := |bs|;
      WindowAfter(bs) == BigEndian32(At(bs, n - 1), At(bs, n - 2), At(bs, n - 3), At(bs, n - 4))
  {
    var n := |bs|;
    if n > 0 {
      var cs := bs[..n - 1];
      WindowIsLastFour(cs);
      SlideShifts(At(cs, n - 2), At(cs, n - 3), At(cs, n - 4), At(cs, n - 5), bs[n - 1]);
    }
  }

  lemma {:induction false} FourBytes(bs: seq<byte>, a: byte, b: byte, c: byte, d: byte)
    requires var n := |bs|; a == At(bs, n - 1) && b == At(bs, n - 2) && c == At(bs, n - 3) && d == At(bs, n - 4)
    ensures Completes(bs, |bs| - 1) <==> a == 0x41 && b == 0x42 && c == 0x13 && d == 0x56
  {}

  /** The window equals the magic number exactly when the last four bytes are
      there and are the magic number: the initial zeros never match. */
  lemma {:induction false} WindowFindsMagic(bs: seq<byte>)
    ensures WindowAfter(bs) == MAGIC_WORD <==> Completes(bs, |bs| - 1)
  {
    var n := |bs|;
    var a, b, c, d := At(bs, n - 1), At(bs, n - 2), At(bs, n - 3), At(bs, n - 4);
    WindowIsLastFour(bs);
    FourBytes(bs, a, b, c, d);
    MagicWord(a, b, c, d);
  }

  // ----- properties of the reference -----

  lemma {:induction false} KeptGrows(bs: seq<byte>, from: nat, n: nat, m: nat)
    requires from <= n <= m <= |bs|
    ensures Kept(bs, from, n) <= Kept(bs, from, m)
    decreases m
  {
    if n < m {
      KeptGrows(bs, from, n, m - 1);
    }
  }

  /** At most one command answers a given stream. */
  lemma {:induction false} AnswersUnique(bs: seq<byte>, p: nat, n: nat, c: Command, p': nat, n': nat, c': Command)
    requires Answers(bs, p, n, c) && Answers(bs, p', n', c')
    ensures p == p' && n == n' && c == c'
  {
    assert p == p';
    if n < n' {
      FrameEndsOnce(bs, p, n, n');
    } else if n' < n {
      FrameEndsOnce(bs, p, n', n);
    }
  }

  lemma {:induction false} FrameEndsOnce(bs: seq<byte>, p: nat, n: nat, m: nat)
    requires FrameEnds(bs, p, n) && n < m && p + 4 < m <= |bs|
    ensures !FrameEnds(bs, p, m)
  {
    KeptGrows(bs, p + 4, n, m - 1);
    var frame, later := Kept(bs, p + 4, n), Kept(bs, p + 4, m - 1);
    if !Completes(bs, m - 1) {
      assert (later + [bs[m - 1]])[1] == frame[1] && (later + [bs[m - 1]])[2] == frame[2];
    }
  }

  /** The fields of an answer, where no magic number interrupts it: the type, the
      size least significant byte first, and that many bytes, to the last one
      read. */
  lemma {:induction false} AnswerFields(bs: seq<byte>, p: nat, n: nat, c: Command)
    requires Answers(bs, p, n, c) && forall i :: p + 4 <= i < n ==> !Completes(bs, i)
    ensures n == p + 7 + c.size && c.size >= 1
    ensures c.typ == bs[p + 4] && c.size == bs[p + 5] as nat + 256 * bs[p + 6] as nat && c.data == bs[p + 7..n]
    ensures bs[p] == 0x56 && bs[p + 1] == 0x13 && bs[p + 2] == 0x42 && bs[p + 3] == 0x41
  {
    KeptAll(bs, p + 4, n);
    assert bs[p + 4..n][3..] == bs[p + 7..n];
  }

  /** Between magic numbers nothing is left out. */
  lemma {:induction false} KeptAll(bs: seq<byte>, from: nat, until: nat)
    requires from <= until <= |bs|
    ensures |Kept(bs, from, until)| <= until - from
    ensures |Kept(bs, from, until)| == until - from <==> forall i :: from <= i < until ==> !Completes(bs, i)
    ensures |Kept(bs, from, until)| == until - from ==> Kept(bs, from, until) == bs[from..until]
    decreases until
  {
    if from < until {
      KeptAll(bs, from, until - 1);
      assert bs[from..until] == bs[from..until - 1] + [bs[until - 1]];
    }
  }

  // ----- the client -----

  /** How far the parser is after the bytes bs, in terms of the reference: the
      frame collected is what is kept after the first magic number, at `p`. */
  ghost predicate Progress(bs: seq<byte>, magicDetected: bool, p: nat, frame: seq<byte>) {
    if magicDetected then FirstMagic(bs, p) && frame == Kept(bs, p + 4, |bs|)
    else frame == [] && MagicFree(bs)
  }

  /** The header fields and the countdown, and that the frame is not over. */
  predicate Counting(frame: seq<byte>, size: nat, cmdSize: int) {
    |frame| >= 3 ==>
      && size == Announced(frame)
      && cmdSize == size - (|frame| - 3)
      && (|frame| > 3 ==> cmdSize != 0)
      && (size > 0 ==> cmdSize > 0)
  }

  lemma {:induction false} KeptOfLonger(bs: seq<byte>, more: seq<byte>, from: nat, until: nat)
    requires from <= until <= |bs|
    ensures Kept(bs + more, from, until) == Kept(bs, from, until)
    decreases until
  {
    if from < until {
      KeptOfLonger(bs, more, from, until - 1);
      assert Completes(bs + more, until - 1) <==> Completes(bs, until - 1);
    }
  }

  lemma {:induction false} FirstMagicOfLonger(bs: seq<byte>, more: seq<byte>, p: nat)
    requires p + 4 <= |bs|
    ensures FirstMagic(bs + more, p) <==> FirstMagic(bs, p)
  {
    assert forall q :: 0 <= q <= p ==> (MagicStarts(bs + more, q) <==> MagicStarts(bs, q));
  }

  lemma {:induction false} FrameEndsOfLonger(bs: seq<byte>, more: seq<byte>, p: nat, n: nat)
    requires p + 4 < n <= |bs|
    ensures FrameEnds(bs + more, p, n) <==> FrameEnds(bs, p, n)
    ensures Kept(bs + more, p + 4, n) == Kept(bs, p + 4, n)
  {
    KeptOfLonger(bs, more, p + 4, n);
    assert Completes(bs + more, n - 1) <==> Completes(bs, n - 1);
  }

  /** An answer does not depend on what comes after it. */
  lemma {:induction false} AnswersOfLonger(bs: seq<byte>, more: seq<byte>, p: nat, n: nat, c: Command)
    requires n <= |bs|
    ensures Answers(bs + more, p, n, c) <==> Answers(bs, p, n, c)
  {
    if p + 4 < n {
      FirstMagicOfLonger(bs, more, p);
      FrameEndsOfLonger(bs, more, p, n);
    }
  }

  /** A byte that completes a magic number is left out of the frame. */
  lemma {:induction false} MagicSkipped(bs: seq<byte>, value: byte, magicDetected: bool, p: nat, frame: seq<byte>)
    requires Progress(bs, magicDetected, p, frame) && Completes(bs + [value], |bs|)
    ensures |bs| >= 3 && Progress(bs + [value], true, if magicDetected then p else |bs| - 3, frame)
  {
    if magicDetected {
      FirstMagicOfLonger(bs, [value], p);
      KeptOfLonger(bs, [value], p + 4, |bs|);
    } else {
      assert forall q :: 0 <= q < |bs| - 3 ==> (MagicStarts(bs + [value], q) <==> MagicStarts(bs, q));
    }
  }

  /** Before the first magic number nothing is collected. */
  lemma {:induction false} StillWaiting(bs: seq<byte>, value: byte, p: nat, frame: seq<byte>)
    requires Progress(bs, false, p, frame) && !Completes(bs + [value], |bs|)
    ensures Progress(bs + [value], false, p, frame)
  {
    assert forall q :: q != |bs| - 3 ==> (MagicStarts(bs + [value], q) <==> MagicStarts(bs, q));
  }

  lemma {:induction false} ByteKept(bs: seq<byte>, value: byte, p: nat, frame: seq<byte>)
    requires Progress(bs, true, p, frame) && !Completes(bs + [value], |bs|)
    ensures Progress(bs + [value], true, p, frame + [value])
  {
    FirstMagicOfLonger(bs, [value], p);
    KeptOfLonger(bs, [value], p + 4, |bs|);
  }

  /** The frame is over when the countdown reaches zero. */
  lemma {:induction false} CountdownEnds(bs: seq<byte>, p: nat, frame: seq<byte>)
    requires bs != [] && !Completes(bs, |bs| - 1) && Progress(bs, true, p, frame)
    requires |frame| > 3 && |frame| == 3 + Announced(frame)
    ensures Answers(bs, p, |bs|, Command(frame[0], Announced(frame), frame[3..]))
  {}

  ghost predicate NoAnswer(bs: seq<byte>) {
    forall p, n, c :: !Answers(bs, p, n, c)
  }

  lemma {:induction false} SameAnnounced(a: seq<byte>, b: seq<byte>)
    requires 3 <= |a| && a <= b
    ensures Announced(a) == Announced(b)
  {}

  /** While the countdown runs nothing has been answered. */
  lemma {:induction false} NothingEnded(bs: seq<byte>, magicDetected: bool, p: nat, frame: seq<byte>, size: nat,
                                        cmdSize: int)
    requires Progress(bs, magicDetected, p, frame) && Counting(frame, size, cmdSize)
    ensures NoAnswer(bs)
  {
    forall p': nat, n: nat, c
      ensures !Answers(bs, p', n, c)
    {
      if Answers(bs, p', n, c) {
        KeptGrows(bs, p + 4, n, |bs|);
        SameAnnounced(Kept(bs, p + 4, n), frame);
        assert false;
      }
    }
  }

  lemma {:induction false} WindowGrows(bs: seq<byte>, value: byte)
    ensures WindowAfter(bs + [value]) == Slide(WindowAfter(bs), value)
    ensures WindowAfter(bs + [value]) == MAGIC_WORD <==> Completes(bs + [value], |bs|)
  {
    assert (bs + [value])[..|bs|] == bs;
    WindowFindsMagic(bs + [value]);
  }

  class Connection {
    var socket: seq<Event>

    constructor (events: seq<Event>)
      ensures socket == events
    {
      socket := events;
    }

    /** Returns the next command, or gives up at the first silence; `bs` are
        the bytes it has read, which in the latter case are lost. */
    method GetCmd() returns (r: Reply, ghost bs: seq<byte>, ghost p: nat)
      modifies this
      ensures Heard(old(socket), bs)
      ensures r.Got? ==> Answers(bs, p, |bs|, r.cmd) && socket == old(socket)[|bs|..]
      ensures r.TimedOut? ==> NoAnswer(bs)
      ensures r.TimedOut? && |bs| == |old(socket)| ==> socket == []
      ensures r.TimedOut? && |bs| < |old(socket)| ==> old(socket)[|bs|] == Quiet && socket == old(socket)[|bs| + 1..]
    {
      ghost var es := socket;
      var cmdDetected, magicDetected := false, false;
      var cmdSize: int := -1;
      var size: nat := 0;
      var magic: nat := 0;
      var frame: seq<byte> := [];
      bs, p := [], 0;
      while !cmdDetected
        invariant Heard(es, bs) && socket == es[|bs|..]
        invariant magic == WindowAfter(bs)
        invariant Progress(bs, magicDetected, p, frame)
        invariant !cmdDetected ==> Counting(frame, size, cmdSize)
        invariant cmdDetected ==> |frame| > 3 && Answers(bs, p, |bs|, Command(frame[0], size, frame[3..]))
        decreases |socket|, !cmdDetected
      {
        if socket == [] {
          NothingEnded(bs, magicDetected, p, frame, size, cmdSize);
          return TimedOut, bs, p;
        }
        DropStep(es, |bs|);
        var e := socket[0];
        socket := socket[1..];
        if e.Quiet? {
          NothingEnded(bs, magicDetected, p, frame, size, cmdSize);
          return TimedOut, bs, p;
        }
        var value := e.value;
        WindowGrows(bs, value);
        magic := Slide(magic, value);
        if magic == MAGIC_WORD {
          MagicSkipped(bs, value, magicDetected, p, frame);
          p := if magicDetected then p else |bs| - 3;
          bs := bs + [value];
          magicDetected := true;
        } else {
          if magicDetected {
            ByteKept(bs, value, p, frame);
            frame := frame + [value];
          } else {
            StillWaiting(bs, value, p, frame);
          }
          bs := bs + [value];
          if |frame| == 3 {
            size := Announced(frame);
            cmdSize := size;
          } else if |frame| > 3 {
            cmdSize := cmdSize - 1;
            if cmdSize == 0 {
              cmdDetected := true;
              CountdownEnds(bs, p, frame);
            }
          }
        }
      }
      r := Got(Command(frame[0], size, frame[3..]));
    }
  }
}
