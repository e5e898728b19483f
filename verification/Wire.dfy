/** The client-to-server wire format, and what one call of
    `Network::decapsulate` makes of the bytes it finds in the input FIFO. */
module Wire {
  import opened Bytes

  const MAX_DATA_LEN: nat := 100

  const MAGIC_WORD: nat := 0x4142_1356

  const CMD_RFID: byte := 0
  const CMD_MOTOR: byte := 1
  const INFO_RFID: byte := 2
  const INFO_MOTOR: byte := 3
  const RFID_DIRECT: byte := 4

  /** A command or report, without its transport. */
  datatype Message = Message(typ: byte, payload: seq<byte>)

  /** A message that fits the fixed data array of a `packet_t`. */
  type Short = m: Message | |m.payload| <= MAX_DATA_LEN witness Message(0, [])

  /** The C structure: a fixed array of which only the first `size` bytes
      are meaningful. */
  datatype Packet = Packet(typ: byte, size: nat, data: seq<byte>) {
    predicate Valid() {
      size <= MAX_DATA_LEN == |data|
    }

    function Content(): Short
      requires Valid()
    {
      Message(typ, data[..size])
    }
  }

  /** What the packets of a queue carry. */
  function Contents(ps: seq<Packet>): (ms: seq<Short>)
    requires forall p <- ps :: p.Valid()
    ensures |ms| == |ps|
  {
    if ps == [] then [] else [ps[0].Content()] + Contents(ps[1..])
  }

  lemma {:induction false} ContentsAppend(ps: seq<Packet>, qs: seq<Packet>)
    requires forall p <- ps + qs :: p.Valid()
    ensures forall p <- ps :: p in ps + qs
    ensures forall p <- qs :: p in ps + qs
    ensures Contents(ps + qs) == Contents(ps) + Contents(qs)
  {
    if ps == [] {
      assert ps + qs == qs;
    } else {
      assert (ps + qs)[0] == ps[0] && (ps + qs)[1..] == ps[1..] + qs;
      ContentsAppend(ps[1..], qs);
    }
  }

  // ----- what the client prints -----

  /** Magic number, type and size, all most significant byte first. */
  function Header(m: Short): (h: seq<byte>)
    ensures |h| == 7
  {
    [0x41, 0x42, 0x13, 0x56, m.typ, High(|m.payload|), Low(|m.payload|)]
  }

  function Frame(m: Short): (f: seq<byte>)
    ensures |f| == 7 + |m.payload|
  {
    Header(m) + m.payload
  }

  function Stream(ms: seq<Short>): seq<byte> {
    if ms == [] then [] else Frame(ms[0]) + Stream(ms[1..])
  }

  lemma {:induction false} StreamAppend(ms: seq<Short>, ns: seq<Short>)
    ensures Stream(ms + ns) == Stream(ms) + Stream(ns)
  {
    if ms == [] {
      assert ms + ns == ns;
    } else {
      assert (ms + ns)[1..] == ms[1..] + ns;
      StreamAppend(ms[1..], ns);
    }
  }

  // ----- what one call of decapsulate makes of a FIFO -----

  /** The outcome of one call: it runs past the bytes it has (or past the
      packet's data array), or it has used up a prefix of the FIFO and handed
      messages to the dispatcher. */
  datatype Sweep = Fault | Swept(used: nat, forwarded: seq<Short>)

  predicate MagicAt(v: seq<byte>, k: nat) {
    k + 4 <= |v| && v[k] == 0x41 && v[k + 1] == 0x42 && v[k + 2] == 0x13 && v[k + 3] == 0x56
  }

  /** Header and payload of a frame whose type byte lies at k are within the
      buffer, and the payload within the packet's array. */
  predicate HasFrame(v: seq<byte>, k: nat) {
    k + 3 <= |v| && var size := BigEndian16(v[k + 1], v[k + 2]); size <= MAX_DATA_LEN && k + 3 + size <= |v|
  }

  function EndOf(v: seq<byte>, k: nat): (end: nat)
    requires HasFrame(v, k)
    ensures k + 3 <= end <= |v|
  {
    k + 3 + BigEndian16(v[k + 1], v[k + 2])
  }

  function FrameOf(v: seq<byte>, k: nat): Short
    requires HasFrame(v, k)
  {
    Message(v[k], v[k + 3..EndOf(v, k)])
  }

  /** The call from position `k` on, right after an accepted magic number. */
  function SweepFrom(v: seq<byte>, k: nat): (s: Sweep)
    ensures s.Swept? ==> k < s.used <= |v|
    decreases |v| - k
  {
    if !HasFrame(v, k) then Fault else
    var m, end := FrameOf(v, k), EndOf(v, k);
    if end + 4 < MAX_DATA_LEN && end + 4 < |v| then
      if MagicAt(v, end) then
        match SweepFrom(v, end + 4)
        case Fault => Fault
        case Swept(used, ms) => Swept(used, [m] + ms)
      else Swept(end + 4, [m])
    else Swept(end, [m])
  }

  function SweepOf(v: seq<byte>): (s: Sweep)
    ensures s.Swept? ==> 0 < s.used <= |v|
  {
    if |v| < 4 then Fault
    else if MagicAt(v, 0) then SweepFrom(v, 4)
    else Swept(4, [])
  }

  // ----- how that relates to the frames the client printed -----

  /** How many of the frames `ms` a call uses that has already used `used`
      bytes: it goes on as long as it is below 96 bytes. */
  function Cut(used: nat, ms: seq<Short>): (n: nat)
    ensures n <= |ms| && (ms != [] ==> n >= 1)
    decreases ms
  {
    if ms == [] then 0
    else if used + |Frame(ms[0])| < MAX_DATA_LEN - 4 then 1 + Cut(used + |Frame(ms[0])|, ms[1..])
    else 1
  }

  /** `Cut` picks the shortest non-empty run of frames that reaches 96 bytes,
      or all of them when none does. */
  lemma {:induction false} CutIsShortest(used: nat, ms: seq<Short>)
    requires ms != []
    ensures var n := Cut(used, ms);
      && 1 <= n <= |ms|
      && (n < |ms| ==> used + |Stream(ms[..n])| >= 96)
      && forall j :: 1 <= j < n ==> used + |Stream(ms[..j])| < 96
    decreases ms
  {
    var n, used' := Cut(used, ms), used + |Frame(ms[0])|;
    forall j | 1 <= j <= |ms|
      ensures |Stream(ms[..j])| == |Frame(ms[0])| + |Stream(ms[1..][..j - 1])|
    {
      assert ms[..j][1..] == ms[1..][..j - 1];
    }
    if used' < 96 && |ms| > 1 {
      CutIsShortest(used', ms[1..]);
    }
  }

  lemma {:induction false} HeaderFields(m: Short, f: seq<byte>)
    requires |f| >= 7 && f[..7] == Header(m)
    ensures MagicAt(f, 0) && f[4] == m.typ && BigEndian16(f[5], f[6]) == |m.payload|
  {
    var h := Header(m);
    assert forall i :: 0 <= i < 7 ==> f[i] == f[..7][i];
    SizeRoundTrip(|m.payload|);
  }

  /** Where the fields of a frame lie in a buffer that contains it. */
  lemma {:induction false} FrameAt(v: seq<byte>, pre: seq<byte>, m: Short, rest: seq<byte>)
    requires v == pre + Frame(m) + rest
    ensures var k := |pre|; var end := k + 7 + |m.payload|;
      && end <= |v|
      && MagicAt(v, k)
      && v[k + 4] == m.typ && BigEndian16(v[k + 5], v[k + 6]) == |m.payload|
      && v[k + 7..end] == m.payload
  {
    var f, k := Frame(m), |pre|;
    assert f[..7] == Header(m) && f[7..] == m.payload;
    HeaderFields(m, f);
    assert forall i :: 0 <= i < |f| ==> v[k + i] == f[i];
    assert v[k + 7..k + |f|] == f[7..];
  }

  /** A truncated frame makes the call run out of bytes. */
  lemma {:induction false} CutFrameFaults(v: seq<byte>, pre: seq<byte>, m: Short, tail: seq<byte>)
    requires v == pre + tail && tail < Frame(m) && |tail| >= 4
    ensures MagicAt(v, |pre|) && SweepFrom(v, |pre| + 4) == Fault
  {
    var f, k := Frame(m), |pre|;
    assert f[..7] == Header(m);
    HeaderFields(m, f);
    assert forall i :: 0 <= i < |tail| ==> v[k + i] == tail[i] == f[i];
  }

  /** One turn of the loop, on a buffer with a frame at the cursor. */
  lemma {:induction false} SweepAt(v: seq<byte>, k: nat, m: Short, end: nat)
    requires k + 3 + |m.payload| == end <= |v|
    requires v[k] == m.typ && BigEndian16(v[k + 1], v[k + 2]) == |m.payload| && v[k + 3..end] == m.payload
    ensures SweepFrom(v, k) ==
      if end + 4 < MAX_DATA_LEN && end + 4 < |v| then
        if MagicAt(v, end) then
          match SweepFrom(v, end + 4)
          case Fault => Fault
          case Swept(used, ms) => Swept(used, [m] + ms)
        else Swept(end + 4, [m])
      else Swept(end, [m])
  {
    assert HasFrame(v, k) && EndOf(v, k) == end && FrameOf(v, k) == m;
  }

  lemma {:induction false} MagicAtFrame(v: seq<byte>, pre: seq<byte>, ms: seq<Short>, tail: seq<byte>)
    requires ms != [] && v == pre + Stream(ms) + tail
    ensures MagicAt(v, |pre|) && |Stream(ms)| >= 7
    ensures v == pre + Frame(ms[0]) + (Stream(ms[1..]) + tail)
    ensures v == pre + Frame(ms[0]) + Stream(ms[1..]) + tail
  {
    var f, rest := Frame(ms[0]), Stream(ms[1..]);
    Assoc(pre, f, rest);
    Assoc(pre + f, rest, tail);
    FrameAt(v, pre, ms[0], rest + tail);
  }

  /** What the call makes of whole frames and a piece of another. */
  function SweepSpec(used: nat, ms: seq<Short>, tail: seq<byte>): Sweep {
    if used + |Stream(ms)| < MAX_DATA_LEN - 4 && |tail| > 4 then Fault
    else Swept(used + |Stream(ms[..Cut(used, ms)])|, ms[..Cut(used, ms)])
  }

  lemma {:induction false} SweepSpecStep(used: nat, ms: seq<Short>, tail: seq<byte>)
    requires ms != []
    ensures var end := used + |Frame(ms[0])|;
      SweepSpec(used, ms, tail) ==
      if end < 96 && |ms| > 1 then
        match SweepSpec(end, ms[1..], tail)
        case Fault => Fault
        case Swept(n, rest) => Swept(n, [ms[0]] + rest)
      else if end < 96 && |tail| > 4 then Fault
      else Swept(end, [ms[0]])
  {
    var n := Cut(used, ms);
    TakeCons(ms, n);
    assert |Stream(ms[..n])| == |Frame(ms[0])| + |Stream(ms[1..][..n - 1])|;
    if n == 1 {
      assert ms[1..][..0] == [];
    }
  }

  /** The call on whole frames followed by the beginning of one more. */
  lemma {:induction false} SweepFromStream(v: seq<byte>, pre: seq<byte>, ms: seq<Short>, tail: seq<byte>, next: Short)
    requires ms != [] && tail < Frame(next)
    requires v == pre + Stream(ms) + tail
    ensures SweepFrom(v, |pre| + 4) == SweepSpec(|pre|, ms, tail)
    decreases ms
  {
    var m, ms' := ms[0], ms[1..];
    var pre', rest := pre + Frame(m), Stream(ms') + tail;
    MagicAtFrame(v, pre, ms, tail);
    FrameAt(v, pre, m, rest);
    SweepAt(v, |pre| + 4, m, |pre'|);
    SweepSpecStep(|pre|, ms, tail);
    if |pre'| < 96 {
      if ms' != [] {
        MagicAtFrame(v, pre', ms', tail);
        SweepFromStream(v, pre', ms', tail, next);
      } else {
        assert rest == tail;
        if |tail| > 4 {
          CutFrameFaults(v, pre', next, tail);
        }
      }
    }
  }

  lemma {:induction false} SweepStarts(v: seq<byte>)
    requires MagicAt(v, 0)
    ensures SweepOf(v) == SweepFrom(v, 4)
  {}

  lemma {:induction false} NoWholeFrame(v: seq<byte>, next: Short)
    requires v < Frame(next)
    ensures SweepOf(v) == Fault
  {
    if |v| >= 4 {
      assert v == [] + v;
      CutFrameFaults(v, [], next, v);
    }
  }

  lemma {:induction false} SweepMeetsSpec(v: seq<byte>, ms: seq<Short>, tail: seq<byte>, next: Short)
    requires v == Stream(ms) + tail && tail < Frame(next) && ms != []
    ensures SweepOf(v) == SweepSpec(0, ms, tail)
  {
    Unit(Stream(ms));
    MagicAtFrame(v, [], ms, tail);
    SweepFromStream(v, [], ms, tail, next);
    SweepStarts(v);
  }

  /** One call on a FIFO that holds whole frames and then the first bytes of
      another: it stays within bounds exactly when there is a whole frame and,
      unless the whole frames reach the cut-off, no more than the magic number
      of the next; and then it uses exactly the frames `Cut` picks. */
  lemma {:induction false} SweepOfFrames(v: seq<byte>, ms: seq<Short>, tail: seq<byte>, next: Short)
    requires v == Stream(ms) + tail && tail < Frame(next)
    ensures SweepOf(v).Swept? <==> ms != [] && (|tail| <= 4 || |Stream(ms)| >= 96)
    ensures SweepOf(v).Swept? ==> SweepOf(v) == Swept(|Stream(ms[..Cut(0, ms)])|, ms[..Cut(0, ms)])
  {
    if ms == [] {
      Unit(tail);
      NoWholeFrame(v, next);
    } else {
      SweepMeetsSpec(v, ms, tail, next);
    }
  }

  /** Four bytes that are no magic number are taken and passed over. */
  lemma {:induction false} GarbageSkipped(v: seq<byte>)
    requires |v| >= 4
    requires !(v[0] == 0x41 && v[1] == 0x42 && v[2] == 0x13 && v[3] == 0x56)
    ensures SweepOf(v) == Swept(4, [])
  {}

  /** Behind a frame that ends below the cut-off they are taken with it, if more
      bytes follow; otherwise they are left for the next call. */
  lemma {:induction false} GarbageBehindFrame(m: Short, g: seq<byte>, rest: seq<byte>)
    requires |g| == 4 && !MagicAt(g, 0)
    ensures var n := |Frame(m)|;
      SweepOf(Frame(m) + (g + rest)) == Swept(if n < 96 && rest != [] then n + 4 else n, [m])
  {
    var f, tail := Frame(m), g + rest;
    var v := f + tail;
    Unit(f);
    FrameAt(v, [], m, tail);
    SweepStarts(v);
    SweepAt(v, 4, m, |f|);
    NoMagicBehind(f, g, rest);
  }

  lemma {:induction false} NoMagicBehind(f: seq<byte>, g: seq<byte>, rest: seq<byte>)
    requires |g| == 4 && !MagicAt(g, 0)
    ensures !MagicAt(f + (g + rest), |f|) && |f + (g + rest)| == |f| + 4 + |rest|
  {
    assert forall k :: 0 <= k < 4 ==> (f + (g + rest))[|f| + k] == (g + rest)[k] == g[k];
  }

  lemma {:induction false} WholeFrames(ms: seq<Short>)
    requires ms != []
    ensures SweepOf(Stream(ms)) == Swept(|Stream(ms[..Cut(0, ms)])|, ms[..Cut(0, ms)])
  {
    Unit(Stream(ms));
    SweepMeetsSpec(Stream(ms), ms, [], ms[0]);
  }

  /** The cut-off, for a FIFO of whole frames: the number of bytes used is
      always a frame boundary, and the one of the shortest non-empty run of
      frames that reaches 96 bytes, if any does. */
  lemma {:induction false} ExactCutOff(ms: seq<Short>)
    requires ms != []
    ensures exists n ::
      (1 <= n <= |ms|
      && SweepOf(Stream(ms)) == Swept(|Stream(ms[..n])|, ms[..n])
      && (n < |ms| ==> |Stream(ms[..n])| >= 96)
      && forall j :: 1 <= j < n ==> |Stream(ms[..j])| < 96)
  {
    WholeFrames(ms);
    CutIsShortest(0, ms);
  }
}
