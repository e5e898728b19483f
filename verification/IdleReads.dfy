/** The RFID worker's idle reads through the serial helper: what the buffer
    still holds of bytes a scan has read before reaches the client again. */
module IdleReads {
  import opened Bytes
  import opened SafeFifo
  import opened Wire
  import opened SerialComm
  import opened SerialViews
  import opened SerialReads
  import opened RfidWorker
  import opened SerialPackets

  /** The packets of the board's protocol are sound exactly if their data has at
      most 91 bytes: with the nine of the header they fit a packet of the client. */
  lemma {:induction false} EncodedIsSound(p: LinePacket)
    requires p.Valid()
    ensures Sound(p.Encoded()) <==> |p.data| <= 91
  {
    var e := p.Encoded();
    assert e[3] == p.Header()[3] && |e| == 9 + |p.data|;
  }

  /** Behind `first`, the packets of the queue carry those serial packets. */
  ghost predicate Carries(vec: seq<Packet>, first: seq<Packet>, ps: seq<seq<byte>>) {
    && first <= vec && |vec| == |first| + |ps|
    && forall j :: |first| <= j < |vec| ==> vec[j].Valid() && vec[j].Content() == Direct(ps[j - |first|])
  }

  lemma {:induction false} CarriesOn(vec: seq<Packet>, first: seq<Packet>, ps: seq<seq<byte>>, vec': seq<Packet>,
                                     qs: seq<seq<byte>>)
    requires Carries(vec, first, ps) && Carries(vec', vec, qs)
    ensures Carries(vec', first, ps + qs)
  {
    forall j | |first| <= j < |vec'|
      ensures vec'[j].Valid() && vec'[j].Content() == Direct((ps + qs)[j - |first|])
    {
      if j < |vec| {
        assert vec'[j] == vec[j];
      }
    }
  }

  function Direct(p: seq<byte>): Message {
    Message(RFID_DIRECT, p)
  }

  lemma {:induction false} FeedOnTop(rxData: seq<byte>, forwarded: seq<seq<byte>>, chunk: seq<byte>)
    requires InBounds(rxData + chunk)
    ensures var st, st0 := Feed(Reassembly(rxData, forwarded), chunk), Feed(Reassembly(rxData, []), chunk);
      st.rxData == st0.rxData && st.forwarded == forwarded + st0.forwarded
  {
    Unit(forwarded);
  }

  lemma {:induction false} PrefixLeft(a: seq<byte>, b: seq<byte>, c: seq<byte>, s: seq<byte>)
    requires a + (b + c) <= s
    ensures a + b <= s
  {
    Assoc(a, b, c);
    PrefixOfPrefix(a + b, c, s);
  }

  /** What the worker has made of the bytes so far: f of the packets `ps` are
      forwarded, and the rest of what it was given is in `rxData`. */
  ghost predicate Working(w: Worker, first: seq<Packet>, received: seq<byte>, ps: seq<seq<byte>>, f: nat)
    reads w, w.fifoOut
  {
    && Holds(Reassembly(w.rxData, if f <= |ps| then ps[..f] else []), received, ps, f)
    && Carries(w.fifoOut.vec, first, ps[..f])
  }

  method Pass(w: Worker, chunk: seq<byte>, ghost more: seq<seq<byte>>)
    requires InBounds(w.rxData + chunk) && more == Feed(Reassembly(w.rxData, []), chunk).forwarded
    modifies w, w.fifoOut
    ensures w.rxData == Feed(Reassembly(old(w.rxData), []), chunk).rxData
    ensures Carries(w.fifoOut.vec, old(w.fifoOut.vec), more)
  {
    ghost var vec := w.fifoOut.vec;
    w.IdleRead(chunk);
    assert |more| <= 1;
    if |more| == 1 {
      ghost var p := w.fifoOut.vec[|vec| + 0];
      assert p.Valid() && p.Content() == Message(RFID_DIRECT, more[0]);
    }
  }

  /** One pass of an idle worker: everything in the string of the buffer, read
      before or not, is fed to the reassembly, and one packet moves on if one
      more is complete. */
  method IdleTurn(h: SerialHelper, w: Worker, ghost first: seq<Packet>, ghost received: seq<byte>,
                  ghost ps: seq<seq<byte>>,
                  ghost f: nat)
      returns (ghost chunk: seq<byte>, ghost f': nat)
    requires h.Valid() && h.state == Started && AllSound(ps)
    requires Working(w, first, received, ps, f) && received + (h.buffer.Stale() + h.Stream()) <= Flat(ps)
    modifies h`eventFlag, h`line, h`due, h`late, h.buffer, w, w.fifoOut
    ensures h.Valid() && h.buffer.Stale() == []
    ensures old(h.buffer.Stale()) <= chunk && old(h.buffer.Stale()) + old(h.Stream()) == chunk + h.Stream()
    ensures f' == if chunk != [] && f < Complete(ps, |received + chunk|) then f + 1 else f
    ensures Working(w, first, received + chunk, ps, f')
  {
    ghost var stale, stream := h.buffer.Stale(), h.Stream();
    var r, taken := h.ReadAvailable();
    chunk := stale + taken;
    Assoc(stale, taken, h.Stream());
    PrefixLeft(received, chunk, h.Stream(), Flat(ps));
    ghost var st, vec := Reassembly(w.rxData, ps[..f]), w.fifoOut.vec;
    if r.data == [] {
      f' := f;
      Unit(received);
      assert chunk == [];
    } else {
      FeedStep(st, received, chunk, ps, f);
      FeedOnTop(w.rxData, ps[..f], chunk);
      f' := if f < Complete(ps, |received + chunk|) then f + 1 else f;
      ghost var more := Feed(Reassembly(w.rxData, []), chunk).forwarded;
      Pass(w, r.data, more);
      CarriesOn(vec, first, ps[..f], w.fifoOut.vec, more);
    }
  }

  /** Any number of passes. If what the buffer holds of bytes read before and
      the stream together begin like sound packets, the client's queue gains a
      prefix of those; the packets forwarded, `rxData`, the held bytes and the
      stream are always the held bytes and the stream of the beginning. So the
      worker is given the stream itself if and only if the cursor was at the
      start. */
  method ServeIdle(h: SerialHelper, w: Worker, turns: nat, ghost ps: seq<seq<byte>>) returns (ghost f: nat)
    requires h.Valid() && h.state == Started && AllSound(ps) && w.rxData == []
    requires h.buffer.Stale() + h.Stream() <= Flat(ps)
    modifies h`eventFlag, h`line, h`due, h`late, h.buffer, w, w.fifoOut
    ensures h.Valid() && (turns > 0 ==> h.buffer.Stale() == [])
    ensures f <= |ps| && Carries(w.fifoOut.vec, old(w.fifoOut.vec), ps[..f])
    ensures (Flat(ps[..f]) + w.rxData) + (h.buffer.Stale() + h.Stream()) == old(h.buffer.Stale() + h.Stream())
    ensures turns > 0 ==>
      ((Flat(ps[..f]) + w.rxData) + h.Stream() == old(h.Stream()) <==> old(h.buffer.curPos) == 0)
  {
    ghost var first, all := w.fifoOut.vec, h.buffer.Stale() + h.Stream();
    ghost var received: seq<byte> := [];
    f := 0;
    Unit(all);
    HoldsNothing(ps);
    HeldShows(h.buffer.Stale(), h.Stream());
    var n := 0;
    while n < turns
      invariant h.Valid() && h.state == Started && n <= turns && (n > 0 ==> h.buffer.Stale() == [])
      invariant Working(w, first, received, ps, f) && received + (h.buffer.Stale() + h.Stream()) == all
    {
      ghost var chunk;
      chunk, f := IdleTurn(h, w, first, received, ps, f);
      Assoc(received, chunk, h.Stream());
      Unit(h.Stream());
      received := received + chunk;
      n := n + 1;
    }
    Unit(h.Stream());
  }

  lemma {:induction false} HoldsNothing(ps: seq<seq<byte>>)
    ensures ps[..0] == [] && Holds(Reassembly([], []), [], ps, 0)
  {
    Unit(Flat(ps[..0]));
  }

  lemma {:induction false} HeldShows(held: seq<byte>, stream: seq<byte>)
    ensures held + stream == stream <==> held == []
  {
    if held == [] {
      Unit(stream);
    } else {
      assert |held + stream| > |stream|;
    }
  }

  /** A scan that has read one packet and left the beginning of more in the
      buffer: the first idle read passes that packet on to the client as if it
      had just come in. */
  method ScannedPacketComesAgain(h: SerialHelper, w: Worker, ghost p: seq<byte>, ghost ps: seq<seq<byte>>)
    requires h.Valid() && h.state == Started && Sound(p) && AllSound(ps) && w.rxData == []
    requires h.buffer.Stale() == p && h.Stream() <= Flat(ps)
    modifies h`eventFlag, h`line, h`due, h`late, h.buffer, w, w.fifoOut
    ensures h.Valid() && Carries(w.fifoOut.vec, old(w.fifoOut.vec), [p])
    ensures w.rxData + h.Stream() == old(h.Stream())
  {
    ghost var all, stream := [p] + ps, h.Stream();
    OneInFront(p, ps, stream);
    HoldsNothing(all);
    Unit(p + stream);
    ghost var chunk, f := IdleTurn(h, w, w.fifoOut.vec, [], all, 0);
    CompleteInFront(p, ps, chunk);
    Unit(chunk);
    assert all[..1] == [p] && Flat([p]) == p by {
      FlatSingle(p);
    }
    Assoc(p, w.rxData, h.Stream());
    SamePart(p, w.rxData + h.Stream(), stream);
  }

  lemma {:induction false} OneInFront(p: seq<byte>, ps: seq<seq<byte>>, stream: seq<byte>)
    requires stream <= Flat(ps)
    ensures Flat([p] + ps) == p + Flat(ps) && p + stream <= Flat([p] + ps)
  {
    assert ([p] + ps)[1..] == ps;
  }

  lemma {:induction false} CompleteInFront(p: seq<byte>, ps: seq<seq<byte>>, chunk: seq<byte>)
    requires |p| <= |chunk|
    ensures Complete([p] + ps, |chunk|) >= 1
  {}

  lemma {:induction false} SamePart(a: seq<byte>, b: seq<byte>, c: seq<byte>)
    requires a + b == a + c
    ensures b == c
  {
    DropPrefix(a, b);
    DropPrefix(a, c);
  }
}
