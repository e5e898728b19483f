/** The RFID worker's reassembly of serial packets: idle reads deliver the
    serial stream in arbitrary pieces, the worker appends them to `rxData` and
    forwards at most one packet per read. */
module RfidWorker {
  import opened Bytes
  import opened SafeFifo
  import opened Wire

  /** A packet of the reader board whose length byte is right and keeps it
      within the data array of a `packet_t`. */
  predicate Sound(p: seq<byte>) {
    |p| >= 7 && |p| == p[3] as nat + 4 && |p| <= MAX_DATA_LEN
  }

  ghost predicate AllSound(ps: seq<seq<byte>>) {
    forall p <- ps :: Sound(p)
  }

  function Flat(ps: seq<seq<byte>>): seq<byte> {
    if ps == [] then [] else ps[0] + Flat(ps[1..])
  }

  // ----- one idle read -----

  /** The test of the source, whose 8-bit sum wraps. */
  predicate Ready(rxData: seq<byte>) {
    |rxData| >= 7 && |rxData| >= (rxData[3] as nat + 4) % 256
  }

  /** The packet the source then copies and erases stays within both arrays. */
  predicate InBounds(rxData: seq<byte>) {
    Ready(rxData) ==> rxData[3] as nat + 4 <= MAX_DATA_LEN
  }

  datatype Reassembly = Reassembly(rxData: seq<byte>, forwarded: seq<seq<byte>>)

  /** One idle read, as a function of what it finds. */
  function Feed(st: Reassembly, rxBuffer: seq<byte>): Reassembly
    requires InBounds(st.rxData + rxBuffer)
  {
    var rxData := st.rxData + rxBuffer;
    if rxBuffer == [] then st
    else if Ready(rxData) then
      var size := rxData[3] as nat + 4;
      Reassembly(rxData[size..], st.forwarded + [rxData[..size]])
    else Reassembly(rxData, st.forwarded)
  }

  class Worker {
    var rxData: seq<byte>
    const fifoOut: SafeFIFO<Packet>

    constructor (fifoOut: SafeFIFO<Packet>)
      ensures rxData == [] && this.fifoOut == fifoOut
    {
      this.fifoOut := fifoOut;
      rxData := [];
    }

    /** Only packets that go through unchanged are filled in; for any other type
        the source queues its uninitialised structure. */
    method Encapsulate(typ: byte, size: nat, data: seq<byte>)
      requires typ == RFID_DIRECT ==> size <= |data| && size <= MAX_DATA_LEN
      modifies fifoOut
      ensures |fifoOut.vec| == |old(fifoOut.vec)| + 1 && old(fifoOut.vec) <= fifoOut.vec
      ensures typ == RFID_DIRECT ==>
        var p := fifoOut.vec[|old(fifoOut.vec)|]; p.Valid() && p.Content() == Message(RFID_DIRECT, data[..size])
    {
      var info: Packet := *;
      if typ == RFID_DIRECT {
        var bytes := new byte[MAX_DATA_LEN];
        forall i | 0 <= i < size {
          bytes[i] := data[i];
        }
        assert bytes[..][..size] == data[..size];
        info := Packet(RFID_DIRECT, size, bytes[..]);
      }
      fifoOut.WriteOne(info);
    }

    /** One pass of the worker with an idle serial line, or with the bytes
        that have come in: the new bytes are appended and, if a packet is
        complete, one packet moves on to the client's queue. */
    method IdleRead(rxBuffer: seq<byte>)
      requires InBounds(rxData + rxBuffer)
      modifies this`rxData, fifoOut
      ensures var st := Feed(Reassembly(old(rxData), []), rxBuffer);
        && rxData == st.rxData
        && |fifoOut.vec| == |old(fifoOut.vec)| + |st.forwarded| && old(fifoOut.vec) <= fifoOut.vec
        && forall i :: 0 <= i < |st.forwarded| ==>
             var p := fifoOut.vec[|old(fifoOut.vec)| + i];
             p.Valid() && p.Content() == Message(RFID_DIRECT, st.forwarded[i])
    {
      if |rxBuffer| != 0 {
        rxData := rxData + rxBuffer;
        if |rxData| >= 7 && |rxData| >= (rxData[3] as nat + 4) % 256 {
          var size := rxData[3] as nat + 4;
          Encapsulate(RFID_DIRECT, size, rxData);
          rxData := rxData[size..];
        }
      }
    }
  }

  // ----- any sequence of idle reads -----

  /** A run that starts with an empty `rxData` and stays within bounds. */
  ghost predicate Possible(chunks: seq<seq<byte>>)
    decreases chunks, 0
  {
    chunks != [] ==>
      var n := |chunks| - 1;
      Possible(chunks[..n]) && InBounds(After(chunks[..n]).rxData + chunks[n])
  }

  ghost function After(chunks: seq<seq<byte>>): Reassembly
    requires Possible(chunks)
    decreases chunks, 1
  {
    if chunks == [] then Reassembly([], [])
    else Feed(After(chunks[..|chunks| - 1]), chunks[|chunks| - 1])
  }

  lemma {:induction false} FlatAppend(ps: seq<seq<byte>>, qs: seq<seq<byte>>)
    ensures Flat(ps + qs) == Flat(ps) + Flat(qs)
  {
    if ps == [] {
      Unit(qs);
    } else {
      assert (ps + qs)[0] == ps[0] && (ps + qs)[1..] == ps[1..] + qs;
      FlatAppend(ps[1..], qs);
      Assoc(ps[0], Flat(ps[1..]), Flat(qs));
    }
  }

  lemma {:induction false} FlatSingle(p: seq<byte>)
    ensures Flat([p]) == p
  {
    assert [p][1..] == [];
  }

  lemma {:induction false} LastChunk(chunks: seq<seq<byte>>)
    requires chunks != []
    ensures var n := |chunks| - 1;
      chunks == chunks[..n] + [chunks[n]] && Flat(chunks) == Flat(chunks[..n]) + chunks[n]
  {
    var n := |chunks| - 1;
    InitLast(chunks);
    FlatAppend(chunks[..n], [chunks[n]]);
    FlatSingle(chunks[n]);
  }

  /** How many of the packets are complete within the first n bytes. */
  function Complete(ps: seq<seq<byte>>, n: nat): (c: nat)
    ensures c <= |ps|
  {
    if ps == [] || |ps[0]| > n then 0 else 1 + Complete(ps[1..], n - |ps[0]|)
  }

  lemma {:induction false} CompleteIff(ps: seq<seq<byte>>, n: nat, f: nat)
    requires f <= |ps|
    ensures f <= Complete(ps, n) <==> |Flat(ps[..f])| <= n
    decreases ps
  {
    if f > 0 {
      TakeCons(ps, f);
      if |ps[0]| <= n {
        CompleteIff(ps[1..], n - |ps[0]|, f - 1);
      }
    } else {
      assert ps[..0] == [];
    }
  }

  /** `rxData` holds the bytes received after the first f packets. */
  ghost predicate Holds(st: Reassembly, received: seq<byte>, ps: seq<seq<byte>>, f: nat) {
    f <= |ps| && st.forwarded == ps[..f] && Flat(ps[..f]) + st.rxData == received
  }

  lemma {:induction false} FlatSplit(ps: seq<seq<byte>>, f: nat)
    requires f <= |ps|
    ensures Flat(ps) == Flat(ps[..f]) + Flat(ps[f..])
  {
    assert ps == ps[..f] + ps[f..];
    FlatAppend(ps[..f], ps[f..]);
  }

  lemma {:induction false} FlatNext(ps: seq<seq<byte>>, f: nat)
    requires f < |ps|
    ensures Flat(ps[f..]) == ps[f] + Flat(ps[f + 1..])
    ensures Flat(ps[..f + 1]) == Flat(ps[..f]) + ps[f]
    ensures ps[..f + 1] == ps[..f] + [ps[f]]
  {
    DropStep(ps, f);
    assert ps[..f + 1] == ps[..f] + [ps[f]];
    FlatAppend(ps[..f], [ps[f]]);
    FlatSingle(ps[f]);
  }

  lemma {:induction false} PrefixRest(a: seq<byte>, b: seq<byte>, c: seq<byte>)
    requires a + b <= a + c
    ensures b <= c
  {
    DropPrefix(a, b);
    DropPrefix(a, c);
    assert b == (a + b)[|a|..] == (a + c)[..|a| + |b|][|a|..] == c[..|b|];
  }

  /** Bytes that begin like packets are ready exactly when the first packet is
      complete, and what is then cut off is that packet. */
  lemma {:induction false} ReadyIff(rxData: seq<byte>, ps: seq<seq<byte>>)
    requires AllSound(ps) && rxData <= Flat(ps)
    ensures InBounds(rxData)
    ensures Ready(rxData) <==> ps != [] && |ps[0]| <= |rxData|
    ensures Ready(rxData) ==> rxData[3] as nat + 4 == |ps[0]| && rxData[..|ps[0]|] == ps[0]
  {
    if ps == [] {
      assert rxData == [];
    } else {
      var p, rest := ps[0], Flat(ps[1..]);
      assert p in ps;
      if |rxData| >= 4 {
        assert rxData[3] == (p + rest)[3] == p[3];
      }
      if |rxData| >= |p| {
        assert rxData[..|p|] == (p + rest)[..|p|] == p;
      }
    }
  }

  /** One idle read on a stream of sound packets: if one more packet is
      complete, exactly that one is forwarded. */
  lemma {:induction false} FeedStep(st: Reassembly, received: seq<byte>, chunk: seq<byte>, ps: seq<seq<byte>>, f: nat)
    requires AllSound(ps) && Holds(st, received, ps, f) && chunk != []
    requires received + chunk <= Flat(ps)
    ensures InBounds(st.rxData + chunk)
    ensures var f' := if f < Complete(ps, |received + chunk|) then f + 1 else f;
      Holds(Feed(st, chunk), received + chunk, ps, f')
  {
    var head, rxData := Flat(ps[..f]), st.rxData + chunk;
    Assoc(head, st.rxData, chunk);
    FlatSplit(ps, f);
    PrefixRest(head, rxData, Flat(ps[f..]));
    ReadyIff(rxData, ps[f..]);
    if f < |ps| {
      FlatNext(ps, f);
      CompleteIff(ps, |received + chunk|, f + 1);
      if Ready(rxData) {
        var size := |ps[f]|;
        SplitAt(rxData, size);
        Assoc(head, ps[f], rxData[size..]);
      }
    }
  }

  /** The number of complete packets after each read. */
  function Completions(ps: seq<seq<byte>>, chunks: seq<seq<byte>>): (cs: seq<nat>)
    ensures |cs| == |chunks|
  {
    if chunks == [] then []
    else Completions(ps, chunks[..|chunks| - 1]) + [Complete(ps, |Flat(chunks)|)]
  }

  /** One packet per read at most, and only complete ones. */
  function Served(cs: seq<nat>): nat {
    if cs == [] then 0
    else
      var before, c := Served(cs[..|cs| - 1]), cs[|cs| - 1];
      if before < c then before + 1 else before
  }

  /** Reassembly does not depend on how the stream is cut: after any non-empty
      reads whose bytes are the beginning of a stream of sound packets, the run
      has stayed within bounds, what has been forwarded is a prefix of the true
      packets, and that followed by `rxData` is what has been received. The
      prefix has as many packets as `Served` says. */
  lemma {:induction false} Reassembles(ps: seq<seq<byte>>, chunks: seq<seq<byte>>)
    requires AllSound(ps) && Flat(chunks) <= Flat(ps)
    requires forall c <- chunks :: c != []
    ensures Possible(chunks)
    ensures Holds(After(chunks), Flat(chunks), ps, Served(Completions(ps, chunks)))
  {
    if chunks == [] {
      assert ps[..0] == [];
    } else {
      var n := |chunks| - 1;
      var before, chunk := chunks[..n], chunks[n];
      LastChunk(chunks);
      PrefixOfPrefix(Flat(before), chunk, Flat(ps));
      assert chunk in chunks && forall c <- before :: c in chunks;
      Reassembles(ps, before);
      FeedStep(After(before), Flat(before), chunk, ps, Served(Completions(ps, before)));
      assert Completions(ps, chunks)[..n] == Completions(ps, before);
    }
  }

  /** A first read moves a packet on exactly if it brings seven bytes and all
      that the length byte, the fourth, says: four more than its value. */
  lemma {:induction false} FirstReadMovesOnIff(chunk: seq<byte>)
    requires |chunk| >= 7 ==> chunk[3] <= 96
    ensures Possible([chunk])
    ensures After([chunk]) ==
            if |chunk| >= 7 && |chunk| >= chunk[3] as nat + 4
            then Reassembly(chunk[chunk[3] as nat + 4..], [chunk[..chunk[3] as nat + 4]])
            else Reassembly(chunk, [])
  {
    OneRead(chunk);
    Unit(chunk);
    Unit([chunk[..if |chunk| >= 7 && chunk[3] as nat + 4 <= |chunk| then chunk[3] as nat + 4 else 0]]);
  }

  /** What makes the worker leave its arrays: a complete packet of more than 100
      bytes, or a length byte so large that the 8-bit sum wraps. */
  lemma {:induction false} LeavesBoundsIff(rxData: seq<byte>)
    ensures !InBounds(rxData) <==>
            |rxData| >= 7 && (rxData[3] >= 252 || (rxData[3] >= 97 && |rxData| >= rxData[3] as nat + 4))
  {}

  // ----- how far behind it can be -----

  /** How many packets were complete after the first m reads. */
  function CompleteAfter(cs: seq<nat>, m: nat): nat
    requires m <= |cs|
  {
    if m == 0 then 0 else cs[m - 1]
  }

  predicate Growing(cs: seq<nat>) {
    forall i, j :: 0 <= i <= j < |cs| ==> cs[i] <= cs[j]
  }

  /** The number of packets forwarded after n reads is the least, over all
      m <= n, of the packets complete after m reads plus the n - m reads since:
      the worker serves a queue at one packet per read. */
  lemma {:induction false} ServedIsLeast(cs: seq<nat>) returns (m: nat)
    requires Growing(cs)
    ensures m <= |cs| && Served(cs) == CompleteAfter(cs, m) + |cs| - m
    ensures forall k :: 0 <= k <= |cs| ==> Served(cs) <= CompleteAfter(cs, k) + |cs| - k
  {
    m := 0;
    if cs != [] {
      var n := |cs| - 1;
      var before := cs[..n];
      m := ServedIsLeast(before);
      assert forall k :: 0 <= k <= n ==> CompleteAfter(before, k) == CompleteAfter(cs, k);
      if Served(before) >= cs[n] {
        assert Served(before) <= CompleteAfter(before, n);
        assert n > 0 ==> cs[n - 1] <= cs[n];
        m := n + 1;
      }
    }
  }

  /** The worker has forwarded every complete packet exactly when no run of
      reads up to now brought more packets than it had reads. */
  lemma {:induction false} CaughtUpIff(cs: seq<nat>)
    requires Growing(cs)
    ensures var n := |cs|;
      Served(cs) == CompleteAfter(cs, n) <==>
      forall m :: 0 <= m <= n ==> CompleteAfter(cs, n) - CompleteAfter(cs, m) <= n - m
  {
    var m := ServedIsLeast(cs);
  }

  lemma {:induction false} CompletionsGrow(ps: seq<seq<byte>>, chunks: seq<seq<byte>>)
    ensures Growing(Completions(ps, chunks))
    decreases chunks
    ensures chunks != [] ==> CompleteAfter(Completions(ps, chunks), |chunks|) == Complete(ps, |Flat(chunks)|)
  {
    if chunks != [] {
      var n := |chunks| - 1;
      CompletionsGrow(ps, chunks[..n]);
      LastChunk(chunks);
      CompleteGrows(ps, |Flat(chunks[..n])|, |Flat(chunks)|);
      GrowingAdd(Completions(ps, chunks[..n]), Complete(ps, |Flat(chunks)|));
    }
  }

  lemma {:induction false} GrowingAdd(cs: seq<nat>, c: nat)
    requires Growing(cs) && (cs != [] ==> cs[|cs| - 1] <= c)
    ensures Growing(cs + [c])
  {
    forall i, j | 0 <= i <= j < |cs + [c]|
      ensures (cs + [c])[i] <= (cs + [c])[j]
    {
      if i < |cs| == j {
        assert cs[i] <= cs[|cs| - 1];
      }
    }
  }

  lemma {:induction false} CompleteGrows(ps: seq<seq<byte>>, n: nat, m: nat)
    requires n <= m
    ensures Complete(ps, n) <= Complete(ps, m)
  {
    if ps != [] && |ps[0]| <= n {
      CompleteGrows(ps[1..], n - |ps[0]|, m - |ps[0]|);
    }
  }

  lemma {:induction false} CompletionsAt(ps: seq<seq<byte>>, chunks: seq<seq<byte>>, m: nat)
    requires AllSound(ps) && m <= |chunks|
    ensures CompleteAfter(Completions(ps, chunks), m) == Complete(ps, |Flat(chunks[..m])|)
    decreases chunks
  {
    if m == 0 {
      assert chunks[..0] == [];
      assert ps != [] ==> ps[0] in ps;
    } else if m == |chunks| {
      assert chunks[..m] == chunks;
    } else {
      var before := chunks[..|chunks| - 1];
      assert before[..m] == chunks[..m];
      CompletionsAt(ps, before, m);
    }
  }

  /** The same in terms of the reads: everything complete has been forwarded if
      and only if, for every m, the reads after the m-th one have completed no
      more packets than there were of them. */
  lemma {:induction false} NothingLeftBehindIff(ps: seq<seq<byte>>, chunks: seq<seq<byte>>)
    requires AllSound(ps) && Flat(chunks) <= Flat(ps)
    requires forall c <- chunks :: c != []
    ensures Possible(chunks)
    ensures |After(chunks).forwarded| == Complete(ps, |Flat(chunks)|) <==>
            forall m :: 0 <= m <= |chunks| ==>
              Complete(ps, |Flat(chunks)|) - Complete(ps, |Flat(chunks[..m])|) <= |chunks| - m
  {
    var cs := Completions(ps, chunks);
    Reassembles(ps, chunks);
    CompletionsGrow(ps, chunks);
    CaughtUpIff(cs);
    forall m | 0 <= m <= |chunks|
      ensures CompleteAfter(cs, m) == Complete(ps, |Flat(chunks[..m])|)
    {
      CompletionsAt(ps, chunks, m);
    }
    assert chunks[..|chunks|] == chunks;
  }

  /** A single read that brings several packets leaves all but one behind, until
      more bytes come in. */
  lemma {:induction false} BurstLeavesPacketsBehind(ps: seq<seq<byte>>)
    requires AllSound(ps) && |ps| >= 2
    ensures Possible([Flat(ps)])
    ensures After([Flat(ps)]) == Reassembly(Flat(ps[1..]), [ps[0]])
  {
    var burst := Flat(ps);
    assert ps[0] in ps;
    ReadyIff(burst, ps);
    DropPrefix(ps[0], Flat(ps[1..]));
    Unit(burst);
    OneRead(burst);
  }

  lemma {:induction false} OneRead(chunk: seq<byte>)
    requires InBounds(chunk)
    ensures Possible([chunk])
    ensures InBounds([] + chunk) && After([chunk]) == Feed(Reassembly([], []), chunk)
  {
    Unit(chunk);
    assert [chunk][..0] == [];
  }
}
