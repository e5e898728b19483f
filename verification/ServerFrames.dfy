/** The frames `threadWaitClient` writes towards the client. */
module ServerFrames {
  import opened Bytes
  import opened Wire

  /** The magic number as the little-endian target copies it into the frame. */
  const MAGIC_LE: seq<byte> := [0x56, 0x13, 0x42, 0x41]

  /** sizeof(packet_t) */
  const PACKET_SIZE: nat := 103

  /** The structure as it lies in memory. */
  function Raw(p: Packet): (r: seq<byte>)
    requires p.Valid()
    ensures |r| == PACKET_SIZE
  {
    [p.typ, Low(p.size), High(p.size)] + p.data
  }

  /** A frame to be written: the packet, and how many bytes of its data array
      go out behind the meaningful ones. */
  datatype OutFrame = OutFrame(packet: Packet, padding: nat) {
    predicate Valid() {
      packet.Valid() && packet.size + padding <= MAX_DATA_LEN
    }

    /** Header, payload and padding: everything but the magic number. */
    function Body(): (b: seq<byte>)
      requires Valid()
      ensures |b| == 3 + packet.size + padding
    {
      Raw(packet)[..3 + packet.size + padding]
    }

    function Encoded(): (e: seq<byte>)
      requires Valid()
      ensures |e| == 7 + packet.size + padding
    {
      MAGIC_LE + Body()
    }
  }

  /** RFID packets go out with nothing behind their payload. */
  const RFID_PADDING: nat := 0

  /** The size of a motor frame is computed from the size of the whole
      structure, so that 96 bytes of the array go out behind the payload. */
  const MOTOR_PADDING: nat := PACKET_SIZE - 7

  /** What goes out for an RFID packet, byte by byte: the magic number and the
      size least significant byte first, and nothing behind the payload. */
  lemma {:induction false} RfidFrameIs(p: Packet)
    requires p.Valid()
    ensures OutFrame(p, RFID_PADDING).Encoded() ==
            [0x56, 0x13, 0x42, 0x41, p.typ, (p.size % 256) as byte, (p.size / 256) as byte] + p.data[..p.size]
  {
    FrameIs(p, 0);
  }

  /** And for a motor packet, with 96 bytes of the array behind the payload. */
  lemma {:induction false} MotorFrameIs(p: Packet)
    requires p.Valid() && p.size <= 4
    ensures OutFrame(p, MOTOR_PADDING).Encoded() ==
            [0x56, 0x13, 0x42, 0x41, p.typ, (p.size % 256) as byte, (p.size / 256) as byte] + p.data[..p.size + 96]
  {
    FrameIs(p, 96);
  }

  lemma {:induction false} FrameIs(p: Packet, padding: nat)
    requires OutFrame(p, padding).Valid()
    ensures OutFrame(p, padding).Encoded() ==
            [0x56, 0x13, 0x42, 0x41, p.typ, (p.size % 256) as byte, (p.size / 256) as byte] + p.data[..p.size + padding]
  {
    var head := [p.typ, Low(p.size), High(p.size)];
    assert (head + p.data)[..3 + p.size + padding] == head + p.data[..p.size + padding];
    Assoc(MAGIC_LE, head, p.data[..p.size + padding]);
  }

  /** The packets can be copied with that much padding. */
  predicate Fit(ps: seq<Packet>, padding: nat) {
    forall p <- ps :: OutFrame(p, padding).Valid()
  }

  /** The source's memcpy of a motor packet stays within the structure exactly
      when the payload has at most four bytes. */
  lemma {:induction false} MotorCopyInBounds(p: Packet)
    requires p.Valid()
    ensures OutFrame(p, MOTOR_PADDING).Valid() <==> PACKET_SIZE + p.size - 4 <= PACKET_SIZE
  {}

  /** The frames made of the packets of a queue. */
  function FramesOf(ps: seq<Packet>, padding: nat): (fs: seq<OutFrame>)
    ensures |fs| == |ps| && forall i :: 0 <= i < |ps| ==> fs[i] == OutFrame(ps[i], padding)
  {
    if ps == [] then [] else [OutFrame(ps[0], padding)] + FramesOf(ps[1..], padding)
  }

  /** The bytes of those frames. */
  function Sent(ps: seq<Packet>, padding: nat): seq<byte>
    requires Fit(ps, padding)
  {
    if ps == [] then [] else OutFrame(ps[0], padding).Encoded() + Sent(ps[1..], padding)
  }

  function OutStream(fs: seq<OutFrame>): seq<byte>
    requires forall f <- fs :: f.Valid()
  {
    if fs == [] then [] else fs[0].Encoded() + OutStream(fs[1..])
  }

  lemma {:induction false} OutStreamAppend(fs: seq<OutFrame>, gs: seq<OutFrame>)
    requires forall f <- fs :: f.Valid()
    requires forall g <- gs :: g.Valid()
    ensures forall h <- fs + gs :: h.Valid()
    ensures OutStream(fs + gs) == OutStream(fs) + OutStream(gs)
  {
    if fs == [] {
      assert fs + gs == gs;
    } else {
      assert (fs + gs)[1..] == fs[1..] + gs && (fs + gs)[0] == fs[0];
      OutStreamAppend(fs[1..], gs);
      Assoc(fs[0].Encoded(), OutStream(fs[1..]), OutStream(gs));
    }
  }

  lemma {:induction false} SentIsOutStream(ps: seq<Packet>, padding: nat)
    requires Fit(ps, padding)
    ensures (forall f <- FramesOf(ps, padding) :: f.Valid()) && OutStream(FramesOf(ps, padding)) == Sent(ps, padding)
  {
    if ps != [] {
      SentIsOutStream(ps[1..], padding);
      var fs := FramesOf(ps, padding);
      assert fs[0] == OutFrame(ps[0], padding) && fs[1..] == FramesOf(ps[1..], padding);
    }
  }
}
