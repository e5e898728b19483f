/** What the client makes of the frames the server writes. */
module ClientRoundTrip {
  import opened Bytes
  import opened Wire
  import opened ServerFrames
  import opened Client

  /** The command a frame stands for. */
  function Meant(f: OutFrame): Command
    requires f.Valid()
  {
    Command(f.packet.typ, f.packet.size, f.packet.data[..f.packet.size])
  }

  /** Header and payload: the part of a frame the client has to understand. */
  function Core(f: OutFrame): seq<byte>
    requires f.Valid()
  {
    Raw(f.packet)[..3 + f.packet.size]
  }

  /** A stream of junk, a magic number, the part of a frame that matters and
      anything else. */
  ghost predicate Parts(bs: seq<byte>, junk: seq<byte>, core: seq<byte>, rest: seq<byte>) {
    bs == junk + MAGIC_LE + core + rest
  }

  lemma {:induction false} PartsAt(bs: seq<byte>, junk: seq<byte>, core: seq<byte>, rest: seq<byte>)
    requires Parts(bs, junk, core, rest)
    ensures var s := |junk|;
      && |bs| >= s + 4 + |core|
      && MagicStarts(bs, s)
      && (forall j :: 0 <= j < s ==> bs[j] == junk[j])
      && (forall j :: 0 <= j < |core| ==> bs[s + 4 + j] == core[j])
      && bs[s + 4..s + 4 + |core|] == core
  {
    var s := |junk|;
    var a := junk + MAGIC_LE;
    assert forall j :: 0 <= j < s + 4 ==> bs[j] == a[j];
    assert a[s] == MAGIC_LE[0] && a[s + 1] == MAGIC_LE[1] && a[s + 2] == MAGIC_LE[2] && a[s + 3] == MAGIC_LE[3];
  }

  /** Where magic numbers can lie in such a stream: the four magic bytes
      differ, so none overlaps the one that is there. */
  lemma {:induction false} MagicInParts(bs: seq<byte>, junk: seq<byte>, core: seq<byte>, rest: seq<byte>, q: int)
    requires Parts(bs, junk, core, rest) && MagicFree(junk)
    requires q + 4 <= |junk| + 4 + |core|
    ensures MagicStarts(bs, q) <==> q == |junk| || MagicStarts(core, q - |junk| - 4)
  {
    var s := |junk|;
    PartsAt(bs, junk, core, rest);
    if 0 <= q < s {
      assert !MagicStarts(junk, q);
    }
  }

  lemma {:induction false} FirstInParts(bs: seq<byte>, junk: seq<byte>, core: seq<byte>, rest: seq<byte>)
    requires Parts(bs, junk, core, rest) && MagicFree(junk)
    ensures FirstMagic(bs, |junk|)
  {
    PartsAt(bs, junk, core, rest);
    forall q | 0 <= q < |junk|
      ensures !MagicStarts(bs, q)
    {
      MagicInParts(bs, junk, core, rest, q);
    }
  }

  /** The client keeps all of the core exactly when there is no magic number
      in it. */
  lemma {:induction false} CoreKept(bs: seq<byte>, junk: seq<byte>, core: seq<byte>, rest: seq<byte>)
    requires Parts(bs, junk, core, rest) && MagicFree(junk)
    ensures var s := |junk| + 4;
      && s + |core| <= |bs|
      && |Kept(bs, s, s + |core|)| <= |core|
      && (|Kept(bs, s, s + |core|)| == |core| <==> MagicFree(core))
      && (MagicFree(core) ==> Kept(bs, s, s + |core|) == core)
      && (MagicFree(core) && core != [] ==> !Completes(bs, s + |core| - 1))
  {
    var s := |junk| + 4;
    PartsAt(bs, junk, core, rest);
    KeptAll(bs, s, s + |core|);
    CoreCompletes(bs, junk, core, rest);
  }

  lemma {:induction false} CoreCompletes(bs: seq<byte>, junk: seq<byte>, core: seq<byte>, rest: seq<byte>)
    requires Parts(bs, junk, core, rest) && MagicFree(junk)
    ensures var s := |junk| + 4;
      MagicFree(core) <==> forall i :: s <= i < s + |core| ==> !Completes(bs, i)
  {
    var s := |junk| + 4;
    PartsAt(bs, junk, core, rest);
    forall i | s <= i < s + |core|
      ensures Completes(bs, i) <==> MagicStarts(core, i - 3 - s)
    {
      MagicInParts(bs, junk, core, rest, i - 3);
    }
    if !MagicFree(core) {
      var q :| MagicStarts(core, q);
      assert Completes(bs, q + s + 3);
    }
  }

  lemma {:induction false} HeadSlice(head: seq<byte>, data: seq<byte>, n: nat)
    requires |head| == 3 && n <= |data|
    ensures var core := (head + data)[..3 + n];
      |core| == 3 + n && core[0] == head[0] && core[1] == head[1] && core[2] == head[2] && core[3..] == data[..n]
  {}

  lemma {:induction false} CoreFields(f: OutFrame)
    requires f.Valid()
    ensures var core := Core(f);
      && |core| == 3 + f.packet.size
      && core[0] == f.packet.typ
      && Announced(core) == f.packet.size
      && core[3..] == f.packet.data[..f.packet.size]
  {
    var p := f.packet;
    HeadSlice([p.typ, Low(p.size), High(p.size)], p.data, p.size);
    SizeRoundTrip(p.size);
  }

  lemma {:induction false} BodySplit(f: OutFrame)
    requires f.Valid()
    ensures f.Body() == Core(f) + f.Body()[|Core(f)|..]
  {}

  /** The frame split into the part the client reads and the rest. */
  lemma {:induction false} FrameParts(junk: seq<byte>, f: OutFrame, rest: seq<byte>)
    requires f.Valid()
    ensures Parts(junk + f.Encoded() + rest, junk, Core(f), f.Body()[3 + f.packet.size..] + rest)
  {
    BodySplit(f);
    var core, pad := Core(f), f.Body()[3 + f.packet.size..];
    Assoc(junk, MAGIC_LE, core + pad);
    Assoc(junk + MAGIC_LE, core, pad);
    Assoc(junk + MAGIC_LE + core, pad, rest);
  }

  lemma {:induction false} CoreAnswers(bs: seq<byte>, junk: seq<byte>, core: seq<byte>, rest: seq<byte>, n: nat,
                                       c: Command)
    requires n == |junk| + 4 + |core|
    requires Parts(bs, junk, core, rest) && MagicFree(junk) && |core| >= 3 && |core| == 3 + Announced(core)
    requires c == Command(core[0], Announced(core), core[3..])
    ensures Answers(bs, |junk|, n, c) <==> |core| > 3 && MagicFree(core)
  {
    FirstInParts(bs, junk, core, rest);
    CoreKept(bs, junk, core, rest);
    if Answers(bs, |junk|, n, c) {
      assert |Kept(bs, |junk| + 4, n)| == 3 + c.size;
    }
  }

  /** A frame taken apart as its reader sees it. */
  lemma {:induction false} Dissect(bs: seq<byte>, junk: seq<byte>, f: OutFrame, rest: seq<byte>)
      returns (core: seq<byte>, tail: seq<byte>)
    requires f.Valid() && bs == junk + f.Encoded() + rest
    ensures core == Core(f) && tail == f.Body()[3 + f.packet.size..] + rest && Parts(bs, junk, core, tail)
    ensures |core| == 3 + f.packet.size == 3 + Announced(core)
    ensures Meant(f) == Command(core[0], Announced(core), core[3..])
  {
    core, tail := Core(f), f.Body()[3 + f.packet.size..] + rest;
    CoreFields(f);
    FrameParts(junk, f, rest);
  }

  /** One frame, after junk and before anything: the client returns its
      (type, size, data) and stops right behind its payload, exactly when the
      payload is not empty and neither it nor the header contains the magic
      number. */
  lemma {:induction false} FrameIntact(bs: seq<byte>, junk: seq<byte>, f: OutFrame, rest: seq<byte>)
    requires f.Valid() && MagicFree(junk) && bs == junk + f.Encoded() + rest
    ensures Answers(bs, |junk|, |junk| + 7 + f.packet.size, Meant(f))
            <==> f.packet.size >= 1 && MagicFree(Core(f))
  {
    var n, c := |junk| + 7 + f.packet.size, Meant(f);
    var answered := Answers(bs, |junk|, n, c);
    var core, tail := Dissect(bs, junk, f, rest);
    CoreAnswers(bs, junk, core, tail, n, c);
    assert answered <==> |core| > 3 && MagicFree(core);
  }

  lemma {:induction false} ZeroNeverEnds(bs: seq<byte>, s: nat, core: seq<byte>, n: nat)
    requires s + 7 <= |bs| && Kept(bs, s + 4, s + 7) == core && |core| == 3 && Announced(core) == 0
    ensures !FrameEnds(bs, s, n)
  {
    if s + 7 <= n <= |bs| {
      KeptGrows(bs, s + 4, s + 7, n);
      SameAnnounced(core, Kept(bs, s + 4, n));
    } else if s + 4 < n <= |bs| {
      KeptAll(bs, s + 4, n);
    }
  }

  lemma {:induction false} EmptyCoreSwallows(bs: seq<byte>, junk: seq<byte>, core: seq<byte>, rest: seq<byte>)
    requires Parts(bs, junk, core, rest) && MagicFree(junk) && |core| == 3 && Announced(core) == 0
    ensures NoAnswer(bs)
  {
    FirstInParts(bs, junk, core, rest);
    CoreKept(bs, junk, core, rest);
    forall p: nat, n: nat, c
      ensures !Answers(bs, p, n, c)
    {
      ZeroNeverEnds(bs, |junk|, core, n);
      if FirstMagic(bs, p) {
        assert p == |junk|;
      }
    }
  }

  /** A frame that announces no payload is never answered: the client goes on
      reading, whatever follows, until there is a silence. */
  lemma {:induction false} EmptyFrameSwallows(bs: seq<byte>, junk: seq<byte>, f: OutFrame, rest: seq<byte>)
    requires f.Valid() && MagicFree(junk) && f.packet.size == 0 && bs == junk + f.Encoded() + rest
    ensures NoAnswer(bs)
  {
    var core, tail := Dissect(bs, junk, f, rest);
    EmptyCoreSwallows(bs, junk, core, tail);
  }

  // ----- when a frame comes back at all -----

  lemma {:induction false} FirstOne(core: seq<byte>, q: nat) returns (p: nat)
    requires MagicStarts(core, q)
    ensures FirstMagic(core, p)
  {
    if earlier: nat :| earlier < q && MagicStarts(core, earlier) {
      p := FirstOne(core, earlier);
    } else {
      p := q;
    }
  }

  /** The byte dropped from a magic number in the core is made good by the bytes
      behind it: they are 0x41 as well, to the end of the core and one more. */
  ghost predicate MadeGood(core: seq<byte>, tail: seq<byte>) {
    && tail != [] && tail[0] == 0x41
    && forall q: nat :: MagicStarts(core, q) ==> Filler(core, q + 4, |core|)
  }

  predicate Filler(bs: seq<byte>, from: nat, until: nat)
    requires until <= |bs|
  {
    forall k :: from <= k < until ==> bs[k] == 0x41
  }

  /** What the client has kept right behind the first magic number in the core. */
  ghost predicate OneDropped(bs: seq<byte>, s: nat, core: seq<byte>, q: nat) {
    && MagicStarts(core, q) && s + |core| <= |bs|
    && Kept(bs, s, s + q + 4) == core[..q + 3]
    && forall i :: 0 <= i < |core| ==> bs[s + i] == core[i]
  }

  lemma {:induction false} FirstIsDropped(bs: seq<byte>, junk: seq<byte>, core: seq<byte>, rest: seq<byte>, q: nat)
    requires Parts(bs, junk, core, rest) && MagicFree(junk) && FirstMagic(core, q)
    ensures OneDropped(bs, |junk| + 4, core, q)
  {
    var s := |junk| + 4;
    PartsAt(bs, junk, core, rest);
    forall i | s <= i < s + q + 4
      ensures Completes(bs, i) <==> i == s + q + 3
    {
      MagicInParts(bs, junk, core, rest, i - 3);
    }
    KeptAll(bs, s, s + q + 3);
  }

  /** If the bytes behind are 0x41, they fill the gap. */
  lemma {:induction false} GapFills(bs: seq<byte>, s: nat, core: seq<byte>, q: nat, m: nat)
    requires OneDropped(bs, s, core, q) && q + 4 <= m <= |core| + 1 && s + m <= |bs|
    requires Filler(core, q + 4, |core|)
    requires m == |core| + 1 ==> bs[s + |core|] == 0x41
    ensures Kept(bs, s, s + m) == core[..m - 1]
    ensures m > q + 4 ==> !Completes(bs, s + m - 1)
    decreases m
  {
    if m > q + 4 {
      GapFills(bs, s, core, q, m - 1);
      var i := m - 2;
      assert core[q + 3] == 0x41 && bs[s + i] == core[i] == 0x41;
      assert m - 1 < |core| ==> bs[s + (m - 1)] == core[m - 1];
      assert core[..m - 1] == core[..m - 2] + [core[m - 2]];
    }
  }

  /** If what is kept is the core, they have to be. */
  lemma {:induction false} GapHasToFill(bs: seq<byte>, s: nat, core: seq<byte>, q: nat, m: nat, n: nat)
    requires OneDropped(bs, s, core, q) && q + 4 <= m <= |core| + 1
    requires s <= n <= |bs| && Kept(bs, s, n) == core
    ensures s + m <= n && Kept(bs, s, s + m) == core[..m - 1]
    ensures Filler(bs, s + q + 3, s + m)
    decreases m
  {
    if m == q + 4 {
      if n < s + m {
        KeptGrows(bs, s, n, s + m);
      }
    } else {
      GapHasToFill(bs, s, core, q, m - 1, n);
      var i := m - 2;
      assert bs[s + i] == core[i] == 0x41;
      KeptGrows(bs, s, s + m, n);
      assert (core[..i] + [bs[s + m - 1]])[i] == core[i];
      assert core[..m - 1] == core[..i] + [core[i]];
    }
  }

  lemma {:induction false} FillerInCore(bs: seq<byte>, s: nat, core: seq<byte>, q: nat)
    requires OneDropped(bs, s, core, q) && s + |core| < |bs| && Filler(bs, s + q + 3, s + |core| + 1)
    requires FirstMagic(core, q)
    ensures bs[s + |core|] == 0x41
    ensures forall r: nat :: MagicStarts(core, r) ==> Filler(core, r + 4, |core|)
  {
    forall k | q + 3 <= k < |core|
      ensures core[k] == 0x41
    {
      assert bs[s + k] == core[k];
    }
  }

  lemma {:induction false} FilledCoreAnswers(bs: seq<byte>, junk: seq<byte>, core: seq<byte>, rest: seq<byte>)
    requires Parts(bs, junk, core, rest) && MagicFree(junk) && |core| > 3 && |core| == 3 + Announced(core)
    requires !MagicFree(core)
    ensures (exists p: nat, n: nat :: Answers(bs, p, n, Command(core[0], Announced(core), core[3..])))
            <==> MadeGood(core, rest)
  {
    var c := Command(core[0], Announced(core), core[3..]);
    var any: nat :| MagicStarts(core, any);
    var q := FirstOne(core, any);
    FirstInParts(bs, junk, core, rest);
    if MadeGood(core, rest) {
      var n := FilledAnswers(bs, junk, core, rest, q);
    }
    if p: nat, n: nat :| Answers(bs, p, n, c) {
      assert p == |junk|;
      AnsweredIsFilled(bs, junk, core, rest, q, n);
    }
  }

  lemma {:induction false} FilledAnswers(bs: seq<byte>, junk: seq<byte>, core: seq<byte>, rest: seq<byte>, q: nat)
      returns (n: nat)
    requires Parts(bs, junk, core, rest) && MagicFree(junk) && |core| > 3 && |core| == 3 + Announced(core)
    requires FirstMagic(core, q) && MadeGood(core, rest)
    ensures Answers(bs, |junk|, n, Command(core[0], Announced(core), core[3..]))
  {
    var p, s := |junk|, |junk| + 4;
    FirstInParts(bs, junk, core, rest);
    FirstIsDropped(bs, junk, core, rest, q);
    BehindCore(bs, junk, core, rest);
    n := s + |core| + 1;
    GapFilledAnswers(bs, p, core, q, n);
  }

  lemma {:induction false} GapFilledAnswers(bs: seq<byte>, p: nat, core: seq<byte>, q: nat, n: nat)
    requires FirstMagic(bs, p) && OneDropped(bs, p + 4, core, q) && Filler(core, q + 4, |core|)
    requires n == p + 4 + |core| + 1 <= |bs| && bs[p + 4 + |core|] == 0x41
    requires |core| > 3 && |core| == 3 + Announced(core)
    ensures Answers(bs, p, n, Command(core[0], Announced(core), core[3..]))
  {
    GapFills(bs, p + 4, core, q, |core| + 1);
    assert core[..|core|] == core;
  }

  lemma {:induction false} AnsweredIsFilled(bs: seq<byte>, junk: seq<byte>, core: seq<byte>, rest: seq<byte>, q: nat,
                                            n: nat)
    requires Parts(bs, junk, core, rest) && MagicFree(junk) && |core| > 3 && FirstMagic(core, q)
    requires Answers(bs, |junk|, n, Command(core[0], Announced(core), core[3..]))
    ensures MadeGood(core, rest)
  {
    var s := |junk| + 4;
    FirstIsDropped(bs, junk, core, rest, q);
    BehindCore(bs, junk, core, rest);
    SameFrame(Kept(bs, s, n), core);
    GapHasToFill(bs, s, core, q, |core| + 1, n);
    FillerInCore(bs, s, core, q);
  }

  lemma {:induction false} BehindCore(bs: seq<byte>, junk: seq<byte>, core: seq<byte>, rest: seq<byte>)
    requires Parts(bs, junk, core, rest)
    ensures |bs| == |junk| + 4 + |core| + |rest|
    ensures rest != [] ==> bs[|junk| + 4 + |core|] == rest[0]
  {}

  lemma {:induction false} SameFrame(a: seq<byte>, b: seq<byte>)
    requires |a| >= 3 && |b| >= 3 && a[0] == b[0] && Announced(a) == Announced(b) && a[3..] == b[3..]
    ensures a == b
  {
    assert a == a[..3] + a[3..] && b == b[..3] + b[3..];
  }

  /** The exact condition for a frame to come back, wherever the client stops:
      it has a payload, and no magic number in header and payload unless
      everything behind that up to one byte past the payload is 0x41. */
  lemma {:induction false} FrameComesBackIff(bs: seq<byte>, junk: seq<byte>, f: OutFrame, rest: seq<byte>)
    requires f.Valid() && MagicFree(junk) && bs == junk + f.Encoded() + rest
    ensures (exists p: nat, n: nat :: Answers(bs, p, n, Meant(f)))
            <==> f.packet.size >= 1 && (MagicFree(Core(f)) || MadeGood(Core(f), f.Body()[3 + f.packet.size..] + rest))
  {
    var core, tail := Dissect(bs, junk, f, rest);
    if f.packet.size == 0 {
      EmptyFrameSwallows(bs, junk, f, rest);
    } else if MagicFree(core) {
      FrameIntact(bs, junk, f, rest);
    } else {
      FilledCoreAnswers(bs, junk, core, tail);
    }
  }

  /** It does happen: a motor frame whose payload is the magic number and whose
      padding begins with 0x41. */
  lemma {:induction false} MagicPayloadComesBack(bs: seq<byte>, f: OutFrame, rest: seq<byte>)
    requires f.Valid() && f.packet.size == 4 && f.padding >= 1 && bs == [] + f.Encoded() + rest
    requires f.packet.data[..4] == MAGIC_LE && f.packet.data[4] == 0x41
    ensures !MagicFree(Core(f)) && exists p: nat, n: nat :: Answers(bs, p, n, Meant(f))
  {
    MagicPayloadMadeGood(f, rest);
    FrameComesBackIff(bs, [], f, rest);
  }

  lemma {:induction false} MagicPayloadMadeGood(f: OutFrame, rest: seq<byte>)
    requires f.Valid() && f.packet.size == 4 && f.padding >= 1
    requires f.packet.data[..4] == MAGIC_LE && f.packet.data[4] == 0x41
    ensures !MagicFree(Core(f)) && MadeGood(Core(f), f.Body()[3 + f.packet.size..] + rest)
  {
    var core, tail := Core(f), f.Body()[3 + f.packet.size..] + rest;
    CoreFields(f);
    PaddingBegins(f, rest);
    MagicAtEnd(core, tail);
  }

  lemma {:induction false} MagicAtEnd(core: seq<byte>, tail: seq<byte>)
    requires |core| == 7 && core[3..] == MAGIC_LE && tail != [] && tail[0] == 0x41
    ensures !MagicFree(core) && MadeGood(core, tail)
  {
    assert forall i :: 0 <= i < 4 ==> core[3 + i] == MAGIC_LE[i];
    assert MagicStarts(core, 3);
    assert forall q: nat :: MagicStarts(core, q) ==> q + 4 <= |core|;
    assert forall q: nat :: q < 3 ==> !MagicStarts(core, q);
  }

  lemma {:induction false} PaddingBegins(f: OutFrame, rest: seq<byte>)
    requires f.Valid() && f.padding >= 1
    ensures var tail := f.Body()[3 + f.packet.size..] + rest; tail != [] && tail[0] == f.packet.data[f.packet.size]
  {}

  // ----- sessions -----

  /** Successive calls of get_cmd on `bs` return the commands `cs`. */
  ghost predicate Session(bs: seq<byte>, cs: seq<Command>) {
    cs != [] ==> exists p: nat, n: nat :: Answers(bs, p, n, cs[0]) && Session(bs[n..], cs[1..])
  }

  function AllMeant(fs: seq<OutFrame>): (cs: seq<Command>)
    requires forall f <- fs :: f.Valid()
    ensures |cs| == |fs|
  {
    if fs == [] then [] else [Meant(fs[0])] + AllMeant(fs[1..])
  }

  /** A frame the client can understand wherever it stands in the stream. */
  ghost predicate Clean(f: OutFrame) {
    f.Valid() && f.packet.size >= 1 && MagicFree(f.Body())
  }

  lemma {:induction false} MagicStartsIn(a: seq<byte>, b: seq<byte>, q: int)
    ensures q + 4 <= |a| ==> (MagicStarts(a + b, q) <==> MagicStarts(a, q))
    ensures q >= |a| ==> (MagicStarts(a + b, q) <==> MagicStarts(b, q - |a|))
  {}

  lemma {:induction false} MagicFreeParts(a: seq<byte>, b: seq<byte>)
    requires MagicFree(a + b)
    ensures MagicFree(a) && MagicFree(b)
  {
    forall q
      ensures !MagicStarts(a, q) && !MagicStarts(b, q)
    {
      MagicStartsIn(a, b, q);
      MagicStartsIn(a, b, q + |a|);
    }
  }

  lemma {:induction false} PartsRest(bs: seq<byte>, junk: seq<byte>, core: seq<byte>, rest: seq<byte>)
    requires Parts(bs, junk, core, rest)
    ensures bs[|junk| + 4 + |core|..] == rest
  {}

  lemma {:induction false} SessionStep(bs: seq<byte>, p: nat, n: nat, cs: seq<Command>)
    requires cs != [] && Answers(bs, p, n, cs[0]) && Session(bs[n..], cs[1..])
    ensures Session(bs, cs)
  {}

  lemma {:induction false} RestAfter(bs: seq<byte>, junk: seq<byte>, f: OutFrame, rest: seq<byte>)
    requires f.Valid() && bs == junk + f.Encoded() + rest
    ensures |junk| + 7 + f.packet.size <= |bs|
    ensures bs[|junk| + 7 + f.packet.size..] == f.Body()[3 + f.packet.size..] + rest
  {
    var core, tail := Dissect(bs, junk, f, rest);
    PartsRest(bs, junk, core, tail);
  }

  lemma {:induction false} CleanParts(f: OutFrame)
    requires Clean(f)
    ensures MagicFree(Core(f)) && MagicFree(f.Body()[3 + f.packet.size..])
  {
    BodySplit(f);
    MagicFreeParts(Core(f), f.Body()[3 + f.packet.size..]);
  }

  /** A clean frame is answered, and what its reader leaves is junk again. */
  lemma {:induction false} CleanFrameAnswered(bs: seq<byte>, junk: seq<byte>, f: OutFrame, rest: seq<byte>)
      returns (n: nat, pad: seq<byte>)
    requires Clean(f) && MagicFree(junk) && bs == junk + f.Encoded() + rest
    ensures n <= |bs| && Answers(bs, |junk|, n, Meant(f)) && bs[n..] == pad + rest && MagicFree(pad)
  {
    n, pad := |junk| + 7 + f.packet.size, f.Body()[3 + f.packet.size..];
    CleanParts(f);
    RestAfter(bs, junk, f, rest);
    FrameIntact(bs, junk, f, rest);
  }

  /** The round trip: from any sequence of clean frames, RFID and padded motor
      frames in any order, successive calls return exactly their (type, size,
      data), resynchronising over the padding. */
  lemma {:induction false} RoundTrip(junk: seq<byte>, fs: seq<OutFrame>)
    requires forall f <- fs :: f.Valid()
    requires forall f <- fs :: Clean(f)
    requires MagicFree(junk)
    ensures Session(junk + OutStream(fs), AllMeant(fs))
    decreases fs
  {
    if fs != [] {
      var rest := OutStream(fs[1..]);
      var bs := junk + OutStream(fs);
      Assoc(junk, fs[0].Encoded(), rest);
      assert fs[0] in fs;
      var n, pad := CleanFrameAnswered(bs, junk, fs[0], rest);
      RoundTrip(pad, fs[1..]);
      AllMeantStep(fs);
      SessionStep(bs, |junk|, n, AllMeant(fs));
    }
  }

  lemma {:induction false} AllMeantStep(fs: seq<OutFrame>)
    requires fs != [] && forall f <- fs :: f.Valid()
    ensures AllMeant(fs)[0] == Meant(fs[0]) && AllMeant(fs)[1..] == AllMeant(fs[1..])
  {}

  // ----- the hypothesis, said about the stream instead of the frames -----

  /** A frame begins at byte q of the stream. */
  ghost predicate FrameStarts(fs: seq<OutFrame>, q: int)
    requires forall f <- fs :: f.Valid()
  {
    fs != [] && (q == 0 || FrameStarts(fs[1..], q - |fs[0].Encoded()|))
  }

  /** The magic number occurs in the stream only where a frame begins. */
  ghost predicate OnlyAtStarts(fs: seq<OutFrame>)
    requires forall f <- fs :: f.Valid()
  {
    forall q :: MagicStarts(OutStream(fs), q) ==> FrameStarts(fs, q)
  }

  lemma {:induction false} EncodedStarts(f: OutFrame, rest: seq<byte>)
    requires f.Valid()
    ensures MagicStarts(f.Encoded() + rest, 0)
    ensures forall q :: 0 < q < 4 ==> !MagicStarts(f.Encoded() + rest, q)
  {
    assert forall j :: 0 <= j < 4 ==> (f.Encoded() + rest)[j] == MAGIC_LE[j];
  }

  lemma {:induction false} FrameStartsBeyond(fs: seq<OutFrame>, q: int)
    requires forall f <- fs :: f.Valid()
    requires FrameStarts(fs, q)
    ensures q == 0 || q >= |fs[0].Encoded()|
  {
    if q != 0 {
      FrameStartsBeyond(fs[1..], q - |fs[0].Encoded()|);
    }
  }

  /** Where magic numbers lie in a frame followed by other frames. */
  lemma {:induction false} MagicInFrame(f: OutFrame, gs: seq<OutFrame>, q: int)
    requires f.Valid()
    requires forall g <- gs :: g.Valid()
    ensures MagicStarts(f.Encoded() + OutStream(gs), q) <==>
            q == 0 || MagicStarts(f.Body(), q - 4) || MagicStarts(OutStream(gs), q - |f.Encoded()|)
  {
    var e, rest := f.Encoded(), OutStream(gs);
    EncodedStarts(f, rest);
    MagicStartsIn(e, rest, q);
    MagicStartsIn(MAGIC_LE, f.Body(), q);
    if |e| - 4 < q < |e| && gs != [] {
      EncodedStarts(gs[0], OutStream(gs[1..]));
      assert forall j :: 0 <= j < 4 ==> (e + rest)[|e| + j] == rest[j];
    }
  }

  /** "Magic only at frame starts" holds of a stream if and only if no frame
      has a magic number in its body: nothing can straddle two frames. */
  lemma {:induction false} OnlyAtStartsIffBodiesFree(fs: seq<OutFrame>)
    requires forall f <- fs :: f.Valid()
    ensures OnlyAtStarts(fs) <==> forall f <- fs :: MagicFree(f.Body())
    decreases fs
  {
    if fs != [] {
      OnlyAtStartsIffBodiesFree(fs[1..]);
      OnlyAtStartsStep(fs[0], fs[1..], fs);
      assert forall h :: h in fs <==> h == fs[0] || h in fs[1..];
    }
  }

  lemma {:induction false} OnlyAtStartsStep(f: OutFrame, gs: seq<OutFrame>, fs: seq<OutFrame>)
    requires fs != [] && f == fs[0] && gs == fs[1..]
    requires forall h <- fs :: h.Valid()
    ensures OnlyAtStarts(fs) <==> MagicFree(f.Body()) && OnlyAtStarts(gs)
  {
    if OnlyAtStarts(fs) {
      forall q
        ensures !MagicStarts(f.Body(), q) && (MagicStarts(OutStream(gs), q) ==> FrameStarts(gs, q))
      {
        StartsInRest(f, gs, fs, q);
      }
    }
    if MagicFree(f.Body()) && OnlyAtStarts(gs) {
      forall q | MagicStarts(OutStream(fs), q)
        ensures FrameStarts(fs, q)
      {
        MagicInFrame(f, gs, q);
      }
    }
  }

  lemma {:induction false} StartsInRest(f: OutFrame, gs: seq<OutFrame>, fs: seq<OutFrame>, q: int)
    requires fs != [] && f == fs[0] && gs == fs[1..]
    requires forall h <- fs :: h.Valid()
    requires OnlyAtStarts(fs)
    ensures !MagicStarts(f.Body(), q)
    ensures MagicStarts(OutStream(gs), q) ==> FrameStarts(gs, q)
  {
    MagicInFrame(f, gs, q + 4);
    if FrameStarts(fs, q + 4) {
      FrameStartsBeyond(fs, q + 4);
    }
    MagicInFrame(f, gs, q + |f.Encoded()|);
  }
}
