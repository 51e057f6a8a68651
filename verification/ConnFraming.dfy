/** How the CONN server cuts a client's byte stream into packets (ProcessPkg in conn/conn.cpp), stated
    on the whole stream at once. */
module ConnFraming {
  import opened Common

  const XY_MAXBUFF_LEN := 2048000
  const XY_PKG_MAX_LEN := 2048000
  const HEAD_LEN := 17      // XYHeader
  const HEAD_IN_LEN := 34   // XYHeaderIn

  /** XYHeader's first field, in network byte order. */
  function PkgLen(s: seq<byte>): (v: nat)
    requires |s| >= HEAD_LEN
    ensures v < 0x1_0000_0000
  {
    var b0: nat, b1: nat, b2: nat := s[0], s[1], s[2];
    b0 * 0x100_0000 + b1 * 0x1_0000 + b2 * 0x100 + s[3]
  }

  /** A 32-bit value read as a signed integer. */
  function Signed(v: nat): int {
    if v < 0x8000_0000 then v else v - 0x1_0000_0000
  }

  datatype Verdict = Wait(need: nat) | Reject | Whole(len: nat)

  /** The framing part of ProcessPkg. */
  function Frame(s: seq<byte>): (v: Verdict)
    ensures v.Whole? ==> HEAD_LEN <= v.len <= |s|
    ensures v.Wait? ==> |s| < v.need <= XY_PKG_MAX_LEN - HEAD_IN_LEN + HEAD_LEN
  {
    if |s| < HEAD_LEN then Wait(HEAD_LEN)
    else
      var len := PkgLen(s);
      if Signed(len) < HEAD_LEN then Reject
      else if Signed(len) - HEAD_LEN > XY_PKG_MAX_LEN - HEAD_IN_LEN then Reject
      else if len > |s| then Wait(len)
      else Whole(len)
  }

  /** What becomes of a stream: the packets handed on, whether the connection is closed, the bytes kept
      for later, and the state the handlers have left. */
  datatype Outcome<H> = Outcome(packets: seq<seq<byte>>, closed: bool, rest: seq<byte>, state: H)

  /** A packet's own handler: it looks at the connection's state and the packet, and gives the new state,
      or None when it rejects the packet, which closes the connection. */
  type Handler<!H> = (H, seq<byte>) -> Option<H>

  /** The one-pass parse from state h on. */
  function Parse<H>(s: seq<byte>, h: H, handle: Handler<H>): Outcome<H>
    decreases |s|
  {
    if s == [] then Outcome([], false, [], h)
    else
      match Frame(s)
      case Wait(_) => Outcome([], false, s, h)
      case Reject => Outcome([], true, [], h)
      case Whole(len) =>
        match handle(h, s[..len])
        case None => Outcome([], true, [], h)
        case Some(h') =>
          var o := Parse(s[len..], h', handle);
          o.(packets := [s[..len]] + o.packets)
  }

  lemma ParseNothing<H>(h: H, handle: Handler<H>)
    ensures Parse([], h, handle) == Outcome([], false, [], h)
  {
  }

  /** One turn of the loop in Run. */
  lemma ParseStep<H>(s: seq<byte>, h: H, handle: Handler<H>)
    requires s != []
    ensures Frame(s).Wait? ==> Parse(s, h, handle) == Outcome([], false, s, h)
    ensures Frame(s).Reject? ==> Parse(s, h, handle) == Outcome([], true, [], h)
    ensures Frame(s).Whole? ==>
              var packet := s[..Frame(s).len];
              match handle(h, packet)
              case None => Parse(s, h, handle) == Outcome([], true, [], h)
              case Some(h') =>
                var o := Parse(s[Frame(s).len..], h', handle);
                Parse(s, h, handle) == o.(packets := [packet] + o.packets)
  {
  }

  /** Later bytes do not change a verdict that did not ask to wait. */
  lemma FrameStable(a: seq<byte>, b: seq<byte>)
    requires !Frame(a).Wait?
    ensures Frame(a + b) == Frame(a)
  {
    assert (a + b)[..4] == a[..4];
  }

  /** What comes of the bytes behind those that were parsed first. */
  function Then<H>(o: Outcome<H>, b: seq<byte>, handle: Handler<H>): Outcome<H> {
    if o.closed then o
    else
      var o' := Parse(o.rest + b, o.state, handle);
      o'.(packets := o.packets + o'.packets)
  }

  /** Parsing can stop anywhere and go on from the bytes kept. */
  lemma {:induction false} ParseSplit<H>(a: seq<byte>, b: seq<byte>, h: H, handle: Handler<H>)
    ensures Parse(a + b, h, handle) == Then(Parse(a, h, handle), b, handle)
    decreases |a|
  {
    hide Frame;
    if a == [] {
      assert a + b == b && [] + b == b;
    } else if Frame(a).Wait? {
    } else {
      FrameStable(a, b);
      if Frame(a).Whole? {
        var len := Frame(a).len;
        assert (a + b)[..len] == a[..len] && (a + b)[len..] == a[len..] + b;
        if handle(h, a[..len]).Some? {
          SplitBehind(a, b, h, handle, len);
        }
      }
    }
  }

  lemma SplitBehind<H>(a: seq<byte>, b: seq<byte>, h: H, handle: Handler<H>, len: nat)
    requires a != [] && Frame(a) == Whole(len) == Frame(a + b) && handle(h, a[..len]).Some?
    requires (a + b)[..len] == a[..len] && (a + b)[len..] == a[len..] + b
    ensures Parse(a + b, h, handle) == Then(Parse(a, h, handle), b, handle)
    decreases |a|, 0
  {
    hide Frame, Then, Parse;
    var h' := handle(h, a[..len]).value;
    ParseSplit(a[len..], b, h', handle);
    ParseStep(a, h, handle);
    ParseStep(a + b, h, handle);
    ThenMore(a[..len], Parse(a[len..], h', handle), b, handle);
  }

  lemma ThenMore<H>(packet: seq<byte>, o: Outcome<H>, b: seq<byte>, handle: Handler<H>)
    ensures
      var o' := Then(o, b, handle);
      Then(o.(packets := [packet] + o.packets), b, handle) == o'.(packets := [packet] + o'.packets)
  {
    hide Parse;
    if !o.closed {
      var more := Parse(o.rest + b, o.state, handle).packets;
      assert ([packet] + o.packets) + more == [packet] + (o.packets + more);
    }
  }

  /** The bytes kept leave room in the receive buffer, and are not yet a packet, whatever the state. */
  lemma {:induction false} RestLeavesRoom<H>(s: seq<byte>, h: H, handle: Handler<H>)
    ensures
      var o := Parse(s, h, handle);
      && |o.rest| < XY_PKG_MAX_LEN - HEAD_IN_LEN + HEAD_LEN < XY_MAXBUFF_LEN
      && Waiting(o.rest)
    decreases |s|
  {
    if s != [] && Frame(s).Whole? {
      var packet := s[..Frame(s).len];
      if handle(h, packet).Some? {
        RestLeavesRoom(s[Frame(s).len..], handle(h, packet).value, handle);
      }
    }
  }

  predicate Waiting(s: seq<byte>) {
    s == [] || Frame(s).Wait?
  }

  lemma WaitingStays<H>(s: seq<byte>, h: H, handle: Handler<H>)
    ensures Waiting(s) <==> Parse(s, h, handle) == Outcome([], false, s, h)
  {
    if s != [] && Frame(s).Whole? && handle(h, s[..Frame(s).len]).Some? {
      ParseStep(s, h, handle);
    }
  }

  /** The reads of a connection, one after the other: each is parsed behind the bytes kept from the
      one before, until the connection is closed. */
  function ParseChunks<H>(kept: seq<byte>, chunks: seq<seq<byte>>, h: H, handle: Handler<H>): Outcome<H>
    decreases |chunks|
  {
    if chunks == [] then Outcome([], false, kept, h)
    else
      var o := Parse(kept + chunks[0], h, handle);
      if o.closed then o
      else
        var o' := ParseChunks(o.rest, chunks[1..], o.state, handle);
        o'.(packets := o.packets + o'.packets)
  }

  /** Chunk independence: however the stream is split into reads, the packets handed on, the point
      where the connection closes, the bytes kept and the state are those of a one-pass parse. */
  lemma {:induction false} ChunkIndependent<H>(kept: seq<byte>, chunks: seq<seq<byte>>, h: H, handle: Handler<H>)
    requires Waiting(kept)
    ensures ParseChunks(kept, chunks, h, handle) == Parse(kept + Joined(chunks), h, handle)
    decreases |chunks|
  {
    hide Waiting;
    if chunks == [] {
      assert kept + [] == kept;
      WaitingStays(kept, h, handle);
    } else {
      var first, rest := kept + chunks[0], Joined(chunks[1..]);
      assert kept + Joined(chunks) == first + rest;
      ParseSplit(first, rest, h, handle);
      var o := Parse(first, h, handle);
      if !o.closed {
        RestLeavesRoom(first, h, handle);
        ChunkIndependent(o.rest, chunks[1..], o.state, handle);
      }
    }
  }

  // ----- other events between the reads

  /** Some other event changes the connection's state, and then some bytes arrive, in one piece or in
      many. */
  datatype Phase<!H> = Phase(change: H -> H, chunks: seq<seq<byte>>)

  function ParsePhases<H>(kept: seq<byte>, phases: seq<Phase<H>>, h: H, handle: Handler<H>): Outcome<H>
    decreases |phases|
  {
    if phases == [] then Outcome([], false, kept, h)
    else
      var o := ParseChunks(kept, phases[0].chunks, phases[0].change(h), handle);
      if o.closed then o
      else
        var o' := ParsePhases(o.rest, phases[1..], o.state, handle);
        o'.(packets := o.packets + o'.packets)
  }

  /** A login, say, that comes between two reads finds the same packets handed on before it and after it,
      however the bytes before it and after it were split. */
  lemma {:induction false} PhasesIndependent<H>(kept: seq<byte>, phases: seq<Phase<H>>, phases': seq<Phase<H>>, h: H,
      handle: Handler<H>)
    requires Waiting(kept) && |phases| == |phases'|
    requires forall i | 0 <= i < |phases| ::
               phases[i].change == phases'[i].change && Joined(phases[i].chunks) == Joined(phases'[i].chunks)
    ensures ParsePhases(kept, phases, h, handle) == ParsePhases(kept, phases', h, handle)
    decreases |phases|
  {
    hide Waiting;
    if phases != [] {
      var h' := phases[0].change(h);
      ChunkIndependent(kept, phases[0].chunks, h', handle);
      ChunkIndependent(kept, phases'[0].chunks, h', handle);
      var o := ParseChunks(kept, phases[0].chunks, h', handle);
      RestLeavesRoom(kept + Joined(phases[0].chunks), h', handle);
      PhasesIndependent(o.rest, phases[1..], phases'[1..], o.state, handle);
    }
  }

  // ----- what the sender sees

  /** A 32-bit number in network byte order. */
  function Network(v: nat): (s: seq<byte>)
    requires v < 0x1_0000_0000
    ensures |s| == 4
  {
    [v / 0x100_0000, v / 0x1_0000 % 0x100, v / 0x100 % 0x100, v % 0x100]
  }

  /** A packet of a length the server takes, which it starts with. */
  predicate Packet(p: seq<byte>) {
    17 <= |p| <= 2048000 - 34 + 17 && p[..4] == Network(|p|)
  }

  /** The verdict on what starts with a given length in network byte order. */
  lemma FrameIs(s: seq<byte>, len: nat)
    requires |s| >= 17 && len < 0x1_0000_0000 && s[..4] == Network(len)
    ensures Frame(s) == if len < 17 || len > 2048000 - 34 + 17 then Reject
                        else if len > |s| then Wait(len) else Whole(len)
  {
    assert s[0] == s[..4][0] && s[1] == s[..4][1] && s[2] == s[..4][2] && s[3] == s[..4][3];
    FourBytes(len);
  }

  lemma FourBytes(v: nat)
    requires v < 0x1_0000_0000
    ensures v == v / 0x100_0000 * 0x100_0000 + v / 0x1_0000 % 0x100 * 0x1_0000 + v / 0x100 % 0x100 * 0x100 + v % 0x100
  {
    var a, b := v / 0x100, v / 0x1_0000;
    assert a / 0x100 == b && b / 0x100 == v / 0x100_0000;
  }

  /** The packets one after the other, each handled in the state the one before has left; None when one is
      rejected. */
  function Handled<H>(ps: seq<seq<byte>>, h: H, handle: Handler<H>): Option<H>
    decreases |ps|
  {
    if ps == [] then Some(h)
    else
      match handle(h, ps[0])
      case None => None
      case Some(h') => Handled(ps[1..], h', handle)
  }

  /** A stream of whole packets and the beginning of one more: exactly the whole packets are handed on, as
      long as they are accepted, and the beginning is kept. */
  lemma {:induction false} PacketsComeOut<H>(ps: seq<seq<byte>>, p: seq<byte>, k: nat, h: H, handle: Handler<H>)
    requires (forall i | 0 <= i < |ps| :: Packet(ps[i])) && Packet(p) && k < |p| && Handled(ps, h, handle).Some?
    ensures Parse(Joined(ps) + p[..k], h, handle) == Outcome(ps, false, p[..k], Handled(ps, h, handle).value)
    decreases |ps|
  {
    hide Frame, Network;
    if ps == [] {
      assert Joined(ps) + p[..k] == p[..k];
      BeginningWaits(p, k);
      WaitingStays(p[..k], h, handle);
    } else {
      var s, rest := Joined(ps) + p[..k], Joined(ps[1..]) + p[..k];
      assert s == ps[0] + rest;
      assert s[..4] == ps[0][..4] && s[..|ps[0]|] == ps[0] && s[|ps[0]|..] == rest;
      FrameIs(s, |ps[0]|);
      PacketsComeOut(ps[1..], p, k, handle(h, ps[0]).value, handle);
      ParseStep(s, h, handle);
      assert [ps[0]] + ps[1..] == ps;
    }
  }

  lemma BeginningWaits(p: seq<byte>, k: nat)
    requires Packet(p) && k < |p|
    ensures Waiting(p[..k])
  {
    if k >= 17 {
      assert p[..k][..4] == p[..4];
      FrameIs(p[..k], |p|);
    }
  }

  /** And when one is rejected, those before it are handed on and the connection closes. */
  lemma {:induction false} RejectedCloses<H>(
      ps: seq<seq<byte>>, p: seq<byte>, more: seq<byte>, h: H, handle: Handler<H>)
    requires (forall i | 0 <= i < |ps| :: Packet(ps[i])) && Packet(p) && Handled(ps, h, handle).Some?
    requires handle(Handled(ps, h, handle).value, p).None?
    ensures Parse(Joined(ps) + (p + more), h, handle) == Outcome(ps, true, [], Handled(ps, h, handle).value)
    decreases |ps|
  {
    hide Frame, Network;
    if ps == [] {
      assert Joined(ps) + (p + more) == p + more && (p + more)[..4] == p[..4] && (p + more)[..|p|] == p;
      FrameIs(p + more, |p|);
      ParseStep(p + more, h, handle);
    } else {
      var s, rest := Joined(ps) + (p + more), Joined(ps[1..]) + (p + more);
      assert s == ps[0] + rest;
      assert s[..4] == ps[0][..4] && s[..|ps[0]|] == ps[0] && s[|ps[0]|..] == rest;
      FrameIs(s, |ps[0]|);
      RejectedCloses(ps[1..], p, more, handle(h, ps[0]).value, handle);
      ParseStep(s, h, handle);
      assert [ps[0]] + ps[1..] == ps;
    }
  }

  /** Framing round trip: whatever packets are sent, and however the stream is split into reads, exactly
      these packets are handed on. */
  lemma FramingRoundTrip<H>(ps: seq<seq<byte>>, chunks: seq<seq<byte>>, h: H, handle: Handler<H>)
    requires (forall i | 0 <= i < |ps| :: Packet(ps[i])) && Joined(chunks) == Joined(ps)
    requires Handled(ps, h, handle).Some?
    ensures ParseChunks([], chunks, h, handle) == Outcome(ps, false, [], Handled(ps, h, handle).value)
  {
    hide Frame;
    var p := Network(17) + seq(13, _ => 0);
    assert p[..4] == Network(17);
    assert Packet(p);
    assert p[..0] == [] && Joined(ps) + p[..0] == Joined(ps) && [] + Joined(chunks) == Joined(ps);
    PacketsComeOut(ps, p, 0, h, handle);
    ChunkIndependent([], chunks, h, handle);
  }
}
