/** The PS/2 mouse packet assembler in front of the event ring. */
module Mouse {
  import opened Prelude
  import opened Bits
  import opened Rings

  datatype MouseEvent = MouseEvent(dx: int, dy: int, left: bool, right: bool, middle: bool)

  const EMPTY_EVENT := MouseEvent(0, 0, false, false, false)

  /** `b & mask != 0` */
  predicate Test(b: Byte, mask: nat) {
    And(b, mask) != 0
  }

  datatype Packet = Packet(b0: Byte, b1: Byte, b2: Byte) {
    /** Bit 3 is set in every first byte; the assembler uses it to find packet boundaries. */
    predicate Marked() {
      Test(b0, 0x08)
    }

    predicate Overflowed() {
      Test(b0, 0xC0)
    }
  }

  /** Nine-bit sign extension: the sign bit is in the first byte. */
  function Extend(b: Byte, negative: bool): int {
    if negative then b - 256 else b
  }

  function Decode(p: Packet): Option<MouseEvent> {
    if p.Overflowed() then None
    else Some(MouseEvent(Extend(p.b1, Test(p.b0, 0x10)), Extend(p.b2, Test(p.b0, 0x20)),
                         Test(p.b0, 0x01), Test(p.b0, 0x02), Test(p.b0, 0x04)))
  }

  /** The event of a packet, read off the binary digits of its first byte: bits 0 to 2 are the buttons, bits
      4 and 5 the signs of nine-bit two's complement movements. */
  function Motion(p: Packet): MouseEvent {
    MouseEvent(p.b1 - 256 * (p.b0 / 16 % 2), p.b2 - 256 * (p.b0 / 32 % 2),
               p.b0 % 2 == 1, p.b0 / 2 % 2 == 1, p.b0 / 4 % 2 == 1)
  }

  /** A packet is decoded to its event, unless one of the two top bits says that a movement overflowed. */
  lemma DecodeIs(p: Packet)
    ensures Decode(p) == None <==> p.b0 >= 64
    ensures p.b0 < 64 ==> Decode(p) == Some(Motion(p))
  {
    Masks(p.b0);
    hide Test;
  }

  /** Movements the nine-bit fields can carry. */
  predicate Encodable(e: MouseEvent) {
    -256 <= e.dx < 256 && -256 <= e.dy < 256
  }

  function Flag(b: bool, mask: nat): nat {
    if b then mask else 0
  }

  /** The packet a mouse sends for an event. */
  function Encode(e: MouseEvent): Packet
    requires Encodable(e)
  {
    Packet(0x08 + Flag(e.left, 0x01) + Flag(e.right, 0x02) + Flag(e.middle, 0x04)
                + Flag(e.dx < 0, 0x10) + Flag(e.dy < 0, 0x20),
           if e.dx < 0 then e.dx + 256 else e.dx, if e.dy < 0 then e.dy + 256 else e.dy)
  }

  /** What each mask of the packet format tests. */
  lemma Masks(b: Byte)
    ensures Test(b, 0x01) <==> b % 2 == 1
    ensures Test(b, 0x02) <==> b / 2 % 2 == 1
    ensures Test(b, 0x04) <==> b / 4 % 2 == 1
    ensures Test(b, 0x08) <==> b / 8 % 2 == 1
    ensures Test(b, 0x10) <==> b / 16 % 2 == 1
    ensures Test(b, 0x20) <==> b / 32 % 2 == 1
    ensures Test(b, 0xC0) <==> b >= 64
  {
    hide And;
    hide Pow2;
    hide Test;
    SmallPowers();
    OneBit(b, 0, 0x01);
    OneBit(b, 1, 0x02);
    OneBit(b, 2, 0x04);
    OneBit(b, 3, 0x08);
    OneBit(b, 4, 0x10);
    OneBit(b, 5, 0x20);
    TopBits(b);
  }

  lemma TopBits(b: Byte)
    ensures Test(b, 0xC0) <==> b >= 64
  {
    hide And;
    hide Pow2;
    SmallPowers();
    AndHighMask(b, 6, 8);
    assert And(b, 0xC0) == b - b % 64;
  }

  lemma SmallPowers()
    ensures Pow2(0) == 1 && Pow2(1) == 2 && Pow2(2) == 4 && Pow2(3) == 8 && Pow2(4) == 16 && Pow2(5) == 32
    ensures Pow2(6) == 64 && Pow2(8) == 256
  {
  }

  lemma OneBit(b: Byte, k: nat, mask: nat)
    requires Pow2(k) == mask
    ensures Test(b, mask) <==> b / mask % 2 == 1
  {
    AndBit(b, k);
  }

  lemma DecodeEncode(e: MouseEvent)
    requires Encodable(e)
    ensures Encode(e).Marked() && Decode(Encode(e)) == Some(e)
  {
    hide Test;
    var b := Encode(e).b0;
    Masks(b);
    FlagDigits(Flag(e.left, 1), Flag(e.right, 1), Flag(e.middle, 1), Flag(e.dx < 0, 1), Flag(e.dy < 0, 1));
    assert b == 8 + Flag(e.left, 1) + 2 * Flag(e.right, 1) + 4 * Flag(e.middle, 1)
              + 16 * Flag(e.dx < 0, 1) + 32 * Flag(e.dy < 0, 1);
    assert Test(b, 0x01) == e.left && Test(b, 0x02) == e.right && Test(b, 0x04) == e.middle && Test(b, 0x08);
    assert Test(b, 0x10) == (e.dx < 0) && Test(b, 0x20) == (e.dy < 0) && !Test(b, 0xC0);
    hide Flag;
  }

  /** The binary digits of a first byte, from its flags. */
  lemma FlagDigits(left: nat, right: nat, middle: nat, xNegative: nat, yNegative: nat)
    requires left < 2 && right < 2 && middle < 2 && xNegative < 2 && yNegative < 2
    ensures var b := 8 + left + 2 * right + 4 * middle + 16 * xNegative + 32 * yNegative;
            && b < 64 && b % 2 == left && b / 2 % 2 == right && b / 4 % 2 == middle && b / 8 % 2 == 1
            && b / 16 % 2 == xNegative && b / 32 % 2 == yNegative
  {
  }

  lemma EncodeDecode(p: Packet)
    requires p.Marked() && !p.Overflowed()
    ensures Encodable(Decode(p).value) && Encode(Decode(p).value) == p
  {
    Masks(p.b0);
    hide Test;
    BinaryDigits(p.b0);
  }

  lemma BinaryDigits(b: Byte)
    requires b < 64
    ensures b == b % 2 + 2 * (b / 2 % 2) + 4 * (b / 4 % 2) + 8 * (b / 8 % 2) + 16 * (b / 16 % 2) + 32 * (b / 32 % 2)
  {
    HalfOf(b, 1);
    HalfOf(b, 2);
    HalfOf(b, 4);
    HalfOf(b, 8);
    HalfOf(b, 16);
    assert b / 32 < 2;
  }

  lemma HalfOf(b: Byte, d: nat)
    requires d in {1, 2, 4, 8, 16}
    ensures b / d == 2 * (b / (2 * d)) + b / d % 2
  {
  }

  // ---------------------------------------------------------------------------
  // The assembler
  // ---------------------------------------------------------------------------

  /** Which byte is expected next, and the bytes of the packet so far. */
  datatype Partial = Partial(state: Byte, bytes: seq<Byte>)

  function Emits(p: Partial, byte: Byte): Option<MouseEvent>
    requires |p.bytes| == 3
  {
    if p.state == 2 then Decode(Packet(p.bytes[0], p.bytes[1], byte)) else None
  }

  function Feed(p: Partial, byte: Byte): (p': Partial)
    requires |p.bytes| == 3
    ensures |p'.bytes| == 3
  {
    match p.state
    case 0 => if Test(byte, 0x08) then Partial(1, p.bytes[0 := byte]) else p
    case 1 => Partial(2, p.bytes[1 := byte])
    case 2 => Partial(0, p.bytes[2 := byte])
    case _ => p.(state := 0)
  }

  function Listed(e: Option<MouseEvent>): seq<MouseEvent> {
    match e case Some(v) => [v] case None => []
  }

  /** The events a stream of bytes produces, in order. */
  function Events(p: Partial, stream: seq<Byte>): seq<MouseEvent>
    requires |p.bytes| == 3
    decreases |stream|
  {
    if stream == [] then []
    else
      Listed(Emits(p, stream[0])) + Events(Feed(p, stream[0]), stream[1..])
  }

  function FeedAll(p: Partial, stream: seq<Byte>): (p': Partial)
    requires |p.bytes| == 3
    ensures |p'.bytes| == 3
    ensures p.state <= 2 ==> p'.state <= 2
    decreases |stream|
  {
    if stream == [] then p else FeedAll(Feed(p, stream[0]), stream[1..])
  }

  function Bytes(ps: seq<Packet>): seq<Byte> {
    if ps == [] then [] else [ps[0].b0, ps[0].b1, ps[0].b2] + Bytes(ps[1..])
  }

  /** The events of the packets that did not overflow. */
  function Motions(ps: seq<Packet>): seq<MouseEvent> {
    if ps == [] then [] else (if ps[0].b0 < 64 then [Motion(ps[0])] else []) + Motions(ps[1..])
  }

  function EncodeAll(es: seq<MouseEvent>): (ps: seq<Packet>)
    requires forall e :: e in es ==> Encodable(e)
    ensures |ps| == |es| && forall i :: 0 <= i < |es| ==> ps[i] == Encode(es[i])
  {
    if es == [] then [] else [Encode(es[0])] + EncodeAll(es[1..])
  }

  lemma OnePacket(p: Partial, b0: Byte, b1: Byte, b2: Byte, rest: seq<Byte>)
    requires p.state == 0 && |p.bytes| == 3 && Test(b0, 0x08)
    ensures Events(p, [b0, b1, b2] + rest) ==
            Listed(Decode(Packet(b0, b1, b2))) + Events(Partial(0, [b0, b1, b2]), rest)
    ensures FeedAll(p, [b0, b1, b2] + rest) == FeedAll(Partial(0, [b0, b1, b2]), rest)
  {
    hide Test;
    hide Decode;
    var stream := [b0, b1, b2] + rest;
    var p1 := Feed(p, b0);
    var p2 := Feed(p1, b1);
    var p3 := Feed(p2, b2);
    assert stream[1..] == [b1, b2] + rest && stream[1..][1..] == [b2] + rest && stream[1..][1..][1..] == rest;
    assert p3 == Partial(0, [b0, b1, b2]);
    assert Events(p, stream) == Events(p1, stream[1..]);
    assert Events(p1, stream[1..]) == Events(p2, stream[1..][1..]);
    assert FeedAll(p, stream) == FeedAll(p1, stream[1..]) == FeedAll(p2, stream[1..][1..]) == FeedAll(p3, rest);
  }

  /** From a packet boundary, a stream of whole packets yields exactly the events of the packets that
      did not overflow, in order, and ends at a packet boundary. */
  lemma {:induction false} PacketStream(p: Partial, ps: seq<Packet>)
    requires p.state == 0 && |p.bytes| == 3 && forall q :: q in ps ==> q.Marked()
    ensures Events(p, Bytes(ps)) == Motions(ps)
    ensures FeedAll(p, Bytes(ps)).state == 0
    decreases |ps|
  {
    hide Test;
    hide Decode;
    if ps != [] {
      var q := ps[0];
      assert q.Marked();
      DecodeIs(q);
      OnePacket(p, q.b0, q.b1, q.b2, Bytes(ps[1..]));
      assert forall x :: x in ps[1..] ==> x in ps;
      PacketStream(Partial(0, [q.b0, q.b1, q.b2]), ps[1..]);
    }
  }

  /** At a packet boundary bytes without bit 3 are skipped until a first byte comes. */
  lemma {:induction false} UnmarkedAreSkipped(p: Partial, junk: seq<Byte>, rest: seq<Byte>)
    requires p.state == 0 && |p.bytes| == 3 && forall i :: 0 <= i < |junk| ==> junk[i] / 8 % 2 == 0
    ensures Events(p, junk + rest) == Events(p, rest) && FeedAll(p, junk + rest) == FeedAll(p, rest)
    decreases |junk|
  {
    if junk == [] {
      assert junk + rest == rest;
    } else {
      Masks(junk[0]);
      assert (junk + rest)[1..] == junk[1..] + rest;
      UnmarkedAreSkipped(p, junk[1..], rest);
      hide Test;
    }
  }

  /** A state that cannot be is left with the next byte, which is lost. */
  lemma BadStateResets(p: Partial, b: Byte)
    requires p.state > 2 && |p.bytes| == 3
    ensures Feed(p, b).state == 0 && Emits(p, b) == None
  {
  }

  /** The encodings of any encodable events come out as exactly those events. */
  lemma {:induction false} EventsRoundTrip(p: Partial, es: seq<MouseEvent>)
    requires p.state == 0 && |p.bytes| == 3 && forall e :: e in es ==> Encodable(e)
    ensures Events(p, Bytes(EncodeAll(es))) == es
    ensures FeedAll(p, Bytes(EncodeAll(es))).state == 0
  {
    var ps := EncodeAll(es);
    forall q | q in ps
      ensures q.Marked()
    {
      var i :| 0 <= i < |ps| && ps[i] == q;
      DecodeEncode(es[i]);
    }
    PacketStream(p, ps);
    MotionsEncoded(es);
  }

  lemma {:induction false} MotionsEncoded(es: seq<MouseEvent>)
    requires forall e :: e in es ==> Encodable(e)
    ensures Motions(EncodeAll(es)) == es
    decreases |es|
  {
    if es != [] {
      DecodeEncode(es[0]);
      DecodeIs(Encode(es[0]));
      MotionsEncoded(es[1..]);
      hide Decode;
      hide Motion;
      hide Encode;
    }
  }

  lemma {:induction false} FeedAllSnoc(p: Partial, stream: seq<Byte>, b: Byte)
    requires |p.bytes| == 3
    ensures FeedAll(p, stream + [b]) == Feed(FeedAll(p, stream), b)
    ensures Events(p, stream + [b]) == Events(p, stream) + Listed(Emits(FeedAll(p, stream), b))
    decreases |stream|
  {
    hide Feed;
    hide Emits;
    if stream == [] {
      assert ([] + [b])[1..] == [];
    } else {
      assert (stream + [b])[1..] == stream[1..] + [b];
      FeedAllSnoc(Feed(p, stream[0]), stream[1..], b);
    }
  }

  /** The ring after a whole push of the event, if there is one. */
  function Pushed(s: State<MouseEvent>, e: Option<MouseEvent>): State<MouseEvent>
    requires s.producer.PIdle? && s.head < |s.data|
  {
    match e case Some(v) => PushAll(s, v) case None => s
  }

  /** The queue after the event, if there is one, was offered to it: it has room for 127. */
  function Taken(live: seq<MouseEvent>, e: Option<MouseEvent>): seq<MouseEvent> {
    if e.Some? && |live| < BUF_SIZE - 1 then live + [e.value] else live
  }

  class PacketAssembler {
    var state: Byte
    const bytes: array<Byte>
    const queue: RingBuffer<MouseEvent>

    ghost predicate Valid()
      reads this, queue, queue.data
    {
      bytes.Length == 3 && queue.data.Length == BUF_SIZE && Inv(queue.Abs()) && queue.producer.PIdle?
    }

    ghost function Abs(): Partial
      reads this, bytes
    {
      Partial(state, bytes[..])
    }

    constructor ()
      ensures Valid() && Abs() == Partial(0, [0, 0, 0]) && queue.offered == []
      ensures fresh(bytes) && fresh(queue) && fresh(queue.data)
    {
      state := 0;
      bytes := new Byte[3](_ => 0);
      queue := new RingBuffer<MouseEvent>(EMPTY_EVENT);
      new;
      assert bytes[..] == [0, 0, 0];
    }

    /** Decodes the three bytes and pushes the event, unless the packet overflowed. */
    method Finish()
      requires Valid()
      modifies queue, queue.data
      ensures Valid() && queue.consumer == old(queue.consumer)
      ensures queue.Abs() == Pushed(old(queue.Abs()), Decode(Packet(bytes[0], bytes[1], bytes[2])))
      ensures queue.offered == old(queue.offered) + Listed(Decode(Packet(bytes[0], bytes[1], bytes[2])))
      ensures Live(queue.Abs()) == Taken(old(Live(queue.Abs())), Decode(Packet(bytes[0], bytes[1], bytes[2])))
    {
      hide Inv;
      hide Live;
      hide And;
      hide PushAll;
      var b0 := bytes[0];
      if And(b0, 0xC0) != 0 {
        return;
      }
      var left := And(b0, 0x01) != 0;
      var right := And(b0, 0x02) != 0;
      var middle := And(b0, 0x04) != 0;
      var dx: int := if And(b0, 0x10) != 0 then (bytes[1] as int) - 256 else bytes[1];
      var dy: int := if And(b0, 0x20) != 0 then (bytes[2] as int) - 256 else bytes[2];
      assert Decode(Packet(b0, bytes[1], bytes[2])) == Some(MouseEvent(dx, dy, left, right, middle));
      hide Decode;
      queue.Push(MouseEvent(dx, dy, left, right, middle));
    }

    /** One byte from the interrupt handler, whatever the consumer is in the middle of: the event it
        completes, if any, is appended to the queue unless 127 are held. */
    method AddByte(byte: Byte)
      requires Valid()
      modifies this, bytes, queue, queue.data
      ensures Valid() && Abs() == Feed(old(Abs()), byte) && queue.consumer == old(queue.consumer)
      ensures old(state) <= 2 ==> state <= 2
      ensures queue.Abs() == Pushed(old(queue.Abs()), Emits(old(Abs()), byte))
      ensures queue.offered == old(queue.offered) + Listed(Emits(old(Abs()), byte))
      ensures Live(queue.Abs()) == Taken(old(Live(queue.Abs())), Emits(old(Abs()), byte))
    {
      hide Inv;
      hide And;
      hide Decode;
      match state {
        case 0 =>
          if And(byte, 0x08) == 0 {
            return;
          }
          bytes[0] := byte;
          state := 1;
        case 1 =>
          bytes[1] := byte;
          state := 2;
        case 2 =>
          bytes[2] := byte;
          state := 0;
          Finish();
        case _ =>
          state := 0;
      }
    }
  }

  /** A burst of bytes with no pop in between: exactly the events there is room for are appended. */
  method FeedStream(assembler: PacketAssembler, stream: seq<Byte>)
    requires assembler.Valid()
    modifies assembler, assembler.bytes, assembler.queue, assembler.queue.data
    ensures assembler.Valid() && assembler.Abs() == FeedAll(old(assembler.Abs()), stream)
    ensures assembler.queue.offered == old(assembler.queue.offered) + Events(old(assembler.Abs()), stream)
    ensures Live(assembler.queue.Abs()) ==
            Filled(old(Live(assembler.queue.Abs())), Events(old(assembler.Abs()), stream))
  {
    hide Inv;
    hide Live;
    hide Feed;
    hide Emits;
    hide Taken;
    hide Listed;
    hide Pushed;
    hide Absorbed;
    ghost var p, live, offered := assembler.Abs(), Live(assembler.queue.Abs()), assembler.queue.offered;
    NothingAbsorbed(p, assembler.queue.Abs(), offered);
    for i := 0 to |stream|
      invariant assembler.Valid()
      invariant Absorbed(p, live, offered, stream[..i],
                         assembler.Abs(), Live(assembler.queue.Abs()), assembler.queue.offered)
    {
      AbsorbedSnoc(p, live, offered, stream[..i],
                   assembler.Abs(), Live(assembler.queue.Abs()), assembler.queue.offered, stream[i]);
      assert stream[..i] + [stream[i]] == stream[..i + 1];
      assembler.AddByte(stream[i]);
    }
    assert stream[..|stream|] == stream;
    AbsorbedMeans(p, live, offered, stream, assembler.Abs(), Live(assembler.queue.Abs()), assembler.queue.offered);
  }

  /** Assembler, queue and history before and after some bytes. */
  ghost predicate Absorbed(p: Partial, live: seq<MouseEvent>, offered: seq<MouseEvent>, stream: seq<Byte>,
                           p': Partial, live': seq<MouseEvent>, offered': seq<MouseEvent>)
  {
    && |p.bytes| == 3 && p' == FeedAll(p, stream)
    && offered' == offered + Events(p, stream)
    && live' == Filled(live, Events(p, stream))
  }

  lemma NothingAbsorbed(p: Partial, s: State<MouseEvent>, offered: seq<MouseEvent>)
    requires |p.bytes| == 3 && Inv(s)
    ensures |s.data| == BUF_SIZE && |Live(s)| < BUF_SIZE
    ensures Absorbed(p, Live(s), offered, [], p, Live(s), offered)
  {
    CountMeaning(s);
  }

  lemma AbsorbedMeans(p: Partial, live: seq<MouseEvent>, offered: seq<MouseEvent>, stream: seq<Byte>,
                      p': Partial, live': seq<MouseEvent>, offered': seq<MouseEvent>)
    requires Absorbed(p, live, offered, stream, p', live', offered')
    ensures |p.bytes| == 3 && p' == FeedAll(p, stream)
    ensures offered' == offered + Events(p, stream) && live' == Filled(live, Events(p, stream))
  {
  }

  lemma AbsorbedSnoc(p: Partial, live: seq<MouseEvent>, offered: seq<MouseEvent>, stream: seq<Byte>,
                     p': Partial, live': seq<MouseEvent>, offered': seq<MouseEvent>, b: Byte)
    requires Absorbed(p, live, offered, stream, p', live', offered') && |live| < BUF_SIZE
    ensures |p'.bytes| == 3
    ensures Absorbed(p, live, offered, stream + [b],
                     Feed(p', b), Taken(live', Emits(p', b)), offered' + Listed(Emits(p', b)))
  {
    FeedAllSnoc(p, stream, b);
    FilledTaken(live, Events(p, stream), Emits(p', b));
    hide Filled;
    hide Emits;
    hide Feed;
  }

  /** A queue after more events were offered to it. */
  function Filled(live: seq<MouseEvent>, es: seq<MouseEvent>): seq<MouseEvent> {
    live + es[..Min(|es|, Monus(BUF_SIZE - 1, |live|))]
  }

  lemma FilledTaken(live: seq<MouseEvent>, es: seq<MouseEvent>, e: Option<MouseEvent>)
    requires |live| < BUF_SIZE
    ensures Taken(Filled(live, es), e) == Filled(live, es + Listed(e))
  {
    var room := Monus(BUF_SIZE - 1, |live|);
    if e.Some? && |es| < room {
      assert es + [e.value] == (es + [e.value])[..Min(|es| + 1, room)];
    } else {
      assert (es + Listed(e))[..Min(|es + Listed(e)|, room)] == es[..Min(|es|, room)];
    }
  }

  // ---------------------------------------------------------------------------
  // The interrupt handler and the consumer together
  // ---------------------------------------------------------------------------

  /** The assembler, the ring behind it, and the bytes the mouse has sent so far. */
  datatype Driver = Driver(partial: Partial, ring: State<MouseEvent>, fed: seq<Byte>)

  /** The mouse sends a byte, or either side takes the next atomic step of its push or pop. A push
      begins with the byte that completes its event, and the next byte waits until it is over. */
  datatype Action = Send(byte: Byte) | Atomic(step: Step<MouseEvent>)

  predicate CanAct(s: Driver, a: Action) {
    match a
    case Send(_) => s.ring.producer.PIdle? && |s.partial.bytes| == 3
    case Atomic(step) => Enabled(s.ring, step) && !step.BeginPush?
  }

  function Act(s: Driver, a: Action): Driver
    requires CanAct(s, a)
  {
    match a
    case Send(b) =>
      var ring := match Emits(s.partial, b) case Some(e) => Next(s.ring, BeginPush(e)) case None => s.ring;
      Driver(Feed(s.partial, b), ring, s.fed + [b])
    case Atomic(step) => s.(ring := Next(s.ring, step))
  }

  const START := Partial(0, [0, 0, 0])

  ghost predicate IsDriverRun(states: seq<Driver>, actions: seq<Action>) {
    && |states| == |actions| + 1
    && |states[0].ring.data| == BUF_SIZE && states[0] == Driver(START, Init(states[0].ring.data), [])
    && forall i :: 0 <= i < |actions| ==> CanAct(states[i], actions[i]) && states[i + 1] == Act(states[i], actions[i])
  }

  /** The event being pushed right now, if any. */
  function InFlight(p: Producer<MouseEvent>): seq<MouseEvent> {
    if p.PIdle? then [] else [p.value]
  }

  /** What holds between any two steps: the ring's own invariant, the assembler has read every byte, and
      the events of the bytes are those offered to the ring and the one in flight. */
  ghost predicate DriverInv(s: Driver) {
    && Inv(s.ring)
    && s.partial == FeedAll(START, s.fed)
    && s.ring.offered + InFlight(s.ring.producer) == Events(START, s.fed)
  }

  lemma ActInv(s: Driver, a: Action)
    requires DriverInv(s) && CanAct(s, a)
    ensures DriverInv(Act(s, a))
  {
    hide Inv;
    hide Emits;
    hide Feed;
    match a {
      case Send(b) =>
        FeedAllSnoc(START, s.fed, b);
        var e := Emits(s.partial, b);
        if e.Some? {
          InvNext(s.ring, BeginPush(e.value));
        }
      case Atomic(step) =>
        InvNext(s.ring, step);
    }
  }

  /** The rest of a push, with no step of the consumer in between. */
  function PushFinished(s: Driver): Driver
    requires s.ring.producer.PIdle? || (s.ring.producer.PLoadedHead? && s.ring.producer.at < |s.ring.data|)
  {
    if s.ring.producer.PIdle? then s
    else
      var t := Act(s, Atomic(CheckRoom));
      if t.ring.producer.PIdle? then t else Act(Act(t, Atomic(WriteSlot)), Atomic(PublishHead))
  }

  /** What one call of the interrupt handler does to assembler and ring is a byte and the steps of its push. */
  lemma HandlerIsActions(s: Driver, b: Byte)
    requires CanAct(s, Send(b)) && s.ring.head < |s.ring.data|
    ensures PushFinished(Act(s, Send(b))) == Driver(Feed(s.partial, b), Pushed(s.ring, Emits(s.partial, b)), s.fed + [b])
  {
  }

  lemma {:induction false} DriverRunInv(states: seq<Driver>, actions: seq<Action>, k: nat)
    requires IsDriverRun(states, actions) && k < |states|
    ensures DriverInv(states[k])
  {
    if k == 0 {
      InitInv(states[0].ring.data);
    } else {
      DriverRunInv(states, actions, k - 1);
      ActInv(states[k - 1], actions[k - 1]);
    }
  }

  /** Bytes to events end to end. In every state of every interleaving of the bytes with the consumer's
      pops, whatever the bytes: what was popped, followed by what is queued, are the events of the bytes
      but for the one in flight and the dropped ones, in order; all of them if none was dropped. */
  lemma ConsumerSeesTheEvents(states: seq<Driver>, actions: seq<Action>, k: nat)
    requires IsDriverRun(states, actions) && k < |states|
    ensures var s := states[k].ring;
            && |s.data| == BUF_SIZE
            && s.offered + InFlight(s.producer) == Events(START, states[k].fed)
            && Subsequence(s.popped + Live(s), s.offered, s.drops)
            && (s.drops == 0 ==> s.popped + Live(s) + InFlight(s.producer) == Events(START, states[k].fed))
  {
    DriverRunInv(states, actions, k);
    var s := states[k].ring;
    if s.drops == 0 {
      NothingMissing(s.accepted, s.offered);
    }
  }

  /** Nothing is dropped if and only if the ring never held 127 events when a push looked for room. */
  lemma {:induction false} DropsIffFull(states: seq<Driver>, actions: seq<Action>, k: nat)
    requires IsDriverRun(states, actions) && k < |states|
    ensures states[k].ring.drops == 0 <==>
            forall i :: 0 <= i < k && actions[i] == Atomic(CheckRoom) ==> Count(states[i].ring) < BUF_SIZE - 1
  {
    hide DriverInv;
    hide Act;
    hide CanAct;
    hide Count;
    if k > 0 {
      var s, a := states[k - 1], actions[k - 1];
      DropsIffFull(states, actions, k - 1);
      DriverRunInv(states, actions, k - 1);
      ActDrops(s, a);
    } else {
      assert states[0].ring.drops == 0;
    }
  }

  lemma ActDrops(s: Driver, a: Action)
    requires DriverInv(s) && CanAct(s, a)
    ensures Act(s, a).ring.drops ==
            s.ring.drops + (if a == Atomic(CheckRoom) && Count(s.ring) >= BUF_SIZE - 1 then 1 else 0)
  {
    CountMeaning(s.ring);
    hide Count;
    hide Live;
    hide Subsequence;
    hide Emits;
  }

  /** In particular, for the encodings of any event list. */
  lemma EncodedEventsArrive(states: seq<Driver>, actions: seq<Action>, k: nat, es: seq<MouseEvent>)
    requires IsDriverRun(states, actions) && k < |states|
    requires forall e :: e in es ==> Encodable(e)
    requires states[k].fed == Bytes(EncodeAll(es))
    ensures var s := states[k].ring;
            && |s.data| == BUF_SIZE
            && s.offered + InFlight(s.producer) == es
            && Subsequence(s.popped + Live(s), s.offered, s.drops)
            && (s.drops == 0 ==> s.popped + Live(s) + InFlight(s.producer) == es)
  {
    ConsumerSeesTheEvents(states, actions, k);
    EventsRoundTrip(START, es);
  }
}
