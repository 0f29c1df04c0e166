/**
 The receive side of the DM9000 driver (xnetdev.c): a parser over the bytes in the chip's receive
 memory. A stored packet is a ready byte, a status byte, a little-endian length, and the frame
 rounded up to whole words.
 */
module Receive {
  newtype Byte = x: int | 0 <= x < 256

  type Frame = seq<Byte>

  const PKT_RDY: Byte := 1
  const PKT_MIN := 0x40
  const PKT_MAX := 1536

  /** Reading past the stored bytes gives zeros. */
  function ByteAt(mem: seq<Byte>, i: nat): Byte {
    if i < |mem| then mem[i] else 0
  }

  /** n bytes from position pos on. */
  function Slice(mem: seq<Byte>, pos: nat, n: nat): (r: seq<Byte>)
    ensures |r| == n
  {
    seq<Byte>(n, i requires 0 <= i < n => ByteAt(mem, pos + i))
  }

  /** The number that two bytes stand for, low byte first. */
  function Word(low: Byte, high: Byte): nat {
    low as nat + 256 * (high as nat)
  }

  function Words(len: nat): nat {
    (len + 1) / 2
  }

  // ---------- The parser ----------

  /** RxStatus & 0xbf00 == 0, for the status byte in the upper half of the first word. */
  predicate StatusOk(status: Byte) {
    status == 0 || status == 0x40
  }

  /** The length in the header at position pos. */
  function Len(mem: seq<Byte>, pos: nat): nat {
    Word(ByteAt(mem, pos + 2), ByteAt(mem, pos + 3))
  }

  /** GoodPacket: long enough and received without error. */
  predicate Good(mem: seq<Byte>, pos: nat) {
    Len(mem, pos) >= PKT_MIN && StatusOk(ByteAt(mem, pos + 1))
  }

  /** Where the packet at position pos ends. */
  function Next(mem: seq<Byte>, pos: nat): nat {
    pos + 4 + 2 * Words(Len(mem, pos))
  }

  /** What one run of do_xnet_rx does: the frames passed up, the position reached, the new value of
      device_wait_reset, whether receiving was switched off, and the register left selected. */
  datatype Received = Received(frames: seq<Frame>, next: nat, wait: bool, halted: bool, index: Byte)

  /** The frames of r with others in front. */
  function After(front: seq<Frame>, r: Received): Received {
    r.(frames := front + r.frames)
  }

  /** The frame at position pos, without checksum, if it is good and gets the k-th buffer. */
  function FrameAt(mem: seq<Byte>, pos: nat, alloc: nat -> bool, k: nat): seq<Frame> {
    if Good(mem, pos) && alloc(k) then [Slice(mem, pos + 4, Len(mem, pos) - 4)] else []
  }

  /** A packet stands at pos and its length is acceptable. */
  predicate Continues(mem: seq<Byte>, pos: nat, wait: bool) {
    ByteAt(mem, pos) == PKT_RDY && !wait && Len(mem, pos) <= PKT_MAX
  }

  /** How the parser ends at pos. */
  function Stop(mem: seq<Byte>, pos: nat, wait: bool): Received {
    if ByteAt(mem, pos) > PKT_RDY then Received([], pos, true, true, 0xfe)
    else if ByteAt(mem, pos) < PKT_RDY then Received([], pos, wait, false, 0xf0)
    else Received([], pos + 4, true, false, 0xf2)
  }

  /** alloc(k) says whether the k-th buffer asked for is granted. */
  function Parse(mem: seq<Byte>, pos: nat, wait: bool, alloc: nat -> bool, k: nat): (r: Received)
    decreases if pos < |mem| then |mem| - pos else 0
  {
    if Continues(mem, pos, wait) then
      After(FrameAt(mem, pos, alloc, k),
            Parse(mem, Next(mem, pos), false, alloc, if Good(mem, pos) then k + 1 else k))
    else Stop(mem, pos, wait)
  }

  /** Switching reception off comes with asking for a reset, and that is never taken back. */
  lemma {:induction false} ParseWaits(mem: seq<Byte>, pos: nat, wait: bool, alloc: nat -> bool, k: nat)
    ensures var r := Parse(mem, pos, wait, alloc, k); (r.halted ==> r.wait) && (wait ==> r.wait)
    decreases if pos < |mem| then |mem| - pos else 0
  {
    if Continues(mem, pos, wait) {
      ParseWaits(mem, Next(mem, pos), false, alloc, if Good(mem, pos) then k + 1 else k);
    }
  }

  lemma AfterAfter(front: seq<Frame>, more: seq<Frame>, r: Received)
    ensures After(front, After(more, r)) == After(front + more, r) && After([], r) == r
  {
    assert front + (more + r.frames) == front + more + r.frames;
    assert [] + r.frames == r.frames;
  }

  lemma ParseContinues(mem: seq<Byte>, pos: nat, alloc: nat -> bool, k: nat, got: seq<Frame>)
    requires Continues(mem, pos, false)
    ensures After(got, Parse(mem, pos, false, alloc, k)) ==
            After(got + FrameAt(mem, pos, alloc, k),
                  Parse(mem, Next(mem, pos), false, alloc, if Good(mem, pos) then k + 1 else k))
  {
    AfterAfter(got, FrameAt(mem, pos, alloc, k),
               Parse(mem, Next(mem, pos), false, alloc, if Good(mem, pos) then k + 1 else k));
  }

  // ---------- Stored packets ----------

  /** A packet as the chip stores it: `body` is the frame with its checksum, `pad` follows a body
      of odd length. */
  datatype Packet = Packet(status: Byte, body: Frame, pad: Byte)

  ghost predicate Fits(p: Packet) {
    |p.body| < 0x1_0000
  }

  function Stored(p: Packet): (m: seq<Byte>)
    requires Fits(p)
    ensures |m| == 4 + 2 * Words(|p.body|)
  {
    [1, p.status, (|p.body| % 256) as Byte, (|p.body| / 256) as Byte] + p.body +
    if |p.body| % 2 == 1 then [p.pad] else []
  }

  /** The packets one after the other, then other bytes. */
  function Memory(ps: seq<Packet>, tail: seq<Byte>): seq<Byte>
    requires forall p :: p in ps ==> Fits(p)
  {
    if ps == [] then tail else Stored(ps[0]) + Memory(ps[1..], tail)
  }

  predicate OverLong(p: Packet) {
    |p.body| > 1536
  }

  /** No error: of the bits of the status all but the one of weight 0x40, which marks a multicast frame,
      are clear. */
  predicate Faultless(status: Byte) {
    status < 0x80 && status % 0x40 == 0
  }

  predicate Deliverable(p: Packet) {
    64 <= |p.body| <= 1536 && Faultless(p.status)
  }

  function Payload(p: Packet, alloc: nat -> bool, k: nat): seq<Frame> {
    if Deliverable(p) && alloc(k) then [p.body[..|p.body| - 4]] else []
  }

  /** The frames, without checksum, of the deliverable packets that get a buffer. */
  function Payloads(ps: seq<Packet>, alloc: nat -> bool, k: nat): seq<Frame> {
    if ps == [] then []
    else Payload(ps[0], alloc, k) + Payloads(ps[1..], alloc, if Deliverable(ps[0]) then k + 1 else k)
  }

  /** How many of the packets ask for a buffer. */
  function Asked(ps: seq<Packet>): nat {
    if ps == [] then 0 else (if Deliverable(ps[0]) then 1 else 0) + Asked(ps[1..])
  }

  /** How many bytes the packets take. */
  function Extent(ps: seq<Packet>): nat {
    if ps == [] then 0 else 4 + 2 * Words(|ps[0].body|) + Extent(ps[1..])
  }

  ghost predicate AllShort(ps: seq<Packet>) {
    forall p :: p in ps ==> Fits(p) && !OverLong(p)
  }

  /** The driver's test and the chip's bits are the mask 0xbf. */
  lemma StatusMask(status: Byte)
    ensures StatusOk(status) <==> (status as bv8) & 0xbf == 0
    ensures Faultless(status) <==> (status as bv8) & 0xbf == 0
  {
  }

  /** The header and body of p stand at position pos. */
  ghost predicate StoredAt(mem: seq<Byte>, pos: nat, p: Packet) {
    && ByteAt(mem, pos) == 1 && ByteAt(mem, pos + 1) == p.status && Len(mem, pos) == |p.body|
    && forall i :: 0 <= i < |p.body| ==> ByteAt(mem, pos + 4 + i) == p.body[i]
  }

  lemma StoredStands(mem: seq<Byte>, pos: nat, p: Packet, tail: seq<Byte>)
    requires Fits(p) && pos <= |mem| && mem[pos..] == Stored(p) + tail
    ensures StoredAt(mem, pos, p) && Next(mem, pos) <= |mem| && mem[Next(mem, pos)..] == tail
  {
    var m := Stored(p);
    assert forall i :: 0 <= i < |m| ==> mem[pos + i] == mem[pos..][i] == m[i];
    assert mem[pos..][|m|..] == tail;
  }

  /** One stored packet of admissible length is consumed whole, leaving the parser on the next
      header. */
  lemma OnePacket(mem: seq<Byte>, pos: nat, p: Packet, alloc: nat -> bool, k: nat)
    requires StoredAt(mem, pos, p) && !OverLong(p)
    ensures Parse(mem, pos, false, alloc, k) ==
            After(Payload(p, alloc, k), Parse(mem, Next(mem, pos), false, alloc, if Deliverable(p) then k + 1 else k))
  {
    assert Deliverable(p) ==> Slice(mem, pos + 4, |p.body| - 4) == p.body[..|p.body| - 4];
  }

  /** f consumes one admissible packet at a time, leaving itself on the next header. */
  ghost predicate StepsOver(f: (nat, nat) -> Received, mem: seq<Byte>, alloc: nat -> bool) {
    forall pos: nat, p: Packet, k: nat :: StoredAt(mem, pos, p) && !OverLong(p) ==>
      f(pos, k) == After(Payload(p, alloc, k), f(Next(mem, pos), if Deliverable(p) then k + 1 else k))
  }

  /** The packets stand one after the other from position pos on. */
  ghost predicate AllStoredAt(mem: seq<Byte>, pos: nat, ps: seq<Packet>)
    decreases |ps|
  {
    ps != [] ==> StoredAt(mem, pos, ps[0]) && AllStoredAt(mem, Next(mem, pos), ps[1..])
  }

  lemma {:induction false} MemoryStands(mem: seq<Byte>, pos: nat, ps: seq<Packet>, tail: seq<Byte>)
    requires AllShort(ps) && pos <= |mem| && mem[pos..] == Memory(ps, tail)
    ensures AllStoredAt(mem, pos, ps) && pos + Extent(ps) <= |mem| && mem[pos + Extent(ps)..] == tail
    decreases |ps|
  {
    if ps != [] {
      StoredStands(mem, pos, ps[0], Memory(ps[1..], tail));
      MemoryStands(mem, Next(mem, pos), ps[1..], tail);
    }
  }

  lemma {:induction false} StepsOverAll(f: (nat, nat) -> Received, mem: seq<Byte>, pos: nat, ps: seq<Packet>,
                                        alloc: nat -> bool, k: nat)
    requires StepsOver(f, mem, alloc) && AllShort(ps) && AllStoredAt(mem, pos, ps)
    ensures f(pos, k) == After(Payloads(ps, alloc, k), f(pos + Extent(ps), k + Asked(ps)))
    decreases |ps|
  {
    if ps == [] {
      AfterAfter([], [], f(pos, k));
    } else {
      var p, rest := ps[0], ps[1..];
      var k' := if Deliverable(p) then k + 1 else k;
      var next := Next(mem, pos);
      assert f(pos, k) == After(Payload(p, alloc, k), f(next, k'));
      assert pos + Extent(ps) == next + Extent(rest) && k + Asked(ps) == k' + Asked(rest);
      StepsOverAll(f, mem, next, rest, alloc, k');
      AfterAfter(Payload(p, alloc, k), Payloads(rest, alloc, k'), f(pos + Extent(ps), k + Asked(ps)));
    }
  }

  ghost function Parser(mem: seq<Byte>, alloc: nat -> bool): (nat, nat) -> Received {
    (pos: nat, k: nat) => Parse(mem, pos, false, alloc, k)
  }

  lemma ParserStepsOver(mem: seq<Byte>, alloc: nat -> bool)
    ensures StepsOver(Parser(mem, alloc), mem, alloc)
  {
    forall pos: nat, p: Packet, k: nat | StoredAt(mem, pos, p) && !OverLong(p) {
      OnePacket(mem, pos, p, alloc, k);
    }
  }

  lemma ParserFirst(f: (nat, nat) -> Received, mem: seq<Byte>, pos: nat, ps: seq<Packet>, alloc: nat -> bool)
    requires f == Parser(mem, alloc) && AllShort(ps) && AllStoredAt(mem, pos, ps)
    ensures f(pos, 0) == After(Payloads(ps, alloc, 0), f(pos + Extent(ps), Asked(ps)))
  {
    assert StepsOver(f, mem, alloc) by {
      ParserStepsOver(mem, alloc);
    }
    StepsOverAll(f, mem, pos, ps, alloc, 0);
  }

  /** Admissible packets in front are delivered in order, whatever follows them. */
  lemma PacketsFirst(mem: seq<Byte>, pos: nat, ps: seq<Packet>, tail: seq<Byte>, alloc: nat -> bool)
    requires AllShort(ps) && pos <= |mem| && mem[pos..] == Memory(ps, tail)
    ensures pos + Extent(ps) <= |mem| && mem[pos + Extent(ps)..] == tail
    ensures Parse(mem, pos, false, alloc, 0) ==
            After(Payloads(ps, alloc, 0), Parse(mem, pos + Extent(ps), false, alloc, Asked(ps)))
  {
    MemoryStands(mem, pos, ps, tail);
    ParserFirst(Parser(mem, alloc), mem, pos, ps, alloc);
  }

  lemma {:induction false} StepsThenStop(f: (nat, nat) -> Received, mem: seq<Byte>, pos: nat, ps: seq<Packet>,
                                         alloc: nat -> bool, end: Received)
    requires StepsOver(f, mem, alloc) && AllShort(ps) && AllStoredAt(mem, pos, ps)
    requires f(pos + Extent(ps), Asked(ps)) == end && end.frames == []
    ensures f(pos, 0) == end.(frames := Payloads(ps, alloc, 0))
  {
    StepsOverAll(f, mem, pos, ps, alloc, 0);
    assert Payloads(ps, alloc, 0) + [] == Payloads(ps, alloc, 0);
  }

  lemma ParserThenStop(f: (nat, nat) -> Received, mem: seq<Byte>, pos: nat, ps: seq<Packet>, alloc: nat -> bool)
    requires f == Parser(mem, alloc) && AllShort(ps) && AllStoredAt(mem, pos, ps)
    requires !Continues(mem, pos + Extent(ps), false)
    ensures f(pos, 0) == Stop(mem, pos + Extent(ps), false).(frames := Payloads(ps, alloc, 0))
  {
    assert StepsOver(f, mem, alloc) by {
      ParserStepsOver(mem, alloc);
    }
    assert f(pos + Extent(ps), Asked(ps)) == Stop(mem, pos + Extent(ps), false);
    StepsThenStop(f, mem, pos, ps, alloc, Stop(mem, pos + Extent(ps), false));
  }

  /** Packets in front of a place where the parser ends without a frame. */
  lemma PacketsThenStop(mem: seq<Byte>, pos: nat, ps: seq<Packet>, tail: seq<Byte>, alloc: nat -> bool)
    requires AllShort(ps) && pos <= |mem| && mem[pos..] == Memory(ps, tail)
    requires !Continues(mem, pos + Extent(ps), false)
    ensures Parse(mem, pos, false, alloc, 0) ==
            Stop(mem, pos + Extent(ps), false).(frames := Payloads(ps, alloc, 0))
  {
    MemoryStands(mem, pos, ps, tail);
    ParserThenStop(Parser(mem, alloc), mem, pos, ps, alloc);
  }

  lemma TailStands(mem: seq<Byte>, pos: nat, ps: seq<Packet>, tail: seq<Byte>)
    requires AllShort(ps) && pos <= |mem| && mem[pos..] == Memory(ps, tail)
    ensures pos + Extent(ps) <= |mem| && mem[pos + Extent(ps)..] == tail
    ensures ByteAt(mem, pos + Extent(ps)) == ByteAt(tail, 0)
  {
    MemoryStands(mem, pos, ps, tail);
  }

  /** Stored packets followed by a byte that is not ready: exactly the deliverable frames that get
      a buffer are passed up, in order, and the parser stops at that byte. */
  lemma ReceivesStored(mem: seq<Byte>, pos: nat, ps: seq<Packet>, tail: seq<Byte>, alloc: nat -> bool)
    requires AllShort(ps) && pos <= |mem| && mem[pos..] == Memory(ps, tail) && ByteAt(tail, 0) == 0
    ensures Parse(mem, pos, false, alloc, 0) ==
            Received(Payloads(ps, alloc, 0), pos + Extent(ps), false, false, 0xf0)
  {
    TailStands(mem, pos, ps, tail);
    PacketsThenStop(mem, pos, ps, tail, alloc);
  }

  /** The first over-long packet ends reception behind its header and asks for a reset. */
  lemma StopsAtOverLong(mem: seq<Byte>, pos: nat, ps: seq<Packet>, p: Packet, tail: seq<Byte>, alloc: nat -> bool)
    requires AllShort(ps) && Fits(p) && OverLong(p) && pos <= |mem| && mem[pos..] == Memory(ps, Stored(p) + tail)
    ensures Parse(mem, pos, false, alloc, 0) ==
            Received(Payloads(ps, alloc, 0), pos + Extent(ps) + 4, true, false, 0xf2)
  {
    TailStands(mem, pos, ps, Stored(p) + tail);
    StoredStands(mem, pos + Extent(ps), p, tail);
    PacketsThenStop(mem, pos, ps, Stored(p) + tail, alloc);
  }

  /** A byte above 1 where a header should start stops the device. */
  lemma StopsAtGarbage(mem: seq<Byte>, pos: nat, ps: seq<Packet>, tail: seq<Byte>, alloc: nat -> bool)
    requires AllShort(ps) && pos <= |mem| && mem[pos..] == Memory(ps, tail) && ByteAt(tail, 0) > 1
    ensures Parse(mem, pos, false, alloc, 0) ==
            Received(Payloads(ps, alloc, 0), pos + Extent(ps), true, true, 0xfe)
  {
    TailStands(mem, pos, ps, tail);
    PacketsThenStop(mem, pos, ps, tail, alloc);
  }
}
