/**
 The DM9000 chip as far as the driver uses it: an index port that selects a register, a data port,
 a transmit memory with one transmitter behind it, and a receive memory. It can finish a
 transmission at any time; every access to the data port is given a flag that says whether it does
 so just before.
 */
module Dm9000 {
  import opened Receive

  const NSR: Byte := 0x01  // transmit status
  const TCR: Byte := 0x02  // transmit polling
  const RCR: Byte := 0x05  // receive control
  const MRCMDX: Byte := 0xf0  // look at receive memory
  const MRCMD: Byte := 0xf2  // read receive memory
  const MWCMD: Byte := 0xf8  // write transmit memory
  const TXPLL: Byte := 0xfc  // transmit length, low and high byte
  const TXPLH: Byte := 0xfd
  const ISR: Byte := 0xfe  // interrupt status
  const IMR: Byte := 0xff  // interrupt mask

  const MASKED: Byte := 0x80
  const UNMASKED: Byte := 0x83

  /** The transmit side. `sent` is its interrupt flag, `end1` and `end2` the transmit-complete flags
      used in turn. `fault` records a polling command that the chip could not obey. */
  datatype Tx = Tx(sent: bool, end1: bool, end2: bool, second: bool, lenLow: Byte, lenHigh: Byte,
                   mem: seq<Byte>, busy: bool, wire: seq<Frame>, fault: bool)

  /** The receive side. `pos` is the read position in the memory that arriving packets are appended to. */
  datatype Rx = Rx(received: bool, control: Byte, mem: seq<Byte>, pos: nat)

  datatype Chip = Chip(index: Byte, imr: Byte, tx: Tx, rx: Rx)

  /** The bit of the given weight in the low half of a byte. */
  predicate Bit(v: Byte, weight: Byte) {
    match weight
    case 1 => v % 2 == 1
    case 2 => v / 2 % 2 == 1
    case 4 => v / 4 % 2 == 1
    case _ => v / 8 % 2 == 1
  }

  /** Frames are stored in whole words. */
  function Padded(len: nat): nat {
    2 * Words(len)
  }

  function Finish(t: Tx): Tx {
    if t.busy then
      t.(busy := false, sent := true, end1 := t.end1 || !t.second, end2 := t.end2 || t.second, second := !t.second)
    else t
  }

  /** The transmit polling command: send the frame at the front of the transmit memory. */
  function Poll(t: Tx): Tx {
    var len := Word(t.lenLow, t.lenHigh);
    if t.busy || |t.mem| < Padded(len) then t.(fault := true)
    else t.(busy := true, wire := t.wire + [t.mem[..len]], mem := t.mem[Padded(len)..])
  }

  function Elapse(c: Chip, finishes: bool): Chip {
    if finishes then c.(tx := Finish(c.tx)) else c
  }

  function Select(c: Chip, reg: Byte): Chip {
    c.(index := reg)
  }

  /** A byte written to the data port goes to the selected register. */
  function WriteData(c: Chip, v: Byte): Chip {
    if c.index == 0x02 then (if Bit(v, 1) then c.(tx := Poll(c.tx)) else c)
    else if c.index == 0x05 then c.(rx := c.rx.(control := v))
    else if c.index == 0xfc then c.(tx := c.tx.(lenLow := v))
    else if c.index == 0xfd then c.(tx := c.tx.(lenHigh := v))
    else if c.index == 0xfe then
      c.(tx := c.tx.(sent := c.tx.sent && !Bit(v, 2)), rx := c.rx.(received := c.rx.received && !Bit(v, 1)))
    else if c.index == 0xff then c.(imr := v)
    else c
  }

  /** A word written to the data port: it extends the transmit memory while that is selected. */
  function WriteWord(c: Chip, low: Byte, high: Byte): Chip {
    if c.index == 0xf8 then c.(tx := c.tx.(mem := c.tx.mem + [low, high])) else c
  }

  /** A word read from the data port: it moves on in the receive memory while that is selected. */
  function ReadWord(c: Chip): (Chip, Byte, Byte) {
    if c.index == 0xf2 then
      (c.(rx := c.rx.(pos := c.rx.pos + 2)), ByteAt(c.rx.mem, c.rx.pos), ByteAt(c.rx.mem, c.rx.pos + 1))
    else (c, 0, 0)
  }

  /** A byte read from the data port without moving on. */
  function Peek(c: Chip): Byte {
    if c.index == 0xf0 then ByteAt(c.rx.mem, c.rx.pos) else 0
  }

  function Status(c: Chip): Byte {
    (if c.tx.sent then 2 else 0) + (if c.rx.received then 1 else 0)
  }

  function TxStatus(t: Tx): Byte {
    (if t.end1 then 4 else 0) + (if t.end2 then 8 else 0)
  }

  /** Reading the transmit status clears it. */
  function ReadData(c: Chip): (Chip, Byte) {
    if c.index == 0x01 then (c.(tx := c.tx.(end1 := false, end2 := false)), TxStatus(c.tx))
    else if c.index == 0xfe then (c, Status(c))
    else (c, 0)
  }

  // ---------- iowt and iord ----------

  function Iowt(c: Chip, reg: Byte, v: Byte, finishes: bool): Chip {
    WriteData(Elapse(Select(c, reg), finishes), v)
  }

  function Iord(c: Chip, reg: Byte, finishes: bool): (Chip, Byte) {
    ReadData(Elapse(Select(c, reg), finishes))
  }

  /** An interrupt is delivered while one is pending and its mask bit is set. */
  predicate Interrupting(c: Chip) {
    (c.tx.sent && Bit(c.imr, 2)) || (c.rx.received && Bit(c.imr, 1))
  }

  // ---------- The interrupt handler ----------

  /** The chip, the driver's fields, the queue of the network layer and the frames passed up. */
  datatype Nic = Nic(chip: Chip, txPktCnt: nat, queuePktLen: nat, waitReset: bool, stopped: bool, upper: seq<Frame>)

  /** What the chip does of its own while a handler runs, and which buffers are granted. */
  datatype Env = Env(finishes: nat -> bool, alloc: nat -> bool)

  function LowByte(n: nat): Byte {
    (n % 256) as Byte
  }

  function HighByte(n: nat): Byte {
    (n / 256 % 256) as Byte
  }

  /** Sets the transmit length and polls. */
  function StartTx(c: Chip, len: nat, f1: bool, f2: bool, f3: bool): Chip {
    Iowt(Iowt(Iowt(c, TXPLL, LowByte(len), f1), TXPLH, HighByte(len), f2), TCR, 1, f3)
  }

  /** One packet is through: send the queued one if there is one, and wake the queue. */
  function CloseTx(s: Nic, env: Env): Nic {
    var cnt := (s.txPktCnt + 0xffff) % 0x1_0000;
    var c := if cnt > 0 then StartTx(s.chip, s.queuePktLen, env.finishes(4), env.finishes(5), env.finishes(6))
             else s.chip;
    s.(chip := c, txPktCnt := cnt, stopped := false)
  }

  /** do_xnet_tx */
  function DoTx(s: Nic, env: Env): Nic {
    var (c, status) := Iord(s.chip, NSR, env.finishes(3));
    if Bit(status, 4) || Bit(status, 8) then CloseTx(s.(chip := c), env) else s.(chip := c)
  }

  /** do_xnet_rx */
  function DoRx(s: Nic, env: Env): Nic {
    var rx := s.chip.rx;
    var r := Parse(rx.mem, rx.pos, s.waitReset, env.alloc, 0);
    s.(chip := s.chip.(index := r.index, rx := rx.(pos := r.next, control := if r.halted then 0 else rx.control)),
       waitReset := r.wait, upper := s.upper + r.frames)
  }

  /** The two services, for the interrupt status that was read. */
  function Dispatch(s: Nic, status: Byte, env: Env): Nic {
    var s' := if Bit(status, 2) then DoTx(s, env) else s;
    if Bit(status, 1) then DoRx(s', env) else s'
  }

  /** Reading the interrupt status and clearing what was read. */
  function Acknowledge(c: Chip, env: Env): (Chip, Byte) {
    var (c', status) := Iord(c, ISR, env.finishes(1));
    (Iowt(c', ISR, status, env.finishes(2)), status)
  }

  /** xnet_interrupt, between masking the chip's interrupts and restoring the selected register. */
  function Serve(s: Nic, env: Env): Nic {
    var (c, status) := Acknowledge(s.chip, env);
    var s' := Dispatch(s.(chip := c), status, env);
    s'.(chip := Iowt(s'.chip, IMR, UNMASKED, env.finishes(7)))
  }

  /** The handler's first step: it switches the chip's interrupts off. */
  function Entered(s: Nic, env: Env): Nic {
    s.(chip := Iowt(s.chip, IMR, MASKED, env.finishes(0)))
  }

  /** xnet_interrupt */
  function Interrupt(s: Nic, env: Env): Nic {
    var save := s.chip.index;
    var s' := Serve(Entered(s, env), env);
    s'.(chip := Select(s'.chip, save))
  }

  // ---------- Transparency ----------

  function SelectIn(s: Nic, reg: Byte): Nic {
    s.(chip := Select(s.chip, reg))
  }

  /** The handler neither depends on the selected register nor changes it. */
  lemma InterruptKeepsIndex(s: Nic, env: Env, reg: Byte)
    ensures Interrupt(SelectIn(s, reg), env) == SelectIn(Interrupt(s, env), reg)
    ensures Interrupt(s, env).chip.index == s.chip.index
  {
    assert Entered(SelectIn(s, reg), env) == Entered(s, env);
  }

  /** An interrupt between the two port accesses of iowt or iord leaves the same state, and iord
      the same value, as one that came before the call. */
  lemma InterruptIsTransparent(s: Nic, env: Env, reg: Byte, v: Byte, finishes: bool)
    ensures var late := Interrupt(SelectIn(s, reg), env);
      var early := Interrupt(s, env);
      && late.(chip := WriteData(Elapse(late.chip, finishes), v)) == early.(chip := Iowt(early.chip, reg, v, finishes))
      && ReadData(Elapse(late.chip, finishes)) == Iord(early.chip, reg, finishes)
      && late.(chip := ReadData(Elapse(late.chip, finishes)).0) == early.(chip := Iord(early.chip, reg, finishes).0)
  {
    InterruptKeepsIndex(s, env, reg);
  }

  // ---------- What an interrupt delivers ----------

  ghost predicate SameReception(s: Nic, s': Nic) {
    && s'.upper == s.upper && s'.waitReset == s.waitReset && s'.chip.rx.control == s.chip.rx.control
    && s'.chip.rx.pos == s.chip.rx.pos && s'.chip.rx.mem == s.chip.rx.mem
  }

  /** The stored bytes went through the parser from the read position on. */
  ghost predicate Parsed(s: Nic, s': Nic, env: Env) {
    var r := Parse(s.chip.rx.mem, s.chip.rx.pos, s.waitReset, env.alloc, 0);
    && s'.upper == s.upper + r.frames && s'.waitReset == r.wait
    && s'.chip.rx.control == (if r.halted then 0 else s.chip.rx.control)
    && s'.chip.rx.pos == r.next && s'.chip.rx.mem == s.chip.rx.mem
  }

  lemma IowtElsewhere(c: Chip, reg: Byte, v: Byte, finishes: bool)
    requires reg in {TXPLL, TXPLH, TCR}
    ensures var c' := Iowt(c, reg, v, finishes); c'.rx == c.rx && c'.imr == c.imr
  {
  }

  lemma StartTxElsewhere(c: Chip, len: nat, f1: bool, f2: bool, f3: bool)
    ensures var c' := StartTx(c, len, f1, f2, f3); c'.rx == c.rx && c'.imr == c.imr
  {
    var c1 := Iowt(c, TXPLL, LowByte(len), f1);
    var c2 := Iowt(c1, TXPLH, HighByte(len), f2);
    IowtElsewhere(c, TXPLL, LowByte(len), f1);
    IowtElsewhere(c1, TXPLH, HighByte(len), f2);
    IowtElsewhere(c2, TCR, 1, f3);
  }

  lemma DoTxKeepsReception(s: Nic, env: Env)
    ensures var s' := DoTx(s, env); SameReception(s, s') && s'.chip.rx == s.chip.rx && s'.chip.imr == s.chip.imr
  {
    var c := Iord(s.chip, NSR, env.finishes(3)).0;
    StartTxElsewhere(c, s.queuePktLen, env.finishes(4), env.finishes(5), env.finishes(6));
  }

  lemma DispatchParses(s: Nic, status: Byte, env: Env)
    ensures var s' := Dispatch(s, status, env);
      && (if Bit(status, 1) then Parsed(s, s', env) else SameReception(s, s'))
      && s'.chip.rx.received == s.chip.rx.received
  {
    DoTxKeepsReception(s, env);
  }

  lemma AcknowledgeKeepsReception(s: Nic, env: Env)
    ensures var (c, status) := Acknowledge(s.chip, env);
      && SameReception(s, s.(chip := c)) && !c.rx.received && (Bit(status, 1) <==> s.chip.rx.received)
  {
  }

  lemma ServeParses(s: Nic, env: Env)
    ensures var s' := Serve(s, env);
      && (if s.chip.rx.received then Parsed(s, s', env) else SameReception(s, s')) && !s'.chip.rx.received
  {
    AcknowledgeKeepsReception(s, env);
    var (c, status) := Acknowledge(s.chip, env);
    DispatchParses(s.(chip := c), status, env);
  }

  /** On any memory contents: an interrupt with the receive flag set runs the parser and clears the flag;
      without the flag reception stays as it is. */
  lemma InterruptParses(s: Nic, env: Env)
    ensures var s' := Interrupt(s, env);
      && (if s.chip.rx.received then Parsed(s, s', env) else SameReception(s, s')) && !s'.chip.rx.received
  {
    ServeParses(Entered(s, env), env);
  }

  /** The packets, then other bytes, stand at the read position, and no reset is asked for. */
  ghost predicate Holds(s: Nic, ps: seq<Packet>, tail: seq<Byte>) {
    var rx := s.chip.rx;
    AllShort(ps) && !s.waitReset && rx.pos <= |rx.mem| && rx.mem[rx.pos..] == Memory(ps, tail)
  }

  /** s' has passed up exactly the deliverable frames of the packets that get a buffer, behind those
      passed up before, and moved past the packets and `more` bytes. */
  ghost predicate Delivered(s: Nic, s': Nic, ps: seq<Packet>, more: nat, env: Env) {
    && s'.upper == s.upper + Payloads(ps, env.alloc, 0) && s'.chip.rx.mem == s.chip.rx.mem
    && s'.chip.rx.pos == s.chip.rx.pos + Extent(ps) + more
  }

  /** An interrupt with the receive flag set delivers the stored packets and leaves reception as it is
      switched; without the flag nothing is touched. */
  lemma InterruptDelivers(s: Nic, env: Env, ps: seq<Packet>, tail: seq<Byte>)
    requires Holds(s, ps, tail) && ByteAt(tail, 0) == 0
    ensures var s' := Interrupt(s, env);
      if s.chip.rx.received then
        Delivered(s, s', ps, 0, env) && !s'.waitReset && s'.chip.rx.control == s.chip.rx.control
      else SameReception(s, s')
  {
    InterruptParses(s, env);
    ReceivesStored(s.chip.rx.mem, s.chip.rx.pos, ps, tail, env.alloc);
  }

  /** A byte above 1 in place of a header switches reception off and asks for a reset. */
  lemma InterruptHalts(s: Nic, env: Env, ps: seq<Packet>, tail: seq<Byte>)
    requires Holds(s, ps, tail) && ByteAt(tail, 0) > 1 && s.chip.rx.received
    ensures var s' := Interrupt(s, env);
      Delivered(s, s', ps, 0, env) && s'.waitReset && s'.chip.rx.control == 0
  {
    InterruptParses(s, env);
    StopsAtGarbage(s.chip.rx.mem, s.chip.rx.pos, ps, tail, env.alloc);
  }

  /** An over-long packet asks for a reset but leaves reception as it is switched. */
  lemma InterruptGivesUp(s: Nic, env: Env, ps: seq<Packet>, p: Packet, tail: seq<Byte>)
    requires Fits(p) && OverLong(p) && Holds(s, ps, Stored(p) + tail) && s.chip.rx.received
    ensures var s' := Interrupt(s, env);
      Delivered(s, s', ps, 4, env) && s'.waitReset && s'.chip.rx.control == s.chip.rx.control
  {
    InterruptParses(s, env);
    StopsAtOverLong(s.chip.rx.mem, s.chip.rx.pos, ps, p, tail, env.alloc);
  }

  /** While a reset is asked for nothing is passed up, and only a byte above 1 at the read position still
      switches reception off. */
  lemma InterruptWaits(s: Nic, env: Env)
    requires s.waitReset && s.chip.rx.received
    ensures var s' := Interrupt(s, env);
      && s'.upper == s.upper && s'.waitReset
      && s'.chip.rx.control == if ByteAt(s.chip.rx.mem, s.chip.rx.pos) > 1 then 0 else s.chip.rx.control
  {
    InterruptParses(s, env);
    assert !Continues(s.chip.rx.mem, s.chip.rx.pos, true);
  }

  // ---------- The handler is not interrupted ----------

  lemma MaskedIsQuiet(c: Chip)
    requires c.imr == MASKED
    ensures !Interrupting(c)
  {
  }

  lemma AcknowledgeKeepsMask(c: Chip, env: Env)
    ensures Acknowledge(c, env).0.imr == c.imr
  {
  }

  lemma DispatchKeepsMask(s: Nic, status: Byte, env: Env)
    ensures Dispatch(s, status, env).chip.imr == s.chip.imr
  {
    DoTxKeepsReception(s, env);
  }

  /** From masking the interrupts to unmasking them the chip raises none, whatever it finishes. */
  lemma HandlerRunsAlone(s: Nic, env: Env)
    ensures var s1 := Entered(s, env);
      var (c, status) := Acknowledge(s1.chip, env);
      var s2 := s1.(chip := c);
      !Interrupting(s1.chip) && !Interrupting(s2.chip) && !Interrupting(Dispatch(s2, status, env).chip)
  {
    var s1 := Entered(s, env);
    var (c, status) := Acknowledge(s1.chip, env);
    var s2 := s1.(chip := c);
    AcknowledgeKeepsMask(s1.chip, env);
    DispatchKeepsMask(s2, status, env);
    MaskedIsQuiet(s1.chip);
    MaskedIsQuiet(s2.chip);
    MaskedIsQuiet(Dispatch(s2, status, env).chip);
  }
}
