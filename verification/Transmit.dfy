/**
 What holds of the transmit side at every moment: `accepted` are the frames xnet_xmit has taken, in
 order, `staged` the bytes of the frame it is just writing, and `starting` says that it has counted
 a first packet but not polled for it yet.
 */
module Transmit {
  import opened Receive
  import opened Dm9000

  ghost predicate Pending(t: Tx) {
    t.end1 || t.end2
  }

  ghost predicate HoldsFrame(mem: seq<Byte>, f: Frame) {
    |mem| == Padded(|f|) && f <= mem
  }

  ghost predicate TxOk(t: Tx, cnt: nat, queued: nat, accepted: seq<Frame>, staged: seq<Byte>, starting: bool) {
    // at most two packets are open, and the wire has shown the accepted frames in order
    && cnt <= 2 && cnt <= |accepted| && t.wire <= accepted && !t.fault
    && (forall f :: f in accepted ==> |f| < 0x1_0000)
    // one of the open packets is in the transmitter or waits to be serviced, flag and all
    && !(t.end1 && t.end2) && t.sent == Pending(t) && !(t.busy && Pending(t))
    && |t.wire| == |accepted| - cnt + (if t.busy || Pending(t) then 1 else 0)
    && (cnt >= 1 ==> t.busy || Pending(t) || starting)
    // a second packet waits in the transmit memory with its length kept by the driver
    && (cnt == 2 ==> !starting && staged == [] && HoldsFrame(t.mem, accepted[|accepted| - 1]) &&
                     queued == |accepted[|accepted| - 1]|)
    && (cnt <= 1 ==> t.mem == staged)
    && (starting ==> cnt == 1 && |t.wire| == |accepted| - 1 && HoldsFrame(staged, accepted[|accepted| - 1]))
  }

  ghost predicate TxInv(s: Nic, accepted: seq<Frame>, staged: seq<Byte>, starting: bool) {
    TxOk(s.chip.tx, s.txPktCnt, s.queuePktLen, accepted, staged, starting)
  }

  /** The state between two calls: no half-written packet, interrupts on, and the network layer's
      queue stopped exactly when both slots are taken. */
  ghost predicate Idle(s: Nic, accepted: seq<Frame>) {
    TxInv(s, accepted, [], false) && s.chip.imr == UNMASKED && (s.stopped <==> s.txPktCnt == 2)
  }

  lemma FinishKeeps(s: Nic, accepted: seq<Frame>, staged: seq<Byte>, starting: bool, finishes: bool)
    requires TxInv(s, accepted, staged, starting)
    ensures TxInv(s.(chip := Elapse(s.chip, finishes)), accepted, staged, starting)
  {
  }

  /** Inside the handler: the finished packet's interrupt flag was cleared, its status not yet read. */
  ghost predicate Serving(s: Nic, accepted: seq<Frame>, staged: seq<Byte>) {
    && Pending(s.chip.tx) && !s.chip.tx.sent
    && TxOk(s.chip.tx.(sent := true), s.txPktCnt, s.queuePktLen, accepted, staged, false)
  }

  lemma LengthSplits(n: nat)
    requires n < 0x1_0000
    ensures Word(LowByte(n), HighByte(n)) == n
  {
  }

  /** Polling with the length of a frame that waits alone at the front of the memory. */
  lemma PollFront(t: Tx, f: Frame)
    requires !t.busy && HoldsFrame(t.mem, f) && Word(t.lenLow, t.lenHigh) == |f|
    ensures Poll(t) == t.(busy := true, wire := t.wire + [f], mem := [])
  {
    assert t.mem[..|f|] == f;
  }

  lemma PollSends(t: Tx, f: Frame)
    requires !t.busy && |f| < 0x1_0000 && HoldsFrame(t.mem, f)
    requires t.lenLow == LowByte(|f|) && t.lenHigh == HighByte(|f|)
    ensures Poll(t) == t.(busy := true, wire := t.wire + [f], mem := [])
  {
    LengthSplits(|f|);
    PollFront(t, f);
  }

  /** The transmit side after a frame that waits alone at the front of its memory was started. */
  ghost function Started(t: Tx, f: Frame): Tx {
    t.(lenLow := LowByte(|f|), lenHigh := HighByte(|f|), busy := true, wire := t.wire + [f], mem := [])
  }

  lemma LengthIsSet(c: Chip, low: Byte, high: Byte, f1: bool, f2: bool)
    requires !c.tx.busy
    ensures Iowt(Iowt(c, TXPLL, low, f1), TXPLH, high, f2) ==
            c.(index := TXPLH, tx := c.tx.(lenLow := low, lenHigh := high))
  {
  }

  lemma PollIsIssued(c: Chip, finishes: bool)
    requires !c.tx.busy
    ensures Iowt(c, TCR, 1, finishes) == c.(index := TCR, tx := Poll(c.tx))
  {
  }

  /** Polling for a frame that waits alone at the front of an idle chip puts it on the wire. */
  lemma StartTxSends(c: Chip, f: Frame, f1: bool, f2: bool, f3: bool)
    requires !c.tx.busy && |f| < 0x1_0000 && HoldsFrame(c.tx.mem, f)
    ensures StartTx(c, |f|, f1, f2, f3) == c.(index := TCR, tx := Started(c.tx, f))
  {
    var low, high := LowByte(|f|), HighByte(|f|);
    var t := c.tx.(lenLow := low, lenHigh := high);
    LengthIsSet(c, low, high, f1, f2);
    PollIsIssued(c.(index := TXPLH, tx := t), f3);
    PollSends(t, f);
  }

  ghost function Read(t: Tx): Tx {
    t.(end1 := false, end2 := false)
  }

  lemma TxStatusRead(c: Chip, finishes: bool)
    requires Pending(c.tx) && !c.tx.busy
    ensures Iord(c, NSR, finishes).0 == c.(index := NSR, tx := Read(c.tx))
    ensures var status := Iord(c, NSR, finishes).1; Bit(status, 4) || Bit(status, 8)
  {
  }

  lemma CloseTxStarts(s: Nic, env: Env)
    requires s.txPktCnt == 2
    ensures CloseTx(s, env) ==
            s.(chip := StartTx(s.chip, s.queuePktLen, env.finishes(4), env.finishes(5), env.finishes(6)),
               txPktCnt := 1, stopped := false)
  {
    assert (s.txPktCnt + 0xffff) % 0x1_0000 == 1;
  }

  /** The transmit-complete flag makes do_xnet_tx close the packet. */
  lemma DoTxCloses(s: Nic, env: Env)
    requires Pending(s.chip.tx) && !s.chip.tx.busy
    ensures DoTx(s, env) == CloseTx(s.(chip := s.chip.(index := NSR, tx := Read(s.chip.tx))), env)
  {
    TxStatusRead(s.chip, env.finishes(3));
  }

  lemma DoTxServesLast(s: Nic, env: Env)
    requires Pending(s.chip.tx) && !s.chip.tx.busy && s.txPktCnt == 1
    ensures DoTx(s, env) == s.(chip := s.chip.(index := NSR, tx := Read(s.chip.tx)), txPktCnt := 0, stopped := false)
  {
    DoTxCloses(s, env);
  }

  lemma DoTxStartsNext(s: Nic, env: Env)
    requires Pending(s.chip.tx) && !s.chip.tx.busy && s.txPktCnt == 2
    ensures DoTx(s, env) ==
            s.(chip := StartTx(s.chip.(index := NSR, tx := Read(s.chip.tx)), s.queuePktLen,
                               env.finishes(4), env.finishes(5), env.finishes(6)),
               txPktCnt := 1, stopped := false)
  {
    var c := s.chip.(index := NSR, tx := Read(s.chip.tx));
    DoTxCloses(s, env);
    CloseTxStarts(s.(chip := c), env);
  }

  lemma DoTxServesFirst(s: Nic, env: Env, accepted: seq<Frame>, staged: seq<Byte>)
    requires Serving(s, accepted, staged) && s.txPktCnt == 2
    ensures var f := accepted[|accepted| - 1];
      DoTx(s, env) ==
      s.(chip := s.chip.(index := TCR, tx := Started(Read(s.chip.tx), f)), txPktCnt := 1, stopped := false)
  {
    var f := accepted[|accepted| - 1];
    assert f in accepted;
    DoTxStartsNext(s, env);
    StartTxSends(s.chip.(index := NSR, tx := Read(s.chip.tx)), f, env.finishes(4), env.finishes(5), env.finishes(6));
  }

  /** do_xnet_tx closes the finished packet, sends the queued one if there is one, and wakes the queue. */
  lemma DoTxServes(s: Nic, env: Env, accepted: seq<Frame>, staged: seq<Byte>)
    requires Serving(s, accepted, staged)
    ensures var s' := DoTx(s, env);
      && TxInv(s', accepted, staged, false) && s'.txPktCnt == s.txPktCnt - 1 && !s'.stopped
  {
    if s.txPktCnt == 2 {
      DoTxServesFirst(s, env, accepted, staged);
    } else {
      DoTxServesLast(s, env);
    }
  }

  lemma DoRxKeeps(s: Nic, env: Env, accepted: seq<Frame>, staged: seq<Byte>)
    requires TxInv(s, accepted, staged, false)
    ensures TxInv(DoRx(s, env), accepted, staged, false)
  {
  }

  /** Whether the interrupt finds a finished packet: its flag is up, or goes up before the status is read. */
  ghost predicate Closes(s: Nic, env: Env) {
    s.chip.tx.sent || (s.chip.tx.busy && (env.finishes(0) || env.finishes(1)))
  }

  /** What one interrupt does to the transmit side. */
  ghost predicate Serviced(s: Nic, s': Nic, accepted: seq<Frame>, staged: seq<Byte>, closes: bool) {
    && TxInv(s', accepted, staged, false) && s'.chip.imr == UNMASKED
    && (if closes then s'.txPktCnt == s.txPktCnt - 1 && !s'.stopped
        else s'.txPktCnt == s.txPktCnt && s'.stopped == s.stopped)
  }

  lemma StatusBits(c: Chip)
    ensures (Bit(Status(c), 2) <==> c.tx.sent) && (Bit(Status(c), 1) <==> c.rx.received)
  {
  }

  lemma StatusReadKeeps(s: Nic, accepted: seq<Frame>, staged: seq<Byte>, finishes: bool)
    requires TxInv(s, accepted, staged, false)
    ensures var (c, status) := Iord(s.chip, ISR, finishes);
      && TxInv(s.(chip := c), accepted, staged, false) && status == Status(c)
      && (c.tx.sent <==> s.chip.tx.sent || (s.chip.tx.busy && finishes))
  {
    FinishKeeps(s, accepted, staged, false, finishes);
  }

  lemma ClearKeeps(s: Nic, accepted: seq<Frame>, staged: seq<Byte>, finishes: bool)
    requires TxInv(s, accepted, staged, false)
    ensures var s1 := s.(chip := Iowt(s.chip, ISR, Status(s.chip), finishes));
      if s.chip.tx.sent then Serving(s1, accepted, staged) else TxInv(s1, accepted, staged, false)
  {
    StatusBits(s.chip);
    FinishKeeps(s, accepted, staged, false, finishes);
  }

  /** Clearing the flags just read leaves a finished packet to serve, or nothing new. */
  lemma AcknowledgeKeeps(s: Nic, env: Env, accepted: seq<Frame>, staged: seq<Byte>)
    requires TxInv(s, accepted, staged, false)
    ensures var (c, status) := Acknowledge(s.chip, env);
      && (if Bit(status, 2) then Serving(s.(chip := c), accepted, staged)
          else TxInv(s.(chip := c), accepted, staged, false))
      && (Bit(status, 2) <==> s.chip.tx.sent || (s.chip.tx.busy && env.finishes(1)))
  {
    StatusReadKeeps(s, accepted, staged, env.finishes(1));
    var c := Iord(s.chip, ISR, env.finishes(1)).0;
    StatusBits(c);
    ClearKeeps(s.(chip := c), accepted, staged, env.finishes(2));
  }

  lemma DispatchKeeps(s: Nic, status: Byte, env: Env, accepted: seq<Frame>, staged: seq<Byte>)
    requires if Bit(status, 2) then Serving(s, accepted, staged) else TxInv(s, accepted, staged, false)
    ensures var s' := Dispatch(s, status, env);
      && TxInv(s', accepted, staged, false)
      && (if Bit(status, 2) then s'.txPktCnt == s.txPktCnt - 1 && !s'.stopped
          else s'.txPktCnt == s.txPktCnt && s'.stopped == s.stopped)
  {
    if Bit(status, 2) {
      DoTxServes(s, env, accepted, staged);
    }
    DoRxKeeps(if Bit(status, 2) then DoTx(s, env) else s, env, accepted, staged);
  }

  lemma MaskKeeps(s: Nic, accepted: seq<Frame>, staged: seq<Byte>, v: Byte, finishes: bool)
    requires TxInv(s, accepted, staged, false)
    ensures TxInv(s.(chip := Iowt(s.chip, IMR, v, finishes)), accepted, staged, false)
    ensures Iowt(s.chip, IMR, v, finishes).imr == v
  {
    FinishKeeps(s, accepted, staged, false, finishes);
  }

  lemma ServeKeeps(s: Nic, env: Env, accepted: seq<Frame>, staged: seq<Byte>)
    requires TxInv(s, accepted, staged, false)
    ensures Serviced(s, Serve(s, env), accepted, staged, s.chip.tx.sent || (s.chip.tx.busy && env.finishes(1)))
  {
    AcknowledgeKeeps(s, env, accepted, staged);
    var (c, status) := Acknowledge(s.chip, env);
    DispatchKeeps(s.(chip := c), status, env, accepted, staged);
    MaskKeeps(Dispatch(s.(chip := c), status, env), accepted, staged, UNMASKED, env.finishes(7));
  }

  /** The handler at any moment before a packet is counted, whatever the chip finishes while it runs: every
      packet is accounted for, and one is closed exactly when it was finished. */
  lemma InterruptKeeps(s: Nic, env: Env, accepted: seq<Frame>, staged: seq<Byte>)
    requires TxInv(s, accepted, staged, false)
    ensures Serviced(s, Interrupt(s, env), accepted, staged, Closes(s, env))
    ensures Interrupt(s, env).chip.index == s.chip.index
  {
    MaskKeeps(s, accepted, staged, MASKED, env.finishes(0));
    ServeKeeps(Entered(s, env), env, accepted, staged);
  }

  ghost function Finished(s: Nic): Nic {
    s.(chip := Elapse(s.chip, true))
  }

  lemma FinishRaises(s: Nic, accepted: seq<Frame>)
    requires Idle(s, accepted) && s.txPktCnt >= 1
    ensures var done := Finished(s);
      Idle(done, accepted) && done.chip.tx.sent && Interrupting(done.chip)
  {
    FinishKeeps(s, accepted, [], false, true);
  }

  /** No lost wakeup: behind a stopped queue there is a packet in the transmitter or a finished one
      whose interrupt is being delivered, finishing it raises that interrupt, and the interrupt wakes
      the queue. */
  lemma StoppedQueueWakes(s: Nic, env: Env, accepted: seq<Frame>)
    requires Idle(s, accepted) && s.stopped
    ensures s.chip.tx.busy || Interrupting(s.chip)
    ensures Interrupting(Finished(s).chip)
    ensures var s' := Interrupt(Finished(s), env); Idle(s', accepted) && !s'.stopped
  {
    FinishRaises(s, accepted);
    InterruptKeeps(Finished(s), env, accepted, []);
  }

  // ---------- The steps of xnet_xmit ----------

  /** What can happen at any point: packets may finish, and with interrupts on they may be serviced. */
  ghost predicate Passed(s: Nic, s': Nic, accepted: seq<Frame>, staged: seq<Byte>, starting: bool) {
    && TxInv(s', accepted, staged, starting)
    && s'.chip.index == s.chip.index && s'.chip.imr == s.chip.imr && s'.queuePktLen == s.queuePktLen
    && ((s'.txPktCnt == s.txPktCnt && s'.stopped == s.stopped) || (s'.txPktCnt < s.txPktCnt && !s'.stopped))
    && (s.chip.imr != UNMASKED ==>
          s'.txPktCnt == s.txPktCnt && (s'.chip.tx == s.chip.tx || s'.chip.tx == Finish(s.chip.tx)))
  }

  lemma FinishPasses(s: Nic, accepted: seq<Frame>, staged: seq<Byte>, starting: bool)
    requires TxInv(s, accepted, staged, starting)
    ensures Passed(s, Finished(s), accepted, staged, starting)
  {
    FinishKeeps(s, accepted, staged, starting, true);
  }

  lemma InterruptKeepsQueued(s: Nic, env: Env)
    ensures Interrupt(s, env).queuePktLen == s.queuePktLen
  {
  }

  lemma InterruptPasses(s: Nic, env: Env, accepted: seq<Frame>)
    requires TxInv(s, accepted, [], false) && s.chip.imr == UNMASKED
    ensures Passed(s, Interrupt(s, env), accepted, [], false)
  {
    InterruptKeeps(s, env, accepted, []);
    InterruptKeepsQueued(s, env);
  }

  lemma PassedTwice(s: Nic, s': Nic, s'': Nic, accepted: seq<Frame>, staged: seq<Byte>, starting: bool)
    requires Passed(s, s', accepted, staged, starting) && Passed(s', s'', accepted, staged, starting)
    ensures Passed(s, s'', accepted, staged, starting)
  {
  }

  lemma PassedElsewhere(s: Nic, s1: Nic, s2: Nic, s3: Nic, reg: Byte, accepted: seq<Frame>, staged: seq<Byte>,
                        starting: bool)
    requires Passed(s, s1, accepted, staged, starting) && s2 == SelectIn(s1, reg)
    requires Passed(s2, s3, accepted, staged, starting)
    ensures Passed(SelectIn(s, reg), s3, accepted, staged, starting)
  {
  }

  /** A first packet: counted, then given to the transmitter. */
  lemma FirstCounts(t: Tx, queued: nat, accepted: seq<Frame>, staged: seq<Byte>, f: Frame)
    requires TxOk(t, 0, queued, accepted, staged, false) && HoldsFrame(staged, f) && |f| < 0x1_0000
    ensures TxOk(t, 1, queued, accepted + [f], staged, true) && !t.busy && !Pending(t)
  {
  }

  lemma FirstStarts(t: Tx, t': Tx, queued: nat, accepted: seq<Frame>, staged: seq<Byte>, f: Frame)
    requires TxOk(t, 1, queued, accepted, staged, true) && f == accepted[|accepted| - 1]
    requires t' == t.(lenLow := t'.lenLow, lenHigh := t'.lenHigh, busy := true, wire := t.wire + [f], mem := [])
    ensures TxOk(t', 1, queued, accepted, [], false)
  {
    assert t.wire == accepted[..|accepted| - 1];
    assert t'.wire == accepted;
  }

  /** The three register writes that start a first packet. */
  lemma PollStarts(t: Tx, low: Byte, high: Byte, queued: nat, accepted: seq<Frame>, staged: seq<Byte>, f: Frame)
    requires TxOk(t, 1, queued, accepted, staged, true) && f == accepted[|accepted| - 1] && !t.busy
    requires Word(low, high) == |f|
    ensures TxOk(Poll(t.(lenLow := low, lenHigh := high)), 1, queued, accepted, [], false)
  {
    var t1 := t.(lenLow := low, lenHigh := high);
    PollFront(t1, f);
    FirstStarts(t, Poll(t1), queued, accepted, staged, f);
  }

  /** A second packet: counted, and left in the transmit memory with its length. */
  lemma SecondQueues(t: Tx, queued: nat, accepted: seq<Frame>, staged: seq<Byte>, f: Frame)
    requires TxOk(t, 1, queued, accepted, staged, false) && HoldsFrame(staged, f) && |f| < 0x1_0000
    ensures TxOk(t, 2, |f|, accepted + [f], [], false)
  {
    assert (accepted + [f])[|accepted|] == f;
    assert t.wire <= accepted + [f];
  }

  lemma WordStages(t: Tx, cnt: nat, queued: nat, accepted: seq<Frame>, staged: seq<Byte>, low: Byte, high: Byte)
    requires TxOk(t, cnt, queued, accepted, staged, false) && cnt <= 1
    ensures TxOk(t.(mem := t.mem + [low, high]), cnt, queued, accepted, staged + [low, high], false)
  {
  }

  // ---------- A handler that runs while the chip is masked ----------

  /** The state after the branch of xnet_xmit for a second packet, whatever the count is by then. */
  ghost function CountedSecond(s: Nic, f: Frame): Nic {
    s.(txPktCnt := s.txPktCnt + 1, queuePktLen := |f|)
  }

  /** On a shared interrupt line the handler could run although the chip's interrupts are masked, and so
      between the test of tx_pkt_cnt and its increment. The second packet is then accounted for exactly when
      the handler does not find the first one finished; otherwise it is counted but never polled for. */
  lemma SharedLineIff(s: Nic, env: Env, accepted: seq<Frame>, staged: seq<Byte>, f: Frame)
    requires TxInv(s, accepted, staged, false) && s.txPktCnt == 1 && HoldsFrame(staged, f) && |f| < 0x1_0000
    ensures var s' := CountedSecond(Interrupt(s, env), f);
      && (TxInv(s', accepted + [f], [], false) <==> !Closes(s, env))
      && (Closes(s, env) ==> s'.txPktCnt == 1 && !s'.chip.tx.busy && !s'.chip.tx.sent && s'.chip.tx.mem == staged)
  {
    InterruptKeeps(s, env, accepted, staged);
    var s' := Interrupt(s, env);
    if !Closes(s, env) {
      SecondQueues(s'.chip.tx, s'.queuePktLen, accepted, staged, f);
    }
  }
}
