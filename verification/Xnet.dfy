/**
 The DM9000 driver (xnetdev.c) on one processor. An interrupt may come at any point where the chip's
 mask allows it, and the chip may finish a transmission or store a packet at any time.
 */
module Xnet {
  import opened Receive
  import opened Dm9000
  import opened Transmit
  import opened Reception

  // ---------- Turns of the receive loop ----------

  /** A turn that leaves the parser on the next header, with k requests for buffers before it. */
  ghost predicate TurnMore(s: Nic, s': Nic, env: Env, k: nat, k': nat) {
    var rx := s.chip.rx;
    && Continues(rx.mem, rx.pos, s.waitReset) && k' == (if Good(rx.mem, rx.pos) then k + 1 else k)
    && s' == s.(chip := s.chip.(index := s'.chip.index, rx := rx.(pos := Next(rx.mem, rx.pos))),
                waitReset := false, upper := s.upper + FrameAt(rx.mem, rx.pos, env.alloc, k))
  }

  /** The last turn. */
  ghost predicate TurnLast(s: Nic, s': Nic) {
    var rx := s.chip.rx;
    var r := Stop(rx.mem, rx.pos, s.waitReset);
    && !Continues(rx.mem, rx.pos, s.waitReset)
    && s' == s.(chip := s.chip.(index := r.index,
                                rx := rx.(pos := r.next, control := if r.halted then 0 else rx.control)),
                waitReset := r.wait)
  }

  /** From s0 the loop has reached s, having passed up got, and the parser's result r is still ahead. */
  ghost predicate Midway(s0: Nic, s: Nic, got: seq<Frame>, r: Received, env: Env, k: nat) {
    && s == s0.(chip := s0.chip.(index := s.chip.index, rx := s0.chip.rx.(pos := s.chip.rx.pos)),
                waitReset := s.waitReset, upper := s0.upper + got)
    && r == After(got, Parse(s.chip.rx.mem, s.chip.rx.pos, s.waitReset, env.alloc, k))
  }

  lemma MidwayStarts(s0: Nic, r: Received, env: Env)
    requires r == Parse(s0.chip.rx.mem, s0.chip.rx.pos, s0.waitReset, env.alloc, 0)
    ensures Midway(s0, s0, [], r, env, 0)
  {
    AfterAfter([], [], r);
    assert s0.upper + [] == s0.upper;
  }

  lemma MidwayMore(s0: Nic, s: Nic, s': Nic, got: seq<Frame>, r: Received, env: Env, k: nat, k': nat)
    requires Midway(s0, s, got, r, env, k) && TurnMore(s, s', env, k, k')
    ensures Midway(s0, s', got + FrameAt(s.chip.rx.mem, s.chip.rx.pos, env.alloc, k), r, env, k')
  {
    ParseContinues(s.chip.rx.mem, s.chip.rx.pos, env.alloc, k, got);
  }

  lemma MidwayEnds(s0: Nic, s: Nic, s': Nic, got: seq<Frame>, r: Received, env: Env, k: nat)
    requires Midway(s0, s, got, r, env, k) && TurnLast(s, s')
    requires r == Parse(s0.chip.rx.mem, s0.chip.rx.pos, s0.waitReset, env.alloc, 0)
    ensures s' == DoRx(s0, env)
  {
    assert got + [] == got;
  }

  // ---------- Frames in words ----------

  /** The bytes of a frame in whole words. */
  ghost function Spread(data: Frame, past: Byte): (words: seq<Byte>)
    ensures |words| == Padded(|data|) && HoldsFrame(words, data)
  {
    data + if |data| % 2 == 1 then [past] else []
  }

  // ---------- Interrupts ----------

  lemma InterruptHappens(s: Nic, a: Arrivals, env: Env, accepted: seq<Frame>)
    requires TxInv(s, accepted, [], false) && Receives(s, a) && s.chip.imr == UNMASKED && Interrupting(s.chip)
    ensures var s', a' := Interrupt(s, env), Track(s, a, Interrupts(env));
      && Passed(s, s', accepted, [], false) && Receives(s', a') && s' == Occur(s, Interrupts(env))
  {
    InterruptPasses(s, env, accepted);
    InterruptReceives(s, a, env);
  }

  /** Events, the selection of a register, and events. */
  lemma SelectedBetween(s: Nic, a: Arrivals, s1: Nic, a1: Arrivals, reg: Byte, s2: Nic, a2: Arrivals,
                        accepted: seq<Frame>, staged: seq<Byte>, starting: bool)
    requires Passed(s, s1, accepted, staged, starting) && Grows(s, a, s1, a1)
    requires Passed(SelectIn(s1, reg), s2, accepted, staged, starting) && Grows(SelectIn(s1, reg), a1, s2, a2)
    ensures Passed(SelectIn(s, reg), s2, accepted, staged, starting) && Grows(s, a, s2, a2)
  {
    PassedElsewhere(s, s1, SelectIn(s1, reg), s2, reg, accepted, staged, starting);
    GrowsTwice(s, a, s1, a1, s2, a2);
  }

  // ---------- Runs ----------

  /** One call of xnet_xmit: the state it was made in, its result and the state it left. */
  datatype Offer = Offer(before: Nic, result: int, after: Nic)

  ghost function Last(start: Nic, log: seq<Offer>): Nic {
    if log == [] then start else log[|log| - 1].after
  }

  /** The frames whose call returned 0, in order. */
  ghost function Taken(frames: seq<Frame>, log: seq<Offer>): seq<Frame>
    requires |frames| == |log|
  {
    if log == [] then []
    else
      var k := |log| - 1;
      Taken(frames[..k], log[..k]) + if log[k].result == 0 then [frames[k]] else []
  }

  /** A call in the idle driver: it takes the frame exactly when the queue is awake, and else changes nothing. */
  ghost predicate Answered(o: Offer, accepted: seq<Frame>, f: Frame) {
    && Idle(o.before, accepted)
    && o.result == (if o.before.stopped then 1 else 0)
    && (if o.before.stopped then o.after == o.before else Idle(o.after, accepted + [f]))
  }

  /** One entry for each frame offered: between the calls the driver only lets events pass, and each call is
      answered in the idle driver that has accepted the frames taken so far. */
  ghost predicate Logged(start: Nic, accepted: seq<Frame>, frames: seq<Frame>, log: seq<Offer>) {
    && |log| == |frames|
    && (log != [] ==>
          var k := |log| - 1;
          var so := accepted + Taken(frames[..k], log[..k]);
          && Logged(start, accepted, frames[..k], log[..k])
          && Passed(Last(start, log[..k]), log[k].before, so, [], false) && Answered(log[k], so, frames[k]))
  }

  /** The log has led to the state s, with the frames acc accepted. */
  ghost predicate Led(start: Nic, accepted: seq<Frame>, frames: seq<Frame>, log: seq<Offer>, s: Nic, acc: seq<Frame>) {
    Logged(start, accepted, frames, log) && s == Last(start, log) && acc == accepted + Taken(frames, log)
  }

  lemma LogGoesOn(start: Nic, accepted: seq<Frame>, frames: seq<Frame>, n: nat, log: seq<Offer>, s: Nic,
                  acc: seq<Frame>, o: Offer, acc': seq<Frame>)
    requires n < |frames| && Led(start, accepted, frames[..n], log, s, acc)
    requires Passed(s, o.before, acc, [], false) && Answered(o, acc, frames[n])
    requires acc' == acc + if o.result == 0 then [frames[n]] else []
    ensures Led(start, accepted, frames[..n + 1], log + [o], o.after, acc')
  {
    assert frames[..n + 1][..n] == frames[..n] && (log + [o])[..n] == log;
    assert acc' == accepted + (Taken(frames[..n], log) + if o.result == 0 then [frames[n]] else []);
  }

  /** Every entry, seen from the frames taken before it. */
  lemma {:induction false} EachIsAnswered(start: Nic, accepted: seq<Frame>, frames: seq<Frame>, log: seq<Offer>, i: nat)
    requires Logged(start, accepted, frames, log) && i < |log|
    ensures Answered(log[i], accepted + Taken(frames[..i], log[..i]), frames[i])
  {
    var k := |log| - 1;
    if i < k {
      EachIsAnswered(start, accepted, frames[..k], log[..k], i);
      assert frames[..k][..i] == frames[..i] && log[..k][..i] == log[..i];
    }
  }

  class Driver {
    var chip: Chip
    var txPktCnt: nat
    var queuePktLen: nat
    var deviceWaitReset: bool
    var queueStopped: bool  // netif_stop_queue, netif_wake_queue
    var upper: seq<Frame>  // netif_rx

    ghost var accepted: seq<Frame>
    ghost var staged: seq<Byte>
    ghost var starting: bool
    ghost var arrivals: Arrivals

    ghost function State(): Nic
      reads this
    {
      Nic(chip, txPktCnt, queuePktLen, deviceWaitReset, queueStopped, upper)
    }

    // ---------- Receiving ----------

    /** inw on the receive memory. */
    method InWord() returns (low: Byte, high: Byte)
      requires chip.index == MRCMD
      modifies this`chip
      ensures low == ByteAt(chip.rx.mem, old(chip.rx.pos)) && high == ByteAt(chip.rx.mem, old(chip.rx.pos) + 1)
      ensures chip == old(chip).(rx := old(chip.rx).(pos := old(chip.rx.pos) + 2))
    {
      var (c, l, h) := ReadWord(chip);
      chip, low, high := c, l, h;
    }

    /** Copies a packet of rxLen bytes by words into a buffer of rxLen + 4 bytes, from offset 2 on,
        and hands up the rxLen - 4 bytes there. */
    method ReadFrame(rxLen: nat) returns (frame: Frame)
      requires 4 <= rxLen && chip.index == MRCMD
      modifies this`chip
      ensures frame == Slice(chip.rx.mem, old(chip.rx.pos), rxLen - 4)
      ensures chip == old(chip).(rx := old(chip.rx).(pos := old(chip.rx.pos) + 2 * Words(rxLen)))
    {
      var skb := new Byte[rxLen + 4](_ => 0);
      var tmplen := (rxLen + 1) / 2;
      for i := 0 to tmplen
        invariant chip == old(chip).(rx := old(chip.rx).(pos := old(chip.rx.pos) + 2 * i))
        invariant forall p :: 2 <= p < 2 + 2 * i ==> skb[p] == ByteAt(chip.rx.mem, old(chip.rx.pos) + p - 2)
      {
        var low, high := InWord();
        skb[2 + 2 * i], skb[2 + 2 * i + 1] := low, high;
      }
      frame := skb[2..2 + (rxLen - 4)];
    }

    /** Reads a packet away. */
    method SkipFrame(rxLen: nat)
      requires chip.index == MRCMD
      modifies this`chip
      ensures chip == old(chip).(rx := old(chip.rx).(pos := old(chip.rx.pos) + 2 * Words(rxLen)))
    {
      var tmplen := (rxLen + 1) / 2;
      for i := 0 to tmplen
        invariant chip == old(chip).(rx := old(chip.rx).(pos := old(chip.rx.pos) + 2 * i))
      {
        var _, _ := InWord();
      }
    }

    /** Status and length of the packet at the read position. */
    method ReadHeader() returns (rxStatus: Byte, rxLen: nat)
      modifies this`chip
      ensures rxStatus == ByteAt(chip.rx.mem, old(chip.rx.pos) + 1) && rxLen == Len(chip.rx.mem, old(chip.rx.pos))
      ensures chip == old(chip).(index := MRCMD, rx := old(chip.rx).(pos := old(chip.rx.pos) + 4))
    {
      chip := Select(chip, MRCMD);
      var _, status := InWord();
      chip := Select(chip, MRCMD);
      var low, high := InWord();
      rxStatus, rxLen := status, Word(low, high);
    }

    /** Switches reception off and asks for a reset. */
    method StopDevice()
      modifies this`chip, this`deviceWaitReset
      ensures deviceWaitReset && chip == old(chip).(index := ISR, rx := old(chip.rx).(control := 0))
    {
      chip := Select(chip, RCR);
      chip := WriteData(chip, 0);
      chip := Select(chip, ISR);
      chip := WriteData(chip, 0x80);
      deviceWaitReset := true;
    }

    /** Passes a good packet up if a buffer is granted, and reads any other away. */
    method TakePacket(env: Env, asked: nat, rxLen: nat, goodPacket: bool) returns (asked': nat)
      requires (goodPacket ==> rxLen >= PKT_MIN) && chip.index == MRCMD
      modifies this`chip, this`upper
      ensures asked' == if goodPacket then asked + 1 else asked
      ensures chip == old(chip).(rx := old(chip.rx).(pos := old(chip.rx.pos) + 2 * Words(rxLen)))
      ensures upper == old(upper) + if goodPacket && env.alloc(asked)
                                    then [Slice(chip.rx.mem, old(chip.rx.pos), rxLen - 4)] else []
    {
      asked' := if goodPacket then asked + 1 else asked;
      if goodPacket && env.alloc(asked) {
        var frame := ReadFrame(rxLen);
        upper := upper + [frame];
      } else {
        SkipFrame(rxLen);
      }
    }

    /** One turn of the loop in do_xnet_rx; asked counts the buffers asked for so far. */
    method RxStep(env: Env, asked: nat) returns (more: bool, asked': nat)
      modifies this`chip, this`deviceWaitReset, this`upper
      ensures if more then TurnMore(old(State()), State(), env, asked, asked') else TurnLast(old(State()), State())
    {
      asked' := asked;
      chip := Select(chip, MRCMDX);
      var rxbyte := Peek(chip);
      if rxbyte == PKT_RDY {
        var goodPacket := true;
        var rxStatus, rxLen := ReadHeader();
        if rxLen < PKT_MIN {
          goodPacket := false;
        } else if rxLen > PKT_MAX {
          deviceWaitReset := true;
        }
        if !StatusOk(rxStatus) {
          goodPacket := false;
        }
        if !deviceWaitReset {
          asked' := TakePacket(env, asked, rxLen, goodPacket);
        }
      } else if rxbyte > PKT_RDY {
        StopDevice();
      }
      more := rxbyte == PKT_RDY && !deviceWaitReset;
    }

    method DoXnetRx(env: Env)
      modifies this`chip, this`deviceWaitReset, this`upper
      ensures State() == DoRx(old(State()), env)
    {
      ghost var s0 := State();
      ghost var got: seq<Frame> := [];
      ghost var r := Parse(chip.rx.mem, chip.rx.pos, deviceWaitReset, env.alloc, 0);
      var asked, more := 0, true;
      MidwayStarts(s0, r, env);
      while more
        invariant if more then Midway(s0, State(), got, r, env, asked) else State() == DoRx(s0, env)
        decreases more, |s0.chip.rx.mem| - chip.rx.pos
      {
        ghost var s, k := State(), asked;
        more, asked := RxStep(env, asked);
        if more {
          MidwayMore(s0, s, State(), got, r, env, k, asked);
          got := got + FrameAt(s.chip.rx.mem, s.chip.rx.pos, env.alloc, k);
        } else {
          MidwayEnds(s0, s, State(), got, r, env, k);
        }
      }
    }

    // ---------- The interrupt handler ----------

    /** Sends the queued packet. */
    method StartNext(env: Env)
      modifies this`chip
      ensures chip == StartTx(old(chip), queuePktLen, env.finishes(4), env.finishes(5), env.finishes(6))
    {
      chip := Iowt(chip, TXPLL, LowByte(queuePktLen), env.finishes(4));
      chip := Iowt(chip, TXPLH, HighByte(queuePktLen), env.finishes(5));
      chip := Iowt(chip, TCR, 1, env.finishes(6));
    }

    /** The body of do_xnet_tx for a packet that is through. */
    method PacketSent(env: Env)
      modifies this`chip, this`txPktCnt, this`queueStopped
      ensures State() == CloseTx(old(State()), env)
    {
      txPktCnt := (txPktCnt + 0xffff) % 0x1_0000;
      if txPktCnt > 0 {
        StartNext(env);
      }
      queueStopped := false;
    }

    method DoXnetTx(env: Env)
      modifies this`chip, this`txPktCnt, this`queueStopped
      ensures State() == DoTx(old(State()), env)
    {
      var (c, txStatus) := Iord(chip, NSR, env.finishes(3));
      chip := c;
      if Bit(txStatus, 4) || Bit(txStatus, 8) {
        PacketSent(env);
      }
    }

    /** The part of xnet_interrupt that runs with the chip's interrupts off. */
    method ServeMasked(env: Env)
      requires !Interrupting(chip)
      modifies this`chip, this`txPktCnt, this`queueStopped, this`deviceWaitReset, this`upper
      ensures var (c, intStatus) := Acknowledge(old(chip), env);
        State() == Dispatch(old(State()).(chip := c), intStatus, env)
    {
      var (c, intStatus) := Iord(chip, ISR, env.finishes(1));
      chip := Iowt(c, ISR, intStatus, env.finishes(2));
      if Bit(intStatus, 2) {
        DoXnetTx(env);
      }
      if Bit(intStatus, 1) {
        DoXnetRx(env);
      }
    }

    method XnetInterrupt(env: Env)
      modifies this`chip, this`txPktCnt, this`queueStopped, this`deviceWaitReset, this`upper
      ensures State() == Interrupt(old(State()), env)
    {
      ghost var s := State();
      var regSave := chip.index;
      chip := Iowt(chip, IMR, MASKED, env.finishes(0));
      HandlerRunsAlone(s, env);
      ServeMasked(env);
      assert !Interrupting(chip);
      chip := Iowt(chip, IMR, UNMASKED, env.finishes(7));
      chip := Select(chip, regSave);
    }

    // ---------- Sending ----------

    ghost predicate Valid()
      reads this
    {
      && TxInv(State(), accepted, staged, starting) && Receives(State(), arrivals)
      && (chip.imr == UNMASKED || chip.imr == MASKED)
      && (chip.imr == UNMASKED ==> staged == [] && !starting)
    }

    /** Between two calls of the driver. */
    ghost predicate Quiet()
      reads this
    {
      Idle(State(), accepted) && staged == [] && !starting && Receives(State(), arrivals)
    }

    /** The driver's state after xnet_open has initialised a silent chip. */
    constructor ()
      ensures Quiet() && accepted == [] && upper == [] && arrivals == Arrivals([], [], [], 0)
      ensures chip.rx.control == 0x31 && chip.imr == 0x83
    {
      chip := Chip(NSR, UNMASKED, Tx(false, false, false, false, 0, 0, [], false, [], false), Rx(false, 0x31, [], 0));
      txPktCnt, queuePktLen, deviceWaitReset, queueStopped, upper := 0, 0, false, false, [];
      accepted, staged, starting, arrivals := [], [], false, Arrivals([], [], [], 0);
    }

    method TakeInterrupt() returns (ghost e: Event)
      requires Valid() && Interrupting(chip)
      modifies this`chip, this`txPktCnt, this`queueStopped, this`deviceWaitReset, this`upper, this`arrivals
      ensures Valid() && Passed(old(State()), State(), accepted, staged, starting)
      ensures Possible(e) && State() == Occur(old(State()), e) && arrivals == Track(old(State()), old(arrivals), e)
    {
      var env: Env := *;
      e := Interrupts(env);
      InterruptHappens(State(), arrivals, env, accepted);
      arrivals := Track(State(), arrivals, e);
      XnetInterrupt(env);
    }

    /** The chip stores bytes: those of a packet, or others. */
    method StoreBytes(bytes: seq<Byte>, ghost e: Event)
      requires Valid() && Possible(e) && e == (if e.Stores? then Stores(e.p) else Disturbs(bytes))
      requires e.Stores? ==> bytes == Stored(e.p)
      modifies this`chip, this`arrivals
      ensures Valid() && Passed(old(State()), State(), accepted, staged, starting)
      ensures State() == Occur(old(State()), e) && arrivals == Track(old(State()), old(arrivals), e)
    {
      EventReceives(State(), arrivals, e);
      arrivals := Track(State(), arrivals, e);
      chip := Store(chip, bytes);
    }

    /** One event. */
    method Happen() returns (ghost e: Event)
      requires Valid()
      modifies this`chip, this`txPktCnt, this`queueStopped, this`deviceWaitReset, this`upper, this`arrivals
      ensures Valid() && Passed(old(State()), State(), accepted, staged, starting)
      ensures Possible(e) && State() == Occur(old(State()), e) && arrivals == Track(old(State()), old(arrivals), e)
    {
      var kind :| 0 <= kind <= 3;
      var p: Packet := *;
      var bytes: seq<Byte> := *;
      e := Finishes;
      if kind == 0 && |p.body| < 0x1_0000 {
        e := Stores(p);
        StoreBytes(Stored(p), e);
      } else if kind == 1 {
        e := Disturbs(bytes);
        StoreBytes(bytes, e);
      } else if kind == 2 && Interrupting(chip) {
        e := TakeInterrupt();
      } else {
        FinishPasses(State(), accepted, staged, starting);
        chip := Elapse(chip, true);
      }
    }

    /** Any number of events. */
    method Elapsing() returns (ghost es: seq<Event>)
      requires Valid()
      modifies this`chip, this`txPktCnt, this`queueStopped, this`deviceWaitReset, this`upper, this`arrivals
      ensures Valid() && Passed(old(State()), State(), accepted, staged, starting)
      ensures AllPossible(es) && State() == Play(old(State()), es) && arrivals == Log(old(State()), old(arrivals), es)
    {
      var events :| 0 <= events;
      es := [];
      ghost var s0, a0 := State(), arrivals;
      for n := 0 to events
        invariant Valid() && Passed(s0, State(), accepted, staged, starting)
        invariant AllPossible(es) && State() == Play(s0, es) && arrivals == Log(s0, a0, es)
      {
        ghost var s := State();
        ghost var e := Happen();
        PassedTwice(s0, s, State(), accepted, staged, starting);
        RunGoesOn(s0, a0, es, e);
        es := es + [e];
      }
    }

    /** The same, for what the steps of xnet_xmit need to know of it. */
    method Preempt()
      requires Valid()
      modifies this`chip, this`txPktCnt, this`queueStopped, this`deviceWaitReset, this`upper, this`arrivals
      ensures Valid() && Passed(old(State()), State(), accepted, staged, starting)
      ensures Grows(old(State()), old(arrivals), State(), arrivals)
    {
      ghost var s, a := State(), arrivals;
      ghost var es := Elapsing();
      RunGrows(s, a, es);
    }

    /** Selects a register, with events before and after. */
    method SelectOpen(reg: Byte)
      requires Valid()
      modifies this`chip, this`txPktCnt, this`queueStopped, this`deviceWaitReset, this`upper, this`arrivals
      ensures Valid() && Passed(SelectIn(old(State()), reg), State(), accepted, staged, starting)
      ensures Grows(old(State()), old(arrivals), State(), arrivals)
    {
      Preempt();
      ghost var s, a := State(), arrivals;
      chip := Select(chip, reg);
      Preempt();
      SelectedBetween(old(State()), old(arrivals), s, a, reg, State(), arrivals, accepted, staged, starting);
    }

    /** iowt outside the handler, where an interrupt may come before it and between its two port
        accesses. `mid` is the state just before the value is written. */
    method IowtOpen(reg: Byte, v: Byte) returns (ghost mid: Nic)
      requires Valid()
      modifies this`chip, this`txPktCnt, this`queueStopped, this`deviceWaitReset, this`upper, this`arrivals
      ensures mid.chip.index == reg && State() == mid.(chip := WriteData(mid.chip, v)) && Receives(mid, arrivals)
      ensures Passed(SelectIn(old(State()), reg), mid, accepted, staged, starting)
      ensures reg != RCR ==> Grows(old(State()), old(arrivals), State(), arrivals)
    {
      SelectOpen(reg);
      mid := State();
      chip := WriteData(chip, v);
    }

    /** outw on the transmit memory. */
    method OutWord(low: Byte, high: Byte)
      requires Valid() && chip.imr == MASKED && chip.index == MWCMD && txPktCnt <= 1 && !starting
      modifies this`chip, this`txPktCnt, this`queueStopped, this`deviceWaitReset, this`upper, this`arrivals, this`staged
      ensures Valid() && chip.imr == MASKED && chip.index == MWCMD
      ensures txPktCnt == old(txPktCnt) && queueStopped == old(queueStopped)
      ensures staged == old(staged) + [low, high]
      ensures Grows(old(State()), old(arrivals), State(), arrivals)
    {
      Preempt();
      WordStages(chip.tx, txPktCnt, queuePktLen, accepted, staged, low, high);
      chip := WriteWord(chip, low, high);
      staged := staged + [low, high];
    }

    /** outw number i of a frame; `past` is the byte behind a frame of odd length. */
    method OutFrameWord(data: Frame, past: Byte, i: nat)
      requires Valid() && chip.imr == MASKED && chip.index == MWCMD && txPktCnt <= 1 && !starting
      requires i < Words(|data|) && staged == Spread(data, past)[..2 * i]
      modifies this`chip, this`txPktCnt, this`queueStopped, this`deviceWaitReset, this`upper, this`arrivals, this`staged
      ensures Valid() && chip.imr == MASKED && chip.index == MWCMD
      ensures txPktCnt == old(txPktCnt) && queueStopped == old(queueStopped)
      ensures staged == Spread(data, past)[..2 * i + 2]
      ensures Grows(old(State()), old(arrivals), State(), arrivals)
    {
      OutWord(data[2 * i], if 2 * i + 1 < |data| then data[2 * i + 1] else past);
    }

    /** Writes the frame by words. */
    method WriteFrame(data: Frame, past: Byte)
      requires Valid() && chip.imr == MASKED && txPktCnt <= 1 && staged == [] && !starting
      modifies this`chip, this`txPktCnt, this`queueStopped, this`deviceWaitReset, this`upper, this`arrivals, this`staged
      ensures Valid() && chip.imr == MASKED && HoldsFrame(staged, data)
      ensures txPktCnt == old(txPktCnt) && queueStopped == old(queueStopped)
      ensures Grows(old(State()), old(arrivals), State(), arrivals)
    {
      ghost var s0, a0 := State(), arrivals;
      chip := Select(chip, MWCMD);
      var len := (|data| + 1) / 2;
      for i := 0 to len
        invariant Valid() && chip.imr == MASKED && chip.index == MWCMD
        invariant txPktCnt == old(txPktCnt) && queueStopped == old(queueStopped)
        invariant Grows(s0, a0, State(), arrivals)
        invariant staged == Spread(data, past)[..2 * i]
      {
        ghost var s, a := State(), arrivals;
        OutFrameWord(data, past, i);
        GrowsTwice(s0, a0, s, a, State(), arrivals);
      }
    }

    /** iowt with the chip's interrupts off and its transmitter idle. */
    method SetTransmit(reg: Byte, v: Byte)
      requires Valid() && chip.imr == MASKED && !chip.tx.busy && reg in {TXPLL, TXPLH, TCR}
      modifies this`chip, this`txPktCnt, this`queueStopped, this`deviceWaitReset, this`upper, this`arrivals
      ensures chip.tx == WriteData(Select(old(chip), reg), v).tx && chip.imr == MASKED
      ensures txPktCnt == old(txPktCnt) && queuePktLen == old(queuePktLen) && Receives(State(), arrivals)
      ensures Grows(old(State()), old(arrivals), State(), arrivals)
    {
      ghost var mid := IowtOpen(reg, v);
      assert mid.chip.tx == old(chip.tx);
    }

    /** Polls for the packet that has just been counted. */
    method TransmitFirst(data: Frame)
      requires Valid() && chip.imr == MASKED && txPktCnt == 1 && starting && !chip.tx.busy
      requires 0 < |accepted| && data == accepted[|accepted| - 1] && HoldsFrame(staged, data)
      modifies this
      ensures Valid() && chip.imr == MASKED && txPktCnt == 1 && staged == [] && !starting
      ensures accepted == old(accepted)
      ensures Grows(old(State()), old(arrivals), State(), arrivals)
    {
      assert data in accepted;
      ghost var tx := chip.tx;
      SetTransmit(TXPLL, LowByte(|data|));
      ghost var s1, a1 := State(), arrivals;
      SetTransmit(TXPLH, HighByte(|data|));
      ghost var s2, a2 := State(), arrivals;
      GrowsTwice(old(State()), old(arrivals), s1, a1, s2, a2);
      SetTransmit(TCR, 1);
      GrowsTwice(old(State()), old(arrivals), s2, a2, State(), arrivals);
      LengthSplits(|data|);
      PollStarts(tx, LowByte(|data|), HighByte(|data|), queuePktLen, accepted, staged, data);
      staged := [];
      starting := false;
    }

    /** The branch of xnet_xmit for a first packet. */
    method SendFirst(data: Frame)
      requires Valid() && chip.imr == MASKED && txPktCnt == 0 && !starting
      requires HoldsFrame(staged, data) && |data| < 0x1_0000
      modifies this
      ensures Valid() && chip.imr == MASKED && txPktCnt == 1 && staged == [] && !starting
      ensures accepted == old(accepted) + [data]
      ensures Grows(old(State()), old(arrivals), State(), arrivals)
    {
      FirstCounts(chip.tx, queuePktLen, accepted, staged, data);
      txPktCnt := txPktCnt + 1;
      accepted := accepted + [data];
      starting := true;
      TransmitFirst(data);
    }

    /** The branch of xnet_xmit for a second packet. */
    method QueueSecond(data: Frame)
      requires Valid() && txPktCnt == 1 && !starting && HoldsFrame(staged, data) && |data| < 0x1_0000
      modifies this`txPktCnt, this`queuePktLen, this`accepted, this`staged
      ensures Valid() && txPktCnt == 2 && staged == [] && accepted == old(accepted) + [data]
    {
      SecondQueues(chip.tx, queuePktLen, accepted, staged, data);
      txPktCnt := txPktCnt + 1;
      queuePktLen := |data|;
      accepted := accepted + [data];
      staged := [];
    }

    /** The two branches of xnet_xmit, and the wake-up behind them. */
    method Accept(data: Frame)
      requires Valid() && chip.imr == MASKED && txPktCnt <= 1 && (txPktCnt == 1 ==> queueStopped) && !starting
      requires HoldsFrame(staged, data) && |data| < 0x1_0000
      modifies this
      ensures Valid() && staged == [] && !starting && (queueStopped <==> txPktCnt == 2)
      ensures accepted == old(accepted) + [data]
      ensures Grows(old(State()), old(arrivals), State(), arrivals)
    {
      if txPktCnt == 0 {
        SendFirst(data);
      } else {
        QueueSecond(data);
      }
      if txPktCnt == 1 {
        queueStopped := false;
      }
    }

    /** Stops the queue and switches the chip's interrupts off. An interrupt before that may close the one
        open packet and wake the queue again. */
    method StopAndMask()
      requires Quiet() && txPktCnt <= 1
      modifies this`chip, this`txPktCnt, this`queueStopped, this`deviceWaitReset, this`upper, this`arrivals
      ensures Valid() && chip.imr == MASKED && txPktCnt <= 1 && (txPktCnt == 1 ==> queueStopped)
      ensures Grows(old(State()), old(arrivals), State(), arrivals)
    {
      Preempt();
      queueStopped := true;
      ghost var s, a := State(), arrivals;
      ghost var mid := IowtOpen(IMR, MASKED);
      GrowsTwice(old(State()), old(arrivals), s, a, State(), arrivals);
    }

    method Unmask()
      requires Valid() && staged == [] && !starting && (queueStopped <==> txPktCnt == 2)
      modifies this`chip, this`txPktCnt, this`queueStopped, this`deviceWaitReset, this`upper, this`arrivals
      ensures Quiet()
      ensures Grows(old(State()), old(arrivals), State(), arrivals)
    {
      ghost var mid := IowtOpen(IMR, UNMASKED);
      ghost var s, a := State(), arrivals;
      Preempt();
      GrowsTwice(old(State()), old(arrivals), s, a, State(), arrivals);
    }

    method XnetXmit(data: Frame, past: Byte) returns (r: int)
      requires Quiet() && |data| < 0x1_0000
      modifies this
      ensures Quiet()
      ensures r == if old(txPktCnt) == 2 then 1 else 0
      ensures r == 1 ==> State() == old(State()) && accepted == old(accepted)
      ensures r == 0 ==> accepted == old(accepted) + [data]
      ensures Grows(old(State()), old(arrivals), State(), arrivals)
    {
      if txPktCnt > 1 {
        return 1;
      }
      StopAndMask();
      ghost var s1, a1 := State(), arrivals;
      WriteFrame(data, past);
      ghost var s2, a2 := State(), arrivals;
      GrowsTwice(old(State()), old(arrivals), s1, a1, s2, a2);
      Accept(data);
      ghost var s3, a3 := State(), arrivals;
      GrowsTwice(old(State()), old(arrivals), s2, a2, s3, a3);
      Unmask();
      GrowsTwice(old(State()), old(arrivals), s3, a3, State(), arrivals);
      return 0;
    }

    /** Events, then a frame from the network layer, whatever byte lies behind it. */
    method TakeOffer(data: Frame) returns (ghost o: Offer)
      requires Quiet() && |data| < 0x1_0000
      modifies this
      ensures Quiet() && State() == o.after
      ensures Passed(old(State()), o.before, old(accepted), [], false) && Answered(o, old(accepted), data)
      ensures accepted == old(accepted) + if o.result == 0 then [data] else []
      ensures Grows(old(State()), old(arrivals), State(), arrivals)
    {
      Preempt();
      ghost var before, a := State(), arrivals;
      var past: Byte := *;
      var r := XnetXmit(data, past);
      GrowsTwice(old(State()), old(arrivals), before, a, State(), arrivals);
      o := Offer(before, r, State());
    }

    /** Any run of the driver: the network layer offers frames one after the other, and anything may
        happen before each. */
    method Traffic(frames: seq<Frame>) returns (ghost log: seq<Offer>)
      requires Quiet()
      requires forall f :: f in frames ==> |f| < 0x1_0000
      modifies this
      ensures Quiet()
      ensures Logged(old(State()), old(accepted), frames, log) && State() == Last(old(State()), log)
      ensures accepted == old(accepted) + Taken(frames, log)
      ensures Grows(old(State()), old(arrivals), State(), arrivals)
    {
      log := [];
      ghost var start, first, a0 := State(), accepted, arrivals;
      for n := 0 to |frames|
        invariant Quiet() && Led(start, first, frames[..n], log, State(), accepted)
        invariant Grows(start, a0, State(), arrivals)
      {
        ghost var s, acc, a := State(), accepted, arrivals;
        ghost var o := TakeOffer(frames[n]);
        LogGoesOn(start, first, frames, n, log, s, acc, o, accepted);
        GrowsTwice(start, a0, s, a, State(), arrivals);
        log := log + [o];
      }
      assert frames[..|frames|] == frames;
    }
  }
}
