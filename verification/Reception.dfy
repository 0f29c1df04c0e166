/**
 What holds of the receive side at every moment: which of the packets that have arrived were read, and
 that exactly their deliverable frames that got a buffer have been passed up.
 */
module Reception {
  import opened Receive
  import opened Dm9000
  import opened Transmit

  /** The packets that were read, those that have arrived since, the answers to the requests for buffers,
      and the number of other bytes that got into the receive memory. */
  datatype Arrivals = Arrivals(read: seq<Packet>, left: seq<Packet>, grants: seq<bool>, noise: nat)

  ghost function Grant(grants: seq<bool>): nat -> bool {
    (k: nat) => k < |grants| && grants[k]
  }

  ghost predicate AllFit(ps: seq<Packet>) {
    forall p :: p in ps ==> Fits(p)
  }

  /** While there is no noise. */
  ghost predicate Clean(rx: Rx, wait: bool, upper: seq<Frame>, a: Arrivals)
    requires AllFit(a.read) && AllFit(a.left)
  {
    && AllShort(a.read) && rx.mem == Memory(a.read + a.left, [])
    // the frames passed up are those of the packets read, and the parser stands behind these
    && |a.grants| == Asked(a.read) && upper == Payloads(a.read, Grant(a.grants), 0)
    && (!wait ==> rx.pos == Extent(a.read))
    // it asks for a reset only at an over-long packet, and unread packets have their interrupt pending
    && (wait ==> a.left != [] && OverLong(a.left[0]))
    && (a.left == [] || wait || rx.received)
  }

  ghost predicate RxOk(rx: Rx, wait: bool, upper: seq<Frame>, a: Arrivals) {
    && AllFit(a.read) && AllFit(a.left) && |rx.mem| == Extent(a.read + a.left) + a.noise
    && (a.noise == 0 ==> Clean(rx, wait, upper, a))
  }

  // ---------- Packets one after the other ----------

  lemma {:induction false} MemoryAppends(ps: seq<Packet>, qs: seq<Packet>, tail: seq<Byte>)
    requires AllFit(ps) && AllFit(qs)
    ensures Memory(ps + qs, tail) == Memory(ps, Memory(qs, tail))
    ensures Extent(ps + qs) == Extent(ps) + Extent(qs) && Asked(ps + qs) == Asked(ps) + Asked(qs)
  {
    if ps == [] {
      assert ps + qs == qs;
    } else {
      assert (ps + qs)[1..] == ps[1..] + qs;
      MemoryAppends(ps[1..], qs, tail);
    }
  }

  lemma {:induction false} TailAppends(ps: seq<Packet>, front: seq<Byte>, back: seq<Byte>)
    requires AllFit(ps)
    ensures Memory(ps, front + back) == Memory(ps, front) + back
  {
    if ps != [] {
      TailAppends(ps[1..], front, back);
      assert Stored(ps[0]) + (Memory(ps[1..], front) + back) == Stored(ps[0]) + Memory(ps[1..], front) + back;
    }
  }

  lemma {:induction false} MemoryBehind(ps: seq<Packet>, tail: seq<Byte>)
    requires AllFit(ps)
    ensures Extent(ps) <= |Memory(ps, tail)| && Memory(ps, tail)[Extent(ps)..] == tail
  {
    if ps != [] {
      MemoryBehind(ps[1..], tail);
      var m, rest := Stored(ps[0]), Memory(ps[1..], tail);
      assert (m + rest)[|m| + Extent(ps[1..])..] == rest[Extent(ps[1..])..];
    }
  }

  /** Only the answers to the requests that are made matter. */
  lemma {:induction false} PayloadsAgree(ps: seq<Packet>, f: nat -> bool, k: nat, g: nat -> bool, l: nat)
    requires forall i: nat :: k <= i < k + Asked(ps) ==> f(i) == g(i - k + l)
    ensures Payloads(ps, f, k) == Payloads(ps, g, l)
  {
    if ps != [] {
      var d := if Deliverable(ps[0]) then 1 else 0;
      PayloadsAgree(ps[1..], f, k + d, g, l + d);
    }
  }

  lemma {:induction false} PayloadsAppend(ps: seq<Packet>, qs: seq<Packet>, f: nat -> bool, k: nat)
    ensures Payloads(ps + qs, f, k) == Payloads(ps, f, k) + Payloads(qs, f, k + Asked(ps))
  {
    if ps == [] {
      assert ps + qs == qs;
    } else {
      assert (ps + qs)[1..] == ps[1..] + qs;
      PayloadsAppend(ps[1..], qs, f, if Deliverable(ps[0]) then k + 1 else k);
    }
  }

  /** The first n answers of alloc. */
  ghost function Answers(alloc: nat -> bool, n: nat): (r: seq<bool>)
    ensures |r| == n
  {
    seq(n, i requires 0 <= i < n => alloc(i))
  }

  /** Reading on with the answers of alloc adds them to those given before. */
  lemma PayloadsGrow(ps: seq<Packet>, qs: seq<Packet>, grants: seq<bool>, alloc: nat -> bool)
    requires |grants| == Asked(ps)
    ensures Payloads(ps + qs, Grant(grants + Answers(alloc, Asked(qs))), 0) ==
            Payloads(ps, Grant(grants), 0) + Payloads(qs, alloc, 0)
  {
    var all := grants + Answers(alloc, Asked(qs));
    PayloadsAppend(ps, qs, Grant(all), 0);
    PayloadsAgree(ps, Grant(all), 0, Grant(grants), 0);
    forall i: nat | |grants| <= i < |all| ensures Grant(all)(i) == alloc(i - |grants|) {
      assert all[i] == Answers(alloc, Asked(qs))[i - |grants|];
    }
    PayloadsAgree(qs, Grant(all), |grants|, alloc, 0);
  }

  // ---------- What keeps the reception right ----------

  lemma ArriveKeeps(rx: Rx, wait: bool, upper: seq<Frame>, a: Arrivals, p: Packet)
    requires RxOk(rx, wait, upper, a) && Fits(p)
    ensures RxOk(rx.(received := true, mem := rx.mem + Stored(p)), wait, upper, a.(left := a.left + [p]))
  {
    var ps := a.read + a.left;
    assert a.read + (a.left + [p]) == ps + [p];
    MemoryAppends(ps, [p], []);
    assert Memory([p], []) == [] + Stored(p);
    TailAppends(ps, [], Stored(p));
  }

  lemma NoiseKeeps(rx: Rx, wait: bool, upper: seq<Frame>, a: Arrivals, bytes: seq<Byte>)
    requires RxOk(rx, wait, upper, a)
    ensures RxOk(rx.(received := true, mem := rx.mem + bytes), wait, upper, a.(noise := a.noise + |bytes|))
  {
    assert bytes == [] ==> rx.mem + bytes == rx.mem;
  }

  /** The packets read next: those before the first over-long one. */
  ghost function Readable(ps: seq<Packet>): (n: nat)
    requires AllFit(ps)
    ensures n <= |ps| && AllShort(ps[..n]) && (n < |ps| ==> OverLong(ps[n]))
  {
    if ps == [] || OverLong(ps[0]) then 0
    else
      var n := Readable(ps[1..]);
      assert forall i :: 0 <= i < n ==> ps[..1 + n][1..][i] == ps[1..][..n][i];
      1 + n
  }

  /** After the parser: n more packets were read, with the answers alloc gave. */
  ghost function ReadOn(a: Arrivals, n: nat, alloc: nat -> bool): Arrivals
    requires n <= |a.left|
  {
    var next := a.left[..n];
    a.(read := a.read + next, left := a.left[n..], grants := a.grants + Answers(alloc, Asked(next)))
  }

  lemma MemorySplits(ps: seq<Packet>, n: nat)
    requires AllFit(ps) && n <= |ps|
    ensures AllFit(ps[..n]) && AllFit(ps[n..]) && Memory(ps, []) == Memory(ps[..n], Memory(ps[n..], []))
  {
    assert ps == ps[..n] + ps[n..];
    MemoryAppends(ps[..n], ps[n..], []);
  }

  lemma FirstStored(ps: seq<Packet>, n: nat)
    requires AllFit(ps) && n < |ps|
    ensures Memory(ps[n..], []) == Stored(ps[n]) + Memory(ps[n + 1..], [])
  {
    assert ps[n..][1..] == ps[n + 1..];
  }

  /** The parser reads the packets before the first over-long one, and asks for a reset if there is one. */
  lemma ParseReads(mem: seq<Byte>, pos: nat, ps: seq<Packet>, alloc: nat -> bool)
    requires AllFit(ps) && pos <= |mem| && mem[pos..] == Memory(ps, [])
    ensures var n, r := Readable(ps), Parse(mem, pos, false, alloc, 0);
      && r.frames == Payloads(ps[..n], alloc, 0) && (r.wait <==> n < |ps|)
      && (!r.wait ==> r.next == pos + Extent(ps[..n]))
  {
    var n := Readable(ps);
    MemorySplits(ps, n);
    if n < |ps| {
      FirstStored(ps, n);
      StopsAtOverLong(mem, pos, ps[..n], ps[n], Memory(ps[n + 1..], []), alloc);
    } else {
      ReceivesStored(mem, pos, ps[..n], [], alloc);
    }
  }

  lemma ReadOnIsRight(rx: Rx, upper: seq<Frame>, a: Arrivals, n: nat, alloc: nat -> bool, next: nat)
    requires RxOk(rx, false, upper, a) && a.noise == 0 && n <= |a.left| && AllShort(a.left[..n])
    requires if n < |a.left| then OverLong(a.left[n]) else next == rx.pos + Extent(a.left[..n])
    ensures RxOk(rx.(received := false, pos := next), n < |a.left|, upper + Payloads(a.left[..n], alloc, 0),
                 ReadOn(a, n, alloc))
  {
    var ps, qs := a.read, a.left[..n];
    assert ps + a.left == (ps + qs) + a.left[n..];
    MemoryAppends(ps, qs, []);
    PayloadsGrow(ps, qs, a.grants, alloc);
  }

  /** One run of the parser over what has arrived. */
  lemma ParseReadsOn(rx: Rx, upper: seq<Frame>, a: Arrivals, alloc: nat -> bool)
    requires RxOk(rx, false, upper, a) && a.noise == 0
    ensures var r := Parse(rx.mem, rx.pos, false, alloc, 0);
      RxOk(rx.(received := false, pos := r.next), r.wait, upper + r.frames, ReadOn(a, Readable(a.left), alloc))
  {
    MemoryAppends(a.read, a.left, []);
    MemoryBehind(a.read, Memory(a.left, []));
    ParseReads(rx.mem, rx.pos, a.left, alloc);
    ReadOnIsRight(rx, upper, a, Readable(a.left), alloc, Parse(rx.mem, rx.pos, false, alloc, 0).next);
  }

  /** A parser that waits for a reset passes nothing up and goes on waiting. */
  lemma WaitingParsesNothing(mem: seq<Byte>, pos: nat, alloc: nat -> bool)
    ensures var r := Parse(mem, pos, true, alloc, 0); r.frames == [] && r.wait
  {
  }

  /** The arrivals after an interrupt in state s. */
  ghost function AfterInterrupt(s: Nic, a: Arrivals, env: Env): Arrivals {
    if a.noise == 0 && AllFit(a.left) && s.chip.rx.received && !s.waitReset then ReadOn(a, Readable(a.left), env.alloc)
    else a
  }

  ghost predicate Receives(s: Nic, a: Arrivals) {
    RxOk(s.chip.rx, s.waitReset, s.upper, a)
  }

  /** An interrupt reads all packets that have arrived, up to an over-long one. */
  lemma InterruptReceives(s: Nic, a: Arrivals, env: Env)
    requires Receives(s, a)
    ensures Receives(Interrupt(s, env), AfterInterrupt(s, a, env))
  {
    InterruptParses(s, env);
    if a.noise == 0 {
      if s.waitReset {
        WaitingParsesNothing(s.chip.rx.mem, s.chip.rx.pos, env.alloc);
      } else if s.chip.rx.received {
        ParseReadsOn(s.chip.rx, s.upper, a, env.alloc);
      }
    }
  }

  // ---------- Runs ----------

  /** What can happen between two steps of the driver: a packet is stored, a transmission ends, an interrupt
      is taken if the chip raises one, or something other than packets gets into the receive memory. */
  datatype Event = Stores(p: Packet) | Finishes | Interrupts(env: Env) | Disturbs(bytes: seq<Byte>)

  function Store(c: Chip, bytes: seq<Byte>): Chip {
    c.(rx := c.rx.(received := true, mem := c.rx.mem + bytes))
  }

  ghost predicate Possible(e: Event) {
    e.Stores? ==> Fits(e.p)
  }

  ghost function Occur(s: Nic, e: Event): Nic
    requires Possible(e)
  {
    match e
    case Stores(p) => s.(chip := Store(s.chip, Stored(p)))
    case Finishes => s.(chip := Elapse(s.chip, true))
    case Interrupts(env) => if Interrupting(s.chip) then Interrupt(s, env) else s
    case Disturbs(bytes) => s.(chip := Store(s.chip, bytes))
  }

  ghost function Track(s: Nic, a: Arrivals, e: Event): Arrivals {
    match e
    case Stores(p) => a.(left := a.left + [p])
    case Finishes => a
    case Interrupts(env) => if Interrupting(s.chip) then AfterInterrupt(s, a, env) else a
    case Disturbs(bytes) => a.(noise := a.noise + |bytes|)
  }

  ghost function Came(e: Event): seq<Packet> {
    if e.Stores? then [e.p] else []
  }

  /** The packets that arrive, in order. */
  ghost function Arrived(es: seq<Event>): seq<Packet> {
    if es == [] then []
    else Arrived(es[..|es| - 1]) + Came(es[|es| - 1])
  }

  ghost predicate AllPossible(es: seq<Event>) {
    forall e :: e in es ==> Possible(e)
  }

  /** Play and Log are the state and the arrivals after a run. */
  ghost function Play(s: Nic, es: seq<Event>): Nic
    requires AllPossible(es)
  {
    if es == [] then s else Occur(Play(s, es[..|es| - 1]), es[|es| - 1])
  }

  ghost function Log(s: Nic, a: Arrivals, es: seq<Event>): Arrivals
    requires AllPossible(es)
  {
    if es == [] then a
    else Track(Play(s, es[..|es| - 1]), Log(s, a, es[..|es| - 1]), es[|es| - 1])
  }

  /** a' came after a, with these packets between: nothing is forgotten or reordered. */
  ghost predicate Grown(a: Arrivals, came: seq<Packet>, a': Arrivals) {
    && a'.read + a'.left == a.read + a.left + came
    && a.read <= a'.read && a.grants <= a'.grants && a.noise <= a'.noise
  }

  lemma EventReceives(s: Nic, a: Arrivals, e: Event)
    requires Receives(s, a) && Possible(e)
    ensures Receives(Occur(s, e), Track(s, a, e))
  {
    match e
    case Stores(p) => ArriveKeeps(s.chip.rx, s.waitReset, s.upper, a, p);
    case Finishes =>
    case Interrupts(env) => InterruptReceives(s, a, env);
    case Disturbs(bytes) => NoiseKeeps(s.chip.rx, s.waitReset, s.upper, a, bytes);
  }

  lemma ReadOnGrows(a: Arrivals, n: nat, alloc: nat -> bool)
    requires n <= |a.left|
    ensures Grown(a, [], ReadOn(a, n, alloc))
  {
    assert a.read + a.left[..n] + a.left[n..] == a.read + a.left + [];
  }

  lemma TrackGrows(s: Nic, a: Arrivals, e: Event)
    ensures Grown(a, Came(e), Track(s, a, e))
  {
    assert a.read + a.left + [] == a.read + a.left;
    if e.Stores? {
      assert a.read + (a.left + [e.p]) == a.read + a.left + [e.p];
    } else if e.Interrupts? && AllFit(a.left) {
      ReadOnGrows(a, Readable(a.left), e.env.alloc);
    }
  }

  lemma GrownTwice(a: Arrivals, ps: seq<Packet>, a': Arrivals, qs: seq<Packet>, a'': Arrivals)
    requires Grown(a, ps, a') && Grown(a', qs, a'')
    ensures Grown(a, ps + qs, a'')
  {
    assert a.read + a.left + ps + qs == a.read + a.left + (ps + qs);
  }

  /** Over every run of events, from any state in which it holds: the frames passed up are those of the
      packets read, and those read and left are all that arrived. */
  lemma {:induction false} RunReceives(s: Nic, a: Arrivals, es: seq<Event>)
    requires Receives(s, a) && AllPossible(es)
    ensures Receives(Play(s, es), Log(s, a, es)) && Grown(a, Arrived(es), Log(s, a, es))
  {
    if es != [] {
      var es', e := es[..|es| - 1], es[|es| - 1];
      RunReceives(s, a, es');
      EventReceives(Play(s, es'), Log(s, a, es'), e);
      TrackGrows(Play(s, es'), Log(s, a, es'), e);
      GrownTwice(a, Arrived(es'), Log(s, a, es'), Came(e), Log(s, a, es));
    } else {
      assert a.read + a.left + [] == a.read + a.left;
    }
  }

  lemma RunGoesOn(s: Nic, a: Arrivals, es: seq<Event>, e: Event)
    requires AllPossible(es) && Possible(e)
    ensures AllPossible(es + [e])
    ensures Play(s, es + [e]) == Occur(Play(s, es), e)
    ensures Log(s, a, es + [e]) == Track(Play(s, es), Log(s, a, es), e)
  {
    assert (es + [e])[..|es|] == es;
  }

  // ---------- What is never taken back ----------

  /** Frames passed up, stored bytes and the record of the arrivals only grow; a reset stays asked for; and
      reception is switched off only together with that. */
  ghost predicate Grows(s: Nic, a: Arrivals, s': Nic, a': Arrivals) {
    && s.upper <= s'.upper && s.chip.rx.mem <= s'.chip.rx.mem
    && a.read <= a'.read && a.read + a.left <= a'.read + a'.left && a.grants <= a'.grants && a.noise <= a'.noise
    && (s.waitReset ==> s'.waitReset)
    && (s'.chip.rx.control == s.chip.rx.control || (s'.waitReset && s'.chip.rx.control == 0))
  }

  lemma GrowsTwice(s: Nic, a: Arrivals, s': Nic, a': Arrivals, s'': Nic, a'': Arrivals)
    requires Grows(s, a, s', a') && Grows(s', a', s'', a'')
    ensures Grows(s, a, s'', a'')
  {
  }

  lemma EventGrows(s: Nic, a: Arrivals, e: Event)
    requires Possible(e)
    ensures Grows(s, a, Occur(s, e), Track(s, a, e))
  {
    TrackGrows(s, a, e);
    if e.Interrupts? {
      InterruptParses(s, e.env);
      ParseWaits(s.chip.rx.mem, s.chip.rx.pos, s.waitReset, e.env.alloc, 0);
    }
  }

  lemma {:induction false} RunGrows(s: Nic, a: Arrivals, es: seq<Event>)
    requires AllPossible(es)
    ensures Grows(s, a, Play(s, es), Log(s, a, es))
  {
    if es != [] {
      var es', e := es[..|es| - 1], es[|es| - 1];
      RunGrows(s, a, es');
      EventGrows(Play(s, es'), Log(s, a, es'), e);
      GrowsTwice(s, a, Play(s, es'), Log(s, a, es'), Play(s, es), Log(s, a, es));
    }
  }

  /** While only packets of admissible length arrive, no run asks for a reset or changes how reception is
      switched. */
  lemma ReceptionStaysOn(s: Nic, a: Arrivals, es: seq<Event>)
    requires Receives(s, a) && AllPossible(es) && Log(s, a, es).noise == 0
    requires AllShort(a.read + a.left + Arrived(es))
    ensures var s' := Play(s, es); !s'.waitReset && s'.chip.rx.control == s.chip.rx.control
  {
    RunReceives(s, a, es);
    RunGrows(s, a, es);
    var a' := Log(s, a, es);
    if a'.left != [] {
      assert a'.left[0] == (a'.read + a'.left)[|a'.read|];
    }
  }

  // ---------- No packet is left lying ----------

  /** The idle driver is interrupted exactly while a flag of the chip is up. */
  lemma IdleIsInterruptedIff(s: Nic, accepted: seq<Frame>)
    requires Idle(s, accepted)
    ensures Interrupting(s.chip) <==> s.chip.tx.sent || s.chip.rx.received
  {
  }

  lemma NothingPendingIsRead(rx: Rx, wait: bool, upper: seq<Frame>, a: Arrivals)
    requires RxOk(rx, wait, upper, a) && a.noise == 0 && !rx.received
    ensures if wait then a.left != [] && OverLong(a.left[0]) else a.left == []
  {
  }

  /** Behind unread packets there is an interrupt being delivered, unless a reset is asked for. */
  lemma UnreadPacketsInterrupt(s: Nic, a: Arrivals, accepted: seq<Frame>)
    requires Idle(s, accepted) && Receives(s, a) && a.noise == 0 && a.left != [] && !s.waitReset
    ensures s.chip.rx.received && Interrupting(s.chip)
  {
    IdleIsInterruptedIff(s, accepted);
  }

  /** And that interrupt reads them up to the first over-long one. */
  lemma InterruptReadsAll(s: Nic, a: Arrivals, env: Env)
    requires Receives(s, a) && a.noise == 0 && Interrupting(s.chip)
    ensures var s', a' := Occur(s, Interrupts(env)), Track(s, a, Interrupts(env));
      && Receives(s', a') && Grown(a, [], a')
      && (if s'.waitReset then a'.left != [] && OverLong(a'.left[0]) else a'.left == [])
  {
    var s', a' := Interrupt(s, env), Track(s, a, Interrupts(env));
    EventReceives(s, a, Interrupts(env));
    TrackGrows(s, a, Interrupts(env));
    InterruptParses(s, env);
    NothingPendingIsRead(s'.chip.rx, s'.waitReset, s'.upper, a');
  }
}
