/** The transmitter of a serial port as a state machine: the ring buffer and head/tail indices of
    HardwareSerial, the data register, the shift register and their flags.  Main code, the
    data-register-empty interrupt and the UART hardware take turns, in any order. */
module SerialLine {

  type byte = x: int | 0 <= x < 256

  datatype Option<T> = None | Some(value: T)

  datatype Line = Line(
    buf: seq<byte>, head: nat, tail: nat,     // ring buffer
    udr: Option<byte>, shift: Option<byte>,   // data register (UDRE is udr == None), shift register
    udrie: bool, txc: bool,                   // interrupt enable, transmit complete
    put: Option<byte>,                        // stored in the slot at head, head not yet advanced
    published: bool,                          // head advanced, UDRIE not yet set
    accepted: seq<byte>, wire: seq<byte>)     // bytes handed to write(), bytes sent

  datatype Event =
    | Direct(c: byte)    // write(): ring and data register empty, store UDR and clear TXC
    | Put(c: byte)       // write(): store c in the slot at head
    | Publish(c: byte)   // write(): advance head over it
    | Arm                // write(): set UDRIE
    | Irq                // _tx_udr_empty_irq, raised by the hardware or polled
    | Load               // UART: data register moves to the idle shift register
    | Done               // UART: last bit of the shift register is out

  // ----- the ring -----

  ghost predicate RingOK(buf: seq<byte>, head: nat, tail: nat) {
    2 <= |buf| && head < |buf| && tail < |buf|
  }

  function Ring(buf: seq<byte>, head: nat, tail: nat): seq<byte>
    requires head < |buf| && tail < |buf|
  {
    if tail <= head then buf[tail..head] else buf[tail..] + buf[..head]
  }

  function Next(i: nat, n: nat): nat
    requires i < n
  {
    (i + 1) % n
  }

  lemma NextIs(i: nat, n: nat)
    requires i < n
    ensures Next(i, n) == if i + 1 == n then 0 else i + 1
  {
  }

  /** Storing at head and advancing it appends one byte, unless that would meet the tail. */
  lemma RingPush(buf: seq<byte>, head: nat, tail: nat, c: byte)
    requires RingOK(buf, head, tail) && Next(head, |buf|) != tail
    ensures Ring(buf[head := c], Next(head, |buf|), tail) == Ring(buf, head, tail) + [c]
  {
    NextIs(head, |buf|);
  }

  /** The two halves: the slot at head is outside the ring, and advancing head takes it in. */
  lemma RingPut(buf: seq<byte>, head: nat, tail: nat, c: byte)
    requires RingOK(buf, head, tail)
    ensures Ring(buf[head := c], head, tail) == Ring(buf, head, tail)
  {
  }

  lemma RingAdvance(buf: seq<byte>, head: nat, tail: nat)
    requires RingOK(buf, head, tail) && Next(head, |buf|) != tail
    ensures Ring(buf, Next(head, |buf|), tail) == Ring(buf, head, tail) + [buf[head]]
  {
    NextIs(head, |buf|);
  }

  lemma RingPop(buf: seq<byte>, head: nat, tail: nat)
    requires RingOK(buf, head, tail) && head != tail
    ensures Ring(buf, head, tail) == [buf[tail]] + Ring(buf, head, Next(tail, |buf|))
  {
    NextIs(tail, |buf|);
  }

  lemma ModOnce(x: nat, n: nat)
    requires 0 < n && x < 2 * n
    ensures x % n == if x < n then x else x - n
  {
    if n <= x { assert x == n * 1 + (x - n); }
  }

  /** available() and availableForWrite() count what is in the ring and what still fits: one
      slot always stays empty. */
  lemma RingCounts(buf: seq<byte>, head: nat, tail: nat)
    requires RingOK(buf, head, tail)
    ensures (|buf| + head - tail) % |buf| == |Ring(buf, head, tail)|
    ensures (if head >= tail then |buf| - 1 - head + tail else tail - head - 1) == |buf| - 1 - |Ring(buf, head, tail)|
    ensures head == tail <==> Ring(buf, head, tail) == []
    ensures Next(head, |buf|) == tail <==> |Ring(buf, head, tail)| == |buf| - 1
  {
    hide Next;
    NextIs(head, |buf|);
    ModOnce(|buf| + head - tail, |buf|);
  }

  // ----- steps -----

  function Queue(l: Line): seq<byte>
    requires l.head < |l.buf| && l.tail < |l.buf|
  {
    Ring(l.buf, l.head, l.tail)
  }

  function AsSeq(o: Option<byte>): seq<byte> {
    if o.Some? then [o.value] else []
  }

  ghost predicate Enabled(l: Line, e: Event)
    requires RingOK(l.buf, l.head, l.tail)
  {
    match e
    case Direct(c) => !l.published && l.put.None? && l.head == l.tail && l.udr.None?
    case Put(c) => !l.published && l.put.None? && Next(l.head, |l.buf|) != l.tail
    case Publish(c) => !l.published && l.put == Some(c)
    case Arm => l.published
    case Irq => l.udrie && l.udr.None?
    case Load => l.udr.Some? && l.shift.None?
    case Done => l.shift.Some?
  }

  function Step(l: Line, e: Event): Line
    requires RingOK(l.buf, l.head, l.tail) && Enabled(l, e)
  {
    match e
    case Direct(c) => l.(udr := Some(c), txc := false, accepted := l.accepted + [c])
    case Put(c) => l.(buf := l.buf[l.head := c], put := Some(c))
    case Publish(c) =>
      l.(head := Next(l.head, |l.buf|), put := None, published := true, accepted := l.accepted + [c])
    case Arm => l.(udrie := true, published := false)
    case Irq =>
      var tail := Next(l.tail, |l.buf|);
      l.(tail := tail, udr := Some(l.buf[l.tail]), txc := false, udrie := l.head != tail)
    case Load => l.(shift := l.udr, udr := None)
    case Done =>
      if l.udr.Some? then l.(wire := l.wire + [l.shift.value], shift := l.udr, udr := None)
      else l.(wire := l.wire + [l.shift.value], shift := None, txc := true)
  }

  // ----- invariant -----

  /** Bytes handed to write() are on the wire, in flight or in the ring, in order. */
  ghost predicate Conserved(l: Line)
    requires RingOK(l.buf, l.head, l.tail)
  {
    l.accepted == l.wire + AsSeq(l.shift) + AsSeq(l.udr) + Queue(l)
  }

  /** Transmit-complete tells the truth: it is set only when nothing is in flight, and once a byte
      has been sent it is clear only while something is. */
  ghost predicate TxcTruthful(l: Line) {
    && (l.txc ==> l.udr.None? && l.shift.None?)
    && (l.wire != [] && l.udr.None? && l.shift.None? ==> l.txc)
  }

  ghost predicate Inv(l: Line) {
    && RingOK(l.buf, l.head, l.tail)
    && Conserved(l) && TxcTruthful(l)
    && (l.udrie ==> l.head != l.tail)
    && (!l.published && l.head != l.tail ==> l.udrie)
    && PutOK(l)
  }

  /** Between the store and the advance the byte is in its slot, and the room for it stays. */
  ghost predicate PutOK(l: Line)
    requires RingOK(l.buf, l.head, l.tail)
  {
    l.put.Some? ==> l.buf[l.head] == l.put.value && Next(l.head, |l.buf|) != l.tail
  }

  /** The one step that needs care: UDRIE must not be set after the ring has drained. */
  ghost predicate Safe(l: Line, e: Event) {
    e == Arm ==> l.head != l.tail
  }

  lemma StepKeepsInv(l: Line, e: Event)
    requires Inv(l) && Enabled(l, e) && Safe(l, e)
    ensures Inv(Step(l, e))
  {
    hide Ring, Next;
    match e
    case Direct(c) => RingCounts(l.buf, l.head, l.tail);
    case Put(c) => RingPut(l.buf, l.head, l.tail, c);
    case Publish(c) => RingAdvance(l.buf, l.head, l.tail); NextIs(l.head, |l.buf|);
    case Arm =>
    case Irq => RingPop(l.buf, l.head, l.tail); NextIs(l.tail, |l.buf|); NextIs(l.head, |l.buf|);
    case Load =>
    case Done =>
  }

  /** The interrupt sends a byte that was written exactly when the ring is not empty: on an empty
      ring it sends a stale byte, and the tail runs past the head. */
  lemma IrqConservesIff(l: Line)
    requires RingOK(l.buf, l.head, l.tail) && Conserved(l) && Enabled(l, Irq)
    ensures Conserved(Step(l, Irq)) <==> Queue(l) != []
  {
    hide Ring, Next;
    RingCounts(l.buf, l.head, l.tail);
    NextIs(l.tail, |l.buf|);
    var m := Step(l, Irq);
    if l.head != l.tail {
      RingPop(l.buf, l.head, l.tail);
    } else {
      RingCounts(m.buf, m.head, m.tail);
      ModOnce(|m.buf| + m.head - m.tail, |m.buf|);
      assert |m.accepted| < |m.wire + AsSeq(m.shift) + AsSeq(m.udr) + Queue(m)|;
    }
  }

  // ----- runs -----

  ghost predicate Legal(l: Line, es: seq<Event>)
    decreases |es|
  {
    es == [] || (RingOK(l.buf, l.head, l.tail) && Enabled(l, es[0]) && Legal(Step(l, es[0]), es[1..]))
  }

  ghost function Run(l: Line, es: seq<Event>): Line
    requires Legal(l, es)
    decreases |es|
  {
    if es == [] then l else Run(Step(l, es[0]), es[1..])
  }

  ghost predicate SafeRun(l: Line, es: seq<Event>)
    requires Legal(l, es)
    decreases |es|
  {
    es == [] || (Safe(l, es[0]) && SafeRun(Step(l, es[0]), es[1..]))
  }

  /** The bytes handed to write() during a run. */
  function Written(es: seq<Event>): seq<byte> {
    if es == [] then []
    else Carries(es[0]) + Written(es[1..])
  }

  function Carries(e: Event): seq<byte> {
    match e case Direct(c) => [c] case Publish(c) => [c] case _ => []
  }

  /** Main code sets UDRIE right after advancing head, as if the two were one step. */
  ghost predicate Atomic(published: bool, es: seq<Event>)
    decreases |es|
  {
    if es == [] then true
    else if published then es[0] == Arm && Atomic(false, es[1..])
    else es[0] != Arm && Atomic(es[0].Publish?, es[1..])
  }

  lemma StepAccepts(l: Line, e: Event)
    requires RingOK(l.buf, l.head, l.tail) && Enabled(l, e)
    ensures Step(l, e).accepted == l.accepted + Written([e])
    ensures l.wire <= Step(l, e).wire
  {
  }

  /** In every run in which each Arm is safe, whatever the interleaving, the bytes written are
      exactly those on the wire, in flight and in the ring, in order. */
  lemma {:induction false} EveryRunConserves(l: Line, es: seq<Event>)
    requires Inv(l) && Legal(l, es) && SafeRun(l, es)
    ensures Inv(Run(l, es)) && Run(l, es).accepted == l.accepted + Written(es)
    ensures l.wire <= Run(l, es).wire
    decreases |es|
  {
    hide Inv, Enabled, Step, Safe;
    if es != [] {
      StepKeepsInv(l, es[0]);
      StepAccepts(l, es[0]);
      EveryRunConserves(Step(l, es[0]), es[1..]);
    }
  }

  /** Runs that treat advance-head and set-UDRIE as one step are safe. */
  lemma {:induction false} AtomicRunsAreSafe(l: Line, es: seq<Event>)
    requires Inv(l) && Legal(l, es) && (l.published ==> l.head != l.tail) && Atomic(l.published, es)
    ensures SafeRun(l, es)
    decreases |es|
  {
    if es != [] {
      StepKeepsInv(l, es[0]);
      var m := Step(l, es[0]);
      if es[0].Publish? { NextIs(l.head, |l.buf|); }
      assert m.published == es[0].Publish?;
      AtomicRunsAreSafe(m, es[1..]);
    }
  }

  lemma {:induction false} RunConcat(l: Line, es: seq<Event>, fs: seq<Event>)
    requires Legal(l, es) && Legal(Run(l, es), fs)
    ensures Legal(l, es + fs) && Run(l, es + fs) == Run(Run(l, es), fs)
    decreases |es|
  {
    if es == [] {
      assert es + fs == fs;
    } else {
      RunConcat(Step(l, es[0]), es[1..], fs);
      assert (es + fs)[1..] == es[1..] + fs;
    }
  }

  lemma {:induction false} WrittenConcat(es: seq<Event>, fs: seq<Event>)
    ensures Written(es + fs) == Written(es) + Written(fs)
  {
    if es == [] {
      assert es + fs == fs;
    } else {
      hide Carries;
      assert (es + fs)[0] == es[0] && (es + fs)[1..] == es[1..] + fs;
      WrittenConcat(es[1..], fs);
      assert Carries(es[0]) + (Written(es[1..]) + Written(fs)) == (Carries(es[0]) + Written(es[1..])) + Written(fs);
    }
  }

  /** Bytes not yet sent, weighted by the steps each still needs. */
  function Work(l: Line): nat
    requires l.head < |l.buf| && l.tail < |l.buf|
  {
    3 * |Queue(l)| + 2 * |AsSeq(l.udr)| + |AsSeq(l.shift)|
  }

  /** Every step of the interrupt or the hardware gets the transmitter closer to rest. */
  lemma StepWorks(l: Line, e: Event)
    requires Inv(l) && Enabled(l, e) && (e == Irq || e == Load || e == Done)
    ensures RingOK(Step(l, e).buf, Step(l, e).head, Step(l, e).tail) && Work(Step(l, e)) < Work(l)
    ensures |Queue(Step(l, e))| <= |Queue(l)|
  {
    hide Ring;
    NextIs(l.tail, |l.buf|);
    if e == Irq { RingPop(l.buf, l.head, l.tail); }
  }

  lemma {:induction false} RunWorks(l: Line, es: seq<Event>)
    requires Inv(l) && Legal(l, es) && Quiet(es)
    ensures Inv(Run(l, es)) && RingOK(l.buf, l.head, l.tail)
    ensures Work(Run(l, es)) <= Work(l) - |es| && |Queue(Run(l, es))| <= |Queue(l)|
    decreases |es|
  {
    hide Inv, Enabled, Step, Work, Queue;
    InvParts(l);
    if es != [] {
      assert es[0] in es && forall e :: e in es[1..] ==> e in es;
      StepKeepsInv(l, es[0]);
      StepWorks(l, es[0]);
      RunWorks(Step(l, es[0]), es[1..]);
    }
  }

  lemma InvParts(l: Line)
    requires Inv(l)
    ensures RingOK(l.buf, l.head, l.tail)
  {
  }

  lemma OneStep(l: Line, e: Event, m: Line, es: seq<Event>)
    requires RingOK(l.buf, l.head, l.tail) && Enabled(l, e) && Step(l, e) == m && Legal(m, es)
    ensures Legal(l, [e] + es) && Run(l, [e] + es) == Run(m, es)
    ensures SafeRun(l, [e] + es) <==> Safe(l, e) && SafeRun(m, es)
  {
    assert ([e] + es)[1..] == es;
  }

  lemma Extend(l: Line, es: seq<Event>, m: Line, e: Event, n: Line)
    requires Legal(l, es) && Run(l, es) == m && RingOK(m.buf, m.head, m.tail) && Enabled(m, e) && Step(m, e) == n
    ensures Legal(l, es + [e]) && Run(l, es + [e]) == n
  {
    SingleStep(m, e);
    RunConcat(l, es, [e]);
  }

  /** After reset, with a ring of three bytes. */
  function Reset(): Line {
    Line([0, 0, 0], 0, 0, None, None, false, false, None, false, [], [])
  }

  /** Two writes, and a third that has just advanced head. */
  lemma ThirdPublished() returns (es: seq<Event>, l: Line)
    ensures Legal(Reset(), es) && Run(Reset(), es) == l
    ensures l == Line([2, 3, 0], 2, 0, Some(1), None, true, false, None, true, [1, 2, 3], [])
  {
    hide Legal, Run;
    Nothing(Reset());
    var l1 := Line([0, 0, 0], 0, 0, Some(1), None, false, false, None, false, [1], []);
    var p2 := l1.(buf := [2, 0, 0], put := Some(2));
    var l2 := p2.(head := 1, put := None, published := true, accepted := [1, 2]);
    var l3 := l2.(udrie := true, published := false);
    var p3 := l3.(buf := [2, 3, 0], put := Some(3));
    l := Line([2, 3, 0], 2, 0, Some(1), None, true, false, None, true, [1, 2, 3], []);
    Extend(Reset(), [], Reset(), Direct(1), l1);
    es := [] + [Direct(1)];
    Extend(Reset(), es, l1, Put(2), p2);
    es := es + [Put(2)];
    Extend(Reset(), es, p2, Publish(2), l2);
    es := es + [Publish(2)];
    Extend(Reset(), es, l2, Arm, l3);
    es := es + [Arm];
    Extend(Reset(), es, l3, Put(3), p3);
    es := es + [Put(3)];
    Extend(Reset(), es, p3, Publish(3), l);
    es := es + [Publish(3)];
  }

  /** The interrupt drains the ring before the third write sets UDRIE. */
  lemma DrainedInTheGap() returns (es: seq<Event>, l: Line)
    ensures Legal(Reset(), es) && Run(Reset(), es) == l
    ensures l == Line([2, 3, 0], 2, 2, Some(3), Some(2), false, false, None, true, [1, 2, 3], [1])
  {
    hide Legal, Run;
    var l4;
    es, l4 := ThirdPublished();
    var l5 := l4.(shift := Some(1), udr := None);
    var l6 := l5.(tail := 1, udr := Some(2));
    var l7 := l6.(wire := [1], shift := Some(2), udr := None);
    l := l7.(tail := 2, udr := Some(3), udrie := false);
    Extend(Reset(), es, l4, Load, l5);
    es := es + [Load];
    Extend(Reset(), es, l5, Irq, l6);
    es := es + [Irq];
    Extend(Reset(), es, l6, Done, l7);
    es := es + [Done];
    Extend(Reset(), es, l7, Irq, l);
    es := es + [Irq];
  }

  /** The source does not guard the pair, and from reset it can go wrong: the third of three writes
      sets UDRIE on a ring already drained, and the next interrupt sends a byte nobody wrote. */
  lemma UnguardedPairSendsStaleByte()
    ensures exists es :: Legal(Reset(), es) &&
              var m := Run(Reset(), es); RingOK(m.buf, m.head, m.tail) && !Conserved(m)
  {
    hide Legal, Run, Ring;
    var es, l := DrainedInTheGap();
    var m := l.(udrie := true, published := false);
    Extend(Reset(), es, l, Arm, m);
    es := es + [Arm];
    RingCounts(m.buf, m.head, m.tail);
    DrainedSendsStale(m);
    var fs :| Quiet(fs) && Legal(m, fs) && RingOK(Run(m, fs).buf, Run(m, fs).head, Run(m, fs).tail) && !Conserved(Run(m, fs));
    RunConcat(Reset(), es, fs);
    var whole := es + fs;
    assert Legal(Reset(), whole);
  }

  /** Nothing but interrupts and hardware steps. */
  ghost predicate Quiet(es: seq<Event>) {
    forall e :: e in es ==> e == Irq || e == Load || e == Done
  }

  lemma {:induction false} SafeWithoutArm(l: Line, es: seq<Event>)
    requires Legal(l, es) && Arm !in es
    ensures SafeRun(l, es)
    decreases |es|
  {
    hide Step, Enabled;
    if es != [] {
      assert es[0] in es && forall e :: e in es[1..] ==> e in es;
      SafeWithoutArm(Step(l, es[0]), es[1..]);
    }
  }

  lemma {:induction false} SafeConcat(l: Line, es: seq<Event>, fs: seq<Event>)
    requires Legal(l, es) && SafeRun(l, es) && Legal(Run(l, es), fs) && SafeRun(Run(l, es), fs)
    ensures Legal(l, es + fs) && SafeRun(l, es + fs)
    decreases |es|
  {
    hide Step, Enabled, Safe;
    RunConcat(l, es, fs);
    if es == [] {
      assert es + fs == fs;
    } else {
      SafeConcat(Step(l, es[0]), es[1..], fs);
      assert (es + fs)[1..] == es[1..] + fs && (es + fs)[0] == es[0];
    }
  }

  lemma QuietConcat(es: seq<Event>, fs: seq<Event>)
    requires Quiet(es) && Quiet(fs)
    ensures Quiet(es + fs)
  {
  }

  lemma {:induction false} QuietWritesNothing(es: seq<Event>)
    requires Quiet(es)
    ensures Written(es) == [] && Arm !in es
  {
    if es != [] {
      assert es[0] in es && forall e :: e in es[1..] ==> e in es;
      QuietWritesNothing(es[1..]);
    }
  }

  /** Interrupts and UART steps, then the rest of write(). */
  lemma QuietThen(l: Line, es: seq<Event>, fs: seq<Event>)
    requires Quiet(es) && Legal(l, es) && Legal(Run(l, es), fs)
    ensures Legal(l, es + fs) && Run(l, es + fs) == Run(Run(l, es), fs) && Written(es + fs) == Written(fs)
    ensures SafeRun(Run(l, es), fs) ==> SafeRun(l, es + fs)
  {
    hide Legal, Run, SafeRun, Quiet;
    QuietWritesNothing(es);
    RunConcat(l, es, fs);
    WrittenConcat(es, fs);
    SafeWithoutArm(l, es);
    if SafeRun(Run(l, es), fs) { SafeConcat(l, es, fs); }
  }

  /** The direct path with its gap: one byte written, safely. */
  lemma DirectWrites(l: Line, c: byte, gap: seq<Event>)
    requires UartOnly(gap) && Legal(l, [Direct(c)] + gap)
    ensures Written([Direct(c)] + gap) == [c] && SafeRun(l, [Direct(c)] + gap)
  {
    hide Legal, Run, SafeRun, Quiet;
    UartIsQuiet(gap);
    QuietWritesNothing(gap);
    SafeWithoutArm(l, [Direct(c)] + gap);
    assert ([Direct(c)] + gap)[1..] == gap;
  }

  lemma UartIsQuiet(es: seq<Event>)
    requires UartOnly(es)
    ensures Quiet(es)
  {
  }

  /** The statements of the path through the ring, with their two gaps. */
  function RingPath(c: byte, gap1: seq<Event>, gap2: seq<Event>): seq<Event> {
    [Put(c)] + gap1 + [Publish(c)] + gap2 + [Arm]
  }

  /** One byte written, and safely when the second gap leaves something in the ring. */
  lemma RingPathWrites(l: Line, c: byte, gap1: seq<Event>, gap2: seq<Event>)
    requires Quiet(gap1) && Quiet(gap2) && Legal(l, RingPath(c, gap1, gap2))
    ensures Written(RingPath(c, gap1, gap2)) == [c]
    ensures var m := Run(l, RingPath(c, gap1, gap2)); m.head != m.tail ==> SafeRun(l, RingPath(c, gap1, gap2))
  {
    hide Quiet, Step, Enabled, Legal, Run, SafeRun, Written;
    var most := [Put(c)] + gap1 + [Publish(c)] + gap2;
    RingPathBytes(c, gap1, gap2);
    ArmLast(l, most);
  }

  lemma RingPathBytes(c: byte, gap1: seq<Event>, gap2: seq<Event>)
    requires Quiet(gap1) && Quiet(gap2)
    ensures Written(RingPath(c, gap1, gap2)) == [c] && Arm !in [Put(c)] + gap1 + [Publish(c)] + gap2
  {
    hide Quiet, Written;
    var put := [Put(c)];
    QuietWritesNothing(gap1);
    QuietWritesNothing(gap2);
    WrittenConcat(put + gap1 + [Publish(c)] + gap2, [Arm]);
    WrittenConcat(put + gap1 + [Publish(c)], gap2);
    WrittenConcat(put + gap1, [Publish(c)]);
    WrittenConcat(put, gap1);
    WrittenOne(Put(c));
    WrittenOne(Arm);
    WrittenOne(Publish(c));
  }

  lemma ArmLast(l: Line, es: seq<Event>)
    requires Arm !in es && Legal(l, es + [Arm])
    ensures var m := Run(l, es + [Arm]); m.head != m.tail ==> SafeRun(l, es + [Arm])
  {
    hide Step, Enabled, Legal, Run, SafeRun;
    LegalPrefix(l, es, Arm);
    RunConcat(l, es, [Arm]);
    ArmAlone(Run(l, es));
    SafeWithoutArm(l, es);
    if Run(l, es + [Arm]).head != Run(l, es + [Arm]).tail { SafeConcat(l, es, [Arm]); }
  }

  lemma WrittenOne(e: Event)
    ensures Written([e]) == Carries(e)
  {
    assert [e][1..] == [];
  }

  lemma {:induction false} LegalPrefix(l: Line, es: seq<Event>, e: Event)
    requires Legal(l, es + [e])
    ensures Legal(l, es) && Legal(Run(l, es), [e])
    decreases |es|
  {
    hide Step, Enabled;
    if es == [] {
      assert es + [e] == [e];
    } else {
      assert (es + [e])[1..] == es[1..] + [e];
      LegalPrefix(Step(l, es[0]), es[1..], e);
    }
  }

  lemma ArmAlone(l: Line)
    requires Legal(l, [Arm])
    ensures var m := Run(l, [Arm]); m.head == l.head && m.tail == l.tail
    ensures l.head != l.tail ==> SafeRun(l, [Arm])
  {
    SingleStep(l, Arm);
    assert [Arm][1..] == [];
  }

  /** UDRIE on an empty ring: once the data register is free, the interrupt sends a stale byte. */
  lemma DrainedSendsStale(l: Line)
    requires RingOK(l.buf, l.head, l.tail) && Conserved(l) && l.udrie && l.head == l.tail
    ensures exists es :: Quiet(es) && Legal(l, es) && RingOK(Run(l, es).buf, Run(l, es).head, Run(l, es).tail) && !Conserved(Run(l, es))
  {
    hide Legal, Run, Ring, Next;
    if l.udr.None? {
      StaleNow(l);
      SingleStep(l, Irq);
      assert Quiet([Irq]);
    } else {
      var e := if l.shift.None? then Load else Done;
      var m := Step(l, e);
      StaleNow(m);
      SingleStep(m, Irq);
      OneStep(l, e, m, [Irq]);
      assert Quiet([e] + [Irq]);
    }
  }

  lemma StaleNow(l: Line)
    requires RingOK(l.buf, l.head, l.tail) && Conserved(l) && l.udrie && l.head == l.tail && l.udr.None?
    ensures var m := Step(l, Irq); RingOK(m.buf, m.head, m.tail) && !Conserved(m)
  {
    hide Ring, Conserved;
    NextIs(l.tail, |l.buf|);
    RingCounts(l.buf, l.head, l.tail);
    IrqConservesIff(l);
  }

  /** Setting UDRIE after an unguarded gap does no harm, whatever the interrupt and the hardware do
      afterwards, exactly when the gap has not drained the ring. */
  lemma ArmSafeIff(l: Line)
    requires Inv(l) && l.published
    ensures var m := Step(l, Arm);
            l.head != l.tail <==>
            forall es :: Quiet(es) && Legal(m, es) ==>
              RingOK(Run(m, es).buf, Run(m, es).head, Run(m, es).tail) && Conserved(Run(m, es))
  {
    var m := Step(l, Arm);
    hide Legal, Run, Ring, Step, SafeRun, Quiet;
    if l.head != l.tail {
      StepKeepsInv(l, Arm);
      forall es | Quiet(es) && Legal(m, es)
        ensures RingOK(Run(m, es).buf, Run(m, es).head, Run(m, es).tail) && Conserved(Run(m, es))
      {
        QuietWritesNothing(es);
        SafeWithoutArm(m, es);
        EveryRunConserves(m, es);
      }
    } else {
      ArmOnly(l);
      DrainedSendsStale(m);
    }
  }

  lemma ArmOnly(l: Line)
    requires RingOK(l.buf, l.head, l.tail) && l.published
    ensures Step(l, Arm) == l.(udrie := true, published := false)
    ensures Conserved(l) ==> Conserved(Step(l, Arm))
  {
  }

  // ----- the other pair: store UDR, then clear TXC -----

  /** The first half of Direct(c). */
  function StoreUdr(l: Line, c: byte): Line {
    l.(udr := Some(c), accepted := l.accepted + [c])
  }

  function ClearTxc(l: Line): Line {
    l.(txc := false)
  }

  /** Nothing but steps of the UART. */
  ghost predicate UartOnly(es: seq<Event>) {
    forall e :: e in es ==> e == Load || e == Done
  }

  lemma QuietUart(l: Line, es: seq<Event>)
    requires Legal(l, es) && Quiet(es) && !l.udrie && es != []
    ensures es[0] == Load || es[0] == Done
  {
    assert es[0] in es;
  }

  /** The UART can move in only one way. */
  lemma UartStep(l: Line, es: seq<Event>) returns (m: Line)
    requires RingOK(l.buf, l.head, l.tail) && Legal(l, es) && es != [] && (es[0] == Load || es[0] == Done)
    ensures m == Step(l, es[0]) && Legal(m, es[1..]) && Run(l, es) == Run(m, es[1..])
    ensures Enabled(l, es[0]) && (l.udr.Some? || l.shift.Some?)
    ensures m == if l.shift.None? then l.(shift := l.udr, udr := None)
                 else if l.udr.Some? then l.(wire := l.wire + [l.shift.value], shift := l.udr, udr := None)
                 else l.(wire := l.wire + [l.shift.value], shift := None, txc := true)
    ensures Conserved(l) ==> Conserved(m)
  {
    m := Step(l, es[0]);
  }

  /** From the store to UDR on: one step of the UART leaves the byte in the shift register, two leave
      nothing in flight, and there is no third. */
  lemma GapOfUart(l: Line, es: seq<Event>)
    requires RingOK(l.buf, l.head, l.tail) && Conserved(l) && l.udr.Some? && Legal(l, es) && UartOnly(es)
    ensures var m := Run(l, es);
            && |es| <= 2 && m.buf == l.buf && m.head == l.head && m.tail == l.tail && Conserved(m)
            && m.udrie == l.udrie && m.put == l.put && m.published == l.published && m.accepted == l.accepted
            && (|es| < 2 <==> m.udr.Some? || m.shift.Some?) && (|es| < 2 ==> m.txc == l.txc)
            && (|es| == 2 ==> m.udr.None? && m.shift.None? && m.txc && m.wire != [])
  {
    hide Ring, Legal, Run, Conserved, Step;
    if es == [] {
      Nothing(l);
    } else {
      assert es[0] in es;
      var l1 := UartStep(l, es);
      if es[1..] == [] {
        Nothing(l1);
      } else {
        assert es[1] in es;
        var l2 := UartStep(l1, es[1..]);
        if es[1..][1..] == [] {
          Nothing(l2);
        } else {
          assert es[2] in es;
          NoThird(l2, es[1..][1..]);
        }
      }
    }
  }

  lemma NoThird(l: Line, es: seq<Event>)
    requires es != [] && (es[0] == Load || es[0] == Done) && l.udr.None? && l.shift.None?
    ensures !Legal(l, es)
  {
  }

  /** At rest with TXC and UDRIE clear, nothing happens any more, and flush() waits for good. */
  ghost predicate Stuck(l: Line) {
    && !l.udrie && !l.txc && l.udr.None? && l.shift.None?
    && forall fs :: Quiet(fs) && Legal(l, fs) ==> fs == []
  }

  lemma IdleIsStuck(l: Line)
    requires !l.udrie && !l.txc && l.udr.None? && l.shift.None?
    ensures Stuck(l)
  {
    hide Quiet, Legal;
    forall fs | Quiet(fs) && Legal(l, fs) ensures fs == [] {
      if fs != [] {
        QuietUart(l, fs);
        NoThird(l, fs);
      }
    }
  }

  lemma BusyIsNotStuck(l: Line)
    requires l.udr.Some? || l.shift.Some?
    ensures !Stuck(l)
  {
  }

  /** write() stores UDR and clears TXC without a guard.  The flag ends up telling the truth exactly
      when the UART takes fewer than two steps in between, the second being the end of a byte; the two
      stores and the gap are then a run with the stores made as one.  After two steps the transmitter
      is stuck with everything sent. */
  lemma ClearInTimeIff(l: Line, c: byte, es: seq<Event>)
    requires Inv(l) && Enabled(l, Direct(c)) && UartOnly(es) && Legal(StoreUdr(l, c), es)
    ensures var n := ClearTxc(Run(StoreUdr(l, c), es));
            && RingOK(n.buf, n.head, n.tail) && Conserved(n)
            && (TxcTruthful(n) <==> |es| < 2) && (Inv(n) <==> |es| < 2)
            && (|es| < 2 ==> Legal(l, [Direct(c)] + es) && Run(l, [Direct(c)] + es) == n)
            && (Stuck(n) <==> 2 <= |es|) && n.head == n.tail
            && (Stuck(n) ==> n.wire == n.accepted)
  {
    hide Ring, Legal, Run, Quiet, Stuck, UartOnly;
    var l0 := StoreUdr(l, c);
    StoreConserves(l, c);
    GapOfUart(l0, es);
    var n := ClearTxc(Run(l0, es));
    if 2 <= |es| {
      IdleIsStuck(n);
      RingCounts(n.buf, n.head, n.tail);
    } else {
      LateClear(l, c, es);
      BusyIsNotStuck(n);
    }
  }

  lemma StoreConserves(l: Line, c: byte)
    requires RingOK(l.buf, l.head, l.tail) && Conserved(l) && Enabled(l, Direct(c))
    ensures Conserved(StoreUdr(l, c)) && l.head == l.tail
  {
    RingCounts(l.buf, l.head, l.tail);
  }

  lemma LateClear(l: Line, c: byte, es: seq<Event>)
    requires RingOK(l.buf, l.head, l.tail) && Enabled(l, Direct(c)) && UartOnly(es) && Legal(StoreUdr(l, c), es) && |es| < 2
    ensures Legal(l, [Direct(c)] + es) && Run(l, [Direct(c)] + es) == ClearTxc(Run(StoreUdr(l, c), es))
  {
    hide Legal, Run, Ring, Step;
    var l0 := StoreUdr(l, c);
    var d := ClearTxc(l0);
    assert Step(l, Direct(c)) == d by { DirectIsBoth(l, c); }
    if es == [] {
      Nothing(l0);
      Nothing(d);
    } else {
      assert es[0] in es && es[1..] == [] && es == [es[0]];
      var l1 := UartStep(l0, es);
      Nothing(l1);
      UartEither(l, c, es[0]);
      SingleStep(d, es[0]);
    }
    OneStep(l, Direct(c), d, es);
  }

  lemma UartEither(l: Line, c: byte, e: Event)
    requires RingOK(l.buf, l.head, l.tail) && (e == Load || e == Done) && Enabled(StoreUdr(l, c), e)
    ensures var d := ClearTxc(StoreUdr(l, c)); Enabled(d, e) && Step(d, e) == ClearTxc(Step(StoreUdr(l, c), e))
  {
  }

  lemma DirectIsBoth(l: Line, c: byte)
    requires RingOK(l.buf, l.head, l.tail) && Enabled(l, Direct(c))
    ensures ClearTxc(StoreUdr(l, c)) == Step(l, Direct(c)) && l.head == l.tail && l.udr.None?
  {
  }

  /** The first write after reset, with both UART steps in the gap. */
  lemma StuckExample()
    ensures var l := StoreUdr(Reset(), 1);
            Legal(l, [Load, Done]) && Stuck(ClearTxc(Run(l, [Load, Done])))
  {
    hide Legal, Run, Stuck;
    var l := StoreUdr(Reset(), 1);
    var l1 := l.(shift := Some(1), udr := None);
    var l2 := l1.(shift := None, txc := true, wire := [1]);
    assert l2.wire == [] + [1] && Step(l1, Done) == l2;
    SingleStep(l1, Done);
    OneStep(l, Load, l1, [Done]);
    assert [Load] + [Done] == [Load, Done];
    IdleIsStuck(ClearTxc(l2));
  }

  /** The interrupt handler up to its store to UDR, and from the clearing of TXC on. */
  function HandlerStore(l: Line): Line
    requires RingOK(l.buf, l.head, l.tail)
  {
    l.(tail := Next(l.tail, |l.buf|), udr := Some(l.buf[l.tail]))
  }

  function HandlerRest(l: Line): Line {
    l.(txc := false, udrie := l.head != l.tail)
  }

  /** The handler holds the same pair.  Here too the flag tells the truth exactly when the UART takes
      fewer than two steps in the gap; but it only matters for the last byte, when it leaves the
      transmitter stuck: with more bytes in the ring the next interrupt sets things right. */
  lemma HandlerClearsInTimeIff(l: Line, es: seq<Event>)
    requires Inv(l) && Enabled(l, Irq) && UartOnly(es) && Legal(HandlerStore(l), es)
    ensures var n := HandlerRest(Run(HandlerStore(l), es));
            && (es == [] ==> n == Step(l, Irq))
            && RingOK(n.buf, n.head, n.tail) && Conserved(n)
            && (TxcTruthful(n) <==> |es| < 2)
            && (2 <= |es| && n.head == n.tail ==> Stuck(n))
            && (2 <= |es| && n.head != n.tail ==> Enabled(n, Irq) && Inv(Step(n, Irq)))
  {
    hide Ring, Legal, Run, Quiet, Stuck, UartOnly, Next, Step;
    var l0 := HandlerStore(l);
    HandlerConserves(l);
    GapOfUart(l0, es);
    var n := HandlerRest(Run(l0, es));
    if es == [] { Nothing(l0); }
    if 2 <= |es| {
      if n.head == n.tail { IdleIsStuck(n); } else { NextHandler(n); }
    }
  }

  /** In time, the handler and its gap are a run with the handler made as one step. */
  lemma HandlerInTime(l: Line, es: seq<Event>)
    requires Inv(l) && Enabled(l, Irq) && UartOnly(es) && Legal(HandlerStore(l), es) && |es| < 2
    ensures Legal(l, [Irq] + es) && Run(l, [Irq] + es) == HandlerRest(Run(HandlerStore(l), es)) && Quiet([Irq] + es)
  {
    hide Legal, Run, Ring, Step, Next;
    var l0 := HandlerStore(l);
    var d := HandlerRest(l0);
    HandlerConserves(l);
    if es == [] {
      Nothing(l0);
      Nothing(d);
    } else {
      assert es[0] in es && es[1..] == [] && es == [es[0]];
      var l1 := UartStep(l0, es);
      Nothing(l1);
      HandlerEither(l0, es[0]);
      SingleStep(d, es[0]);
    }
    OneStep(l, Irq, d, es);
  }

  lemma HandlerRan(l: Line, es: seq<Event>)
    requires Inv(l) && Enabled(l, Irq) && UartOnly(es) && Legal(HandlerStore(l), es) && |es| < 2
    ensures var n := HandlerRest(Run(HandlerStore(l), es));
            && RingOK(l.buf, l.head, l.tail) && Legal(l, [Irq] + es) && n == Run(l, [Irq] + es) && Quiet([Irq] + es)
            && Inv(n) && RingOK(n.buf, n.head, n.tail) && Work(n) < Work(l) && |Queue(n)| <= |Queue(l)|
  {
    hide Inv, Legal, Run, Quiet, Work, Queue, Enabled, HandlerRest;
    InvParts(l);
    HandlerInTime(l, es);
    RunWorks(l, [Irq] + es);
    InvParts(Run(l, [Irq] + es));
  }

  lemma HandlerEither(l: Line, e: Event)
    requires RingOK(l.buf, l.head, l.tail) && (e == Load || e == Done) && Enabled(l, e) && l.udr.Some?
    ensures var d := HandlerRest(l); Enabled(d, e) && Step(d, e) == HandlerRest(Step(l, e))
  {
  }

  lemma HandlerConserves(l: Line)
    requires Inv(l) && Enabled(l, Irq)
    ensures var m := HandlerStore(l);
            RingOK(m.buf, m.head, m.tail) && Conserved(m) && HandlerRest(m) == Step(l, Irq) && PutOK(m)
  {
    hide Ring, Next;
    NextIs(l.tail, |l.buf|);
    NextIs(l.head, |l.buf|);
    RingPop(l.buf, l.head, l.tail);
  }

  lemma NextHandler(l: Line)
    requires RingOK(l.buf, l.head, l.tail) && Conserved(l) && !l.txc && l.udr.None? && l.shift.None?
    requires l.udrie && l.head != l.tail && PutOK(l)
    ensures Enabled(l, Irq) && Inv(Step(l, Irq))
  {
    hide Ring, Next;
    NextIs(l.tail, |l.buf|);
    NextIs(l.head, |l.buf|);
    RingPop(l.buf, l.head, l.tail);
  }

  lemma SingleStep(l: Line, e: Event)
    requires RingOK(l.buf, l.head, l.tail) && Enabled(l, e)
    ensures Legal(l, [e]) && Run(l, [e]) == Step(l, e)
  {
    Nothing(Step(l, e));
    OneStep(l, e, Step(l, e), []);
    assert [e] + [] == [e];
  }

  lemma Nothing(l: Line)
    ensures Legal(l, []) && Run(l, []) == l
  {
  }
}
