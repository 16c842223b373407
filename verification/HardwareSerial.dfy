/** HardwareSerial: the methods and interrupt handlers, with interrupts and the UART stepping in
    between their statements.  Each transmitting method is shown to be a run of SerialLine. */
module HardwareSerial {
  import opened SerialLine

  class HardwareSerial {
    const txBuf: array<byte>
    const rxBuf: array<byte>
    var txHead: nat
    var txTail: nat
    var rxHead: nat
    var rxTail: nat
    var written: bool         // has any byte been written since begin()
    var irqOn: bool           // SREG_I
    var udr: Option<byte>     // transmit data register; UDRE is set when it is empty
    var shift: Option<byte>   // transmit shift register
    var udrie: bool
    var txc: bool
    ghost var put: Option<byte>       // stored at head, head not yet advanced
    ghost var published: bool         // head advanced, UDRIE not yet set
    ghost var accepted: seq<byte>     // bytes handed to write()
    ghost var wire: seq<byte>         // bytes sent
    ghost var rxAccepted: seq<byte>   // received bytes that were stored
    ghost var rxRead: seq<byte>       // bytes returned by read()

    ghost function Tx(): Line
      reads this, txBuf
    {
      Line(txBuf[..], txHead, txTail, udr, shift, udrie, txc, put, published, accepted, wire)
    }

    ghost predicate RxOK()
      reads this, rxBuf
    {
      RingOK(rxBuf[..], rxHead, rxTail) && rxAccepted == rxRead + Ring(rxBuf[..], rxHead, rxTail)
    }

    /** Holds between any two statements. */
    ghost predicate Running()
      reads this, txBuf, rxBuf
    {
      txBuf != rxBuf && RingOK(txBuf[..], txHead, txTail) && Inv(Tx()) && RxOK()
    }

    /** Holds between calls. */
    ghost predicate Valid()
      reads this, txBuf, rxBuf
    {
      Running() && put.None? && !published && (written <==> accepted != [])
    }

    constructor (n: nat, m: nat)
      requires 2 <= n && 2 <= m
      ensures Valid() && fresh(txBuf) && fresh(rxBuf) && accepted == [] && rxAccepted == []
    {
      txBuf := new byte[n](_ => 0);
      rxBuf := new byte[m](_ => 0);
      txHead, txTail, rxHead, rxTail := 0, 0, 0, 0;
      written, irqOn, udrie, txc := false, true, false, false;
      udr, shift := None, None;
      put, published, accepted, wire, rxAccepted, rxRead := None, false, [], [], [], [];
    }

    // ----- interrupt handlers and hardware -----

    /** _tx_udr_empty_irq.  The UART may move on between the store to UDR and the clearing of TXC, but is
        taken not to finish the byte there. */
    method TxUdrEmptyIrq() returns (ghost es: seq<Event>)
      requires Running() && udrie && udr.None?
      modifies this`txTail, this`udr, this`shift, this`txc, this`udrie, this`wire
      ensures Running() && Quiet(es) && Legal(old(Tx()), es) && Tx() == Run(old(Tx()), es)
      ensures Work(Tx()) < Work(old(Tx())) && |Queue(Tx())| <= |Queue(old(Tx()))|
    {
      hide Ring, Inv, Conserved, Legal, Run, Quiet, UartOnly, Work, Queue, Enabled, Step, Next, HandlerStore, HandlerRest;
      ghost var l := Tx();
      IrqReady(l);
      var c := txBuf[txTail];
      txTail := Next(txTail, txBuf.Length);
      udr := Some(c);
      ghost var l0 := HandlerStore(l);
      HandlerStored(l);
      assert Tx() == l0;
      var gap := Tick();
      ghost var l1 := Tx();
      txc := false;
      if txHead == txTail { udrie := false; }
      assert Tx() == HandlerRest(l1) by { TickKeeps(l0, gap); }
      HandlerRan(l, gap);
      es := [Irq] + gap;
    }

    /** At most one step of the UART. */
    method Tick() returns (ghost es: seq<Event>)
      requires RingOK(txBuf[..], txHead, txTail)
      modifies this`udr, this`shift, this`txc, this`wire
      ensures UartOnly(es) && |es| < 2 && Legal(old(Tx()), es) && Tx() == Run(old(Tx()), es)
      ensures old(RxOK()) ==> RxOK()
    {
      hide Ring;
      ghost var l := Tx();
      var now: bool := *;
      if now && (udr.Some? || shift.Some?) {
        ghost var e := Hardware();
        es := [e];
        SingleStep(l, e);
      } else {
        es := [];
        Nothing(l);
      }
    }

    /** The UART moves on by one step. */
    method Hardware() returns (ghost e: Event)
      requires RingOK(txBuf[..], txHead, txTail) && (udr.Some? || shift.Some?)
      modifies this`udr, this`shift, this`txc, this`wire
      ensures (e == Load || e == Done) && Enabled(old(Tx()), e) && Tx() == Step(old(Tx()), e)
      ensures (old(RxOK()) ==> RxOK()) && (old(Running()) ==> Running())
    {
      hide Ring, Conserved;
      if Inv(Tx()) { StepKeepsInv(Tx(), if shift.None? then Load else Done); }
      if shift.None? {
        e := Load;
        shift, udr := udr, None;
      } else {
        e := Done;
        wire := wire + [shift.value];
        if udr.Some? {
          shift, udr := udr, None;
        } else {
          shift, txc := None, true;
        }
      }
    }

    /** _rx_complete_irq: the byte is stored exactly when it has no parity error and fewer than
        N-1 bytes are waiting. */
    method RxCompleteIrq(c: byte, parityError: bool)
      requires txBuf != rxBuf && RxOK()
      modifies this`rxHead, this`rxAccepted, rxBuf
      ensures RxOK() && Tx() == old(Tx()) && old(rxAccepted) <= rxAccepted
      ensures var waiting := old(Ring(rxBuf[..], rxHead, rxTail));
              Ring(rxBuf[..], rxHead, rxTail) ==
                if !parityError && |waiting| < rxBuf.Length - 1 then waiting + [c] else waiting
    {
      hide Next, Conserved, Ring;
      NextIs(rxHead, rxBuf.Length);
      RingCounts(rxBuf[..], rxHead, rxTail);
      if !parityError {
        var i := Next(rxHead, rxBuf.Length);
        if i != rxTail {
          RingPush(rxBuf[..], rxHead, rxTail, c);
          rxBuf[rxHead] := c;
          rxHead := i;
          rxAccepted := rxAccepted + [c];
        }
      }
    }
  
    /** Some finite number of interrupts and hardware steps, in any order. */
    method Interleave() returns (ghost es: seq<Event>)
      requires Running()
      modifies this`txTail, this`udr, this`shift, this`txc, this`udrie, this`wire, this`rxHead, this`rxAccepted, rxBuf
      ensures Running() && Quiet(es) && Legal(old(Tx()), es) && Tx() == Run(old(Tx()), es)
      ensures Work(Tx()) <= Work(old(Tx())) && |Queue(Tx())| <= |Queue(old(Tx()))|
      ensures old(txHead == txTail) ==> txHead == txTail && (old(udr.None?) ==> udr.None?)
      ensures old(Ring(rxBuf[..], rxHead, rxTail)) <= Ring(rxBuf[..], rxHead, rxTail) && old(rxAccepted) <= rxAccepted
    {
      hide Ring, Inv, Step, Enabled, Work, Legal, Run;
      es := [];
      Nothing(Tx());
      var n :| 0 <= n;
      for i := 0 to n
        invariant Running() && Quiet(es) && Legal(old(Tx()), es) && Tx() == Run(old(Tx()), es)
        invariant Work(Tx()) <= Work(old(Tx())) && |Queue(Tx())| <= |Queue(old(Tx()))|
        invariant old(txHead == txTail) ==> txHead == txTail && (old(udr.None?) ==> udr.None?)
        invariant old(Ring(rxBuf[..], rxHead, rxTail)) <= Ring(rxBuf[..], rxHead, rxTail) && old(rxAccepted) <= rxAccepted
      {
        var receive: bool := *;
        if receive && irqOn {
          var c: byte :| true;
          var parityError: bool := *;
          RxCompleteIrq(c, parityError);
        } else {
          var fs := Transmit();
          RunConcat(old(Tx()), es, fs);
          es := es + fs;
        }
      }
    }

    /** One transmitting step, if any is possible. */
    method Transmit() returns (ghost es: seq<Event>)
      requires Running()
      modifies this`txTail, this`udr, this`shift, this`txc, this`udrie, this`wire
      ensures Running() && Quiet(es) && Legal(old(Tx()), es) && Tx() == Run(old(Tx()), es)
      ensures Work(Tx()) <= Work(old(Tx())) && |Queue(Tx())| <= |Queue(old(Tx()))|
      ensures old(txHead == txTail) ==> txHead == txTail && (old(udr.None?) ==> udr.None?)
      ensures old(udr.Some? || shift.Some? || (irqOn && udrie)) ==> Work(Tx()) < Work(old(Tx()))
    {
      hide Ring, Conserved, TxcTruthful, Work;
      ghost var l := Tx();
      var irqFirst: bool := *;
      if irqOn && udrie && udr.None? && (shift.None? || irqFirst) {
        es := TxUdrEmptyIrq();
      } else if udr.Some? || shift.Some? {
        ghost var e := Hardware();
        StepWorks(l, e);
        es := [e];
        SingleStep(l, e);
      } else {
        es := [];
        Nothing(l);
      }
    }

    /** Time passes while main code polls: interrupts and hardware step in any order, and when the
        transmitter can move at all it does (the UART never stops while it has a byte, and an
        enabled interrupt is served). */
    method Wait() returns (ghost es: seq<Event>)
      requires Running()
      modifies this`txTail, this`udr, this`shift, this`txc, this`udrie, this`wire, this`rxHead, this`rxAccepted, rxBuf
      ensures Running() && Quiet(es) && Legal(old(Tx()), es) && Tx() == Run(old(Tx()), es)
      ensures Work(Tx()) <= Work(old(Tx()))
      ensures old(udr.Some? || shift.Some? || (irqOn && udrie)) ==> Work(Tx()) < Work(old(Tx()))
      ensures old(txHead == txTail) ==> txHead == txTail
      ensures old(Ring(rxBuf[..], rxHead, rxTail)) <= Ring(rxBuf[..], rxHead, rxTail) && old(rxAccepted) <= rxAccepted
    {
      hide Ring, Inv, Step, Enabled, Work, Legal, Run, RxOK;
      var es1 := Transmit();
      var es2 := Interleave();
      RunConcat(old(Tx()), es1, es2);
      es := es1 + es2;
    }

    /** With interrupts off, stand in for the data-register-empty interrupt. */
    method PollTx() returns (ghost es: seq<Event>)
      requires Running()
      modifies this`txTail, this`udr, this`shift, this`txc, this`udrie, this`wire
      ensures Running() && Quiet(es) && Legal(old(Tx()), es) && Tx() == Run(old(Tx()), es)
      ensures Work(Tx()) <= Work(old(Tx()))
      ensures old(!irqOn && udrie && udr.None?) ==> Work(Tx()) < Work(old(Tx()))
      ensures old(irqOn) ==> Tx() == old(Tx())
      ensures Tx() == old(Tx()) || Work(Tx()) < Work(old(Tx()))
    {
      hide Ring, Conserved, Work, TxcTruthful;
      ghost var l := Tx();
      es := [];
      Nothing(l);
      if !irqOn && udrie {
        if udr.None? {
          es := TxUdrEmptyIrq();
        }
      }
    }

    /** One round of a polling loop; while there is anything to send it brings the transmitter closer to rest. */
    method PollOnce() returns (ghost es: seq<Event>)
      requires Running()
      modifies this`txTail, this`udr, this`shift, this`txc, this`udrie, this`wire, this`rxHead, this`rxAccepted, rxBuf
      ensures Running() && Quiet(es) && Legal(old(Tx()), es) && Tx() == Run(old(Tx()), es) && old(rxAccepted) <= rxAccepted
      ensures old(udrie || udr.Some? || shift.Some?) ==> Work(Tx()) < Work(old(Tx()))
    {
      hide Ring, Inv, Step, Enabled, Work, Legal, Run, Quiet, RxOK;
      var es1 := PollTx();
      var es2 := Wait();
      RunConcat(old(Tx()), es1, es2);
      QuietConcat(es1, es2);
      es := es1 + es2;
    }

    /** Wait while the ring is full: the interrupt handler, or polling for it, makes room. */
    method WaitForRoom(i: nat) returns (ghost es: seq<Event>)
      requires Running() && !published && i == (txHead + 1) % txBuf.Length
      modifies this`txTail, this`udr, this`shift, this`txc, this`udrie, this`wire, this`rxHead, this`rxAccepted, rxBuf
      ensures Running() && i != txTail && old(rxAccepted) <= rxAccepted
      ensures Quiet(es) && Legal(old(Tx()), es) && Tx() == Run(old(Tx()), es)
    {
      hide Ring, Inv, Work, Legal, Run, Step, Enabled;
      es := [];
      Nothing(Tx());
      while i == txTail
        invariant Running() && old(rxAccepted) <= rxAccepted
        invariant Quiet(es) && Legal(old(Tx()), es) && Tx() == Run(old(Tx()), es)
        decreases Work(Tx())
      {
        FullIsArmed();
        var round := PollOnce();
        RunConcat(old(Tx()), es, round);
        es := es + round;
      }
    }

    lemma FullIsArmed()
      requires Running() && !published && (txHead + 1) % txBuf.Length == txTail
      ensures udrie
    {
      NextIs(txHead, txBuf.Length);
    }

    /** Between the store to UDR and the clearing of TXC: the UART and the receive interrupt go on. */
    method Gap() returns (ghost es: seq<Event>)
      requires txBuf != rxBuf && RingOK(txBuf[..], txHead, txTail) && RxOK()
      modifies this`udr, this`shift, this`txc, this`wire, this`rxHead, this`rxAccepted, rxBuf
      ensures RxOK() && UartOnly(es) && Legal(old(Tx()), es) && Tx() == Run(old(Tx()), es) && old(rxAccepted) <= rxAccepted
    {
      hide Ring, Step, Enabled, Legal, Run, RxOK;
      es := [];
      Nothing(Tx());
      var n :| 0 <= n;
      for i := 0 to n
        invariant RxOK() && UartOnly(es) && Legal(old(Tx()), es) && Tx() == Run(old(Tx()), es)
        invariant RingOK(txBuf[..], txHead, txTail) && old(rxAccepted) <= rxAccepted
      {
        var receive: bool := *;
        if receive && irqOn {
          var c: byte :| true;
          var parityError: bool := *;
          RxCompleteIrq(c, parityError);
        } else if udr.Some? || shift.Some? {
          ghost var m := Tx();
          ghost var e := Hardware();
          Extend(old(Tx()), es, m, e, Tx());
          es := es + [e];
        }
      }
    }

    /** Store the data register and clear TXC, with a gap in between.  All is well exactly when the UART
        has not finished the byte in the gap; if it has, the transmitter is stuck. */
    method StoreDirect(c: byte) returns (ghost es: seq<Event>)
      requires Running() && Enabled(Tx(), Direct(c))
      modifies this`udr, this`shift, this`txc, this`wire, this`accepted, this`rxHead, this`rxAccepted, rxBuf
      ensures RxOK() && accepted == old(accepted) + [c] && old(rxAccepted) <= rxAccepted
      ensures Running() <==> !Stuck(Tx())
      ensures Running() ==> UartOnly(es) && Legal(old(Tx()), [Direct(c)] + es) && Tx() == Run(old(Tx()), [Direct(c)] + es)
      ensures Stuck(Tx()) ==> txHead == txTail && wire == accepted
    {
      hide Ring, Legal, Run, Step, UartOnly, Stuck, Inv, TxcTruthful;
      ghost var l := Tx();
      DirectIsBoth(l, c);
      InvParts(l);
      udr := Some(c);
      accepted := accepted + [c];
      es := Gap();
      txc := false;
      ClearInTimeIff(l, c, es);
    }

    /** Store in the ring, advance head, set UDRIE, with a gap after each of the first two.  All is well
        exactly when the ring has not been drained in the second. */
    method Enqueue(c: byte, i: nat) returns (ghost es: seq<Event>)
      requires Running() && Enabled(Tx(), Put(c)) && i == Next(txHead, txBuf.Length)
      modifies this`txHead, this`txTail, this`udr, this`shift, this`txc, this`udrie, this`wire, this`put, this`published,
               this`accepted, this`rxHead, this`rxAccepted, txBuf, rxBuf
      ensures RxOK() && accepted == old(accepted) + [c] && put.None? && !published && udrie && old(rxAccepted) <= rxAccepted
      ensures Running() <==> txHead != txTail
      ensures Legal(old(Tx()), es) && Tx() == Run(old(Tx()), es) && Written(es) == [c]
      ensures Running() ==> SafeRun(old(Tx()), es)
      ensures RingOK(txBuf[..], txHead, txTail) && Conserved(Tx())
    {
      hide Ring, Inv, Conserved, Next, Legal, Run, Quiet, Enabled, Step, SafeRun, Written, Work;
      ghost var l := Tx();
      var gap1 := StoreAndAdvance(c, i);
      var gap2 := Interleave();
      RunConcat(l, [Put(c)] + gap1 + [Publish(c)], gap2);
      ghost var l2 := Tx();
      SetUdrie();
      es := RingPath(c, gap1, gap2);
      Extend(l, [Put(c)] + gap1 + [Publish(c)] + gap2, l2, Arm, Tx());
      RingPathWrites(l, c, gap1, gap2);
    }

    method StoreAndAdvance(c: byte, i: nat) returns (ghost gap: seq<Event>)
      requires Running() && Enabled(Tx(), Put(c)) && i == Next(txHead, txBuf.Length)
      modifies this`txHead, this`txTail, this`udr, this`shift, this`txc, this`udrie, this`wire, this`put, this`published,
               this`accepted, this`rxHead, this`rxAccepted, txBuf, rxBuf
      ensures Running() && accepted == old(accepted) + [c] && put.None? && published && old(rxAccepted) <= rxAccepted
      ensures Quiet(gap) && Legal(old(Tx()), [Put(c)] + gap + [Publish(c)])
      ensures Tx() == Run(old(Tx()), [Put(c)] + gap + [Publish(c)])
    {
      hide Ring, Inv, Conserved, Next, Legal, Run, Quiet, Enabled, Step, Work;
      ghost var l := Tx();
      StoreInSlot(c);
      gap := Interleave();
      ghost var l1 := Tx();
      SingleStep(l, Put(c));
      RunConcat(l, [Put(c)], gap);
      AdvanceHead(c, i);
      Extend(l, [Put(c)] + gap, l1, Publish(c), Tx());
    }

    /** _tx_buffer[_tx_buffer_head] = c */
    method StoreInSlot(c: byte)
      requires Running() && Enabled(Tx(), Put(c))
      modifies this`put, txBuf
      ensures Running() && Tx() == Step(old(Tx()), Put(c)) && put == Some(c) && !published
    {
      hide Ring, Conserved, Next, TxcTruthful;
      StepKeepsInv(Tx(), Put(c));
      txBuf[txHead] := c;
      put := Some(c);
    }

    /** _tx_buffer_head = i */
    method AdvanceHead(c: byte, i: nat)
      requires Running() && !published && put == Some(c) && i == Next(txHead, txBuf.Length)
      modifies this`txHead, this`put, this`published, this`accepted
      ensures Running() && Enabled(old(Tx()), Publish(c)) && Tx() == Step(old(Tx()), Publish(c))
      ensures put.None? && published && accepted == old(accepted) + [c]
    {
      hide Ring, Conserved, TxcTruthful;
      StepKeepsInv(Tx(), Publish(c));
      NextIs(txHead, txBuf.Length);
      txHead := i;
      put, published, accepted := None, true, accepted + [c];
    }

    /** sbi(UDRIE) */
    method SetUdrie()
      requires Running() && published
      modifies this`udrie, this`published
      ensures udrie && !published && RxOK() && Enabled(old(Tx()), Arm) && Tx() == Step(old(Tx()), Arm)
      ensures Running() <==> txHead != txTail
      ensures RingOK(txBuf[..], txHead, txTail) && Conserved(Tx())
    {
      hide Ring, Conserved, Next, TxcTruthful;
      ghost var l := Tx();
      ArmOnly(l);
      if txHead != txTail { StepKeepsInv(l, Arm); }
      udrie, published := true, false;
    }

    // ----- public methods -----

    /** Hand one byte to the transmitter, waiting for room in the ring if need be.  Afterwards either all
        is well, or a gap in the code has lost its race: the transmitter is stuck with everything sent,
        or UDRIE has been set on a drained ring. */
    method Write(c: byte) returns (ghost es: seq<Event>)
      requires Valid()
      modifies this`written, this`txHead, this`txTail, this`udr, this`shift, this`txc, this`udrie, this`wire,
               this`put, this`published, this`accepted, this`rxHead, this`rxAccepted, txBuf, rxBuf
      ensures RxOK() && accepted == old(accepted) + [c] && put.None? && !published && old(rxAccepted) <= rxAccepted
      ensures Valid() <==> !Stuck(Tx()) && !(udrie && txHead == txTail)
      ensures written
      ensures Valid() ==> Legal(old(Tx()), es) && Tx() == Run(old(Tx()), es) && Written(es) == [c] && SafeRun(old(Tx()), es)
      ensures old(txHead == txTail && udr.None?) ==> Direct(c) in es
      ensures Stuck(Tx()) ==> txHead == txTail && wire == accepted
      ensures udrie && txHead == txTail ==> RingOK(txBuf[..], txHead, txTail) && Conserved(Tx())
    {
      hide Ring, Inv, Work, Legal, Run, SafeRun, Written, Quiet, Stuck, UartOnly, Step, Conserved, Queue;
      written := true;
      var empty, es1 := LookAtRing();
      if empty && udr.None? {
        DirectReady();
        var gap := StoreDirect(c);
        StuckHasNoUdrie(Tx());
        if Running() {
          DirectWrites(Run(old(Tx()), es1), c, gap);
          QuietThen(old(Tx()), es1, [Direct(c)] + gap);
          InvArmed(Tx());
        }
        es := es1 + ([Direct(c)] + gap);
        return;
      }
      es := WriteThroughRing(c, old(Tx()), es1);
      StuckHasNoUdrie(Tx());
    }

    /** Whether the ring is empty, with interrupts before and after the two indices are read. */
    method LookAtRing() returns (empty: bool, ghost es: seq<Event>)
      requires Running()
      modifies this`txTail, this`udr, this`shift, this`txc, this`udrie, this`wire, this`rxHead, this`rxAccepted, rxBuf
      ensures Running() && Quiet(es) && Legal(old(Tx()), es) && Tx() == Run(old(Tx()), es)
      ensures (empty ==> txHead == txTail) && old(rxAccepted) <= rxAccepted
      ensures old(txHead == txTail) ==> empty && (old(udr.None?) ==> udr.None?)
    {
      hide Ring, Inv, Work, Legal, Run, Quiet;
      var es1 := Interleave();
      empty := txHead == txTail;
      var es2 := Interleave();
      RunConcat(old(Tx()), es1, es2);
      QuietConcat(es1, es2);
      es := es1 + es2;
    }

    /** The rest of write(), after the steps `es1` since its beginning at `l`. */
    method WriteThroughRing(c: byte, ghost l: Line, ghost es1: seq<Event>) returns (ghost es: seq<Event>)
      requires Running() && put.None? && !published && Quiet(es1) && Legal(l, es1) && Tx() == Run(l, es1)
      modifies this`txHead, this`txTail, this`udr, this`shift, this`txc, this`udrie, this`wire,
               this`put, this`published, this`accepted, this`rxHead, this`rxAccepted, txBuf, rxBuf
      ensures RxOK() && accepted == old(accepted) + [c] && put.None? && !published && udrie && old(rxAccepted) <= rxAccepted
      ensures Running() <==> txHead != txTail
      ensures Running() ==> Legal(l, es) && Tx() == Run(l, es) && Written(es) == [c] && SafeRun(l, es)
      ensures RingOK(txBuf[..], txHead, txTail) && Conserved(Tx())
    {
      hide Ring, Inv, Work, Legal, Run, SafeRun, Written, Quiet, Conserved, Queue;
      var i := Next(txHead, txBuf.Length);
      var es2 := WaitForRoom(i);
      RunConcat(l, es1, es2);
      QuietConcat(es1, es2);
      RoomToPut(c);
      var path := Enqueue(c, i);
      QuietThen(l, es1 + es2, path);
      es := es1 + es2 + path;
    }

    lemma RoomToPut(c: byte)
      requires Running() && put.None? && !published && Next(txHead, txBuf.Length) != txTail
      ensures Enabled(Tx(), Put(c))
    {
    }

    lemma DirectReady()
      requires Running() && put.None? && !published && txHead == txTail && udr.None?
      ensures forall c :: Enabled(Tx(), Direct(c))
    {
    }

    /** Wait until everything written has been sent.  Returning means just that, and the wait ends
        whether interrupts are on or off. */
    method Flush() returns (ghost es: seq<Event>)
      requires Valid()
      modifies this`txTail, this`udr, this`shift, this`txc, this`udrie, this`wire, this`rxHead, this`rxAccepted, rxBuf
      ensures Valid() && Quiet(es) && Legal(old(Tx()), es) && Tx() == Run(old(Tx()), es)
      ensures accepted != [] ==> txHead == txTail && udr.None? && shift.None? && wire == accepted
      ensures accepted == old(accepted) && old(rxAccepted) <= rxAccepted
    {
      hide Ring, Inv, Work, Legal, Run, Step, Enabled;
      es := [];
      Nothing(Tx());
      if !written {
        return;
      }
      while udrie || !txc
        invariant Running() && Quiet(es) && Legal(old(Tx()), es) && Tx() == Run(old(Tx()), es)
        invariant old(rxAccepted) <= rxAccepted
        decreases Work(Tx())
      {
        BusyOrIdle();
        var round := PollOnce();
        RunConcat(old(Tx()), es, round);
        es := es + round;
      }
      RestMeansSent();
    }

    /** While flush() waits there is something left for the transmitter to do. */
    lemma BusyOrIdle()
      requires Running() && !published && accepted != [] && (udrie || !txc)
      ensures udrie || udr.Some? || shift.Some?
    {
      RingCounts(txBuf[..], txHead, txTail);
    }

    lemma RestMeansSent()
      requires Running() && !published && !udrie && txc
      ensures txHead == txTail && udr.None? && shift.None? && wire == accepted
    {
      RingCounts(txBuf[..], txHead, txTail);
    }

    /** How many received bytes wait, at some moment during the call. */
    method Available() returns (n: nat)
      requires Valid()
      modifies this`txTail, this`udr, this`shift, this`txc, this`udrie, this`wire, this`rxHead, this`rxAccepted, rxBuf
      ensures Valid() && old(|Ring(rxBuf[..], rxHead, rxTail)|) <= n <= |Ring(rxBuf[..], rxHead, rxTail)|
      ensures old(rxAccepted) <= rxAccepted
    {
      hide Ring, Inv, Work, Legal, Run, Step, Enabled;
      var es := Interleave();
      RingCounts(rxBuf[..], rxHead, rxTail);
      var head := rxHead;
      var es2 := Interleave();
      n := (rxBuf.Length + head - rxTail) % rxBuf.Length;
    }

    /** The oldest waiting byte, or -1. */
    method Peek() returns (r: int)
      requires Valid()
      modifies this`txTail, this`udr, this`shift, this`txc, this`udrie, this`wire, this`rxHead, this`rxAccepted, rxBuf
      ensures Valid() && old(Ring(rxBuf[..], rxHead, rxTail)) <= Ring(rxBuf[..], rxHead, rxTail) && old(rxAccepted) <= rxAccepted
      ensures if r < 0 then r == -1 && old(Ring(rxBuf[..], rxHead, rxTail)) == []
              else Ring(rxBuf[..], rxHead, rxTail) != [] && r == Ring(rxBuf[..], rxHead, rxTail)[0]
    {
      hide Ring, Inv, Work, Legal, Run, Step, Enabled;
      var es := Interleave();
      RingCounts(rxBuf[..], rxHead, rxTail);
      if rxHead == rxTail { return -1; }
      var es2 := Interleave();
      RingCounts(rxBuf[..], rxHead, rxTail);
      RingPop(rxBuf[..], rxHead, rxTail);
      r := rxBuf[rxTail];
    }

    /** Take the oldest waiting byte, or -1.  The bytes stored so far are never rewritten, so what read()
        returns, in order, is what was stored. */
    method Read() returns (r: int)
      requires Valid()
      modifies this`txTail, this`udr, this`shift, this`txc, this`udrie, this`wire, this`rxHead, this`rxTail,
               this`rxAccepted, this`rxRead, rxBuf
      ensures Valid() && old(rxAccepted) <= rxAccepted
      ensures if r < 0 then r == -1 && old(Ring(rxBuf[..], rxHead, rxTail)) == [] && rxRead == old(rxRead)
              else 0 <= r < 256 && rxRead == old(rxRead) + [r] && rxRead <= rxAccepted
      ensures old(Ring(rxBuf[..], rxHead, rxTail)) != [] ==> r == old(Ring(rxBuf[..], rxHead, rxTail))[0]
    {
      hide Ring, Inv, Work, Legal, Run, Step, Enabled, Next;
      var es := Interleave();
      RingCounts(rxBuf[..], rxHead, rxTail);
      if rxHead == rxTail { return -1; }
      var es2 := Interleave();
      RingCounts(rxBuf[..], rxHead, rxTail);
      RingPop(rxBuf[..], rxHead, rxTail);
      var c := rxBuf[rxTail];
      var es3 := Interleave();
      TakeOldest(c);
      r := c;
    }

    /** _rx_buffer_tail = (_rx_buffer_tail + 1) % SIZE, when `c` is what waits first. */
    method TakeOldest(c: byte)
      requires Running() && Ring(rxBuf[..], rxHead, rxTail) != [] && Ring(rxBuf[..], rxHead, rxTail)[0] == c
      modifies this`rxTail, this`rxRead
      ensures Running() && Tx() == old(Tx()) && rxRead == old(rxRead) + [c]
    {
      hide Ring, Inv, Next;
      RingCounts(rxBuf[..], rxHead, rxTail);
      RingPop(rxBuf[..], rxHead, rxTail);
      NextIs(rxTail, rxBuf.Length);
      rxTail := Next(rxTail, rxBuf.Length);
      rxRead := rxRead + [c];
    }

    /** Room in the transmit ring, at some moment during the call: room never shrinks under main
        code's feet. */
    method AvailableForWrite() returns (n: int)
      requires Valid()
      modifies this`txTail, this`udr, this`shift, this`txc, this`udrie, this`wire, this`rxHead, this`rxAccepted, rxBuf
      ensures old(rxAccepted) <= rxAccepted
      ensures Valid() && txBuf.Length - 1 - |old(Queue(Tx()))| <= n <= txBuf.Length - 1 - |Queue(Tx())|
    {
      hide Ring, Inv, Work, Legal, Run, Step, Enabled;
      var head := txHead;
      var es := Interleave();
      RingCounts(txBuf[..], txHead, txTail);
      var tail := txTail;
      var es2 := Interleave();
      if head >= tail { return txBuf.Length - 1 - head + tail; }
      return tail - head - 1;
    }
  }

  lemma TickKeeps(l: Line, es: seq<Event>)
    requires RingOK(l.buf, l.head, l.tail) && UartOnly(es) && Legal(l, es) && |es| < 2 && l.udrie
    ensures Run(l, es).udrie && HandlerRest(Run(l, es)) == Run(l, es).(txc := false, udrie := Run(l, es).head != Run(l, es).tail)
  {
    if es != [] {
      assert es[0] in es && es == [es[0]];
      SingleStep(l, es[0]);
    }
  }

  lemma HandlerStored(l: Line)
    requires RingOK(l.buf, l.head, l.tail)
    ensures HandlerStore(l) == l.(tail := Next(l.tail, |l.buf|), udr := Some(l.buf[l.tail]))
  {
  }

  lemma IrqReady(l: Line)
    requires Inv(l) && l.udrie && l.udr.None?
    ensures RingOK(l.buf, l.head, l.tail) && Enabled(l, Irq)
    ensures RingOK(l.buf, l.head, Next(l.tail, |l.buf|))
  {
    NextIs(l.tail, |l.buf|);
  }

  lemma InvArmed(l: Line)
    requires Inv(l)
    ensures !(l.udrie && l.head == l.tail)
  {
  }

  lemma StuckHasNoUdrie(l: Line)
    ensures Stuck(l) ==> !l.udrie
  {
  }
}
