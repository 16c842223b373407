/** The timer interrupt of the Servo library and the methods that set pulse widths. */
module Servo {
  import opened ServoSpec

  class ServoTimer {
    var channel: int           // -1 during the refresh interval
    var tcnt: nat
    var ocr: nat
    const ticks: array<nat>
    const active: array<bool>
    var servoCount: nat
    var high: set<nat>         // channels whose pin is high
    ghost var now: nat
    ghost var cycleStart: int
    ghost var pulse: seq<Pulse>
    ghost var done: seq<(Pulse, nat)>
    ghost var cycles: seq<int>

    ghost predicate Valid()
      reads this
    {
      -1 <= channel < SERVOS_PER_TIMER && ticks.Length == active.Length == SERVOS_PER_TIMER && servoCount <= SERVOS_PER_TIMER
      && tcnt < COUNTER && ocr < COUNTER
    }

    /** initISR, on a timer whose registers are as after reset, with `count` servos at their default width. */
    constructor (count: nat)
      requires count <= SERVOS_PER_TIMER
      ensures Valid() && State() == PowerUp() && servoCount == count
      ensures TicksOK(Slots()) && fresh(ticks) && fresh(active)
    {
      channel, tcnt, ocr, high := 0, 0, 0, {};
      now, cycleStart, pulse, done, cycles := 0, COUNTER, [], [], [];
      servoCount := count;
      var t := new nat[SERVOS_PER_TIMER](i => UsToTicks(DEFAULT_PULSE));
      var a := new bool[SERVOS_PER_TIMER](i => false);
      ticks, active := t, a;
    }

    ghost function State(): Timer
      reads this
    {
      Timer(channel, tcnt, ocr, now, cycleStart, high, pulse, done, cycles)
    }

    ghost function Slots(): seq<Slot>
      reads this, ticks, active
      requires Valid()
    {
      SlotsOf(ticks[..servoCount], active[..servoCount])
    }

    /** handle_interrupts, entered the moment the counter reaches the compare value. */
    method HandleInterrupts()
      requires Valid()
      modifies this
      ensures Valid() && servoCount == old(servoCount) && State() == Interrupt(old(State()), old(Slots()))
    {
      hide EndSlot, NextSlot;
      ghost var wait := (ocr - tcnt) % COUNTER;
      now := now + if wait == 0 then COUNTER else wait;
      tcnt := ocr;
      FinishSlot();
      StartSlot();
    }

    /** Reset the counter after the refresh interval, or end the running pulse. */
    method FinishSlot()
      requires Valid()
      modifies this`tcnt, this`high, this`cycleStart, this`pulse, this`done, this`cycles
      ensures Valid() && State() == EndSlot(old(State()), Slots())
    {
      if channel < 0 {
        cycles, cycleStart := cycles + [now - cycleStart], now;
        tcnt := 0;
      } else if channel < servoCount && active[channel] {
        high := high - {channel};
        done := if pulse == [] then done else done + [(pulse[0], now)];
        pulse := [];
      }
    }

    method StartSlot()
      requires Valid()
      modifies this`channel, this`ocr, this`high, this`pulse
      ensures Valid() && State() == NextSlot(old(State()), Slots())
    {
      channel := channel + 1;
      if channel < servoCount && channel < SERVOS_PER_TIMER {
        ocr := (tcnt + ticks[channel]) % COUNTER;
        if active[channel] {
          high := high + {channel};
          pulse := [Pulse(channel, now, ticks[channel])];
        }
      } else {
        if (tcnt + 4) % COUNTER < REFRESH_TICKS {
          ocr := REFRESH_TICKS;
        } else {
          ocr := (tcnt + 4) % COUNTER;
        }
        channel := -1;
      }
    }

    /** writeMicroseconds with the default limits. */
    method WriteMicroseconds(index: nat, us: int)
      requires Valid() && index < SERVOS_PER_TIMER
      modifies ticks
      ensures ticks[..] == old(ticks[..])[index := TicksFor(us)]
      ensures old(TicksOK(Slots())) ==> TicksOK(Slots())
    {
      var value := us;
      if value < MIN_PULSE {
        value := MIN_PULSE;
      } else if value > MAX_PULSE {
        value := MAX_PULSE;
      }
      value := value - TRIM;
      ticks[index] := UsToTicks(value);
      WidthRoundTrip(us);
    }

    /** write: values below the shortest pulse are angles. */
    method Write(index: nat, angleOrUs: int)
      requires Valid() && index < SERVOS_PER_TIMER
      modifies ticks
      ensures ticks[..] == old(ticks[..])[index := WriteTicks(angleOrUs)]
      ensures old(TicksOK(Slots())) ==> TicksOK(Slots())
    {
      var value := angleOrUs;
      if value < MIN_PULSE {
        if value < 0 { value := 0; }
        if value > 180 { value := 180; }
        value := Map(value, 0, 180, MIN_PULSE, MAX_PULSE);
      }
      WriteMicroseconds(index, value);
    }

    /** read: the angle; what Write stored for an angle reads back as that angle. */
    method Read(index: nat) returns (angle: int)
      requires Valid() && index < SERVOS_PER_TIMER
      ensures angle == ReadAngle(ticks[index])
      ensures forall a {:trigger WriteTicks(a)} :: 0 <= a <= 180 && ticks[index] == WriteTicks(a) ==> angle == a
    {
      angle := Map(ReadMicroseconds(ticks[index]) + 1, MIN_PULSE, MAX_PULSE, 0, 180);
      forall a {:trigger WriteTicks(a)} | 0 <= a <= 180 ensures ReadAngle(WriteTicks(a)) == a { AngleRoundTrip(a); }
    }
  }

  function SlotsOf(ticks: seq<nat>, active: seq<bool>): (s: seq<Slot>)
    requires |ticks| == |active|
    ensures |s| == |ticks| && forall i :: 0 <= i < |s| ==> s[i] == Slot(ticks[i], active[i])
  {
    if ticks == [] then [] else [Slot(ticks[0], active[0])] + SlotsOf(ticks[1..], active[1..])
  }
}
