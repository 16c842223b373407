/** The servo pulse scheduler of one 16-bit timer, at 16 MHz with prescaler 8: two ticks a microsecond. */
module ServoSpec {

  const SERVOS_PER_TIMER := 12
  const MIN_PULSE := 544
  const MAX_PULSE := 2400
  const DEFAULT_PULSE := 1500
  const TRIM := 2
  const REFRESH_TICKS := 40000   // usToTicks(REFRESH_INTERVAL)
  const COUNTER := 0x1_0000

  /** (clockCyclesPerMicrosecond() * us) / 8, for the values that occur, none negative. */
  function UsToTicks(us: nat): nat {
    16 * us / 8
  }

  /** ((unsigned) ticks * 8) / clockCyclesPerMicrosecond() */
  function TicksToUs(ticks: nat): nat {
    ticks * 8 % COUNTER / 16
  }

  datatype Slot = Slot(ticks: nat, active: bool)

  /** A pulse: the channel, when it went high, and the `ticks` value read then. */
  datatype Pulse = Pulse(channel: nat, start: nat, width: nat)

  /** `now` counts ticks without bound; `tcnt` is the 16-bit counter after the last interrupt. */
  datatype Timer = Timer(
    channel: int, tcnt: nat, ocr: nat, now: nat, cycleStart: int,
    high: set<nat>, pulse: seq<Pulse>,
    done: seq<(Pulse, nat)>,   // finished pulses, each with the time its pin went low
    cycles: seq<int>)          // lengths of the finished refresh cycles

  /** The moment of the next interrupt when none is delayed: the counter has reached the compare value. */
  function Reached(t: Timer): Timer {
    var wait := (t.ocr - t.tcnt) % COUNTER;
    t.(now := t.now + if wait == 0 then COUNTER else wait, tcnt := t.ocr)
  }

  /** The first part of handle_interrupts: end the refresh interval or the running pulse. */
  function EndSlot(t: Timer, slots: seq<Slot>): Timer {
    if t.channel < 0 then
      t.(cycles := t.cycles + [t.now - t.cycleStart], cycleStart := t.now, tcnt := 0)
    else if t.channel < |slots| && slots[t.channel].active then
      t.(high := t.high - {t.channel},
         pulse := [],
         done := if t.pulse == [] then t.done else t.done + [(t.pulse[0], t.now)])
    else t
  }

  /** The second part: start the next channel, or wait for the refresh interval to pass. */
  function NextSlot(t: Timer, slots: seq<Slot>): Timer
    requires -1 <= t.channel
  {
    var c := t.channel + 1;
    if c < |slots| && c < SERVOS_PER_TIMER then
      var u := t.(channel := c, ocr := (t.tcnt + slots[c].ticks) % COUNTER);
      if slots[c].active then u.(high := u.high + {c}, pulse := [Pulse(c, t.now, slots[c].ticks)]) else u
    else
      t.(channel := -1,
         ocr := if (t.tcnt + 4) % COUNTER < REFRESH_TICKS then REFRESH_TICKS else (t.tcnt + 4) % COUNTER)
  }

  function Interrupt(t: Timer, slots: seq<Slot>): Timer
    requires -1 <= t.channel
  {
    NextSlot(EndSlot(Reached(t), slots), slots)
  }

  /** What writeMicroseconds can store with the default limits. */
  predicate TicksOK(slots: seq<Slot>) {
    && |slots| <= SERVOS_PER_TIMER
    && forall i :: 0 <= i < |slots| ==> UsToTicks(MIN_PULSE - TRIM) <= slots[i].ticks <= UsToTicks(MAX_PULSE - TRIM)
  }

  const LONGEST := 4796   // UsToTicks(MAX_PULSE - TRIM)

  ghost predicate Inv(t: Timer) {
    && -1 <= t.channel < SERVOS_PER_TIMER
    && t.tcnt < t.ocr < COUNTER && t.now == t.cycleStart + t.tcnt
    && (t.channel < 0 ==> t.high == {} && t.pulse == [] && REFRESH_TICKS <= t.ocr)
    && (0 <= t.channel ==> t.tcnt <= t.channel * LONGEST && t.ocr <= (t.channel + 1) * LONGEST)
    && (if t.pulse == [] then t.high == {}
        else |t.pulse| == 1 && 0 <= t.channel && t.high == {t.channel} && t.pulse[0] == Pulse(t.channel, t.now, t.ocr - t.tcnt))
    && (forall d :: d in t.done ==> d.1 - d.0.start == d.0.width)
    && (forall c :: c in t.cycles ==> REFRESH_TICKS <= c)
  }

  /** Between two interrupts servos may be attached and rewritten, but not detached. */
  ghost predicate Attached(t: Timer, slots: seq<Slot>) {
    TicksOK(slots) && (t.pulse != [] ==> 0 <= t.channel < |slots| && slots[t.channel].active)
  }

  lemma InterruptKeepsInv(t: Timer, slots: seq<Slot>)
    requires Inv(t) && Attached(t, slots)
    ensures Inv(Interrupt(t, slots))
  {
    hide NextSlot;
    EndSlotKeeps(t, slots);
    NextSlotKeeps(EndSlot(Reached(t), slots), slots);
  }

  /** Between the two parts every pin is low. */
  ghost predicate AllLow(t: Timer) {
    && -1 <= t.channel < SERVOS_PER_TIMER && t.high == {} && t.pulse == []
    && t.now == t.cycleStart + t.tcnt && t.tcnt <= (t.channel + 1) * LONGEST
    && (forall d :: d in t.done ==> d.1 - d.0.start == d.0.width)
    && (forall c :: c in t.cycles ==> REFRESH_TICKS <= c)
  }

  lemma EndSlotKeeps(t: Timer, slots: seq<Slot>)
    requires Inv(t) && Attached(t, slots)
    ensures AllLow(EndSlot(Reached(t), slots))
  {
  }

  lemma NextSlotKeeps(t: Timer, slots: seq<Slot>)
    requires AllLow(t) && TicksOK(slots)
    ensures Inv(NextSlot(t, slots))
  {
  }

  ghost predicate Legal(t: Timer, settings: seq<seq<Slot>>)
    decreases |settings|
  {
    settings == [] ||
    (-1 <= t.channel && Attached(t, settings[0]) && Legal(Interrupt(t, settings[0]), settings[1..]))
  }

  ghost function Run(t: Timer, settings: seq<seq<Slot>>): Timer
    requires Legal(t, settings)
    decreases |settings|
  {
    if settings == [] then t else Run(Interrupt(t, settings[0]), settings[1..])
  }

  /** Right after initISR: channel 0, the counter cleared and the compare value still 0, so that the
      counter meets it after a full turn.  Cycles are measured from then. */
  function PowerUp(): Timer {
    Timer(0, 0, 0, 0, COUNTER, {}, [], [], [])
  }

  /** The first interrupt, which ends no pulse and finds no time left before channel 1, is harmless. */
  lemma FirstInterrupt(slots: seq<Slot>)
    requires TicksOK(slots)
    ensures Inv(Interrupt(PowerUp(), slots))
  {
    hide NextSlot;
    NextSlotKeeps(EndSlot(Reached(PowerUp()), slots), slots);
  }

  lemma {:induction false} RunKeepsInv(t: Timer, settings: seq<seq<Slot>>)
    requires Inv(t) && Legal(t, settings)
    ensures Inv(Run(t, settings))
    decreases |settings|
  {
    hide Inv, Interrupt, Attached;
    if settings != [] {
      InterruptKeepsInv(t, settings[0]);
      RunKeepsInv(Interrupt(t, settings[0]), settings[1..]);
    }
  }

  /** In every run from power-up without detaching: at most one pin is high, every pulse lasts exactly
      the value read when it began, every cycle lasts at least the refresh interval, and the compare
      value never wraps. */
  lemma EveryRunPulses(settings: seq<seq<Slot>>)
    requires Legal(PowerUp(), settings)
    ensures var u := Run(PowerUp(), settings);
            && |u.high| <= 1
            && (forall d :: d in u.done ==> d.1 - d.0.start == d.0.width)
            && (forall c :: c in u.cycles ==> REFRESH_TICKS <= c)
            && (settings != [] ==> u.tcnt < u.ocr < COUNTER)
  {
    hide Interrupt;
    if settings != [] {
      FirstInterrupt(settings[0]);
      RunKeepsInv(Interrupt(PowerUp(), settings[0]), settings[1..]);
    }
  }

  // ----- pulse widths and angles -----

  function Clamp(us: int): int {
    if us < MIN_PULSE then MIN_PULSE else if MAX_PULSE < us then MAX_PULSE else us
  }

  /** map(), on values where C's truncation and flooring agree. */
  function Map(x: int, inMin: int, inMax: int, outMin: int, outMax: int): int
    requires inMin < inMax
  {
    (x - inMin) * (outMax - outMin) / (inMax - inMin) + outMin
  }

  function TicksFor(us: int): nat {
    UsToTicks(Clamp(us) - TRIM)
  }

  /** write(): small values are angles, others microseconds. */
  function WriteTicks(value: int): nat {
    if value < MIN_PULSE then
      TicksFor(Map(if value < 0 then 0 else if 180 < value then 180 else value, 0, 180, MIN_PULSE, MAX_PULSE))
    else TicksFor(value)
  }

  function ReadMicroseconds(ticks: nat): int {
    TicksToUs(ticks) + TRIM
  }

  function ReadAngle(ticks: nat): int {
    Map(ReadMicroseconds(ticks) + 1, MIN_PULSE, MAX_PULSE, 0, 180)
  }

  /** readMicroseconds() returns what was written, clamped, and what is stored suits the scheduler. */
  lemma WidthRoundTrip(us: int)
    ensures ReadMicroseconds(TicksFor(us)) == Clamp(us)
    ensures UsToTicks(MIN_PULSE - TRIM) <= TicksFor(us) <= UsToTicks(MAX_PULSE - TRIM) == LONGEST
  {
  }

  /** read() returns the angle written, clamped to 0..180. */
  lemma AngleRoundTrip(angle: int)
    requires angle < MIN_PULSE
    ensures ReadAngle(WriteTicks(angle)) == if angle < 0 then 0 else if 180 < angle then 180 else angle
  {
    var a := if angle < 0 then 0 else if 180 < angle then 180 else angle;
    WidthRoundTrip(Map(a, 0, 180, MIN_PULSE, MAX_PULSE));
  }

  /** Two ticks a microsecond, less the trim, within the limits. */
  lemma TicksAre(us: int)
    ensures TicksFor(us) == 2 * ((if us < 544 then 544 else if 2400 < us then 2400 else us) - 2)
  {
  }

  /** Angle 0 gives the shortest pulse, 180 the longest, and those between divide the range evenly. */
  lemma WidthOfAngle(a: int)
    requires 0 <= a <= 180
    ensures ReadMicroseconds(WriteTicks(a)) == 544 + a * 1856 / 180
  {
    hide TicksFor, ReadMicroseconds;
    WidthRoundTrip(544 + a * 1856 / 180);
  }

  lemma WidthGrows(a: int, b: int)
    requires 0 <= a < b <= 180
    ensures ReadMicroseconds(WriteTicks(a)) + 10 <= ReadMicroseconds(WriteTicks(b))
  {
    hide WriteTicks, ReadMicroseconds;
    WidthOfAngle(a);
    WidthOfAngle(b);
  }

  // ----- whole cycles -----

  /** The pulses of the channels after `c`, begun at `now`, channel by channel, each with the settings
      found when it begins. */
  function Later(rest: seq<seq<Slot>>, c: nat, n: nat, now: nat): seq<(Pulse, nat)>
    requires c < n && |rest| == n - c && forall i :: 0 <= i < |rest| ==> |rest[i]| == n
    decreases n - c
  {
    if c + 1 == n then [] else
    var s := rest[0][c + 1];
    (if s.active then [(Pulse(c + 1, now, s.ticks), now + s.ticks)] else []) + Later(rest[1..], c + 1, n, now + s.ticks)
  }

  /** How long the channels after `c` take. */
  function Spent(rest: seq<seq<Slot>>, c: nat, n: nat): nat
    requires c < n && |rest| == n - c && forall i :: 0 <= i < |rest| ==> |rest[i]| == n
    decreases n - c
  {
    if c + 1 == n then 0 else rest[0][c + 1].ticks + Spent(rest[1..], c + 1, n)
  }

  /** One interrupt in the middle of a cycle. */
  lemma SlotServed(t: Timer, slots: seq<Slot>)
    requires Inv(t) && 0 <= t.channel && Attached(t, slots)
    ensures var u, end, next := Interrupt(t, slots), t.cycleStart + t.ocr, t.channel + 1;
            && u.cycleStart == t.cycleStart && u.cycles == t.cycles && u.tcnt == t.ocr
            && u.done == t.done + (if t.pulse == [] then [] else [(t.pulse[0], end)])
            && if next < |slots| && next < SERVOS_PER_TIMER then
                 u.channel == next && u.ocr == t.ocr + slots[next].ticks && 0 <= end &&
                 u.pulse == if slots[next].active then [Pulse(next, end, slots[next].ticks)] else []
               else
                 u.channel == -1 && u.pulse == [] && u.ocr == if t.ocr + 4 < 40000 then 40000 else t.ocr + 4
  {
    InterruptKeepsInv(t, slots);
  }

  /** The rest of a cycle: the running pulse ends, and every later channel is served in turn. */
  lemma {:induction false} CycleServed(t: Timer, rest: seq<seq<Slot>>, n: nat)
    requires Inv(t) && 0 <= t.channel < n <= SERVOS_PER_TIMER && |rest| == n - t.channel && Legal(t, rest)
    requires forall i :: 0 <= i < |rest| ==> |rest[i]| == n
    requires 0 <= t.cycleStart + t.ocr
    ensures var u, end := Run(t, rest), t.cycleStart + t.ocr;
            && Inv(u) && u.channel == -1 && u.cycleStart == t.cycleStart && u.cycles == t.cycles
            && u.done == t.done + (if t.pulse == [] then [] else [(t.pulse[0], end)]) + Later(rest, t.channel, n, end)
            && u.tcnt == t.ocr + Spent(rest, t.channel, n)
            && u.ocr == if u.tcnt + 4 < 40000 then 40000 else u.tcnt + 4
    decreases |rest|
  {
    hide Interrupt, Inv, Attached;
    InterruptKeepsInv(t, rest[0]);
    SlotServed(t, rest[0]);
    var m := Interrupt(t, rest[0]);
    if t.channel + 1 < n {
      CycleServed(m, rest[1..], n);
    } else {
      assert rest[1..] == [];
    }
  }

  /** Every cycle serves every channel: from the end of a refresh interval, `n` channels take `n` + 1
      interrupts, each active channel gets one pulse of the width set for it, in order and back to back,
      and the next cycle's length is the refresh interval or, if they took longer, 4 ticks more than they took. */
  lemma EveryCycleServes(t: Timer, settings: seq<seq<Slot>>, n: nat)
    requires Inv(t) && t.channel == -1 && 0 <= t.cycleStart && 1 <= n <= SERVOS_PER_TIMER
    requires |settings| == n + 1 && Legal(t, settings) && forall i :: 0 <= i < |settings| ==> |settings[i]| == n
    ensures var u, start: nat, first, rest := Run(t, settings), t.cycleStart + t.ocr, settings[0][0], settings[1..];
            var took := first.ticks + Spent(rest, 0, n);
            && u.channel == -1 && u.cycleStart == start && u.cycles == t.cycles + [t.ocr]
            && u.done == t.done + (if first.active then [(Pulse(0, start, first.ticks), start + first.ticks)] else []) +
                         Later(rest, 0, n, start + first.ticks)
            && u.ocr == if took + 4 < 40000 then 40000 else took + 4
  {
    hide Interrupt, Inv, Attached, Legal, Run, Later, Spent;
    RunUnfolds(t, settings);
    InterruptKeepsInv(t, settings[0]);
    CycleBegins(t, settings[0]);
    var m, rest := Interrupt(t, settings[0]), settings[1..];
    assert forall i :: 0 <= i < |rest| ==> rest[i] == settings[i + 1];
    CycleServed(m, rest, n);
  }

  lemma RunUnfolds(t: Timer, settings: seq<seq<Slot>>)
    requires Legal(t, settings) && settings != []
    ensures -1 <= t.channel && Attached(t, settings[0]) && Legal(Interrupt(t, settings[0]), settings[1..])
    ensures Run(t, settings) == Run(Interrupt(t, settings[0]), settings[1..])
  {
    hide Interrupt, Attached;
  }

  lemma CycleBegins(t: Timer, slots: seq<Slot>)
    requires Inv(t) && t.channel == -1 && 0 <= t.cycleStart && Attached(t, slots) && slots != []
    ensures var u, start: nat := Interrupt(t, slots), t.cycleStart + t.ocr;
            && u.channel == 0 && u.tcnt == 0 && u.ocr == slots[0].ticks && u.cycleStart == start
            && u.cycles == t.cycles + [t.ocr] && u.done == t.done
            && u.pulse == if slots[0].active then [Pulse(0, start, slots[0].ticks)] else []
  {
  }
}
