/**
 * The receiving hardware, clock by clock: the programmer's registers (ROM_PRGMR.sv), the two ROM
 * memories behind them (PRG_ROM.sv, CHR_ROM.sv) and the Avalon bus cycle that carries one store
 * (setup, write and hold cycles of altera_merlin_slave_translator.sv). The memories run on another
 * clock, so any bus cycle may or may not contain one of their edges.
 */
module RomDevice {
  import opened Basics
  import opened RomProgrammer

  /**
   * PRG memory decodes as many low address bits as it has cells (15 in PRG_ROM.sv, 16 in the flat
   * CARTRIDGE.sv). CHR_ROM.sv indexes 8192 cells with 16 bits: synthesis truncates an index past
   * the end, the language standard ignores the write. `chrTruncates` tells which.
   */
  datatype Rom = Rom(
    prgWrite: bool, chrWrite: bool, mirroring: bool, chrRam: bool,
    prg: seq<bv8>, chr: seq<bv8>, chrTruncates: bool)
  {
    predicate Valid() {
      && (|prg| == 0x8000 || |prg| == 0x1_0000)
      && (|chr| == 0x2000 || |chr| == 0x1_0000)
    }

    predicate Quiet() {
      !prgWrite && !chrWrite
    }

    function PrgCell(address: u16): (c: nat)
      requires Valid()
      ensures c < |prg|
    {
      address % |prg|
    }

    function ChrCell(address: u16): (c: Option<nat>)
      requires Valid()
      ensures c.Some? ==> c.value < |chr|
    {
      if address < |chr| then Some(address)
      else if chrTruncates then Some(address % |chr|)
      else None
    }

    /** The memory cells after the command's byte is written to the region it selects. */
    function Written(c: Command): (r: Rom)
      requires Valid()
      ensures r.Valid()
    {
      if c.toPrg then this.(prg := prg[PrgCell(c.address) := c.data])
      else
        var cell := ChrCell(c.address);
        if cell.Some? then this.(chr := chr[cell.value := c.data]) else this
    }

    /** The mode registers after the command is seen. */
    function Latched(c: Command): (r: Rom)
      ensures Valid() ==> r.Valid()
    {
      this.(mirroring := if c.mirroring.Some? then c.mirroring.value else mirroring,
            chrRam := if c.chrRam.Some? then c.chrRam.value else chrRam)
    }
  }

  // ----- Clock by clock -----

  /**
   * One cycle of the bus clock: chip select, write, the fields wired out of the write data, and
   * whether an edge of the memory clock falls in it.
   */
  datatype Cycle = Cycle(selected: bool, write: bool, fields: Command, sampled: bool)

  /** An edge of the memory clock: each memory obeys its registered enable and the live bus. */
  function MemoryEdge(d: Rom, c: Command): (r: Rom)
    requires d.Valid()
    ensures r.Valid()
  {
    var withPrg := if d.prgWrite then d.(prg := d.prg[d.PrgCell(c.address) := c.data]) else d;
    var cell := d.ChrCell(c.address);
    if d.chrWrite && cell.Some? then withPrg.(chr := d.chr[cell.value := c.data]) else withPrg
  }

  /** An edge of the bus clock: enables and modes are registered. */
  function BusEdge(d: Rom, cycle: Cycle): (r: Rom)
    ensures d.Valid() ==> r.Valid()
  {
    if cycle.selected then
      var toPrg := cycle.fields.toPrg;
      d.Latched(cycle.fields).(prgWrite := if toPrg then cycle.write else d.prgWrite,
                             chrWrite := if toPrg then d.chrWrite else cycle.write)
    else
      d.(prgWrite := false, chrWrite := false)
  }

  function Step(d: Rom, cycle: Cycle): (r: Rom)
    requires d.Valid()
    ensures r.Valid()
  {
    BusEdge(if cycle.sampled then MemoryEdge(d, cycle.fields) else d, cycle)
  }

  function Run(d: Rom, cycles: seq<Cycle>): (r: Rom)
    requires d.Valid()
    ensures r.Valid()
  {
    if cycles == [] then d
    else Step(Run(d, cycles[..|cycles| - 1]), cycles[|cycles| - 1])
  }

  // ----- One store -----

  /** What one store does, ignoring clocks. */
  function Exec(d: Rom, c: Command): (r: Rom)
    requires d.Valid()
    ensures r.Valid()
  {
    d.Latched(c).Written(c).(prgWrite := false, chrWrite := false)
  }

  function ExecAll(d: Rom, cs: seq<Command>): (r: Rom)
    requires d.Valid()
    ensures r.Valid()
  {
    if cs == [] then d else Exec(ExecAll(d, cs[..|cs| - 1]), cs[|cs| - 1])
  }

  datatype Timing = Timing(setup: nat, write: nat, hold: nat) {
    function Total(): nat {
      setup + write + hold
    }

    predicate WriteCycle(i: int) {
      setup <= i < setup + write
    }
  }

  /** The generated interconnect: 5 setup cycles, a write wait of 10 (11 cycles) and 5 hold cycles. */
  const INTERCONNECT := Timing(5, 11, 5)

  /** The first n cycles of a store; chip select is high throughout. */
  function StoreCycles(c: Command, t: Timing, samples: nat -> bool, n: nat): (cs: seq<Cycle>)
    ensures |cs| == n
  {
    seq(n, i requires 0 <= i => Cycle(true, t.WriteCycle(i), c, samples(i)))
  }

  /** A memory edge has fallen, among the first n cycles, in one whose enable is up. */
  ghost predicate Caught(t: Timing, samples: nat -> bool, n: nat) {
    exists j: nat :: j < n && t.WriteCycle(j - 1) && samples(j)
  }

  function AfterCycles(d: Rom, c: Command, t: Timing, caught: bool, n: nat): Rom
    requires d.Valid() && n >= 1
  {
    var toPrg, up := c.toPrg, t.WriteCycle(n - 1);
    (if caught then d.Latched(c).Written(c) else d.Latched(c)).(prgWrite := toPrg && up, chrWrite := !toPrg && up)
  }

  lemma {:induction false} StoreProgress(d: Rom, c: Command, t: Timing, samples: nat -> bool, n: nat)
    requires d.Valid() && d.Quiet() && n >= 1
    ensures Run(d, StoreCycles(c, t, samples, n)) == AfterCycles(d, c, t, Caught(t, samples, n), n)
  {
    var cycles := StoreCycles(c, t, samples, n);
    var before := StoreCycles(c, t, samples, n - 1);
    assert cycles[..n - 1] == before;
    if n == 1 {
      assert !Caught(t, samples, 1);
      assert Run(d, before) == d;
    } else {
      StoreProgress(d, c, t, samples, n - 1);
      CaughtStep(t, samples, n - 1);
      StepOnce(d, c, t, Caught(t, samples, n - 1), n - 1, samples(n - 1));
    }
  }

  lemma CaughtStep(t: Timing, samples: nat -> bool, n: nat)
    ensures Caught(t, samples, n + 1) <==> Caught(t, samples, n) || (t.WriteCycle(n - 1) && samples(n))
  {
    if Caught(t, samples, n) {
      var j: nat :| j < n && t.WriteCycle(j - 1) && samples(j);
      assert j < n + 1;
    }
  }

  /** With only the enable of the addressed region up, a memory edge writes the word there. */
  lemma EdgeWrites(d: Rom, c: Command, up: bool)
    requires d.Valid()
    requires d.prgWrite == (c.toPrg && up) && d.chrWrite == (!c.toPrg && up)
    ensures MemoryEdge(d, c) == if up then d.Written(c) else d
  {
  }

  lemma WrittenTwice(d: Rom, c: Command)
    requires d.Valid()
    ensures d.Written(c).Written(c) == d.Written(c)
  {
  }

  lemma WrittenIgnoresEnables(d: Rom, c: Command, prgWrite: bool, chrWrite: bool)
    requires d.Valid()
    ensures d.(prgWrite := prgWrite, chrWrite := chrWrite).Written(c)
            == d.Written(c).(prgWrite := prgWrite, chrWrite := chrWrite)
  {
  }

  lemma EdgeLatches(d: Rom, c: Command, write: bool, sampled: bool)
    requires d.Valid() && d.Latched(c) == d
    ensures BusEdge(d, Cycle(true, write, c, sampled))
            == if c.toPrg then d.(prgWrite := write) else d.(chrWrite := write)
  {
  }

  lemma LatchedKept(d: Rom, c: Command)
    requires d.Valid() && d.Latched(c) == d
    ensures d.Written(c).Latched(c) == d.Written(c)
  {
  }

  lemma StepOnce(d: Rom, c: Command, t: Timing, caught: bool, n: nat, sampled: bool)
    requires d.Valid() && d.Quiet() && n >= 1
    ensures Step(AfterCycles(d, c, t, caught, n), Cycle(true, t.WriteCycle(n), c, sampled))
            == AfterCycles(d, c, t, caught || (t.WriteCycle(n - 1) && sampled), n + 1)
  {
    var up := t.WriteCycle(n - 1);
    var s := AfterCycles(d, c, t, caught, n);
    var latched := d.Latched(c);
    assert latched.Latched(c) == latched;
    WrittenTwice(latched, c);
    WrittenIgnoresEnables(latched, c, s.prgWrite, s.chrWrite);
    WrittenIgnoresEnables(latched.Written(c), c, s.prgWrite, s.chrWrite);
    LatchedKept(latched, c);
    assert s.Latched(c) == s;
    EdgeWrites(s, c, up);
    var m := if sampled then MemoryEdge(s, c) else s;
    LatchedKept(s, c);
    EdgeLatches(m, c, t.WriteCycle(n), sampled);
    hide Rom.Written, Rom.Latched, MemoryEdge, BusEdge;
  }

  /** A whole store, from a quiet device: one hold cycle and one caught edge make it exact. */
  lemma StoreRefines(d: Rom, c: Command, t: Timing, samples: nat -> bool)
    requires d.Valid() && d.Quiet()
    requires t.write >= 1 && t.hold >= 1 && Caught(t, samples, t.Total())
    ensures Run(d, StoreCycles(c, t, samples, t.Total())) == Exec(d, c)
  {
    StoreProgress(d, c, t, samples, t.Total());
  }

  /** Without hold the enable outlives the data: what is next on the bus is written too, whatever its region. */
  lemma HoldIsNeeded(d: Rom, c: Command, t: Timing, samples: nat -> bool, next: Command, write: bool)
    requires d.Valid() && d.Quiet() && t.write >= 1 && t.hold == 0 && c.toPrg
    ensures var r := Step(Run(d, StoreCycles(c, t, samples, t.Total())), Cycle(true, write, next, true));
            r.prg[r.PrgCell(next.address)] == next.data
  {
    StoreProgress(d, c, t, samples, t.Total());
  }

  // ----- Any schedule of stores -----

  /** One store and the idle cycles after it, when the bus may carry anything. */
  datatype Transfer = Transfer(word: bv32, timing: Timing, samples: nat -> bool, idle: seq<Cycle>)

  ghost predicate Sound(x: Transfer) {
    && x.timing.write >= 1 && x.timing.hold >= 1
    && Caught(x.timing, x.samples, x.timing.Total())
    && forall k :: 0 <= k < |x.idle| ==> !x.idle[k].selected
  }

  /** The cycles of one transfer. */
  function TransferCycles(x: Transfer): seq<Cycle> {
    StoreCycles(Decode(x.word), x.timing, x.samples, x.timing.Total()) + x.idle
  }

  function BusTrace(xs: seq<Transfer>): seq<Cycle> {
    if xs == [] then []
    else
      BusTrace(xs[..|xs| - 1]) + TransferCycles(xs[|xs| - 1])
  }

  function DecodeAll(ws: seq<bv32>): (cs: seq<Command>)
    ensures |cs| == |ws| && forall k :: 0 <= k < |ws| ==> cs[k] == Decode(ws[k])
  {
    seq(|ws|, k requires 0 <= k < |ws| => Decode(ws[k]))
  }

  function Words(xs: seq<Transfer>): (ws: seq<bv32>)
    ensures |ws| == |xs| && forall k :: 0 <= k < |ws| ==> ws[k] == xs[k].word
  {
    seq(|xs|, k requires 0 <= k < |xs| => xs[k].word)
  }

  /** The memory clock has an edge among any n consecutive bus cycles. */
  ghost predicate EdgeWithin(samples: nat -> bool, n: nat) {
    forall i: nat :: EdgeFrom(samples, i, n)
  }

  ghost predicate EdgeFrom(samples: nat -> bool, i: nat, n: nat) {
    exists j: nat :: i <= j < i + n && samples(j)
  }

  /** With the interconnect's timing no store is missed, if the memory clock is not eleven times slower. */
  lemma InterconnectCatches(samples: nat -> bool)
    requires EdgeWithin(samples, INTERCONNECT.write)
    ensures Caught(INTERCONNECT, samples, INTERCONNECT.Total())
  {
    var first: nat := INTERCONNECT.setup + 1;
    assert EdgeFrom(samples, first, INTERCONNECT.write);
    var j: nat :| first <= j < first + INTERCONNECT.write && samples(j);
    assert INTERCONNECT.WriteCycle(j - 1);
  }

  /** A bus trace on the interconnect whose memory clock edges are those of one global clock. */
  ghost predicate OnInterconnect(xs: seq<Transfer>, clock: nat -> bool) {
    && (forall k :: 0 <= k < |xs| ==> IsInterconnectStore(xs[k]))
    && ClockedBy(BusTrace(xs), clock)
  }

  /** The interconnect's timing, then any number of cycles without chip select. */
  predicate IsInterconnectStore(x: Transfer) {
    x.timing == INTERCONNECT && forall i :: 0 <= i < |x.idle| ==> !x.idle[i].selected
  }

  ghost predicate ClockedBy(cycles: seq<Cycle>, clock: nat -> bool) {
    forall t :: 0 <= t < |cycles| ==> cycles[t].sampled == clock(t)
  }

  /** A store on the interconnect, cycle by cycle: 5 of setup, 11 with the write line up, 5 of hold. */
  lemma InterconnectCycles(x: Transfer, i: nat)
    requires IsInterconnectStore(x) && i < |TransferCycles(x)|
    ensures |TransferCycles(x)| == 21 + |x.idle|
    ensures i < 21 ==> TransferCycles(x)[i] == Cycle(true, 5 <= i < 16, Decode(x.word), x.samples(i))
    ensures i >= 21 ==> !TransferCycles(x)[i].selected
  {
    hide Decode;
  }

  lemma EdgeWithinShift(clock: nat -> bool, start: nat, n: nat)
    requires EdgeWithin(clock, n)
    ensures EdgeWithin((i: nat) => clock(start + i), n)
  {
    var shifted := (i: nat) => clock(start + i);
    forall i: nat
      ensures EdgeFrom(shifted, i, n)
    {
      assert EdgeFrom(clock, start + i, n);
      var j: nat :| start + i <= j < start + i + n && clock(j);
      assert shifted(j - start);
    }
  }

  lemma CaughtSame(t: Timing, a: nat -> bool, b: nat -> bool, n: nat)
    requires Caught(t, a, n) && forall i: nat :: i < n ==> a(i) == b(i)
    ensures Caught(t, b, n)
  {
    var j: nat :| j < n && t.WriteCycle(j - 1) && a(j);
    assert b(j);
  }

  /** A store that starts at a given cycle of a global clock with an edge in every eleven cycles is not missed. */
  lemma InterconnectStoreSound(x: Transfer, start: nat, clock: nat -> bool)
    requires IsInterconnectStore(x) && EdgeWithin(clock, INTERCONNECT.write)
    requires forall i: nat :: i < INTERCONNECT.Total() ==> x.samples(i) == clock(start + i)
    ensures Sound(x)
  {
    var shifted := (i: nat) => clock(start + i);
    EdgeWithinShift(clock, start, INTERCONNECT.write);
    InterconnectCatches(shifted);
    CaughtSame(INTERCONNECT, shifted, x.samples, INTERCONNECT.Total());
  }

  /** The cycles of a trace's last transfer, in terms of the global clock. */
  lemma LastTransferClock(xs: seq<Transfer>, clock: nat -> bool, i: nat)
    requires xs != [] && OnInterconnect(xs, clock) && i < INTERCONNECT.Total()
    ensures xs[|xs| - 1].samples(i) == clock(|BusTrace(xs[..|xs| - 1])| + i)
  {
    hide Decode;
    var before, x := BusTrace(xs[..|xs| - 1]), xs[|xs| - 1];
    assert IsInterconnectStore(x);
    var store := StoreCycles(Decode(x.word), x.timing, x.samples, x.timing.Total());
    assert BusTrace(xs)[|before| + i] == store[i];
  }

  lemma FrontOnInterconnect(xs: seq<Transfer>, clock: nat -> bool)
    requires xs != [] && OnInterconnect(xs, clock)
    ensures OnInterconnect(xs[..|xs| - 1], clock)
  {
    hide Decode, IsInterconnectStore;
    var front := xs[..|xs| - 1];
    assert forall t :: 0 <= t < |BusTrace(front)| ==> BusTrace(xs)[t] == BusTrace(front)[t];
  }

  lemma LastStoreSound(xs: seq<Transfer>, clock: nat -> bool)
    requires xs != [] && OnInterconnect(xs, clock) && EdgeWithin(clock, INTERCONNECT.write)
    ensures Sound(xs[|xs| - 1])
  {
    var start, x := |BusTrace(xs[..|xs| - 1])|, xs[|xs| - 1];
    assert IsInterconnectStore(x);
    forall i: nat | i < INTERCONNECT.Total()
      ensures x.samples(i) == clock(start + i)
    {
      LastTransferClock(xs, clock, i);
    }
    hide Sound, EdgeWithin, OnInterconnect, BusTrace;
    InterconnectStoreSound(x, start, clock);
  }

  /** Under one global clock with an edge in every eleven cycles, no store of the trace is missed. */
  lemma {:induction false} InterconnectSound(xs: seq<Transfer>, clock: nat -> bool)
    requires OnInterconnect(xs, clock) && EdgeWithin(clock, INTERCONNECT.write)
    ensures forall k :: 0 <= k < |xs| ==> Sound(xs[k])
  {
    hide Sound, EdgeWithin, OnInterconnect;
    if xs != [] {
      FrontOnInterconnect(xs, clock);
      InterconnectSound(xs[..|xs| - 1], clock);
      LastStoreSound(xs, clock);
    }
  }

  /** Any stores, with any gaps between them, have such a trace under any clock. */
  lemma {:induction false} ScheduleExists(ws: seq<bv32>, gaps: nat -> nat, clock: nat -> bool)
    returns (xs: seq<Transfer>)
    ensures OnInterconnect(xs, clock) && Words(xs) == ws
    ensures forall k :: 0 <= k < |xs| ==> |xs[k].idle| == gaps(k)
  {
    if ws == [] {
      xs := [];
    } else {
      var k := |ws| - 1;
      var front := ScheduleExists(ws[..k], gaps, clock);
      var x := NextTransfer(front, ws[k], gaps(k), clock);
      xs := front + [x];
      hide OnInterconnect;
      assert Words(xs) == Words(front) + [ws[k]] == ws;
    }
  }

  /** One more store and the cycles after it. */
  lemma NextTransfer(front: seq<Transfer>, w: bv32, gap: nat, clock: nat -> bool) returns (x: Transfer)
    requires OnInterconnect(front, clock)
    ensures OnInterconnect(front + [x], clock) && x.word == w && |x.idle| == gap
  {
    hide Decode;
    var start := |BusTrace(front)|;
    var quiet := Command(false, 0, 0, None, None);
    var idle := seq(gap, i requires 0 <= i =>
                  Cycle(false, false, quiet, clock(start + INTERCONNECT.Total() + i)));
    x := Transfer(w, INTERCONNECT, (i: nat) => clock(start + i), idle);
    assert IsInterconnectStore(x);
    TransferClocked(x, start, clock);
    hide TransferCycles, IsInterconnectStore;
    TraceExtended(front, x, clock);
  }

  lemma TraceExtended(front: seq<Transfer>, x: Transfer, clock: nat -> bool)
    requires OnInterconnect(front, clock) && IsInterconnectStore(x)
    requires forall t :: 0 <= t < |TransferCycles(x)| ==>
               TransferCycles(x)[t].sampled == clock(|BusTrace(front)| + t)
    ensures OnInterconnect(front + [x], clock)
  {
    hide TransferCycles, IsInterconnectStore;
    AppendClocked(BusTrace(front), TransferCycles(x), clock);
    hide ClockedBy;
    assert (front + [x])[..|front|] == front;
  }

  lemma TransferClocked(x: Transfer, start: nat, clock: nat -> bool)
    requires forall i: nat :: i < x.timing.Total() ==> x.samples(i) == clock(start + i)
    requires forall i :: 0 <= i < |x.idle| ==> x.idle[i].sampled == clock(start + x.timing.Total() + i)
    ensures forall t :: 0 <= t < |TransferCycles(x)| ==> TransferCycles(x)[t].sampled == clock(start + t)
  {
    hide Decode;
  }

  lemma AppendClocked(a: seq<Cycle>, b: seq<Cycle>, clock: nat -> bool)
    requires ClockedBy(a, clock)
    requires forall t :: 0 <= t < |b| ==> b[t].sampled == clock(|a| + t)
    ensures ClockedBy(a + b, clock)
  {
  }

  /** The board's memory clock is 43/100 of the bus clock, at some phase. */
  function BoardClock(phase: nat): nat -> bool {
    (t: nat) => (43 * t + phase) % 100 >= 57
  }

  lemma Advance(t: nat)
    ensures (t + 43) % 100 == if t % 100 < 57 then t % 100 + 43 else t % 100 - 57
  {
  }

  /** How many edges fall in n bus cycles from a given one. */
  function EdgeCount(clock: nat -> bool, from: nat, n: nat): nat {
    if n == 0 then 0 else EdgeCount(clock, from, n - 1) + if clock(from + n - 1) then 1 else 0
  }

  lemma {:induction false} BoardClockCount(phase: nat, from: nat, n: nat)
    ensures EdgeCount(BoardClock(phase), from, n) == (43 * (from + n) + phase) / 100 - (43 * from + phase) / 100
  {
    if n > 0 {
      BoardClockCount(phase, from, n - 1);
      Advance(43 * (from + n - 1) + phase);
      assert 43 * (from + n) + phase == 43 * (from + n - 1) + phase + 43;
    }
  }

  /** It has exactly 43 edges in any 100 bus cycles. */
  lemma BoardClockRate(phase: nat, from: nat)
    ensures EdgeCount(BoardClock(phase), from, 100) == 43
  {
    BoardClockCount(phase, from, 100);
    assert 43 * (from + 100) + phase == 43 * from + phase + 100 * 43;
  }

  lemma ThreeCycles(phase: nat, i: nat)
    ensures BoardClock(phase)(i) || BoardClock(phase)(i + 1) || BoardClock(phase)(i + 2)
  {
    var t := 43 * i + phase;
    Advance(t);
    Advance(t + 43);
    assert 43 * (i + 1) + phase == t + 43 && 43 * (i + 2) + phase == t + 43 + 43;
  }

  /** It has an edge in every three bus cycles, so in every eleven. */
  lemma BoardClockKeepsPace(phase: nat)
    ensures EdgeWithin(BoardClock(phase), INTERCONNECT.write)
  {
    var clock := BoardClock(phase);
    forall i: nat
      ensures EdgeFrom(clock, i, INTERCONNECT.write)
    {
      ThreeCycles(phase, i);
      hide BoardClock;
      assert clock(i) || clock(i + 1) || clock(i + 2);
    }
  }

  lemma {:induction false} RunAppend(d: Rom, a: seq<Cycle>, b: seq<Cycle>)
    requires d.Valid()
    ensures Run(d, a + b) == Run(Run(d, a), b)
  {
    if b == [] {
      assert a + b == a;
    } else {
      RunAppend(d, a, b[..|b| - 1]);
      assert (a + b)[..|a + b| - 1] == a + b[..|b| - 1];
    }
  }

  lemma {:induction false} IdleKeeps(d: Rom, idle: seq<Cycle>)
    requires d.Valid() && d.Quiet()
    requires forall k :: 0 <= k < |idle| ==> !idle[k].selected
    ensures Run(d, idle) == d
  {
    if idle != [] {
      IdleKeeps(d, idle[..|idle| - 1]);
    }
  }

  lemma {:induction false} ExecAllQuiet(d: Rom, cs: seq<Command>)
    requires d.Valid() && d.Quiet()
    ensures ExecAll(d, cs).Quiet()
  {
  }

  /** Whatever the clocks do, the hardware carries out exactly the stores, in order. */
  lemma {:induction false} BusRefines(d: Rom, xs: seq<Transfer>)
    requires d.Valid() && d.Quiet() && forall k :: 0 <= k < |xs| ==> Sound(xs[k])
    ensures Run(d, BusTrace(xs)) == ExecAll(d, DecodeAll(Words(xs)))
  {
    if xs != [] {
      var front, x := xs[..|xs| - 1], xs[|xs| - 1];
      BusRefines(d, front);
      var before := DecodeAll(Words(front));
      assert DecodeAll(Words(xs))[..|xs| - 1] == before;
      ExecAllQuiet(d, before);
      RunTransfer(ExecAll(d, before), x);
      RunAppend(d, BusTrace(front), TransferCycles(x));
    }
  }

  lemma RunTransfer(d: Rom, x: Transfer)
    requires d.Valid() && d.Quiet() && Sound(x)
    ensures Run(d, TransferCycles(x)) == Exec(d, Decode(x.word))
  {
    var c := Decode(x.word);
    RunAppend(d, StoreCycles(c, x.timing, x.samples, x.timing.Total()), x.idle);
    StoreRefines(d, c, x.timing, x.samples);
    IdleKeeps(Exec(d, c), x.idle);
  }

  /** A powered-up device is quiet after one cycle without chip select. */
  lemma IdleQuiets(d: Rom, cycle: Cycle)
    requires d.Valid() && !cycle.selected
    ensures Step(d, cycle).Quiet()
  {
  }

  lemma {:induction false} ExecAllAppend(d: Rom, a: seq<Command>, b: seq<Command>)
    requires d.Valid()
    ensures ExecAll(d, a + b) == ExecAll(ExecAll(d, a), b)
  {
    if b == [] {
      assert a + b == a;
    } else {
      ExecAllAppend(d, a, b[..|b| - 1]);
      assert (a + b)[..|a + b| - 1] == a + b[..|b| - 1];
    }
  }
}
