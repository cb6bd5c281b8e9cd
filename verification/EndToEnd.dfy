/**
 * The whole delivery: NES file, C text, values, command words, bus cycles, device memory, and what
 * the CPU then reads.
 */
module EndToEnd {
  import opened Basics
  import opened NesConvert
  import opened CReader
  import opened RoundTrip
  import opened RomProgrammer
  import opened RomDevice
  import opened Programming

  /** The CPU reads PRG memory with the same address decoding as the programmer (PRG_ROM.sv). */
  function CpuRead(d: Rom, address: u16): bv8
    requires d.Valid()
  {
    d.prg[d.PrgCell(address)]
  }

  /** The stores that `main` issues when compiled with this header, which defines the four names it uses. */
  function Compiled(text: string, dialect: Dialect): Option<seq<bv32>> {
    match Read(text, dialect)
    case None => None
    case Some(h) =>
      if |h| == 4 && h[2].CharArray? && h[3].CharArray?
         && h[0] == IntDecl(PRG_SIZE, |h[2].data|) && h[1] == IntDecl(CHR_SIZE, |h[3].data|)
         && h[2].name == PRG_DATA && h[3].name == CHR_DATA then Some(Stream(h[2].data, h[3].data))
      else None
  }

  // ----- Which iteration is the last to write a cell -----

  predicate Congruent(k: int, m: nat, o: nat)
    requires m > 0
  {
    k % m == o
  }

  lemma CongruentHit(m: nat, size: nat, k: nat, o: nat)
    requires (m == 0x8000 || m == 0x1_0000) && size != MIRRORED_SIZE && o < m
    ensures PrgHits(m, size, k, (0x8000 + o) % m) <==> Congruent(k, m, o)
  {
    if m == 0x8000 {
      HalfTurn(k);
    } else {
      FullTurn(k, o);
    }
  }

  lemma HalfTurn(k: nat)
    ensures (0x8000 + k) % 0x1_0000 % 0x8000 == k % 0x8000
  {
  }

  lemma FullTurn(k: nat, o: nat)
    requires o < 0x1_0000
    ensures (0x8000 + k) % 0x1_0000 == (0x8000 + o) % 0x1_0000 <==> k % 0x1_0000 == o
  {
  }

  /** The largest index below size that is o modulo m. */
  function LastCongruent(m: nat, size: nat, o: nat): (k: int)
    requires m == 0x2000 || m == 0x8000 || m == 0x1_0000
    requires o < m && o < size
    ensures 0 <= k < size && Congruent(k, m, o)
    ensures forall j :: k < j < size ==> !Congruent(j, m, o)
    ensures size <= m ==> k == o
  {
    var k := o + m * ((size - 1 - o) / m);
    LastCongruentIsLast(m, size, o, k);
    k
  }

  lemma LastCongruentIsLast(m: nat, size: nat, o: nat, k: int)
    requires m == 0x2000 || m == 0x8000 || m == 0x1_0000
    requires o < m && o < size && k == o + m * ((size - 1 - o) / m)
    ensures 0 <= k < size && Congruent(k, m, o)
    ensures forall j :: k < j < size ==> !Congruent(j, m, o)
    ensures size <= m ==> k == o
  {
    if
    case m == 0x2000 => NextCongruent2000(o, k, size);
    case m == 0x8000 => NextCongruent8000(o, k, size);
    case m == 0x1_0000 => NextCongruent10000(o, k, size);
  }

  lemma NextCongruent2000(o: nat, k: int, size: nat)
    requires o < 0x2000 && o < size && k == o + 0x2000 * ((size - 1 - o) / 0x2000)
    ensures 0 <= k < size && k % 0x2000 == o && forall j :: k < j < size ==> j % 0x2000 != o
  {
  }

  lemma NextCongruent8000(o: nat, k: int, size: nat)
    requires o < 0x8000 && o < size && k == o + 0x8000 * ((size - 1 - o) / 0x8000)
    ensures 0 <= k < size && k % 0x8000 == o && forall j :: k < j < size ==> j % 0x8000 != o
  {
  }

  lemma NextCongruent10000(o: nat, k: int, size: nat)
    requires o < 0x1_0000 && o < size && k == o + 0x1_0000 * ((size - 1 - o) / 0x1_0000)
    ensures 0 <= k < size && k % 0x1_0000 == o && forall j :: k < j < size ==> j % 0x1_0000 != o
  {
  }

  /**
   * The byte of a PRG image of any size that ends up o cells above 0x8000, going round the memory:
   * None where no iteration writes.
   */
  function PrgIndex(m: nat, size: nat, o: nat): (k: Option<nat>)
    requires (m == 0x8000 || m == 0x1_0000) && o < m
    ensures k.Some? ==> k.value < size
    ensures o < 0x8000 && (size == MIRRORED_SIZE || size >= 0x8000) ==> k.Some?
    ensures size == MIRRORED_SIZE && o < 0x8000 ==> k == Some(o % 0x4000)
    ensures size == 0x8000 && o < 0x8000 ==> k == Some(o)
  {
    if size == MIRRORED_SIZE then if o < 0x8000 then Some(o % MIRRORED_SIZE) else None
    else if o < size then Some(LastCongruent(m, size, o))
    else None
  }

  /** The last hit on a cell that is hit exactly at the indices congruent to o. */
  lemma LastHit(m: nat, size: nat, o: nat, cell: nat)
    requires (m == 0x8000 || m == 0x1_0000) && o < m
    requires forall j: nat :: j < size ==> (PrgHits(m, size, j, cell) <==> Congruent(j, m, o))
    ensures PrgWriter(m, size, size, cell) == if o < size then Some(LastCongruent(m, size, o)) else None
  {
    hide LastCongruent, Congruent, PrgHits, PrgWriter;
    var k := PrgWriter(m, size, size, cell);
    if o < size {
      var last := LastCongruent(m, size, o);
      assert PrgHits(m, size, last, cell);
      assert k.Some? && k.value >= last;
      assert Congruent(k.value, m, o);
    } else {
      forall j: nat | j < size
        ensures !Congruent(j, m, o)
      {
        BelowPeriod(j, m, o);
      }
    }
  }

  lemma LastCongruentWrites(m: nat, size: nat, o: nat)
    requires (m == 0x8000 || m == 0x1_0000) && o < m
    requires size != MIRRORED_SIZE
    ensures PrgWriter(m, size, size, (0x8000 + o) % m) == if o < size then Some(LastCongruent(m, size, o)) else None
  {
    hide LastCongruent, Congruent, PrgHits, PrgWriter;
    forall j: nat | j < size
      ensures PrgHits(m, size, j, (0x8000 + o) % m) <==> Congruent(j, m, o)
    {
      CongruentHit(m, size, j, o);
    }
    LastHit(m, size, o, (0x8000 + o) % m);
  }

  lemma MirrorMisses(j: nat, o: nat)
    requires j < MIRRORED_SIZE && 0x8000 <= o < 0x1_0000
    ensures !PrgHits(0x1_0000, MIRRORED_SIZE, j, (0x8000 + o) % 0x1_0000)
  {
  }

  /** The last iteration to write any cell, for a PRG image of any size. */
  lemma PrgIndexWrites(m: nat, size: nat, o: nat)
    requires (m == 0x8000 || m == 0x1_0000) && o < m
    ensures PrgWriter(m, size, size, (0x8000 + o) % m) == PrgIndex(m, size, o)
  {
    hide LastCongruent, PrgWriter;
    if size != MIRRORED_SIZE {
      LastCongruentWrites(m, size, o);
    } else if o < 0x8000 {
      var j := o % MIRRORED_SIZE;
      assert o == j || o == MIRRORED_SIZE + j;
      MirrorWriter(m, size, j);
    } else {
      var cell := (0x8000 + o) % 0x1_0000;
      forall j: nat | j < MIRRORED_SIZE
        ensures !PrgHits(0x1_0000, MIRRORED_SIZE, j, cell)
      {
        MirrorMisses(j, o);
      }
      hide PrgHits;
    }
  }

  lemma ChrCongruentHit(d: Rom, k: nat, c: nat)
    requires d.Valid() && c < |d.chr|
    ensures d.ChrCell(k % 0x1_0000) == Some(c) <==> Congruent(k, ChrPeriod(d), c)
  {
    EighthTurn(k);
  }

  lemma EighthTurn(k: nat)
    ensures k % 0x1_0000 % 0x2000 == k % 0x2000
  {
  }

  lemma ChrIndexWrites(d: Rom, size: nat, c: nat)
    requires d.Valid() && c < |d.chr|
    ensures ChrWriter(d, size, c) == if c < size then Some(LastCongruent(ChrPeriod(d), size, c)) else None
  {
    hide LastCongruent, ChrWriter, ChrPeriod, Congruent;
    var p := ChrPeriod(d);
    forall j: nat
      ensures d.ChrCell(j % 0x1_0000) == Some(c) <==> Congruent(j, p, c)
    {
      ChrCongruentHit(d, j, c);
    }
    hide Rom.ChrCell;
    var k := ChrWriter(d, size, c);
    if c < size {
      var last := LastCongruent(p, size, c);
      assert d.ChrCell(last % 0x1_0000) == Some(c);
      assert k.Some? && k.value >= last;
      assert Congruent(k.value, p, c);
    } else {
      forall j: nat | j < size
        ensures !Congruent(j, p, c)
      {
        BelowPeriod(j, p, c);
      }
    }
  }

  lemma BelowPeriod(j: nat, p: nat, c: nat)
    requires j < c < p
    ensures !Congruent(j, p, c)
  {
  }

  // ----- The theorem -----

  /** What the header compiles to: the program's stores for the two slices of the file. */
  lemma CompiledStores(file: seq<byte>, dialect: Dialect)
    requires HasMagic(file) && Complete(file) && BanksAllowed(file, dialect)
    ensures Compiled(Emitted(file), dialect)
            == Some(Stream(Slice(file, PRG_OFFSET, PrgSize(file)), Slice(file, ChrOffset(file), ChrSize(file))))
  {
    hide Emitted, Read, Stream;
    RoundTripExactly(file, dialect);
  }

  function FileByte(file: seq<byte>, k: nat): bv8 {
    ToU8(ByteAt(file, k))
  }

  /** One byte's path: file, hex digits, signed char, alt_u8. */
  lemma SliceByte(file: seq<byte>, offset: nat, n: nat, k: nat)
    requires offset + n <= |file| && k < n
    ensures ToU8(Slice(file, offset, n)[k]) == FileByte(file, offset + k)
  {
    CharRoundTrip(file[offset + k]);
  }

  /** A file, a device and a bus schedule that carries the file's stores to the device. */
  ghost predicate Delivery(file: seq<byte>, dialect: Dialect, d: Rom, xs: seq<Transfer>) {
    && HasMagic(file) && Complete(file) && BanksAllowed(file, dialect)
    && d.Valid() && d.Quiet() && (forall k :: 0 <= k < |xs| ==> Sound(xs[k]))
    && Compiled(Emitted(file), dialect) == Some(Words(xs))
  }

  /** The CPU sees the file's PRG bytes in 0x8000..0xFFFF; with one or two banks, modulo their size. */
  ghost predicate CpuSees(file: seq<byte>, r: Rom) {
    && r.Valid()
    && (PrgSize(file) > 0 ==>
          forall a: u16 :: 0x8000 <= a ==>
            && CpuRead(r, a) == FileByte(file, PRG_OFFSET + PrgIndex(|r.prg|, PrgSize(file), a - 0x8000).value)
            && (PrgSize(file) <= 0x8000 ==>
                  CpuRead(r, a) == FileByte(file, PRG_OFFSET + (a - 0x8000) % PrgSize(file))))
  }

  /**
   * Every PRG cell, o cells above 0x8000 going round the memory: it holds the byte of its last writer,
   * or what it held before when there is none, but for cell zero, which the mode word clears.
   */
  ghost predicate PrgHolds(file: seq<byte>, d: Rom, r: Rom) {
    && d.Valid() && |r.prg| == |d.prg|
    && forall o :: 0 <= o < |d.prg| ==> PrgCellHolds(file, d, r, o)
  }

  ghost predicate PrgCellHolds(file: seq<byte>, d: Rom, r: Rom, o: nat)
    requires d.Valid() && o < |d.prg| == |r.prg|
  {
    var cell := (0x8000 + o) % |d.prg|;
    match PrgIndex(|d.prg|, PrgSize(file), o)
    case Some(k) => r.prg[cell] == FileByte(file, PRG_OFFSET + k)
    case None => r.prg[cell] == if cell == 0 then 0 else d.prg[cell]
  }

  /**
   * A CHR cell that the image reaches holds the byte of its last writer, any other is kept. So an
   * image up to the period stands cell for cell, and a truncating memory ends up with the last bank.
   */
  ghost predicate ChrHolds(file: seq<byte>, d: Rom, r: Rom) {
    && d.Valid() && |r.chr| == |d.chr|
    && forall c :: 0 <= c < |r.chr| ==> ChrCellHolds(file, d, r.chr[c], c)
  }

  ghost predicate ChrCellHolds(file: seq<byte>, d: Rom, b: bv8, c: nat)
    requires d.Valid() && c < |d.chr|
  {
    var size, offset, period := ChrSize(file), ChrOffset(file), ChrPeriod(d);
    && b == (if c < size then FileByte(file, offset + LastCongruent(period, size, c)) else d.chr[c])
    && (c < size <= period ==> b == FileByte(file, offset + c))
    && (period == 0x2000 < size ==> b == FileByte(file, offset + size - 0x2000 + c))
  }

  lemma PrgHoldsProgrammed(file: seq<byte>, d: Rom, chr: seq<schar>)
    requires d.Valid() && Complete(file)
    ensures PrgHolds(file, d, Programmed(d, Slice(file, PRG_OFFSET, PrgSize(file)), chr))
  {
    var r := Programmed(d, Slice(file, PRG_OFFSET, PrgSize(file)), chr);
    forall o | 0 <= o < |d.prg|
      ensures PrgCellHolds(file, d, r, o)
    {
      PrgCellProgrammed(file, d, chr, o);
    }
  }

  lemma PrgCellProgrammed(file: seq<byte>, d: Rom, chr: seq<schar>, o: nat)
    requires d.Valid() && Complete(file) && o < |d.prg|
    ensures var r := Programmed(d, Slice(file, PRG_OFFSET, PrgSize(file)), chr);
            PrgCellHolds(file, d, r, o)
  {
    hide ToU8, Slice, PrgWriter, PrgHits, PrgIndex, LastCongruent, ChrCells, FileByte;
    PrgIndexWrites(|d.prg|, PrgSize(file), o);
    var k := PrgIndex(|d.prg|, PrgSize(file), o);
    if k.Some? {
      SliceByte(file, PRG_OFFSET, PrgSize(file), k.value);
    }
  }

  lemma CpuSeesHeld(file: seq<byte>, d: Rom, r: Rom)
    requires r.Valid() && PrgHolds(file, d, r)
    ensures CpuSees(file, r)
  {
    var size, m := PrgSize(file), |r.prg|;
    forall a: u16 | 0x8000 <= a && size > 0
      ensures CpuRead(r, a) == FileByte(file, PRG_OFFSET + PrgIndex(m, size, a - 0x8000).value)
    {
      CpuSeesCell(file, d, r, a);
    }
    forall o: nat | o < 0x8000 && 0 < size <= 0x8000
      ensures PrgIndex(m, size, o) == Some(o % size)
    {
      SmallIndex(m, size, o);
    }
    hide FileByte, PrgIndex, CpuRead, PrgHolds;
  }

  lemma CpuSeesCell(file: seq<byte>, d: Rom, r: Rom, a: u16)
    requires r.Valid() && PrgHolds(file, d, r) && 0x8000 <= a && PrgSize(file) > 0
    ensures CpuRead(r, a) == FileByte(file, PRG_OFFSET + PrgIndex(|r.prg|, PrgSize(file), a - 0x8000).value)
  {
    hide FileByte, PrgIndex;
    var o := a - 0x8000;
    assert PrgCellHolds(file, d, r, o);
    assert (0x8000 + o) % |r.prg| == r.PrgCell(a);
  }

  lemma SmallIndex(m: nat, size: nat, o: nat)
    requires (m == 0x8000 || m == 0x1_0000) && (size == 0x4000 || size == 0x8000) && o < 0x8000
    ensures PrgIndex(m, size, o) == Some(o % size)
  {
    hide PrgIndex;
    if size == 0x4000 {
      assert o % size == o % 0x4000;
    } else {
      assert o % size == o % 0x8000;
    }
  }

  lemma ChrHoldsProgrammed(file: seq<byte>, d: Rom, prg: seq<schar>)
    requires d.Valid() && Complete(file)
    ensures ChrHolds(file, d, Programmed(d, prg, Slice(file, ChrOffset(file), ChrSize(file))))
  {
    var image := Slice(file, ChrOffset(file), ChrSize(file));
    var r := Programmed(d, prg, image);
    forall c | 0 <= c < |r.chr|
      ensures ChrCellHolds(file, d, r.chr[c], c)
    {
      hide ToU8, Slice, PrgCells, ChrCells, ChrCellHolds;
      ChrCellProgrammed(file, Cleared(d), c);
      SamePeriod(file, d, Cleared(d), r.chr[c], c);
    }
  }

  lemma SamePeriod(file: seq<byte>, d: Rom, e: Rom, b: bv8, c: nat)
    requires d.Valid() && e.Valid() && c < |d.chr| && e.chr == d.chr && e.chrTruncates == d.chrTruncates
    requires ChrCellHolds(file, e, b, c)
    ensures ChrCellHolds(file, d, b, c)
  {
    hide LastCongruent, FileByte;
  }

  lemma ChrCellProgrammed(file: seq<byte>, d: Rom, c: nat)
    requires d.Valid() && Complete(file) && c < |d.chr|
    ensures var size, offset := ChrSize(file), ChrOffset(file);
            ChrCellHolds(file, d, ChrCells(d, Slice(file, offset, size), size)[c], c)
  {
    hide ToU8, Slice, ChrWriter, LastCongruent, FileByte;
    var size, offset := ChrSize(file), ChrOffset(file);
    ChrIndexWrites(d, size, c);
    if c < size {
      SliceByte(file, offset, size, LastCongruent(ChrPeriod(d), size, c));
    }
    if ChrPeriod(d) == 0x2000 < size {
      LastBank(size, c);
    }
  }

  lemma LastBank(size: nat, c: nat)
    requires c < 0x2000 < size && size % 0x2000 == 0
    ensures LastCongruent(0x2000, size, c) == size - 0x2000 + c
  {
    assert (size - 0x2000 + c) % 0x2000 == c;
  }

  /** The device after delivery is exactly the one that the two slices of the file program. */
  lemma DeliveredDevice(file: seq<byte>, dialect: Dialect, d: Rom, xs: seq<Transfer>)
    requires Delivery(file, dialect, d, xs)
    ensures Run(d, BusTrace(xs))
            == Programmed(d, Slice(file, PRG_OFFSET, PrgSize(file)), Slice(file, ChrOffset(file), ChrSize(file)))
  {
    hide Emitted, Compiled, Stream, Run, BusTrace, Programmed;
    CompiledStores(file, dialect);
    BusRefines(d, xs);
    StreamEffect(d, Slice(file, PRG_OFFSET, PrgSize(file)), Slice(file, ChrOffset(file), ChrSize(file)));
  }

  /**
   * End to end: for every complete NES file, every bus schedule and every phase of the memory clock,
   * each PRG and CHR cell holds the file's byte of its last writer or is kept (PRG cell zero: cleared),
   * the CPU reads the PRG bytes back, and the modes stand at vertical mirroring and CHR ROM.
   */
  lemma FileDelivered(file: seq<byte>, dialect: Dialect, d: Rom, xs: seq<Transfer>)
    requires Delivery(file, dialect, d, xs)
    ensures var r := Run(d, BusTrace(xs));
            && CpuSees(file, r) && PrgHolds(file, d, r) && ChrHolds(file, d, r)
            && r.mirroring && !r.chrRam && r.Quiet()
  {
    hide CpuSees, PrgHolds, ChrHolds, Run, BusTrace;
    DeliveredDevice(file, dialect, d, xs);
    PrgHoldsProgrammed(file, d, Slice(file, ChrOffset(file), ChrSize(file)));
    CpuSeesHeld(file, d, Run(d, BusTrace(xs)));
    ChrHoldsProgrammed(file, d, Slice(file, PRG_OFFSET, PrgSize(file)));
  }

  /**
   * In particular on the generated interconnect, with any idle cycles between the stores, under any
   * one memory clock that has an edge in every eleven bus cycles.
   */
  lemma FileDeliveredByInterconnect(file: seq<byte>, dialect: Dialect, d: Rom, xs: seq<Transfer>, clock: nat -> bool)
    requires HasMagic(file) && Complete(file) && BanksAllowed(file, dialect)
    requires d.Valid() && d.Quiet() && OnInterconnect(xs, clock) && EdgeWithin(clock, 11)
    requires Compiled(Emitted(file), dialect) == Some(Words(xs))
    ensures var r := Run(d, BusTrace(xs));
            && CpuSees(file, r) && PrgHolds(file, d, r) && ChrHolds(file, d, r)
            && r.mirroring && !r.chrRam && r.Quiet()
  {
    hide Emitted, Compiled, Run, BusTrace, CpuSees, PrgHolds, ChrHolds, EdgeWithin, OnInterconnect, Sound;
    InterconnectSound(xs, clock);
    FileDelivered(file, dialect, d, xs);
  }

  /**
   * So the board delivers every complete file, at every phase of its own memory clock and with any
   * gaps between stores.
   */
  lemma FileDeliveredOnBoard(file: seq<byte>, dialect: Dialect, d: Rom, phase: nat, gaps: nat -> nat)
    returns (xs: seq<Transfer>)
    requires HasMagic(file) && Complete(file) && BanksAllowed(file, dialect)
    requires d.Valid() && d.Quiet()
    ensures Compiled(Emitted(file), dialect) == Some(Words(xs))
    ensures OnInterconnect(xs, BoardClock(phase)) && forall k :: 0 <= k < |xs| ==> |xs[k].idle| == gaps(k)
    ensures var r := Run(d, BusTrace(xs));
            && CpuSees(file, r) && PrgHolds(file, d, r) && ChrHolds(file, d, r)
            && r.mirroring && !r.chrRam && r.Quiet()
  {
    hide Emitted, Compiled, Stream, Run, BusTrace, CpuSees, PrgHolds, ChrHolds, EdgeWithin, OnInterconnect, BoardClock;
    CompiledStores(file, dialect);
    xs := ScheduleExists(Compiled(Emitted(file), dialect).value, gaps, BoardClock(phase));
    BoardClockKeepsPace(phase);
    FileDeliveredByInterconnect(file, dialect, d, xs, BoardClock(phase));
  }

  // ----- The same for a file built from its parts -----

  /**
   * The PRG image in the memory: 16 KB stand twice, of any other image the last bytes that the memory can
   * hold stand from 0x8000 on, going round, and what no byte reaches is kept, but for cell zero.
   */
  ghost predicate PrgLands(d: Rom, r: Rom, prg: seq<byte>) {
    && |d.prg| > 0 && |r.prg| == |d.prg|
    && (forall j :: 0 <= j < |prg| == 16384 ==>
          && r.prg[(0x8000 + j) % |d.prg|] == ToU8(prg[j])
          && r.prg[(0xC000 + j) % |d.prg|] == ToU8(prg[j]))
    && (forall j :: 0 <= j < |prg| != 16384 && |prg| <= j + |d.prg| ==>
          r.prg[(0x8000 + j) % |d.prg|] == ToU8(prg[j]))
    && (forall o :: (if |prg| == 16384 then 32768 else |prg|) <= o < |d.prg| ==> CellKept(d, r, o))
  }

  /** The PRG cell o cells above 0x8000 is kept; cell zero is cleared by the mode word. */
  ghost predicate CellKept(d: Rom, r: Rom, o: nat)
    requires o < |d.prg| == |r.prg|
  {
    var cell := (0x8000 + o) % |d.prg|;
    r.prg[cell] == if cell == 0 then 0 else d.prg[cell]
  }

  /** The CHR image, where indices repeat after 8 KB in a memory of 8 KB that truncates, and else after 64 KB. */
  ghost predicate ChrLands(d: Rom, r: Rom, chr: seq<byte>) {
    var period := if |d.chr| == 8192 && d.chrTruncates then 8192 else 65536;
    && |r.chr| == |d.chr|
    && (forall j :: 0 <= j < |chr| <= j + period && j % period < |d.chr| ==> r.chr[j % period] == ToU8(chr[j]))
    && (forall c :: |chr| <= c < |d.chr| ==> r.chr[c] == d.chr[c])
  }

  lemma LastLanding(m: nat, size: nat, j: nat)
    requires (m == 0x8000 || m == 0x1_0000) && size != 16384 && j < size <= j + m
    ensures PrgIndex(m, size, j % m) == Some(j) && (0x8000 + j % m) % m == (0x8000 + j) % m
  {
    if m == 0x8000 {
      LastOf8000(j, size, LastCongruent(0x8000, size, j % 0x8000));
    } else {
      LastOf10000(j, size, LastCongruent(0x1_0000, size, j % 0x1_0000));
    }
  }

  lemma LastOf8000(j: nat, size: nat, k: nat)
    requires k < size <= j + 0x8000 && j < size && k % 0x8000 == j % 0x8000 && j <= k
    ensures j == k && (0x8000 + j % 0x8000) % 0x8000 == (0x8000 + j) % 0x8000
  {
  }

  lemma LastOf10000(j: nat, size: nat, k: nat)
    requires k < size <= j + 0x1_0000 && j < size && k % 0x1_0000 == j % 0x1_0000 && j <= k
    ensures j == k && (0x8000 + j % 0x1_0000) % 0x1_0000 == (0x8000 + j) % 0x1_0000
  {
  }

  lemma LastOf2000(j: nat, size: nat, k: nat)
    requires k < size <= j + 0x2000 && j < size && k % 0x2000 == j % 0x2000 && j <= k
    ensures j == k
  {
  }

  lemma ImageByte(file: seq<byte>, offset: nat, data: seq<byte>, k: nat)
    requires offset + |data| <= |file| && file[offset..offset + |data|] == data && k < |data|
    ensures FileByte(file, offset + k) == ToU8(data[k])
  {
    assert data[k] == file[offset + k];
  }

  lemma PrgMirrorLands(file: seq<byte>, d: Rom, r: Rom, prg: seq<byte>, j: nat)
    requires PrgHolds(file, d, r) && PrgSize(file) == |prg| && PRG_OFFSET == 16
    requires 16 + |prg| <= |file| && file[16..16 + |prg|] == prg && j < |prg|
    requires |prg| == 16384
    ensures r.prg[(0x8000 + j) % |d.prg|] == ToU8(prg[j]) && r.prg[(0xC000 + j) % |d.prg|] == ToU8(prg[j])
  {
    hide FileByte, PrgIndex, ToU8;
    ImageByte(file, 16, prg, j);
    assert PrgCellHolds(file, d, r, j);
    assert PrgCellHolds(file, d, r, 0x4000 + j);
  }

  lemma PrgLastLands(file: seq<byte>, d: Rom, r: Rom, prg: seq<byte>, j: nat)
    requires PrgHolds(file, d, r) && PrgSize(file) == |prg| && PRG_OFFSET == 16
    requires 16 + |prg| <= |file| && file[16..16 + |prg|] == prg && j < |prg|
    requires |prg| != 16384 && |prg| <= j + |d.prg|
    ensures r.prg[(0x8000 + j) % |d.prg|] == ToU8(prg[j])
  {
    hide FileByte, PrgIndex, ToU8;
    ImageByte(file, 16, prg, j);
    LastLanding(|d.prg|, |prg|, j);
    assert PrgCellHolds(file, d, r, j % |d.prg|);
  }

  lemma PrgLandsHeld(file: seq<byte>, d: Rom, r: Rom, prg: seq<byte>)
    requires PrgHolds(file, d, r) && PrgSize(file) == |prg| && PRG_OFFSET == 16
    requires 16 + |prg| <= |file| && file[16..16 + |prg|] == prg
    ensures PrgLands(d, r, prg)
  {
    forall j | 0 <= j < |prg|
      ensures |prg| == 16384 ==> r.prg[(0x8000 + j) % |d.prg|] == ToU8(prg[j])
      ensures |prg| == 16384 ==> r.prg[(0xC000 + j) % |d.prg|] == ToU8(prg[j])
      ensures |prg| != 16384 && |prg| <= j + |d.prg| ==> r.prg[(0x8000 + j) % |d.prg|] == ToU8(prg[j])
    {
      if |prg| == 16384 {
        PrgMirrorLands(file, d, r, prg, j);
      } else if |prg| <= j + |d.prg| {
        PrgLastLands(file, d, r, prg, j);
      }
    }
    forall o | (if |prg| == 16384 then 32768 else |prg|) <= o < |d.prg|
      ensures CellKept(d, r, o)
    {
      assert PrgCellHolds(file, d, r, o);
    }
    hide PrgHolds, ToU8;
  }

  lemma ChrLanding(period: nat, size: nat, j: nat)
    requires (period == 0x2000 || period == 0x1_0000) && j < size <= j + period
    ensures j % period < size && LastCongruent(period, size, j % period) == j
  {
    hide LastCongruent;
    if period == 0x2000 {
      var k := LastCongruent(0x2000, size, j % 0x2000);
      assert Congruent(j, 0x2000, j % 0x2000);
      LastOf2000(j, size, k);
    } else {
      var k := LastCongruent(0x1_0000, size, j % 0x1_0000);
      assert Congruent(j, 0x1_0000, j % 0x1_0000);
      LastOf10000(j, size, k);
    }
  }

  lemma ChrByteLands(file: seq<byte>, d: Rom, r: Rom, chr: seq<byte>, offset: nat, period: nat, j: nat)
    requires ChrHolds(file, d, r) && ChrSize(file) == |chr| && ChrOffset(file) == offset
    requires offset + |chr| <= |file| && file[offset..offset + |chr|] == chr
    requires period == if |d.chr| == 8192 && d.chrTruncates then 8192 else 65536
    requires j < |chr| <= j + period && j % period < |d.chr|
    ensures r.chr[j % period] == ToU8(chr[j])
  {
    ImageByte(file, offset, chr, j);
    assert ChrPeriod(d) == period;
    ChrLanding(period, |chr|, j);
    hide FileByte, ToU8, LastCongruent, ChrPeriod;
    var c := j % period;
    assert ChrCellHolds(file, d, r.chr[c], c);
  }

  lemma ChrLandsHeld(file: seq<byte>, d: Rom, r: Rom, chr: seq<byte>, offset: nat)
    requires ChrHolds(file, d, r) && ChrSize(file) == |chr| && ChrOffset(file) == offset
    requires offset + |chr| <= |file| && file[offset..offset + |chr|] == chr
    ensures ChrLands(d, r, chr)
  {
    var period := if |d.chr| == 8192 && d.chrTruncates then 8192 else 65536;
    forall j | 0 <= j < |chr| <= j + period && j % period < |d.chr|
      ensures r.chr[j % period] == ToU8(chr[j])
    {
      ChrByteLands(file, d, r, chr, offset, period, j);
    }
    forall c | |chr| <= c < |d.chr|
      ensures r.chr[c] == d.chr[c]
    {
      assert ChrCellHolds(file, d, r.chr[c], c);
    }
    hide ChrHolds, ToU8;
  }

  /** What the CPU reads from 0x8000 on, for one or two banks. */
  ghost predicate CpuReadsImage(r: Rom, prg: seq<byte>) {
    && r.Valid()
    && (0 < |prg| <= 32768 ==>
          forall a: u16 :: 0x8000 <= a ==> CpuRead(r, a) == ToU8(prg[(a - 0x8000) % |prg|]))
  }

  lemma CpuReadsParts(file: seq<byte>, r: Rom, prg: seq<byte>)
    requires CpuSees(file, r) && PrgSize(file) == |prg| && PRG_OFFSET == 16
    requires 16 + |prg| <= |file| && file[16..16 + |prg|] == prg
    ensures CpuReadsImage(r, prg)
  {
    hide FileByte, ToU8, CpuRead, PrgIndex;
    if 0 < |prg| <= 32768 {
      forall a: u16 | 0x8000 <= a
        ensures CpuRead(r, a) == ToU8(prg[(a - 0x8000) % |prg|])
      {
        ImageByte(file, 16, prg, (a - 0x8000) % |prg|);
      }
    }
  }

  /**
   * End to end, from the parts of a file to the memories: for every NES file with banks of both kinds and
   * every bus schedule, both images stand in the memories as above and the CPU reads the PRG bytes.
   */
  lemma PartsDelivered(
      file: seq<byte>, n: Parts, prg: seq<byte>, chr: seq<byte>, dialect: Dialect, d: Rom, xs: seq<Transfer>)
    requires Built(file, n, prg, chr)
    requires d.Valid() && d.Quiet() && forall k :: 0 <= k < |xs| ==> Sound(xs[k])
    requires Compiled(Emitted(file), dialect) == Some(Words(xs))
    ensures var r := Run(d, BusTrace(xs));
            && PrgLands(d, r, prg) && ChrLands(d, r, chr) && CpuReadsImage(r, prg)
            && r.mirroring && !r.chrRam && r.Quiet()
  {
    PartsFound(file, n, prg, chr);
    hide Built, Emitted, Compiled, Run, BusTrace, Sound, CpuSees, PrgHolds, ChrHolds, PrgLands, ChrLands, CpuReadsImage;
    FileDelivered(file, dialect, d, xs);
    var r := Run(d, BusTrace(xs));
    PrgLandsHeld(file, d, r, prg);
    ChrLandsHeld(file, d, r, chr, 16 + |prg|);
    CpuReadsParts(file, r, prg);
  }

  /** And on the board, at every phase of its memory clock and with any gaps between stores. */
  lemma PartsDeliveredOnBoard(
      file: seq<byte>, n: Parts, prg: seq<byte>, chr: seq<byte>, dialect: Dialect, d: Rom, phase: nat, gaps: nat -> nat)
    returns (xs: seq<Transfer>)
    requires Built(file, n, prg, chr) && d.Valid() && d.Quiet()
    ensures Compiled(Emitted(file), dialect) == Some(Words(xs))
    ensures OnInterconnect(xs, BoardClock(phase)) && forall k :: 0 <= k < |xs| ==> |xs[k].idle| == gaps(k)
    ensures var r := Run(d, BusTrace(xs));
            && PrgLands(d, r, prg) && ChrLands(d, r, chr) && CpuReadsImage(r, prg)
            && r.mirroring && !r.chrRam && r.Quiet()
  {
    PartsFound(file, n, prg, chr);
    hide Built, Emitted, Compiled, Run, BusTrace, Sound, CpuSees, PrgHolds, ChrHolds, PrgLands, ChrLands, CpuReadsImage;
    hide OnInterconnect, BoardClock, EdgeWithin;
    xs := FileDeliveredOnBoard(file, dialect, d, phase, gaps);
    BoardClockKeepsPace(phase);
    InterconnectSound(xs, BoardClock(phase));
    PartsDelivered(file, n, prg, chr, dialect, d, xs);
  }

  /** Exactly which files the program can be built with, in strict C and with GNU C's leniency. */
  lemma UsableExactly(file: seq<byte>)
    ensures Compiled(Emitted(file), Iso).Some? <==>
              && |file| >= 6 && file[0] == 0x4E && file[1] == 0x45 && file[2] == 0x53
              && file[4] > 0 && file[5] > 0 && |file| >= 16 + 16384 * file[4] as int + 8192 * file[5] as int
    ensures Compiled(Emitted(file), Gnu).Some? <==>
              && |file| >= 6 && file[0] == 0x4E && file[1] == 0x45 && file[2] == 0x53
              && |file| >= 16 + (if file[4] == 0 then 1 else 16384 * file[4] as int)
                           + (if file[5] == 0 then 1 else 8192 * file[5] as int)
  {
    UsableIn(file, Iso);
    UsableIn(file, Gnu);
    hide Emitted, Compiled;
  }

  lemma UsableIn(file: seq<byte>, dialect: Dialect)
    ensures Compiled(Emitted(file), dialect).Some? <==> HasMagic(file) && Complete(file) && BanksAllowed(file, dialect)
  {
    if HasMagic(file) {
      RoundTripExactly(file, dialect);
      if Complete(file) && BanksAllowed(file, dialect) {
        CompiledStores(file, dialect);
      }
    }
    hide Stream;
  }

  /** One byte's whole path, for either kind of word: printed, read as a constant, narrowed to char, widened, packed. */
  lemma BytePathLossless(file: seq<byte>, offset: nat, address: int)
    requires offset < |file|
    ensures var v := Constant(ByteToken(file, offset));
            && v.Some?
            && Decode(PrgWord(ToU16(address), ToU8(ToChar(v.value)))) == PrgCommand(address, FileByte(file, offset))
            && Decode(ChrWord(ToU16(address), ToU8(ToChar(v.value)))) == ChrCommand(address, FileByte(file, offset))
  {
    hide Constant, ByteToken, Decode, PrgWord, ChrWord, ToU16;
    ByteConstant(file, offset);
    CharRoundTrip(file[offset]);
    PrgStoreDecodes(address, ToU8(ToChar(file[offset])));
    ChrStoreDecodes(address, ToU8(ToChar(file[offset])));
  }
}
