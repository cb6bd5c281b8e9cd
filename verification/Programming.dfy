/**
 * The programming loops of main.c, and what the stream of stores leaves in the device: the byte in
 * a cell is the one of the last iteration that addressed it, for every image size.
 */
module Programming {
  import opened Basics
  import opened RomProgrammer
  import opened RomDevice

  // ----- The stream of stores -----

  const MIRRORED_SIZE := 16384

  /** One iteration of the PRG loop: a 16 KB image is also written a second time, 16 KB higher. */
  function PrgStores(size: nat, b: bv8, i: nat): seq<bv32> {
    (if size == MIRRORED_SIZE then [PrgWord(ToU16(0xC000 + i), b)] else []) + [PrgWord(ToU16(0x8000 + i), b)]
  }

  function PrgStream(size: nat, data: seq<schar>, n: nat): seq<bv32>
    requires n <= |data|
  {
    if n == 0 then [] else PrgStream(size, data, n - 1) + PrgStores(size, ToU8(data[n - 1]), n - 1)
  }

  function ChrStream(data: seq<schar>, n: nat): seq<bv32>
    requires n <= |data|
  {
    if n == 0 then [] else ChrStream(data, n - 1) + [ChrWord(ToU16(n - 1), ToU8(data[n - 1]))]
  }

  /** The mode word (vertical mirroring, CHR ROM) and both images. */
  function Stream(prg: seq<schar>, chr: seq<schar>): seq<bv32> {
    [ModeWord(true, false)] + (PrgStream(|prg|, prg, |prg|) + ChrStream(chr, |chr|))
  }

  lemma PrgStreamNone(size: nat, data: seq<schar>)
    ensures PrgStream(size, data, 0) == []
  {
  }

  lemma PrgStreamNext(size: nat, data: seq<schar>, i: nat)
    requires i < |data|
    ensures PrgStream(size, data, i + 1) == PrgStream(size, data, i) + PrgStores(size, ToU8(data[i]), i)
  {
    hide ToU8, PrgStores;
  }

  /** The programming part of `main`. An array is as long as the size that is printed with it. */
  method ProgramRoms(programmer: Programmer, prgRomSize: nat, prgRomData: seq<schar>,
                     chrRomSize: nat, chrRomData: seq<schar>)
    requires |prgRomData| == prgRomSize && |chrRomData| == chrRomSize
    modifies programmer
    ensures programmer.stores == old(programmer.stores) + Stream(prgRomData, chrRomData)
  {
    hide PrgWord, ChrWord, ModeWord, Decode, ToU8, ToU16, PrgStream;
    assert PrgStream(prgRomSize, prgRomData, 0) == [] by { PrgStreamNone(prgRomSize, prgRomData); }
    programmer.WriteHeaderInfo(1, 0);
    ghost var start := programmer.stores;

    for i := 0 to prgRomSize
      invariant programmer.stores == start + PrgStream(prgRomSize, prgRomData, i)
    {
      var bytes := ToU8(prgRomData[i]);
      ghost var before := programmer.stores;
      if prgRomSize == 16384 {
        programmer.WritePrgRom(ToU16(0xC000 + i), bytes);
      }
      programmer.WritePrgRom(ToU16(0x8000 + i), bytes);
      assert programmer.stores == before + PrgStores(prgRomSize, bytes, i);
      PrgStreamNext(prgRomSize, prgRomData, i);
    }

    ghost var middle := programmer.stores;
    for i := 0 to chrRomSize
      invariant programmer.stores == middle + ChrStream(chrRomData, i)
    {
      var bytes := ToU8(chrRomData[i]);
      programmer.WriteChrRom(ToU16(0x0000 + i), bytes);
    }
  }

  /** The words of a PRG stream one by one: two for each byte of a 16 KB image, one for each byte of any other. */
  lemma {:induction false} PrgStreamWords(data: seq<schar>, n: nat, i: nat)
    requires i < n <= |data|
    ensures |data| == 16384 ==>
              && |PrgStream(|data|, data, n)| == 2 * n
              && DataWord(PrgStream(|data|, data, n)[2 * i], 0x8000_0000, ToU16(0xC000 + i), ToU8(data[i]))
              && DataWord(PrgStream(|data|, data, n)[2 * i + 1], 0x8000_0000, ToU16(0x8000 + i), ToU8(data[i]))
    ensures |data| != 16384 ==>
              && |PrgStream(|data|, data, n)| == n
              && DataWord(PrgStream(|data|, data, n)[i], 0x8000_0000, ToU16(0x8000 + i), ToU8(data[i]))
  {
    hide ToU8, ToU16, DataWord, PrgWord;
    var before := PrgStream(|data|, data, n - 1);
    if n == 1 {
      assert before == [];
    }
    if i < n - 1 {
      PrgStreamWords(data, n - 1, i);
    } else {
      if n > 1 {
        PrgStreamWords(data, n - 1, 0);
      }
      DataWordBits(ToU16(0xC000 + i), ToU8(data[i]));
      DataWordBits(ToU16(0x8000 + i), ToU8(data[i]));
    }
  }

  lemma {:induction false} ChrStreamWords(data: seq<schar>, n: nat, i: nat)
    requires i < n <= |data|
    ensures |ChrStream(data, n)| == n
    ensures DataWord(ChrStream(data, n)[i], 0x0000_0000, ToU16(i), ToU8(data[i]))
  {
    hide ToU8, ToU16, DataWord, ChrWord;
    if n == 1 {
      assert ChrStream(data, 0) == [];
    }
    if i < n - 1 {
      ChrStreamWords(data, n - 1, i);
    } else {
      if n > 1 {
        ChrStreamWords(data, n - 1, 0);
      }
      DataWordBits(ToU16(i), ToU8(data[i]));
    }
  }

  lemma Joined(first: bv32, a: seq<bv32>, b: seq<bv32>)
    ensures var ws := [first] + (a + b);
            && |ws| == 1 + |a| + |b| && ws[0] == first
            && (forall k :: 0 <= k < |a| ==> ws[1 + k] == a[k])
            && (forall k :: 0 <= k < |b| ==> ws[1 + |a| + k] == b[k])
  {
  }

  /** The stores of the stream in numbers: the mode word comes first, then those of the PRG bytes. */
  lemma StreamPrgWords(prg: seq<schar>, chr: seq<schar>, i: nat)
    requires i < |prg|
    ensures var ws := Stream(prg, chr);
            && |ws| == 1 + (if |prg| == 16384 then 2 * |prg| else |prg|) + |chr| && ws[0] == 0xF000_0000
            && (|prg| == 16384 ==>
                  && DataWord(ws[1 + 2 * i], 0x8000_0000, ToU16(0xC000 + i), ToU8(prg[i]))
                  && DataWord(ws[1 + (2 * i + 1)], 0x8000_0000, ToU16(0x8000 + i), ToU8(prg[i])))
            && (|prg| != 16384 ==> DataWord(ws[1 + i], 0x8000_0000, ToU16(0x8000 + i), ToU8(prg[i])))
  {
    assert ModeWord(true, false) == 0xF000_0000;
    hide ToU8, ToU16, DataWord, PrgStream, ChrStream, ModeWord;
    PrgStreamWords(prg, |prg|, i);
    ChrStreamLength(chr, |chr|);
    Joined(0xF000_0000, PrgStream(|prg|, prg, |prg|), ChrStream(chr, |chr|));
  }

  /** And those of the CHR bytes come last. */
  lemma StreamChrWords(prg: seq<schar>, chr: seq<schar>, i: nat)
    requires prg != [] && i < |chr|
    ensures var ws, size := Stream(prg, chr), if |prg| == 16384 then 2 * |prg| else |prg|;
            |ws| == 1 + size + |chr| && DataWord(ws[1 + size + i], 0x0000_0000, ToU16(i), ToU8(chr[i]))
  {
    hide ToU8, ToU16, DataWord, PrgStream, ChrStream, ModeWord;
    PrgStreamWords(prg, |prg|, 0);
    ChrStreamLength(chr, |chr|);
    ChrStreamWords(chr, |chr|, i);
    Joined(ModeWord(true, false), PrgStream(|prg|, prg, |prg|), ChrStream(chr, |chr|));
  }

  lemma {:induction false} ChrStreamLength(data: seq<schar>, n: nat)
    requires n <= |data|
    ensures |ChrStream(data, n)| == n
  {
    if n > 0 {
      ChrStreamLength(data, n - 1);
    }
  }

  // ----- Decoding the stream -----

  lemma DecodeAllAppend(a: seq<bv32>, b: seq<bv32>)
    ensures DecodeAll(a + b) == DecodeAll(a) + DecodeAll(b)
  {
  }

  function PrgCommand(address: int, b: bv8): Command {
    Command(true, address % 0x1_0000, b, None, None)
  }

  function ChrCommand(address: int, b: bv8): Command {
    Command(false, address % 0x1_0000, b, None, None)
  }

  lemma PrgStoreDecodes(address: int, b: bv8)
    ensures Decode(PrgWord(ToU16(address), b)) == PrgCommand(address, b)
  {
    ToU16Value(address);
    DataWordsDecode(ToU16(address), b);
  }

  lemma ChrStoreDecodes(address: int, b: bv8)
    ensures Decode(ChrWord(ToU16(address), b)) == ChrCommand(address, b)
  {
    ToU16Value(address);
    DataWordsDecode(ToU16(address), b);
  }

  function PrgCommands(size: nat, b: bv8, i: nat): seq<Command> {
    (if size == MIRRORED_SIZE then [PrgCommand(0xC000 + i, b)] else []) + [PrgCommand(0x8000 + i, b)]
  }

  lemma PrgStoresDecode(size: nat, b: bv8, i: nat)
    ensures DecodeAll(PrgStores(size, b, i)) == PrgCommands(size, b, i)
  {
    PrgStoreDecodes(0xC000 + i, b);
    PrgStoreDecodes(0x8000 + i, b);
  }

  // ----- The last writer of a cell -----

  /** Iteration i of the PRG loop writes cell c of a memory of m cells. */
  predicate PrgHits(m: nat, size: nat, i: nat, c: nat)
    requires m > 0
  {
    || (0x8000 + i) % 0x1_0000 % m == c
    || (size == MIRRORED_SIZE && (0xC000 + i) % 0x1_0000 % m == c)
  }

  /** The last of the first n iterations that writes cell c. */
  function PrgWriter(m: nat, size: nat, n: nat, c: nat): (k: Option<nat>)
    requires m > 0
    ensures k.Some? ==> k.value < n && PrgHits(m, size, k.value, c)
    ensures k.Some? ==> forall j :: k.value < j < n ==> !PrgHits(m, size, j, c)
    ensures k.None? ==> forall j :: 0 <= j < n ==> !PrgHits(m, size, j, c)
  {
    if n == 0 then None
    else if PrgHits(m, size, n - 1, c) then Some(n - 1)
    else PrgWriter(m, size, n - 1, c)
  }

  function ChrWriter(d: Rom, n: nat, c: nat): (k: Option<nat>)
    requires d.Valid()
    ensures k.Some? ==> k.value < n && d.ChrCell(k.value % 0x1_0000) == Some(c)
    ensures k.Some? ==> forall j :: k.value < j < n ==> d.ChrCell(j % 0x1_0000) != Some(c)
    ensures k.None? ==> forall j :: 0 <= j < n ==> d.ChrCell(j % 0x1_0000) != Some(c)
  {
    if n == 0 then None
    else if d.ChrCell((n - 1) % 0x1_0000) == Some(c) then Some(n - 1)
    else ChrWriter(d, n - 1, c)
  }

  /** CHR iterations this far apart address the same cell. */
  function ChrPeriod(d: Rom): (p: nat)
    requires d.Valid()
    ensures (p == 0x2000 || p == 0x1_0000) && p >= |d.chr|
  {
    if d.chrTruncates then |d.chr| else 0x1_0000
  }

  function PrgCells(d: Rom, size: nat, data: seq<schar>, n: nat): (cells: seq<bv8>)
    requires d.Valid() && n <= |data|
    ensures |cells| == |d.prg|
  {
    seq(|d.prg|, c requires 0 <= c < |d.prg| =>
      match PrgWriter(|d.prg|, size, n, c) case Some(k) => ToU8(data[k]) case None => d.prg[c])
  }

  function ChrCells(d: Rom, data: seq<schar>, n: nat): (cells: seq<bv8>)
    requires d.Valid() && n <= |data|
    ensures |cells| == |d.chr|
  {
    seq(|d.chr|, c requires 0 <= c < |d.chr| =>
      match ChrWriter(d, n, c) case Some(k) => ToU8(data[k]) case None => d.chr[c])
  }

  /** The command latches no mode. */
  predicate DataOnly(c: Command) {
    c.mirroring.None? && c.chrRam.None?
  }

  lemma ExecPrg(d: Rom, c: Command)
    requires d.Valid() && d.Quiet() && c.toPrg && DataOnly(c)
    ensures Exec(d, c) == d.(prg := d.prg[d.PrgCell(c.address) := c.data])
  {
  }

  lemma ExecChr(d: Rom, c: Command)
    requires d.Valid() && d.Quiet() && !c.toPrg && DataOnly(c)
    ensures d.ChrCell(c.address).Some? ==> Exec(d, c) == d.(chr := d.chr[d.ChrCell(c.address).value := c.data])
    ensures d.ChrCell(c.address).None? ==> Exec(d, c) == d
  {
  }

  lemma ExecSnoc(d: Rom, cs: seq<Command>, c: Command)
    requires d.Valid()
    ensures ExecAll(d, cs + [c]) == Exec(ExecAll(d, cs), c)
  {
    hide Exec;
    assert (cs + [c])[..|cs|] == cs;
  }

  /** One iteration gives its byte to the cells it hits and leaves the rest of the device alone. */
  lemma PrgIteration(d: Rom, size: nat, b: bv8, i: nat)
    requires d.Valid() && d.Quiet()
    ensures var r := ExecAll(d, PrgCommands(size, b, i));
            && r == d.(prg := r.prg) && |r.prg| == |d.prg|
            && forall c :: 0 <= c < |d.prg| ==> r.prg[c] == if PrgHits(|d.prg|, size, i, c) then b else d.prg[c]
  {
    hide Exec;
    var low, high := PrgCommand(0x8000 + i, b), PrgCommand(0xC000 + i, b);
    ExecSnoc(d, [], high);
    ExecPrg(d, high);
    var mirrored := Exec(d, high);
    ExecSnoc(d, [], low);
    ExecPrg(d, low);
    ExecSnoc(d, [high], low);
    ExecPrg(mirrored, low);
    assert [] + [low] == [low] && [] + [high] == [high];
  }

  lemma PrgCellsStep(d: Rom, size: nat, data: seq<schar>, n: nat, next: seq<bv8>)
    requires d.Valid() && n < |data| && |next| == |d.prg|
    requires forall c :: 0 <= c < |d.prg| ==>
               next[c] == if PrgHits(|d.prg|, size, n, c) then ToU8(data[n]) else PrgCells(d, size, data, n)[c]
    ensures next == PrgCells(d, size, data, n + 1)
  {
    hide ToU8, PrgHits;
  }

  lemma PrgStreamStep(size: nat, data: seq<schar>, n: nat)
    requires n < |data|
    ensures DecodeAll(PrgStream(size, data, n + 1))
            == DecodeAll(PrgStream(size, data, n)) + PrgCommands(size, ToU8(data[n]), n)
  {
    hide ToU8, PrgStores, PrgCommands, DecodeAll;
    DecodeAllAppend(PrgStream(size, data, n), PrgStores(size, ToU8(data[n]), n));
    PrgStoresDecode(size, ToU8(data[n]), n);
  }

  lemma PrgIterationCells(d: Rom, size: nat, data: seq<schar>, n: nat)
    requires d.Valid() && d.Quiet() && n < |data|
    ensures ExecAll(d.(prg := PrgCells(d, size, data, n)), PrgCommands(size, ToU8(data[n]), n))
            == d.(prg := PrgCells(d, size, data, n + 1))
  {
    hide ToU8, PrgHits, PrgCells, PrgCommands, ExecAll;
    var before := d.(prg := PrgCells(d, size, data, n));
    PrgIteration(before, size, ToU8(data[n]), n);
    PrgCellsStep(d, size, data, n, ExecAll(before, PrgCommands(size, ToU8(data[n]), n)).prg);
  }

  lemma PrgLoopStart(d: Rom, size: nat, data: seq<schar>)
    requires d.Valid()
    ensures ExecAll(d, DecodeAll(PrgStream(size, data, 0))) == d.(prg := PrgCells(d, size, data, 0))
  {
    hide ToU8, PrgHits;
    assert DecodeAll([]) == [];
    assert PrgCells(d, size, data, 0) == d.prg;
  }

  /** Last writer wins: the exact device after the first n iterations, whatever the image size. */
  lemma {:induction false} PrgLoopEffect(d: Rom, size: nat, data: seq<schar>, n: nat)
    requires d.Valid() && d.Quiet() && n <= |data|
    ensures ExecAll(d, DecodeAll(PrgStream(size, data, n))) == d.(prg := PrgCells(d, size, data, n))
  {
    hide ToU8, PrgHits, PrgCommands, PrgCells, ExecAll, DecodeAll, PrgStream;
    if n == 0 {
      PrgLoopStart(d, size, data);
    } else {
      PrgLoopEffect(d, size, data, n - 1);
      PrgStreamStep(size, data, n - 1);
      ExecAllAppend(d, DecodeAll(PrgStream(size, data, n - 1)), PrgCommands(size, ToU8(data[n - 1]), n - 1));
      PrgIterationCells(d, size, data, n - 1);
    }
  }

  lemma ChrCellsStep(d: Rom, data: seq<schar>, n: nat, next: seq<bv8>)
    requires d.Valid() && n < |data| && |next| == |d.chr|
    requires forall c :: 0 <= c < |d.chr| ==>
               next[c] == if d.ChrCell(n % 0x1_0000) == Some(c) then ToU8(data[n]) else ChrCells(d, data, n)[c]
    ensures next == ChrCells(d, data, n + 1)
  {
    hide ToU8;
  }

  lemma ChrStreamStep(data: seq<schar>, n: nat)
    requires n < |data|
    ensures DecodeAll(ChrStream(data, n + 1)) == DecodeAll(ChrStream(data, n)) + [ChrCommand(n, ToU8(data[n]))]
  {
    hide ToU8, ToU16, ChrWord, Decode;
    var last := ChrWord(ToU16(n), ToU8(data[n]));
    DecodeAllAppend(ChrStream(data, n), [last]);
    ChrStoreDecodes(n, ToU8(data[n]));
    assert DecodeAll([last]) == [Decode(last)];
  }

  lemma ChrIterationCells(d: Rom, data: seq<schar>, n: nat)
    requires d.Valid() && d.Quiet() && n < |data|
    ensures Exec(d.(chr := ChrCells(d, data, n)), ChrCommand(n, ToU8(data[n]))) == d.(chr := ChrCells(d, data, n + 1))
  {
    hide ToU8, ChrCells, Exec;
    var before, command := d.(chr := ChrCells(d, data, n)), ChrCommand(n, ToU8(data[n]));
    ExecChr(before, command);
    ChrCellsStep(d, data, n, Exec(before, command).chr);
  }

  lemma ChrLoopStart(d: Rom, data: seq<schar>)
    requires d.Valid()
    ensures ExecAll(d, DecodeAll(ChrStream(data, 0))) == d.(chr := ChrCells(d, data, 0))
  {
    hide ToU8;
    assert DecodeAll([]) == [];
    assert ChrCells(d, data, 0) == d.chr;
  }

  /** The same for CHR, whatever the image size. */
  lemma {:induction false} ChrLoopEffect(d: Rom, data: seq<schar>, n: nat)
    requires d.Valid() && d.Quiet() && n <= |data|
    ensures ExecAll(d, DecodeAll(ChrStream(data, n))) == d.(chr := ChrCells(d, data, n))
  {
    hide ToU8, ChrCommand, Exec, DecodeAll;
    hide ChrCells, ExecAll, ChrStream;
    if n == 0 {
      ChrLoopStart(d, data);
    } else {
      ChrLoopEffect(d, data, n - 1);
      ChrStreamStep(data, n - 1);
      ExecSnoc(d, DecodeAll(ChrStream(data, n - 1)), ChrCommand(n - 1, ToU8(data[n - 1])));
      ChrIterationCells(d, data, n - 1);
    }
  }

  // ----- The whole stream -----

  /** The mode word's side effect: it clears PRG cell zero. */
  function Cleared(d: Rom): (r: Rom)
    requires d.Valid()
    ensures r.Valid() && r.Quiet()
  {
    d.(prg := d.prg[0 := 0], mirroring := true, chrRam := false, prgWrite := false, chrWrite := false)
  }

  function Programmed(d: Rom, prg: seq<schar>, chr: seq<schar>): (r: Rom)
    requires d.Valid()
    ensures r.Valid()
  {
    var c := Cleared(d);
    c.(prg := PrgCells(c, |prg|, prg, |prg|), chr := ChrCells(c, chr, |chr|))
  }

  lemma ModeStoreEffect(d: Rom)
    requires d.Valid()
    ensures ExecAll(d, DecodeAll([ModeWord(true, false)])) == Cleared(d)
  {
    ModeWordDecodes(true, false);
    var c := Command(true, 0, 0, Some(true), Some(false));
    assert DecodeAll([ModeWord(true, false)]) == [c];
    assert [c][..0] == [];
    assert ExecAll(d, [c]) == Exec(ExecAll(d, []), c);
  }

  /** The exact final device for any two images: modes, every PRG cell and every CHR cell. */
  lemma StreamEffect(d: Rom, prg: seq<schar>, chr: seq<schar>)
    requires d.Valid()
    ensures ExecAll(d, DecodeAll(Stream(prg, chr))) == Programmed(d, prg, chr)
  {
    var mode, prgs, chrs := [ModeWord(true, false)], PrgStream(|prg|, prg, |prg|), ChrStream(chr, |chr|);
    DecodeAllAppend(mode, prgs + chrs);
    DecodeAllAppend(prgs, chrs);
    ExecAllAppend(d, DecodeAll(mode), DecodeAll(prgs) + DecodeAll(chrs));
    ModeStoreEffect(d);
    var c := Cleared(d);
    ExecAllAppend(c, DecodeAll(prgs), DecodeAll(chrs));
    PrgLoopEffect(c, |prg|, prg, |prg|);
    var p := c.(prg := PrgCells(c, |prg|, prg, |prg|));
    ChrLoopEffect(p, chr, |chr|);
    SameChrCells(c, p, chr);
  }

  lemma SameChrCells(c: Rom, p: Rom, chr: seq<schar>)
    requires c.Valid() && p.Valid() && p == c.(prg := p.prg)
    ensures ChrCells(p, chr, |chr|) == ChrCells(c, chr, |chr|)
  {
    forall cell | 0 <= cell < |c.chr|
      ensures ChrWriter(p, |chr|, cell) == ChrWriter(c, |chr|, cell)
    {
      SameChrWriter(c, p, |chr|, cell);
    }
  }

  lemma {:induction false} SameChrWriter(c: Rom, p: Rom, n: nat, cell: nat)
    requires c.Valid() && p.Valid() && |p.chr| == |c.chr| && p.chrTruncates == c.chrTruncates
    ensures ChrWriter(p, n, cell) == ChrWriter(c, n, cell)
  {
    if n > 0 {
      SameChrWriter(c, p, n - 1, cell);
    }
  }

  /** Programming an already programmed device changes nothing, even when the images wrap. */
  lemma ProgrammedTwice(d: Rom, prg: seq<schar>, chr: seq<schar>)
    requires d.Valid()
    ensures Programmed(Programmed(d, prg, chr), prg, chr) == Programmed(d, prg, chr)
  {
    hide ToU8, PrgHits;
    var once := Programmed(d, prg, chr);
    var c, cc := Cleared(d), Cleared(once);
    forall cell | 0 <= cell < |d.chr|
      ensures ChrWriter(cc, |chr|, cell) == ChrWriter(c, |chr|, cell)
    {
      SameChrWriter(c, cc, |chr|, cell);
    }
    assert PrgCells(cc, |prg|, prg, |prg|) == PrgCells(c, |prg|, prg, |prg|);
    assert ChrCells(cc, chr, |chr|) == ChrCells(c, chr, |chr|);
  }

  /** So does running the whole stream of stores a second time. */
  lemma ProgrammingTwice(d: Rom, prg: seq<schar>, chr: seq<schar>)
    requires d.Valid()
    ensures ExecAll(d, DecodeAll(Stream(prg, chr) + Stream(prg, chr))) == ExecAll(d, DecodeAll(Stream(prg, chr)))
  {
    hide Programmed, Stream;
    StreamEffect(d, prg, chr);
    StreamEffect(Programmed(d, prg, chr), prg, chr);
    ProgrammedTwice(d, prg, chr);
    DecodeAllAppend(Stream(prg, chr), Stream(prg, chr));
    ExecAllAppend(d, DecodeAll(Stream(prg, chr)), DecodeAll(Stream(prg, chr)));
  }

  // ----- Mirroring -----

  /** For a 16 KB image the cells of 0x8000 + j and 0xC000 + j have iteration j as their only writer. */
  lemma MirrorWriter(m: nat, n: nat, j: nat)
    requires m == 0x8000 || m == 0x1_0000
    requires j < n <= MIRRORED_SIZE
    ensures PrgWriter(m, MIRRORED_SIZE, n, (0x8000 + j) % m) == Some(j)
    ensures PrgWriter(m, MIRRORED_SIZE, n, (0xC000 + j) % m) == Some(j)
  {
    assert PrgHits(m, MIRRORED_SIZE, j, (0x8000 + j) % m);
    assert PrgHits(m, MIRRORED_SIZE, j, (0xC000 + j) % m);
    var low := PrgWriter(m, MIRRORED_SIZE, n, (0x8000 + j) % m);
    var high := PrgWriter(m, MIRRORED_SIZE, n, (0xC000 + j) % m);
    assert low.Some? && high.Some?;
    OneHit(m, low.value, j);
    OneHit(m, high.value, j);
  }

  lemma OneHit(m: nat, k: nat, j: nat)
    requires m == 0x8000 || m == 0x1_0000
    requires k < MIRRORED_SIZE && j < MIRRORED_SIZE
    requires PrgHits(m, MIRRORED_SIZE, k, (0x8000 + j) % m) || PrgHits(m, MIRRORED_SIZE, k, (0xC000 + j) % m)
    ensures k == j
  {
    if m == 0x8000 {
      assert (0x8000 + k) % 0x1_0000 % m == k && (0xC000 + k) % 0x1_0000 % m == 0x4000 + k;
    }
  }

  /** A 16 KB image: after n iterations the first n bytes stand at 0x8000 and again at 0xC000. */
  lemma MirrorInvariant(d: Rom, data: seq<schar>, n: nat, j: nat)
    requires d.Valid() && d.Quiet() && |data| == MIRRORED_SIZE && j < n <= MIRRORED_SIZE
    ensures var r := ExecAll(d, DecodeAll(PrgStream(MIRRORED_SIZE, data, n)));
            r.prg[r.PrgCell(0x8000 + j)] == r.prg[r.PrgCell(0xC000 + j)] == ToU8(data[j])
  {
    hide ToU8, PrgStream;
    PrgLoopEffect(d, MIRRORED_SIZE, data, n);
    MirrorWriter(|d.prg|, n, j);
  }
}
