/**
 * Order independence: stores that agree on what each cell should hold can be reordered and repeated.
 * The data words of an image that does not wrap are such stores.
 */
module Ordering {
  import opened Basics
  import opened RomProgrammer
  import opened RomDevice
  import opened Programming

  // ----- Agreeing stores -----

  /** The command carries the byte that one fixed pair of images has for its cell. */
  ghost predicate AgreesOne(d: Rom, c: Command, prgImage: nat -> bv8, chrImage: nat -> bv8)
    requires d.Valid()
  {
    && DataOnly(c)
    && (c.toPrg ==> c.data == prgImage(d.PrgCell(c.address)))
    && (!c.toPrg && d.ChrCell(c.address).Some? ==> c.data == chrImage(d.ChrCell(c.address).value))
  }

  ghost predicate Agrees(d: Rom, cs: seq<Command>, prgImage: nat -> bv8, chrImage: nat -> bv8)
    requires d.Valid()
  {
    forall c :: c in cs ==> AgreesOne(d, c, prgImage, chrImage)
  }

  predicate WritesPrg(d: Rom, c: Command, cell: nat)
    requires d.Valid()
  {
    c.toPrg && d.PrgCell(c.address) == cell
  }

  predicate WritesChr(d: Rom, c: Command, cell: nat)
    requires d.Valid()
  {
    !c.toPrg && d.ChrCell(c.address) == Some(cell)
  }

  ghost predicate SomeWritesPrg(d: Rom, cs: seq<Command>, cell: nat)
    requires d.Valid()
  {
    exists c :: c in cs && WritesPrg(d, c, cell)
  }

  ghost predicate SomeWritesChr(d: Rom, cs: seq<Command>, cell: nat)
    requires d.Valid()
  {
    exists c :: c in cs && WritesChr(d, c, cell)
  }

  /** A cell holds its image byte when some command writes it, and keeps its byte otherwise. */
  ghost predicate HoldsImages(d: Rom, r: Rom, cs: seq<Command>, prgImage: nat -> bv8, chrImage: nat -> bv8)
    requires d.Valid()
  {
    && r == d.(prg := r.prg, chr := r.chr) && |r.prg| == |d.prg| && |r.chr| == |d.chr|
    && (forall cell :: 0 <= cell < |d.prg| ==>
          r.prg[cell] == if SomeWritesPrg(d, cs, cell) then prgImage(cell) else d.prg[cell])
    && (forall cell :: 0 <= cell < |d.chr| ==>
          r.chr[cell] == if SomeWritesChr(d, cs, cell) then chrImage(cell) else d.chr[cell])
  }

  lemma WritersSnoc(d: Rom, cs: seq<Command>, c: Command, cell: nat)
    requires d.Valid()
    ensures SomeWritesPrg(d, cs + [c], cell) <==> SomeWritesPrg(d, cs, cell) || WritesPrg(d, c, cell)
    ensures SomeWritesChr(d, cs + [c], cell) <==> SomeWritesChr(d, cs, cell) || WritesChr(d, c, cell)
  {
    hide WritesPrg, WritesChr;
    assert forall x :: x in cs + [c] <==> x in cs || x == c;
  }

  lemma HoldsImagesStep(d: Rom, r: Rom, cs: seq<Command>, c: Command, prgImage: nat -> bv8, chrImage: nat -> bv8)
    requires d.Valid() && d.Quiet() && HoldsImages(d, r, cs, prgImage, chrImage) && AgreesOne(d, c, prgImage, chrImage)
    ensures HoldsImages(d, Exec(r, c), cs + [c], prgImage, chrImage)
  {
    hide Exec;
    forall cell
      ensures SomeWritesPrg(d, cs + [c], cell) <==> SomeWritesPrg(d, cs, cell) || WritesPrg(d, c, cell)
      ensures SomeWritesChr(d, cs + [c], cell) <==> SomeWritesChr(d, cs, cell) || WritesChr(d, c, cell)
    {
      WritersSnoc(d, cs, c, cell);
    }
    hide SomeWritesPrg, SomeWritesChr;
    if c.toPrg {
      ExecPrg(r, c);
    } else {
      ExecChr(r, c);
    }
  }

  /** Stores that agree with one pair of images: each cell they write holds its image byte. */
  lemma {:induction false} AgreedCells(d: Rom, cs: seq<Command>, prgImage: nat -> bv8, chrImage: nat -> bv8)
    requires d.Valid() && d.Quiet() && Agrees(d, cs, prgImage, chrImage)
    ensures HoldsImages(d, ExecAll(d, cs), cs, prgImage, chrImage)
  {
    if cs != [] {
      hide HoldsImages, Exec;
      var front, last := cs[..|cs| - 1], cs[|cs| - 1];
      assert cs == front + [last];
      assert last in cs && forall c :: c in front ==> c in cs;
      AgreedCells(d, front, prgImage, chrImage);
      HoldsImagesStep(d, ExecAll(d, front), front, last, prgImage, chrImage);
    }
  }

  /** Any reordering or repetition of agreeing stores leaves the same device. */
  lemma OrderIrrelevant(d: Rom, cs: seq<Command>, cs': seq<Command>, prgImage: nat -> bv8, chrImage: nat -> bv8)
    requires d.Valid() && d.Quiet() && Agrees(d, cs, prgImage, chrImage)
    requires forall c :: c in cs <==> c in cs'
    ensures ExecAll(d, cs) == ExecAll(d, cs')
  {
    hide ExecAll;
    AgreedCells(d, cs, prgImage, chrImage);
    AgreedCells(d, cs', prgImage, chrImage);
    forall cell
      ensures SomeWritesPrg(d, cs, cell) <==> SomeWritesPrg(d, cs', cell)
      ensures SomeWritesChr(d, cs, cell) <==> SomeWritesChr(d, cs', cell)
    {
    }
    hide SomeWritesPrg, SomeWritesChr;
    assert ExecAll(d, cs).prg == ExecAll(d, cs').prg;
    assert ExecAll(d, cs).chr == ExecAll(d, cs').chr;
  }

  // ----- The stores of an image -----

  /** What each PRG cell of a memory of m cells holds once the image is in place. */
  function PrgImage(m: nat, prg: seq<schar>): nat -> bv8
    requires m > 0
  {
    (c: nat) => if prg == [] then 0 else ToU8(prg[(c - 0x8000) % m % |prg|])
  }

  function ChrImage(chr: seq<schar>): nat -> bv8 {
    (c: nat) => if c < |chr| then ToU8(chr[c]) else 0
  }

  ghost predicate AgreesWithImages(d: Rom, cs: seq<Command>, prg: seq<schar>, chr: seq<schar>)
    requires d.Valid()
  {
    Agrees(d, cs, PrgImage(|d.prg|, prg), ChrImage(chr))
  }

  lemma PrgCommandAgrees(d: Rom, prg: seq<schar>, chr: seq<schar>, k: nat, base: nat)
    requires d.Valid() && k < |prg| <= |d.prg|
    requires base == 0x8000 || (base == 0xC000 && |prg| == MIRRORED_SIZE)
    ensures AgreesWithImages(d, [PrgCommand(base + k, ToU8(prg[k]))], prg, chr)
  {
    hide ToU8;
    ImageOffset(|d.prg|, |prg|, base, k);
  }

  lemma CellOffset(m: nat, base: nat, k: nat)
    requires m == 0x8000 || m == 0x1_0000
    requires base >= 0x8000 && base + k < 0x8000 + m
    ensures ((base + k) % 0x1_0000 % m - 0x8000) % m == base - 0x8000 + k
  {
    if m == 0x8000 {
      assert (base + k) % 0x1_0000 % 0x8000 == base - 0x8000 + k;
    }
  }

  lemma SmallMod(k: nat, size: nat)
    requires k < size
    ensures k % size == k
  {
  }

  lemma ImageOffset(m: nat, size: nat, base: nat, k: nat)
    requires (m == 0x8000 || m == 0x1_0000) && k < size <= m
    requires base == 0x8000 || (base == 0xC000 && size == MIRRORED_SIZE)
    ensures ((base + k) % 0x1_0000 % m - 0x8000) % m % size == k
  {
    CellOffset(m, base, k);
    if base == 0x8000 {
      SmallMod(k, size);
    }
  }

  lemma ChrCommandAgrees(d: Rom, prg: seq<schar>, chr: seq<schar>, k: nat)
    requires d.Valid() && k < |chr| <= ChrPeriod(d)
    ensures AgreesWithImages(d, [ChrCommand(k, ToU8(chr[k]))], prg, chr)
  {
    hide ToU8;
  }

  lemma AgreesAppend(d: Rom, a: seq<Command>, b: seq<Command>, prg: seq<schar>, chr: seq<schar>)
    requires d.Valid() && AgreesWithImages(d, a, prg, chr) && AgreesWithImages(d, b, prg, chr)
    ensures AgreesWithImages(d, a + b, prg, chr)
  {
    hide AgreesOne;
  }

  lemma PrgCommandsAgree(d: Rom, prg: seq<schar>, chr: seq<schar>, k: nat)
    requires d.Valid() && k < |prg| <= |d.prg|
    ensures AgreesWithImages(d, PrgCommands(|prg|, ToU8(prg[k]), k), prg, chr)
  {
    hide ToU8, PrgCommand, AgreesWithImages;
    var low, high := PrgCommand(0x8000 + k, ToU8(prg[k])), PrgCommand(0xC000 + k, ToU8(prg[k]));
    PrgCommandAgrees(d, prg, chr, k, 0x8000);
    if |prg| == MIRRORED_SIZE {
      PrgCommandAgrees(d, prg, chr, k, 0xC000);
      AgreesAppend(d, [high], [low], prg, chr);
    } else {
      assert PrgCommands(|prg|, ToU8(prg[k]), k) == [low];
    }
  }

  lemma {:induction false} PrgStreamAgrees(d: Rom, prg: seq<schar>, chr: seq<schar>, n: nat)
    requires d.Valid() && n <= |prg| <= |d.prg|
    ensures AgreesWithImages(d, DecodeAll(PrgStream(|prg|, prg, n)), prg, chr)
  {
    hide ToU8, PrgCommands, AgreesOne, DecodeAll;
    if n == 0 {
      assert DecodeAll([]) == [];
    } else {
      hide Agrees, AgreesWithImages, PrgStream;
      PrgStreamAgrees(d, prg, chr, n - 1);
      PrgStreamStep(|prg|, prg, n - 1);
      PrgCommandsAgree(d, prg, chr, n - 1);
      AgreesAppend(d, DecodeAll(PrgStream(|prg|, prg, n - 1)), PrgCommands(|prg|, ToU8(prg[n - 1]), n - 1), prg, chr);
    }
  }

  lemma {:induction false} ChrStreamAgrees(d: Rom, prg: seq<schar>, chr: seq<schar>, n: nat)
    requires d.Valid() && n <= |chr| <= ChrPeriod(d)
    ensures AgreesWithImages(d, DecodeAll(ChrStream(chr, n)), prg, chr)
  {
    hide ToU8, ToU16, ChrWord, ChrCommand, AgreesOne, DecodeAll;
    if n == 0 {
      assert DecodeAll([]) == [];
    } else {
      var b := ToU8(chr[n - 1]);
      hide Agrees, AgreesWithImages, ChrStream;
      ChrStreamAgrees(d, prg, chr, n - 1);
      ChrStreamStep(chr, n - 1);
      ChrCommandAgrees(d, prg, chr, n - 1);
      AgreesAppend(d, DecodeAll(ChrStream(chr, n - 1)), [ChrCommand(n - 1, b)], prg, chr);
    }
  }

  /**
   * After the mode word, the data words of two images that fit may come in any order and any number
   * of times: the device ends up as after the program's own stream.
   */
  lemma AnyOrder(d: Rom, prg: seq<schar>, chr: seq<schar>, ws: seq<bv32>)
    requires d.Valid() && |prg| <= |d.prg| && |chr| <= ChrPeriod(d)
    requires forall w :: w in ws <==> w in PrgStream(|prg|, prg, |prg|) + ChrStream(chr, |chr|)
    ensures ExecAll(d, DecodeAll([ModeWord(true, false)] + ws)) == ExecAll(d, DecodeAll(Stream(prg, chr)))
  {
    hide ExecAll, ModeWord, Decode, DecodeAll, Agrees, PrgStream, ChrStream;
    var prgs, chrs := PrgStream(|prg|, prg, |prg|), ChrStream(chr, |chr|);
    var own := prgs + chrs;
    var c := Cleared(d);
    PrgStreamAgrees(c, prg, chr, |prg|);
    ChrStreamAgrees(c, prg, chr, |chr|);
    DecodeAllAppend(prgs, chrs);
    AgreesAppend(c, DecodeAll(prgs), DecodeAll(chrs), prg, chr);
    SameCommands(own, ws);
    OrderIrrelevant(c, DecodeAll(own), DecodeAll(ws), PrgImage(|c.prg|, prg), ChrImage(chr));
    ModeFirst(d, ws);
    ModeFirst(d, own);
  }

  lemma ModeFirst(d: Rom, ws: seq<bv32>)
    requires d.Valid()
    ensures ExecAll(d, DecodeAll([ModeWord(true, false)] + ws)) == ExecAll(Cleared(d), DecodeAll(ws))
  {
    hide ExecAll, ModeWord, Decode, DecodeAll, Cleared;
    ModeStoreEffect(d);
    DecodeAllAppend([ModeWord(true, false)], ws);
    ExecAllAppend(d, DecodeAll([ModeWord(true, false)]), DecodeAll(ws));
  }

  lemma SameCommands(a: seq<bv32>, b: seq<bv32>)
    requires forall w :: w in a <==> w in b
    ensures forall c :: c in DecodeAll(a) <==> c in DecodeAll(b)
  {
    hide Decode;
    SomeCommands(a, b);
    SomeCommands(b, a);
  }

  lemma SomeCommands(a: seq<bv32>, b: seq<bv32>)
    requires forall w :: w in a ==> w in b
    ensures forall c :: c in DecodeAll(a) ==> c in DecodeAll(b)
  {
    hide Decode;
    forall c | c in DecodeAll(a)
      ensures c in DecodeAll(b)
    {
      var k :| 0 <= k < |a| && c == DecodeAll(a)[k];
      assert a[k] in b;
      var j :| 0 <= j < |b| && b[j] == a[k];
      assert DecodeAll(b)[j] == c;
    }
  }
}
