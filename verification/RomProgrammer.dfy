/**
 * The command words of rom_programmer.h and what the programmer hardware reads out of a word
 * (ROM_PRGMR.sv): bit 31 selects PRG or CHR, bits 23..16 are data, bits 15..0 the address, and
 * bits 30 and 28 latch a mode from bits 29 and 27.
 */
module RomProgrammer {
  import opened Basics

  // ----- Packing -----

  function PrgWord(address: bv16, data: bv8): bv32 {
    0x8000_0000 | ((address as bv32) | ((data as bv32) << 16))
  }

  function ChrWord(address: bv16, data: bv8): bv32 {
    0x0000_0000 | ((address as bv32) | ((data as bv32) << 16))
  }

  /** Every bit of a data word: its top byte, then data, then address. */
  predicate DataWord(w: bv32, top: bv32, address: bv16, data: bv8) {
    w == top | ((data as bv32) << 16) | (address as bv32)
  }

  lemma DataWordBits(address: bv16, data: bv8)
    ensures DataWord(PrgWord(address, data), 0x8000_0000, address, data)
    ensures DataWord(ChrWord(address, data), 0x0000_0000, address, data)
  {
  }

  // ----- Unpacking -----

  function AddressOf(w: bv32): bv16 {
    (w & 0xFFFF) as bv16
  }

  function DataOf(w: bv32): bv8 {
    ((w >> 16) & 0xFF) as bv8
  }

  /** Everything the hardware takes from a word; a mode is None when the word leaves it alone. */
  datatype Command = Command(toPrg: bool, address: u16, data: bv8, mirroring: Option<bool>, chrRam: Option<bool>)

  function Decode(w: bv32): Command {
    Command(w & 0x8000_0000 != 0, AddressOf(w) as int, DataOf(w),
            if w & 0x4000_0000 != 0 then Some(w & 0x2000_0000 != 0) else None,
            if w & 0x1000_0000 != 0 then Some(w & 0x0800_0000 != 0) else None)
  }

  // ----- The device register -----

  /** `rom` is the volatile register; `stores` is the history of what was stored into it. */
  class Programmer {
    var rom: bv32
    ghost var stores: seq<bv32>

    constructor ()
      ensures stores == []
    {
      rom, stores := 0, [];
    }

    method Store(w: bv32)
      modifies this
      ensures rom == w && stores == old(stores) + [w]
    {
      rom, stores := w, stores + [w];
    }

    method WritePrgRom(address: bv16, data: bv8)
      modifies this
      ensures stores == old(stores) + [rom]
      ensures Decode(rom) == Command(true, address as int, data, None, None)
      ensures rom == PrgWord(address, data)
      ensures DataWord(rom, 0x8000_0000, address, data)
    {
      DataWordsDecode(address, data);
      DataWordBits(address, data);
      hide Decode, DataWord;
      Store(0x8000_0000 | ((address as bv32) | ((data as bv32) << 16)));
    }

    method WriteChrRom(address: bv16, data: bv8)
      modifies this
      ensures stores == old(stores) + [rom]
      ensures Decode(rom) == Command(false, address as int, data, None, None)
      ensures rom == ChrWord(address, data)
      ensures DataWord(rom, 0x0000_0000, address, data)
    {
      DataWordsDecode(address, data);
      DataWordBits(address, data);
      hide Decode, DataWord;
      Store(0x0000_0000 | ((address as bv32) | ((data as bv32) << 16)));
    }

    /** A mode word also looks like a write of zero to PRG address zero. */
    method WriteHeaderInfo(isVertical: int, isChrRam: int)
      modifies this
      ensures stores == old(stores) + [rom]
      ensures Decode(rom) == Command(true, 0, 0, Some(isVertical != 0), Some(isChrRam != 0))
      ensures rom == ModeWord(isVertical != 0, isChrRam != 0)
      ensures rom & 0x2000_0000 != 0 <==> isVertical != 0
      ensures rom & 0x0800_0000 != 0 <==> isChrRam != 0
      ensures rom & 0xD7FF_FFFF == 0xD000_0000
    {
      var pringle: bv32 := 0x0000_0000;
      if isVertical != 0 {
        pringle := pringle | 0x2000_0000;
      }
      if isChrRam != 0 {
        pringle := pringle | 0x0800_0000;
      }
      Store(0x5000_0000 | pringle | 0x8000_0000);
      ModeWordDecodes(isVertical != 0, isChrRam != 0);
    }
  }

  function ModeWord(vertical: bool, chrRam: bool): bv32 {
    0xD000_0000 | (if vertical then 0x2000_0000 else 0) | (if chrRam then 0x0800_0000 else 0)
  }

  // ----- Unique decoding -----

  /** What the hardware takes from each bit of a word, for every word: its top byte, its data and its address. */
  lemma DecodeBits(top: bv8, data: bv8, address: bv16)
    ensures Decode(((top as bv32) << 24) | ((data as bv32) << 16) | (address as bv32))
            == Command(top & 0x80 != 0, address as int, data,
                       if top & 0x40 != 0 then Some(top & 0x20 != 0) else None,
                       if top & 0x10 != 0 then Some(top & 0x08 != 0) else None)
  {
    JoinedFields(top, data, address);
    hide AddressOf, DataOf;
  }

  lemma JoinedFields(top: bv8, data: bv8, address: bv16)
    ensures var w := ((top as bv32) << 24) | ((data as bv32) << 16) | (address as bv32);
            && AddressOf(w) == address && DataOf(w) == data
            && (w & 0x8000_0000 != 0 <==> top & 0x80 != 0) && (w & 0x4000_0000 != 0 <==> top & 0x40 != 0)
            && (w & 0x2000_0000 != 0 <==> top & 0x20 != 0) && (w & 0x1000_0000 != 0 <==> top & 0x10 != 0)
            && (w & 0x0800_0000 != 0 <==> top & 0x08 != 0)
  {
  }

  /** Every word is made of such parts. */
  lemma WordParts(w: bv32)
    ensures w == ((((w >> 24) as bv8) as bv32) << 24) | ((((w >> 16) & 0xFF) as bv8 as bv32) << 16)
                 | (((w & 0xFFFF) as bv16) as bv32)
  {
  }

  lemma PrgWordFields(address: bv16, data: bv8)
    ensures var w := PrgWord(address, data);
            && AddressOf(w) == address && DataOf(w) == data
            && w & 0x8000_0000 != 0 && w & 0x4000_0000 == 0 && w & 0x1000_0000 == 0
  {
  }

  lemma ChrWordFields(address: bv16, data: bv8)
    ensures var w := ChrWord(address, data);
            && AddressOf(w) == address && DataOf(w) == data
            && w & 0x8000_0000 == 0 && w & 0x4000_0000 == 0 && w & 0x1000_0000 == 0
  {
  }

  lemma DataWordsDecode(address: bv16, data: bv8)
    ensures Decode(PrgWord(address, data)) == Command(true, address as int, data, None, None)
    ensures Decode(ChrWord(address, data)) == Command(false, address as int, data, None, None)
  {
    PrgWordFields(address, data);
    ChrWordFields(address, data);
  }

  lemma ModeWordDecodes(vertical: bool, chrRam: bool)
    ensures Decode(ModeWord(vertical, chrRam)) == Command(true, 0, 0, Some(vertical), Some(chrRam))
  {
  }

  /** Every word the program can emit. */
  datatype Emission = Prg(address: bv16, data: bv8) | Chr(address: bv16, data: bv8) | Mode(vertical: bool, chrRam: bool)

  function Encode(e: Emission): bv32 {
    match e
    case Prg(a, d) => PrgWord(a, d)
    case Chr(a, d) => ChrWord(a, d)
    case Mode(v, c) => ModeWord(v, c)
  }

  lemma EncodeDecodes(e: Emission)
    ensures Decode(Encode(e)) == match e
                                 case Prg(a, d) => Command(true, a as int, d, None, None)
                                 case Chr(a, d) => Command(false, a as int, d, None, None)
                                 case Mode(v, c) => Command(true, 0, 0, Some(v), Some(c))
  {
    match e {
      case Prg(a, d) => DataWordsDecode(a, d);
      case Chr(a, d) => DataWordsDecode(a, d);
      case Mode(v, c) => ModeWordDecodes(v, c);
    }
  }

  /** PRG, CHR and mode words are pairwise disjoint, and each determines its fields. */
  lemma EncodeInjective(e: Emission, f: Emission)
    requires Encode(e) == Encode(f)
    ensures e == f
  {
    EncodeDecodes(e);
    EncodeDecodes(f);
    if e.Prg? || e.Chr? {
      FromInt16(e.address);
      FromInt16(f.address);
    }
  }
}
