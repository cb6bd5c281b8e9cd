/**
 * The ROM converter (nesconvert.py): an NES file is read through a cursor and printed as C text.
 * `Emitted` describes the text of every file; `Convert` is the program, proved against it.
 */
module NesConvert {
  import opened Basics

  // ----- Python's str(int) and bytes.hex() -----

  const DIGITS := "0123456789abcdef"

  /** str(n) for a natural number. */
  function Decimal(n: nat): (s: string)
    ensures |s| >= 1
  {
    if n < 10 then [DIGITS[n]] else Decimal(n / 10) + [DIGITS[n % 10]]
  }

  /** What is printed for one read(1): "0x" and two digits, or a bare "0x" at the end of the file. */
  function ByteToken(file: seq<byte>, offset: nat): string {
    if offset < |file| then "0x" + [DIGITS[file[offset] / 16], DIGITS[file[offset] % 16]] else "0x"
  }

  /** The tokens of an array of declared size n: at least one is always printed. */
  function Tokens(file: seq<byte>, offset: nat, n: nat): (ts: seq<string>)
    ensures |ts| == Max(n, 1)
    ensures forall k :: 0 <= k < |ts| ==> ts[k] == ByteToken(file, offset + k)
  {
    seq(Max(n, 1), k requires 0 <= k => ByteToken(file, offset + k))
  }

  function Join(ts: seq<string>): string
    requires ts != []
  {
    if |ts| == 1 then ts[0] else ts[0] + ", " + Join(ts[1..])
  }

  // ----- The file header -----

  const MAGIC: seq<byte> := [0x4E, 0x45, 0x53]  // b'NES'

  predicate HasMagic(file: seq<byte>) {
    MAGIC <= file
  }

  /** The byte at an offset; zero past the end, as int.from_bytes has it. */
  function ByteAt(file: seq<byte>, k: nat): byte {
    if k < |file| then file[k] else 0
  }

  function PrgSize(file: seq<byte>): nat {
    ByteAt(file, 4) * 16384
  }

  function ChrSize(file: seq<byte>): nat {
    ByteAt(file, 5) * 8192
  }

  const PRG_OFFSET := 16

  /** The PRG loop always reads at least once, so a zero-size PRG region still eats one byte. */
  function ChrOffset(file: seq<byte>): nat {
    PRG_OFFSET + Max(PrgSize(file), 1)
  }

  // ----- The emitted text -----

  const PRG_SIZE_HEAD := "const int prg_rom_size = "
  const CHR_SIZE_HEAD := "const int chr_rom_size = "
  const PRG_DATA_HEAD := "const char prg_rom_data["
  const CHR_DATA_HEAD := "const char chr_rom_data["

  function IntLine(head: string, n: nat): string {
    head + Decimal(n) + ";\n"
  }

  function ArrayLine(head: string, n: nat, tokens: seq<string>): string
    requires tokens != []
  {
    head + Decimal(n) + "] = {" + Join(tokens) + "};"
  }

  function PrgTokens(file: seq<byte>): seq<string> {
    Tokens(file, PRG_OFFSET, PrgSize(file))
  }

  function ChrTokens(file: seq<byte>): seq<string> {
    Tokens(file, ChrOffset(file), ChrSize(file))
  }

  function Emitted(file: seq<byte>): string {
    if HasMagic(file) then
      IntLine(PRG_SIZE_HEAD, PrgSize(file)) + IntLine(CHR_SIZE_HEAD, ChrSize(file)) +
      ArrayLine(PRG_DATA_HEAD, PrgSize(file), PrgTokens(file)) + "\n" +
      ArrayLine(CHR_DATA_HEAD, ChrSize(file), ChrTokens(file))
    else
      ""
  }

  // ----- The program -----

  /** A file opened with "rb": reads clip at the end of the file. */
  class InFile {
    const data: seq<byte>
    var pos: nat

    constructor (data: seq<byte>)
      ensures this.data == data && pos == 0
    {
      this.data, pos := data, 0;
    }

    ghost predicate Valid()
      reads this
    {
      pos <= |data|
    }

    method Read(n: nat) returns (r: seq<byte>)
      requires Valid()
      modifies this
      ensures Valid() && pos == Min(old(pos) + n, |data|)
      ensures r == data[old(pos)..pos]
    {
      var next := Min(pos + n, |data|);
      r := data[pos..next];
      pos := next;
    }
  }

  /** A file opened with "w". */
  class OutFile {
    var text: string

    constructor ()
      ensures text == ""
    {
      text := "";
    }

    method Write(s: string)
      modifies this
      ensures text == old(text) + s
    {
      text := text + s;
    }
  }

  /** int.from_bytes of a read(1): zero when nothing is left. */
  function FromBytes(data: seq<byte>): nat
    requires |data| <= 1
  {
    if data == [] then 0 else data[0]
  }

  function Hex(data: seq<byte>): string
    requires |data| <= 1
  {
    if data == [] then "" else [DIGITS[data[0] / 16], DIGITS[data[0] % 16]]
  }

  lemma JoinStep(before: string, ts: seq<string>, i: nat)
    requires i + 1 < |ts|
    ensures before + Join(ts[i..]) == (before + (ts[i] + ", ")) + Join(ts[i + 1..])
  {
    assert ts[i..][1..] == ts[i + 1..];
    assert Join(ts[i..]) == ts[i] + ", " + Join(ts[i + 1..]);
  }

  /** The loop over range(n - 1), then the last byte: both arrays are printed this way. */
  method WriteBytes(infile: InFile, outfile: OutFile, n: nat, ghost offset: nat)
    requires infile.Valid() && infile.pos == Min(offset, |infile.data|)
    modifies infile, outfile
    ensures infile.Valid() && infile.pos == Min(offset + Max(n, 1), |infile.data|)
    ensures outfile.text == old(outfile.text) + Join(Tokens(infile.data, offset, n))
  {
    ghost var tokens := Tokens(infile.data, offset, n);
    ghost var start := outfile.text;
    var i := 0;
    assert tokens[i..] == tokens;
    while i < n - 1
      invariant 0 <= i < |tokens|
      invariant infile.Valid() && infile.pos == Min(offset + i, |infile.data|)
      invariant outfile.text + Join(tokens[i..]) == start + Join(tokens)
    {
      JoinStep(outfile.text, tokens, i);
      WriteToken(infile, outfile, ", ", offset + i);
      i := i + 1;
    }
    assert tokens[i..] == [tokens[i]];
    WriteToken(infile, outfile, "", offset + i);
    assert tokens[i] + "" == tokens[i];
  }

  /** One read(1) and the write of its token, followed by a separator. */
  method WriteToken(infile: InFile, outfile: OutFile, separator: string, ghost offset: nat)
    requires infile.Valid() && infile.pos == Min(offset, |infile.data|)
    modifies infile, outfile
    ensures infile.Valid() && infile.pos == Min(offset + 1, |infile.data|)
    ensures outfile.text == old(outfile.text) + (ByteToken(infile.data, offset) + separator)
  {
    var data := infile.Read(1);
    outfile.Write("0x" + Hex(data) + separator);
  }

  /** `main`, from the header check to the last byte. */
  method Convert(infile: InFile, outfile: OutFile)
    requires infile.Valid() && infile.pos == 0
    modifies infile, outfile
    ensures outfile.text == old(outfile.text) + Emitted(infile.data)
    ensures !(|infile.data| >= 3 && infile.data[0] == 0x4E && infile.data[1] == 0x45 && infile.data[2] == 0x53) ==>
              outfile.text == old(outfile.text)
  {
    hide Decimal, Join;
    ghost var file, start := infile.data, outfile.text;
    var nes := infile.Read(3);
    if nes != MAGIC {
      assert !HasMagic(file);
      return;
    }
    assert HasMagic(file);
    var _ := infile.Read(1);
    var banks := infile.Read(1);
    var prgSize := FromBytes(banks) * 16384;
    banks := infile.Read(1);
    var chrSize := FromBytes(banks) * 8192;
    assert prgSize == PrgSize(file) && chrSize == ChrSize(file);

    outfile.Write("const int prg_rom_size = " + Decimal(prgSize) + ";\n");
    outfile.Write("const int chr_rom_size = " + Decimal(chrSize) + ";\n");
    ghost var sizes := IntLine(PRG_SIZE_HEAD, prgSize) + IntLine(CHR_SIZE_HEAD, chrSize);
    assert outfile.text == start + sizes;

    var _ := infile.Read(10);
    WriteArray(infile, outfile, "const char prg_rom_data[", prgSize, PRG_OFFSET);
    outfile.Write("\n");
    WriteArray(infile, outfile, "const char chr_rom_data[", chrSize, ChrOffset(file));
    EmittedPieces(file, start);
  }

  lemma EmittedPieces(file: seq<byte>, start: string)
    requires HasMagic(file)
    ensures start + Emitted(file)
            == start + (IntLine(PRG_SIZE_HEAD, PrgSize(file)) + IntLine(CHR_SIZE_HEAD, ChrSize(file)))
               + ArrayLine(PRG_DATA_HEAD, PrgSize(file), PrgTokens(file)) + "\n"
               + ArrayLine(CHR_DATA_HEAD, ChrSize(file), ChrTokens(file))
  {
    hide IntLine, ArrayLine;
    var sizes := IntLine(PRG_SIZE_HEAD, PrgSize(file)) + IntLine(CHR_SIZE_HEAD, ChrSize(file));
    var prg := ArrayLine(PRG_DATA_HEAD, PrgSize(file), PrgTokens(file));
    var chr := ArrayLine(CHR_DATA_HEAD, ChrSize(file), ChrTokens(file));
    Associate(start, sizes, prg);
    Associate(start, sizes + prg, "\n");
    Associate(start, sizes + prg + "\n", chr);
  }

  /** One array declaration, from its head to the closing brace. */
  method WriteArray(infile: InFile, outfile: OutFile, head: string, n: nat, ghost offset: nat)
    requires infile.Valid() && infile.pos == Min(offset, |infile.data|)
    modifies infile, outfile
    ensures infile.Valid() && infile.pos == Min(offset + Max(n, 1), |infile.data|)
    ensures outfile.text == old(outfile.text) + ArrayLine(head, n, Tokens(infile.data, offset, n))
  {
    hide Decimal, Join;
    outfile.Write(head + Decimal(n) + "] = {");
    WriteBytes(infile, outfile, n, offset);
    outfile.Write("};");
  }

  // ----- Layout of a complete array -----

  ghost predicate FourCharacters(ts: seq<string>) {
    forall k :: 0 <= k < |ts| ==> |ts[k]| == 4
  }

  /** n complete bytes take 6n - 2 characters, and byte k sits at characters 6k .. 6k + 4. */
  lemma {:induction false} JoinLayout(ts: seq<string>, k: nat)
    requires k < |ts| && FourCharacters(ts)
    ensures |Join(ts)| == 6 * |ts| - 2
    ensures Join(ts)[6 * k..6 * k + 4] == ts[k]
  {
    if |ts| == 1 {
    } else {
      var rest := ts[1..];
      JoinLayout(rest, if k == 0 then 0 else k - 1);
      assert Join(ts) == ts[0] + ", " + Join(rest);
      if k == 0 {
        assert Join(ts)[0..4] == ts[0];
      } else {
        assert Join(ts)[6 * k..6 * k + 4] == Join(rest)[6 * (k - 1)..6 * (k - 1) + 4];
      }
    }
  }

  /** The body of an array whose bytes are all in the file. */
  lemma ArrayBodyLayout(file: seq<byte>, offset: nat, n: nat, k: nat)
    requires k < n && offset + n <= |file|
    ensures var body := Join(Tokens(file, offset, n));
            && |body| == 6 * n - 2
            && body[6 * k..6 * k + 4] == "0x" + [DIGITS[file[offset + k] / 16], DIGITS[file[offset + k] % 16]]
  {
    JoinLayout(Tokens(file, offset, n), k);
  }
}
