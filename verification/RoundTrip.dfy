/**
 * The converter's text read back: which tokens it holds for every file, and exactly when the
 * reader of CReader accepts it and what it then yields.
 */
module RoundTrip {
  import opened Basics
  import opened NesConvert
  import opened CReader

  // ----- Numbers -----

  lemma DigitValue(k: nat)
    requires k < 16
    ensures IsWordChar(DIGITS[k]) && HexDigitValue(DIGITS[k]) == Some(k)
    ensures k < 10 ==> DIGITS[k] == '0' + k as char && (k == 0 <==> DIGITS[k] == '0')
  {
    if
    case k < 4 =>
    case 4 <= k < 8 =>
    case 8 <= k < 12 =>
    case 12 <= k =>
  }

  predicate AllDigits(s: string) {
    forall k :: 0 <= k < |s| ==> IsDigit(s[k])
  }

  /** str(n) is made of digits, without a leading zero. */
  lemma {:induction false} DecimalDigits(n: nat)
    ensures AllDigits(Decimal(n))
    ensures n > 0 ==> Decimal(n)[0] != '0'
    ensures n == 0 ==> Decimal(n) == "0"
  {
    DigitValue(n % 10);
    if n >= 10 {
      DecimalDigits(n / 10);
    }
  }

  lemma DigitsValueSnoc(s: string, c: char, base: nat)
    ensures DigitsValue(s + [c], base) == PushDigit(DigitsValue(s, base), HexDigitValue(c), base)
  {
    assert (s + [c])[..|s + [c]| - 1] == s;
  }

  /** Reading the digits of str(n) in base ten gives n back. */
  lemma {:induction false} DecimalRoundTrip(n: nat)
    ensures DigitsValue(Decimal(n), 10) == Some(n)
  {
    if n < 10 {
      OneDigit(n);
    } else {
      DecimalRoundTrip(n / 10);
      DigitValue(n % 10);
      hide DigitsValue, HexDigitValue;
      DigitsValueSnoc(Decimal(n / 10), DIGITS[n % 10], 10);
    }
  }

  lemma OneDigit(n: nat)
    requires n < 10
    ensures DigitsValue([DIGITS[n]], 10) == Some(n)
  {
    DigitValue(n);
    hide HexDigitValue;
    DigitsValueSnoc([], DIGITS[n], 10);
    assert [] + [DIGITS[n]] == [DIGITS[n]];
  }

  lemma DecimalConstant(n: nat)
    ensures AllWordChars(Decimal(n))
    ensures Constant(Decimal(n)) == Some(n)
  {
    hide DigitsValue, HexDigitValue, Decimal;
    DecimalDigits(n);
    DecimalRoundTrip(n);
    assert IsDigit(Decimal(n)[0]);
    if |Decimal(n)| >= 2 {
      assert IsDigit(Decimal(n)[1]);
    }
  }

  lemma TwoHexDigits(hi: nat, lo: nat)
    requires hi < 16 && lo < 16
    ensures DigitsValue([DIGITS[hi], DIGITS[lo]], 16) == Some(16 * hi + lo)
  {
    DigitValue(hi);
    DigitValue(lo);
    hide HexDigitValue;
    DigitsValueSnoc([], DIGITS[hi], 16);
    DigitsValueSnoc([DIGITS[hi]], DIGITS[lo], 16);
    assert [] + [DIGITS[hi]] == [DIGITS[hi]];
    assert [DIGITS[hi]] + [DIGITS[lo]] == [DIGITS[hi], DIGITS[lo]];
  }

  /** A printed byte reads back as itself; the bare "0x" of an exhausted file is no constant. */
  lemma ByteConstant(file: seq<byte>, offset: nat)
    ensures AllWordChars(ByteToken(file, offset)) && |ByteToken(file, offset)| >= 2
    ensures Constant(ByteToken(file, offset)) == if offset < |file| then Some(file[offset]) else None
  {
    hide DigitsValue, HexDigitValue;
    if offset < |file| {
      var b := file[offset];
      var digits := [DIGITS[b / 16], DIGITS[b % 16]];
      DigitValue(b / 16);
      DigitValue(b % 16);
      TwoHexDigits(b / 16, b % 16);
      assert ByteToken(file, offset)[2..] == digits;
    }
  }

  /**
   * Token k of an array, for every file: "0x" and the two hex digits of the byte at its offset, or a
   * bare "0x" exactly when that offset is at or past the end of the file.
   */
  lemma TokenText(file: seq<byte>, offset: nat, n: nat, k: nat)
    requires k < Max(n, 1)
    ensures var token := Tokens(file, offset, n)[k];
            && |token| >= 2 && token[..2] == "0x"
            && (token == "0x" <==> offset + k >= |file|)
            && (offset + k < |file| ==>
                  && |token| == 4
                  && HexDigitValue(token[2]) == Some(file[offset + k] / 16)
                  && HexDigitValue(token[3]) == Some(file[offset + k] % 16))
  {
    var token := ByteToken(file, offset + k);
    if offset + k < |file| {
      var b := file[offset + k];
      DigitValue(b / 16);
      DigitValue(b % 16);
      hide HexDigitValue;
      assert token[2] == DIGITS[b / 16] && token[3] == DIGITS[b % 16];
    }
  }

  // ----- Tokens of the emitted text -----

  function IntTokens(name: string, n: nat): seq<Token> {
    [Word("const"), Word("int"), Word(name), Punct('='), Word(Decimal(n)), Punct(';')]
  }

  /** An initialiser list, commas between its words. */
  function ListTokens(ws: seq<string>): seq<Token>
    requires ws != []
  {
    if |ws| == 1 then [Word(ws[0])] else [Word(ws[0]), Punct(',')] + ListTokens(ws[1..])
  }

  function ArrayTokens(name: string, n: nat, ws: seq<string>): seq<Token>
    requires ws != []
  {
    [Word("const"), Word("char"), Word(name), Punct('['), Word(Decimal(n)), Punct(']'), Punct('='), Punct('{')]
    + (ListTokens(ws) + [Punct('}'), Punct(';')])
  }

  lemma LexWordThen(w: string, rest: string)
    requires w != "" && AllWordChars(w)
    requires rest == "" || !IsWordChar(rest[0])
    ensures Lex(w + rest) == [Word(w)] + Lex(rest)
  {
    LexAppend(w, rest);
    LexWord(w);
  }

  lemma LexWordSpace(w: string, rest: string)
    requires w != "" && AllWordChars(w)
    ensures Lex(w + (" " + rest)) == [Word(w)] + Lex(rest)
  {
    assert (" " + rest)[1..] == rest;
    LexWordThen(w, " " + rest);
  }

  lemma LexWordComma(w: string, rest: string)
    requires w != "" && AllWordChars(w)
    ensures Lex(w + (", " + rest)) == [Word(w), Punct(',')] + Lex(rest)
  {
    assert (", " + rest)[1..] == " " + rest && (" " + rest)[1..] == rest;
    LexWordThen(w, ", " + rest);
  }

  /** Three words with single spaces between them, then a tail. */
  lemma LexHead(first: string, kind: string, name: string, tail: string)
    requires first != "" && AllWordChars(first) && kind != "" && AllWordChars(kind)
    requires name != "" && AllWordChars(name) && tail != "" && !IsWordChar(tail[0])
    ensures Lex(first + (" " + (kind + (" " + (name + tail)))))
            == [Word(first)] + ([Word(kind)] + ([Word(name)] + Lex(tail)))
  {
    hide Lex;
    LexWordThen(name, tail);
    LexWordSpace(kind, name + tail);
    LexWordSpace(first, kind + (" " + (name + tail)));
  }

  lemma LexPunct(c: char, rest: string)
    requires !IsWordChar(c)
    ensures Lex([c] + rest) == (if IsSpace(c) then [] else [Punct(c)]) + Lex(rest)
  {
    assert ([c] + rest)[1..] == rest;
  }

  lemma LexEquals()
    ensures Lex(" = ") == [Punct('=')]
  {
    LexPunct(' ', "= ");
    LexPunct('=', " ");
    LexPunct(' ', "");
  }

  lemma LexBrackets()
    ensures Lex("[") == [Punct('[')] && Lex("] = {") == [Punct(']'), Punct('='), Punct('{')]
  {
    LexPunct('[', "");
    LexPunct(']', " = {");
    LexPunct(' ', "= {");
    LexPunct('=', " {");
    LexPunct(' ', "{");
    LexPunct('{', "");
  }

  lemma LexEnds()
    ensures Lex(";\n") == [Punct(';')] && Lex("};") == [Punct('}'), Punct(';')]
  {
    LexPunct(';', "\n");
    LexPunct('\n', "");
    LexPunct('}', ";");
    LexPunct(';', "");
  }

  /** A head of three words and a tail that runs into no neighbour, then a body. */
  lemma LexHeadBody(head: string, first: string, kind: string, name: string, tail: string, body: string)
    requires first != "" && AllWordChars(first) && kind != "" && AllWordChars(kind)
    requires name != "" && AllWordChars(name)
    requires tail != "" && !IsWordChar(tail[0]) && !IsWordChar(tail[|tail| - 1])
    requires head == first + (" " + (kind + (" " + (name + tail))))
    ensures Lex(head + body) == ([Word(first)] + ([Word(kind)] + ([Word(name)] + Lex(tail)))) + Lex(body)
  {
    hide Lex;
    assert head[|head| - 1] == tail[|tail| - 1];
    LexAppend(head, body);
    LexHead(first, kind, name, tail);
  }

  lemma LexIntLine(head: string, name: string, n: nat)
    requires name != "" && AllWordChars(name)
    requires head == "const" + (" " + ("int" + (" " + (name + " = "))))
    ensures Lex(IntLine(head, n)) == IntTokens(name, n)
  {
    hide Lex, Decimal;
    assert IntLine(head, n) == head + (Decimal(n) + ";\n");
    LexHeadBody(head, "const", "int", name, " = ", Decimal(n) + ";\n");
    LexEquals();
    LexNumberEnd(n);
  }

  lemma LexNumberEnd(n: nat)
    ensures Lex(Decimal(n) + ";\n") == [Word(Decimal(n)), Punct(';')]
  {
    hide Lex, Decimal;
    DecimalConstant(n);
    LexEnds();
    LexWordThen(Decimal(n), ";\n");
  }

  ghost predicate LexableWords(ws: seq<string>) {
    forall k :: 0 <= k < |ws| ==> ws[k] != "" && AllWordChars(ws[k])
  }

  lemma {:induction false} LexJoin(ws: seq<string>, tail: string)
    requires ws != [] && LexableWords(ws)
    requires tail != "" && !IsWordChar(tail[0])
    ensures Lex(Join(ws) + tail) == ListTokens(ws) + Lex(tail)
  {
    hide Lex;
    if |ws| == 1 {
      LexWordThen(ws[0], tail);
    } else {
      LexJoin(ws[1..], tail);
      LexWordComma(ws[0], Join(ws[1..]) + tail);
      JoinSplit(ws, tail);
    }
  }

  lemma JoinSplit(ws: seq<string>, tail: string)
    requires |ws| > 1
    ensures Join(ws) + tail == ws[0] + (", " + (Join(ws[1..]) + tail))
  {
  }

  lemma LexSizeAndList(n: nat, ws: seq<string>)
    requires ws != [] && LexableWords(ws)
    ensures Lex(Decimal(n) + ("] = {" + (Join(ws) + "};")))
            == [Word(Decimal(n))] + ([Punct(']'), Punct('='), Punct('{')] + (ListTokens(ws) + [Punct('}'), Punct(';')]))
  {
    hide Lex, Decimal, Join;
    DecimalConstant(n);
    LexWordThen(Decimal(n), "] = {" + (Join(ws) + "};"));
    LexAppend("] = {", Join(ws) + "};");
    LexJoin(ws, "};");
    LexBrackets();
    LexEnds();
  }

  lemma ArrayLineSplit(head: string, n: nat, ws: seq<string>)
    requires ws != []
    ensures ArrayLine(head, n, ws) == head + (Decimal(n) + ("] = {" + (Join(ws) + "};")))
  {
    var list := Join(ws);
    Associate(head + Decimal(n) + "] = {", list, "};");
    Associate(head + Decimal(n), "] = {", list + "};");
    Associate(head, Decimal(n), "] = {" + (list + "};"));
  }

  lemma LexArrayLine(head: string, name: string, n: nat, ws: seq<string>)
    requires name != "" && AllWordChars(name)
    requires head == "const" + (" " + ("char" + (" " + (name + "["))))
    requires ws != [] && LexableWords(ws)
    ensures Lex(ArrayLine(head, n, ws)) == ArrayTokens(name, n, ws)
  {
    hide Lex, Decimal, Join;
    var body := Decimal(n) + ("] = {" + (Join(ws) + "};"));
    ArrayLineSplit(head, n, ws);
    LexHeadBody(head, "const", "char", name, "[", body);
    LexBrackets();
    LexSizeAndList(n, ws);
  }

  lemma TokensLexable(file: seq<byte>, offset: nat, n: nat)
    ensures LexableWords(Tokens(file, offset, n))
  {
    forall k | 0 <= k < Max(n, 1)
      ensures Tokens(file, offset, n)[k] != "" && AllWordChars(Tokens(file, offset, n)[k])
    {
      ByteConstant(file, offset + k);
    }
  }

  const PRG_SIZE := "prg_rom_size"
  const CHR_SIZE := "chr_rom_size"
  const PRG_DATA := "prg_rom_data"
  const CHR_DATA := "chr_rom_data"

  lemma SizeHeads()
    ensures PRG_SIZE_HEAD == "const" + (" " + ("int" + (" " + (PRG_SIZE + " = "))))
    ensures CHR_SIZE_HEAD == "const" + (" " + ("int" + (" " + (CHR_SIZE + " = "))))
  {
  }

  lemma DataHeads()
    ensures PRG_DATA_HEAD == "const" + (" " + ("char" + (" " + (PRG_DATA + "["))))
    ensures CHR_DATA_HEAD == "const" + (" " + ("char" + (" " + (CHR_DATA + "["))))
  {
  }

  function EmittedTokens(file: seq<byte>): seq<Token> {
    IntTokens(PRG_SIZE, PrgSize(file)) + (IntTokens(CHR_SIZE, ChrSize(file)) +
    (ArrayTokens(PRG_DATA, PrgSize(file), PrgTokens(file)) +
     ArrayTokens(CHR_DATA, ChrSize(file), ChrTokens(file))))
  }

  /** Token by token, the text of every file with the NES magic: nothing else is ever printed. */
  lemma LexEmitted(file: seq<byte>)
    requires HasMagic(file)
    ensures Lex(Emitted(file)) == EmittedTokens(file)
  {
    hide Lex, Decimal, Join;
    var prg, chr := PrgSize(file), ChrSize(file);
    var size1, size2 := IntLine(PRG_SIZE_HEAD, prg), IntLine(CHR_SIZE_HEAD, chr);
    var data1 := ArrayLine(PRG_DATA_HEAD, prg, PrgTokens(file));
    var data2 := ArrayLine(CHR_DATA_HEAD, chr, ChrTokens(file));
    LexSizeLines(file);
    LexPrgLine(file);
    LexChrLine(file);
    assert Emitted(file) == size1 + size2 + data1 + "\n" + data2;
    assert size1[|size1| - 1] == '\n' && size2[|size2| - 1] == '\n';
    LexFour(size1, size2, data1, "\n", data2);
  }

  lemma LexSizeLines(file: seq<byte>)
    ensures Lex(IntLine(PRG_SIZE_HEAD, PrgSize(file))) == IntTokens(PRG_SIZE, PrgSize(file))
    ensures Lex(IntLine(CHR_SIZE_HEAD, ChrSize(file))) == IntTokens(CHR_SIZE, ChrSize(file))
  {
    SizeHeads();
    LexIntLine(PRG_SIZE_HEAD, PRG_SIZE, PrgSize(file));
    LexIntLine(CHR_SIZE_HEAD, CHR_SIZE, ChrSize(file));
  }

  lemma LexPrgLine(file: seq<byte>)
    ensures Lex(ArrayLine(PRG_DATA_HEAD, PrgSize(file), PrgTokens(file)))
            == ArrayTokens(PRG_DATA, PrgSize(file), PrgTokens(file))
  {
    DataHeads();
    TokensLexable(file, PRG_OFFSET, PrgSize(file));
    LexArrayLine(PRG_DATA_HEAD, PRG_DATA, PrgSize(file), PrgTokens(file));
  }

  lemma LexChrLine(file: seq<byte>)
    ensures Lex(ArrayLine(CHR_DATA_HEAD, ChrSize(file), ChrTokens(file)))
            == ArrayTokens(CHR_DATA, ChrSize(file), ChrTokens(file))
  {
    DataHeads();
    TokensLexable(file, ChrOffset(file), ChrSize(file));
    LexArrayLine(CHR_DATA_HEAD, CHR_DATA, ChrSize(file), ChrTokens(file));
  }

  lemma LexFour(a: string, b: string, c: string, newline: string, d: string)
    requires a != "" && a[|a| - 1] == '\n' && b != "" && b[|b| - 1] == '\n' && newline == ['\n']
    ensures Lex(a + b + c + newline + d) == Lex(a) + (Lex(b) + (Lex(c) + Lex(d)))
  {
    hide Lex;
    var e := newline + d;
    LexPunct('\n', d);
    LexAppend(c, e);
    LexAppend(b, c + e);
    LexAppend(a, b + (c + e));
    Associate(a + b + c, newline, d);
    Associate(a + b, c, e);
    Associate(a, b, c + e);
  }

  // ----- Parsing the tokens back -----

  ghost predicate AllConstants(ws: seq<string>) {
    forall k :: 0 <= k < |ws| ==> Constant(ws[k]).Some?
  }

  function Values(ws: seq<string>): (vs: seq<nat>)
    ensures |vs| == |ws|
    ensures forall k :: 0 <= k < |ws| && Constant(ws[k]).Some? ==> vs[k] == Constant(ws[k]).value
  {
    seq(|ws|, k requires 0 <= k < |ws| => match Constant(ws[k]) case Some(v) => v case None => 0)
  }

  /** A list is accepted exactly when each of its words is a constant. */
  lemma {:induction false} ReadList(ws: seq<string>, rest: seq<Token>)
    requires ws != [] && (rest == [] || rest[0] != Punct(','))
    ensures Initialisers(ListTokens(ws) + rest) == if AllConstants(ws) then Some((Values(ws), rest)) else None
  {
    var ts := ListTokens(ws) + rest;
    if |ws| == 1 {
      assert ts[0] == Word(ws[0]) && ts[1..] == rest;
      assert AllConstants(ws) ==> Values(ws) == [Constant(ws[0]).value];
    } else {
      var tail := ws[1..];
      ReadList(tail, rest);
      assert ts[2..] == ListTokens(tail) + rest;
      assert ts[0] == Word(ws[0]) && ts[1] == Punct(',');
      assert AllConstants(ws) <==> Constant(ws[0]).Some? && AllConstants(tail) by {
        assert forall k :: 0 <= k < |tail| ==> tail[k] == ws[k + 1];
        assert forall k :: 1 <= k < |ws| ==> ws[k] == tail[k - 1];
      }
      if AllConstants(ws) {
        assert Values(ws) == [Constant(ws[0]).value] + Values(tail);
      }
    }
  }

  lemma ReadInt(name: string, n: nat, rest: seq<Token>, dialect: Dialect)
    ensures Declaration(IntTokens(name, n) + rest, dialect) == Some((IntDecl(name, n), rest))
  {
    hide Constant, Decimal;
    DecimalConstant(n);
    assert (IntTokens(name, n) + rest)[6..] == rest;
  }

  lemma ReadArray(name: string, n: nat, ws: seq<string>, rest: seq<Token>, dialect: Dialect)
    requires ws != []
    ensures Declaration(ArrayTokens(name, n, ws) + rest, dialect)
            == if AllConstants(ws) && SizeAllowed(n, |ws|, dialect)
               then Some((CharArray(name, Initialised(Values(ws), n)), rest)) else None
  {
    hide Constant, Initialisers, Decimal;
    DecimalConstant(n);
    var ts := ArrayTokens(name, n, ws) + rest;
    var after := [Punct('}'), Punct(';')] + rest;
    assert ts[8..] == ListTokens(ws) + after;
    ReadList(ws, after);
    assert after[2..] == rest;
  }

  // ----- The round trip -----

  /** The file holds every byte that the two loops ask for. */
  predicate Complete(file: seq<byte>) {
    |file| >= ChrOffset(file) + Max(ChrSize(file), 1)
  }

  function Slice(file: seq<byte>, offset: nat, n: nat): (data: seq<schar>)
    requires offset + n <= |file|
    ensures |data| == n && forall k :: 0 <= k < n ==> data[k] == ToChar(file[offset + k])
  {
    seq<schar>(n, k requires 0 <= k < n => ToChar(file[offset + k]))
  }

  function Header(file: seq<byte>): seq<Decl>
    requires Complete(file)
  {
    [IntDecl(PRG_SIZE, PrgSize(file)), IntDecl(CHR_SIZE, ChrSize(file)),
     CharArray(PRG_DATA, Slice(file, PRG_OFFSET, PrgSize(file))),
     CharArray(CHR_DATA, Slice(file, ChrOffset(file), ChrSize(file)))]
  }

  predicate BanksAllowed(file: seq<byte>, dialect: Dialect) {
    dialect.Iso? ==> PrgSize(file) > 0 && ChrSize(file) > 0
  }

  lemma TokensConstant(file: seq<byte>, offset: nat, n: nat)
    ensures AllConstants(Tokens(file, offset, n)) <==> offset + Max(n, 1) <= |file|
    ensures offset + Max(n, 1) <= |file| ==>
              Initialised(Values(Tokens(file, offset, n)), n) == Slice(file, offset, n)
  {
    hide Constant, ByteToken, ToChar;
    var ts := Tokens(file, offset, n);
    forall k | 0 <= k < |ts|
      ensures Constant(ts[k]) == if offset + k < |file| then Some(file[offset + k]) else None
    {
      ByteConstant(file, offset + k);
    }
    assert Constant(ts[|ts| - 1]).Some? <==> offset + Max(n, 1) <= |file|;
  }

  /**
   * The converter's text is a usable header exactly when the file is complete and, in strict C,
   * has at least one bank of each kind; it then defines the two sizes and the two payloads.
   */
  lemma RoundTripExactly(file: seq<byte>, dialect: Dialect)
    requires HasMagic(file)
    ensures Read(Emitted(file), dialect)
            == if Complete(file) && BanksAllowed(file, dialect) then Some(Header(file)) else None
  {
    LexEmitted(file);
    var prg, chr := PrgSize(file), ChrSize(file);
    var data2 := ArrayTokens(CHR_DATA, chr, ChrTokens(file));
    var data1 := ArrayTokens(PRG_DATA, prg, PrgTokens(file));
    var size2 := IntTokens(CHR_SIZE, chr);
    TokensConstant(file, PRG_OFFSET, prg);
    TokensConstant(file, ChrOffset(file), chr);
    assert data2 + [] == data2;
    ReadArray(CHR_DATA, chr, ChrTokens(file), [], dialect);
    ReadArray(PRG_DATA, prg, PrgTokens(file), data2, dialect);
    ReadInt(CHR_SIZE, chr, data1 + data2, dialect);
    ReadInt(PRG_SIZE, prg, size2 + (data1 + data2), dialect);
    ReadFour(file, dialect, IntTokens(PRG_SIZE, prg), size2, data1, data2);
  }

  /**
   * A file without CHR banks that ends with its PRG data gets "{0x}" as its CHR array, which is no
   * initialiser in either dialect: its text is no usable header.
   */
  lemma NoChrBankRejected(file: seq<byte>, dialect: Dialect)
    requires HasMagic(file) && ChrSize(file) == 0 && |file| == PRG_OFFSET + PrgSize(file)
    ensures ChrTokens(file) == ["0x"]
    ensures Read(Emitted(file), dialect) == None
  {
    assert ChrTokens(file) == [ByteToken(file, ChrOffset(file))];
    hide Emitted, Read;
    RoundTripExactly(file, dialect);
  }

  /** Unit over four declarations in a row, the last two of which may be rejected. */
  lemma ReadFour(file: seq<byte>, dialect: Dialect, a: seq<Token>, b: seq<Token>, c: seq<Token>, d: seq<Token>)
    requires a != [] && b != [] && c != [] && d != []
    requires Declaration(a + (b + (c + d)), dialect) == Some((IntDecl(PRG_SIZE, PrgSize(file)), b + (c + d)))
    requires Declaration(b + (c + d), dialect) == Some((IntDecl(CHR_SIZE, ChrSize(file)), c + d))
    requires var prg := Declaration(c + d, dialect);
             prg.Some? ==> prg.value.1 == d
    requires var chr := Declaration(d, dialect);
             chr.Some? ==> chr.value.1 == []
    ensures Unit(a + (b + (c + d)), dialect)
            == match (Declaration(c + d, dialect), Declaration(d, dialect))
               case (Some((prg, _)), Some((chr, _))) =>
                 Some([IntDecl(PRG_SIZE, PrgSize(file)), IntDecl(CHR_SIZE, ChrSize(file)), prg, chr])
               case (_, _) => None
  {
    var onPrg, onChr := Declaration(c + d, dialect), Declaration(d, dialect);
    UnitCons(b + (c + d), IntDecl(CHR_SIZE, ChrSize(file)), c + d, dialect);
    UnitCons(a + (b + (c + d)), IntDecl(PRG_SIZE, PrgSize(file)), b + (c + d), dialect);
    if onPrg.Some? {
      var (prg, _) := onPrg.value;
      UnitCons(c + d, prg, d, dialect);
      if onChr.Some? {
        var (chr, _) := onChr.value;
        UnitCons(d, chr, [], dialect);
        assert Unit(c + d, dialect) == Some([prg] + ([chr] + []));
        var size1, size2 := IntDecl(PRG_SIZE, PrgSize(file)), IntDecl(CHR_SIZE, ChrSize(file));
        assert Unit(b + (c + d), dialect) == Some([size2] + ([prg] + ([chr] + [])));
        assert [size1] + ([size2] + ([prg] + ([chr] + []))) == [size1, size2, prg, chr];
      }
    }
  }

  lemma UnitCons(ts: seq<Token>, decl: Decl, rest: seq<Token>, dialect: Dialect)
    requires ts != [] && Declaration(ts, dialect) == Some((decl, rest))
    ensures Unit(ts, dialect) == if Unit(rest, dialect).None? then None else Some([decl] + Unit(rest, dialect).value)
  {
  }

  // ----- A file built from its parts -----

  /** What an NES file holds besides its images. */
  datatype Parts = Parts(version: byte, prgBanks: byte, chrBanks: byte, rest: seq<byte>, tail: seq<byte>)

  /** Magic, a byte, the two bank counts, ten bytes, the PRG and the CHR image, and anything after them. */
  predicate Built(file: seq<byte>, n: Parts, prg: seq<byte>, chr: seq<byte>) {
    && file == [0x4E, 0x45, 0x53, n.version, n.prgBanks, n.chrBanks] + n.rest + prg + chr + n.tail
    && |n.rest| == 10
    && |prg| == 16384 * n.prgBanks && n.prgBanks > 0
    && |chr| == 8192 * n.chrBanks && n.chrBanks > 0
  }

  /** Where the converter finds the parts. */
  lemma PartsFound(file: seq<byte>, n: Parts, prg: seq<byte>, chr: seq<byte>)
    requires Built(file, n, prg, chr)
    ensures HasMagic(file) && Complete(file) && PrgSize(file) == |prg| && ChrSize(file) == |chr|
    ensures PRG_OFFSET == 16 && ChrOffset(file) == 16 + |prg|
    ensures file[16..16 + |prg|] == prg && file[16 + |prg|..16 + |prg| + |chr|] == chr
  {
    var head := [0x4E, 0x45, 0x53, n.version, n.prgBanks, n.chrBanks];
    assert file[..3] == MAGIC;
    assert file[4] == n.prgBanks && file[5] == n.chrBanks;
    assert file == (head + n.rest) + (prg + (chr + n.tail));
    assert file == (head + n.rest + prg) + (chr + n.tail);
  }

  /** The printed bytes of an image. */
  function Printed(data: seq<byte>): (ts: seq<string>)
    ensures |ts| == |data|
  {
    seq(|data|, k requires 0 <= k < |data| =>
      "0x" + ["0123456789abcdef"[data[k] / 16], "0123456789abcdef"[data[k] % 16]])
  }

  lemma PrintedTokens(file: seq<byte>, offset: nat, data: seq<byte>)
    requires data != [] && offset + |data| <= |file| && file[offset..offset + |data|] == data
    ensures Tokens(file, offset, |data|) == Printed(data)
  {
    forall k | 0 <= k < |data|
      ensures ByteToken(file, offset + k) == Printed(data)[k]
    {
      assert data[k] == file[offset + k];
    }
  }

  /** The text of such a file, character by character, and what it reads back as in either dialect. */
  lemma PartsPrinted(file: seq<byte>, n: Parts, prg: seq<byte>, chr: seq<byte>)
    requires Built(file, n, prg, chr)
    ensures Emitted(file)
            == ("const int prg_rom_size = " + Decimal(|prg|) + ";\n")
               + ("const int chr_rom_size = " + Decimal(|chr|) + ";\n")
               + ("const char prg_rom_data[" + Decimal(|prg|) + "] = {" + Join(Printed(prg)) + "};") + "\n"
               + ("const char chr_rom_data[" + Decimal(|chr|) + "] = {" + Join(Printed(chr)) + "};")
  {
    PartsFound(file, n, prg, chr);
    hide Decimal, Join, Printed, Tokens, Built;
    PrintedTokens(file, 16, prg);
    PrintedTokens(file, 16 + |prg|, chr);
  }

  lemma PartsReadBack(file: seq<byte>, n: Parts, prg: seq<byte>, chr: seq<byte>, dialect: Dialect)
    requires Built(file, n, prg, chr)
    ensures Read(Emitted(file), dialect).Some?
    ensures var h := Read(Emitted(file), dialect).value;
            && |h| == 4 && h[0] == IntDecl("prg_rom_size", |prg|) && h[1] == IntDecl("chr_rom_size", |chr|)
            && h[2].CharArray? && h[2].name == "prg_rom_data" && |h[2].data| == |prg|
            && (forall k :: 0 <= k < |prg| ==>
                  h[2].data[k] == if prg[k] < 128 then prg[k] as int else prg[k] as int - 256)
            && h[3].CharArray? && h[3].name == "chr_rom_data" && |h[3].data| == |chr|
            && (forall k :: 0 <= k < |chr| ==>
                  h[3].data[k] == if chr[k] < 128 then chr[k] as int else chr[k] as int - 256)
  {
    PartsFound(file, n, prg, chr);
    hide Emitted, Read, Decimal, Slice, Built;
    RoundTripExactly(file, dialect);
    SliceValues(file, 16, prg);
    SliceValues(file, 16 + |prg|, chr);
  }

  lemma SliceValues(file: seq<byte>, offset: nat, data: seq<byte>)
    requires offset + |data| <= |file| && file[offset..offset + |data|] == data
    ensures forall k :: 0 <= k < |data| ==>
              Slice(file, offset, |data|)[k] == if data[k] < 128 then data[k] as int else data[k] as int - 256
  {
    forall k | 0 <= k < |data|
      ensures Slice(file, offset, |data|)[k] == if data[k] < 128 then data[k] as int else data[k] as int - 256
    {
      assert data[k] == file[offset + k];
    }
  }

  /** So the text determines the payload: a file with the text of a complete one is complete and carries its images. */
  lemma TextDeterminesPayload(f: seq<byte>, g: seq<byte>)
    requires HasMagic(f) && Complete(f) && Emitted(f) == Emitted(g)
    ensures HasMagic(g) && Complete(g)
    ensures PrgSize(f) == PrgSize(g) && ChrSize(f) == ChrSize(g) && ChrOffset(f) == ChrOffset(g)
    ensures f[PRG_OFFSET..][..PrgSize(f)] == g[PRG_OFFSET..][..PrgSize(g)]
    ensures f[ChrOffset(f)..][..ChrSize(f)] == g[ChrOffset(g)..][..ChrSize(g)]
  {
    RoundTripExactly(f, Gnu);
    SameText(f, g);
    var hf, hg := Header(f), Header(g);
    assert hf[0] == hg[0] && hf[1] == hg[1] && hf[2] == hg[2] && hf[3] == hg[3];
    SameSlice(f, g, PRG_OFFSET, PrgSize(f));
    SameSlice(f, g, ChrOffset(f), ChrSize(f));
  }

  lemma SameText(f: seq<byte>, g: seq<byte>)
    requires HasMagic(f) && Complete(f) && Emitted(f) == Emitted(g)
    ensures HasMagic(g) && Complete(g) && Header(f) == Header(g)
  {
    RoundTripExactly(f, Gnu);
    if !HasMagic(g) {
      assert false;
    }
    hide Emitted, Read;
    RoundTripExactly(g, Gnu);
  }

  lemma SameSlice(f: seq<byte>, g: seq<byte>, offset: nat, n: nat)
    requires offset + n <= |f| && offset + n <= |g|
    requires Slice(f, offset, n) == Slice(g, offset, n)
    ensures f[offset..][..n] == g[offset..][..n]
  {
    forall k | 0 <= k < n
      ensures f[offset..][..n][k] == g[offset..][..n][k]
    {
      assert ToChar(f[offset + k]) == Slice(f, offset, n)[k] == Slice(g, offset, n)[k] == ToChar(g[offset + k]);
    }
  }
}
