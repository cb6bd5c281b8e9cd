/**
 * A reference reader for the subset of C that the converter emits: sizes as `const int`
 * definitions and ROM images as `const char` arrays. It follows ISO/IEC 9899:2011 sections
 * 6.4.4.1 (integer constants), 6.7.6.2 and 6.7.9 (array sizes and initialisers) and 6.3.1.3
 * (narrowing to char, with gcc's modulo rule).
 */
module CReader {
  import opened Basics

  // ----- Lexical level -----

  datatype Token = Word(text: string) | Punct(mark: char)

  predicate IsDigit(c: char) {
    '0' <= c <= '9'
  }

  predicate IsWordChar(c: char) {
    IsDigit(c) || 'a' <= c <= 'z' || 'A' <= c <= 'Z' || c == '_'
  }

  predicate IsSpace(c: char) {
    c == ' ' || c == '\n' || c == '\t' || c == '\r'
  }

  predicate AllWordChars(s: string) {
    forall k :: 0 <= k < |s| ==> IsWordChar(s[k])
  }

  /** Length of the longest word at the front of s. */
  function WordLength(s: string): (n: nat)
    ensures n <= |s| && AllWordChars(s[..n])
    ensures n == |s| || !IsWordChar(s[n])
  {
    if s == "" || !IsWordChar(s[0]) then 0 else 1 + WordLength(s[1..])
  }

  function Lex(s: string): seq<Token>
    decreases |s|
  {
    if s == "" then []
    else if IsWordChar(s[0]) then
      var n := WordLength(s);
      [Word(s[..n])] + Lex(s[n..])
    else if IsSpace(s[0]) then Lex(s[1..])
    else [Punct(s[0])] + Lex(s[1..])
  }

  // ----- Integer constants -----

  function HexDigitValue(c: char): Option<nat> {
    if '0' <= c <= '9' then Some(c as int - '0' as int)
    else if 'a' <= c <= 'f' then Some(c as int - 'a' as int + 10)
    else if 'A' <= c <= 'F' then Some(c as int - 'A' as int + 10)
    else None
  }

  function PushDigit(high: Option<nat>, low: Option<nat>, base: nat): Option<nat> {
    if high.Some? && low.Some? && low.value < base then Some(high.value * base + low.value) else None
  }

  function DigitsValue(s: string, base: nat): Option<nat> {
    if s == "" then Some(0)
    else
      PushDigit(DigitsValue(s[..|s| - 1], base), HexDigitValue(s[|s| - 1]), base)
  }

  /** A hexadecimal constant needs a digit after its prefix; "0" is the one octal constant read here. */
  function Constant(w: string): Option<nat> {
    if |w| >= 2 && w[0] == '0' && (w[1] == 'x' || w[1] == 'X') then
      if |w| > 2 then DigitsValue(w[2..], 16) else None
    else if w == "0" then Some(0)
    else if w != "" && '1' <= w[0] <= '9' then DigitsValue(w, 10)
    else None
  }

  // ----- Declarations -----

  /** Iso rejects zero-size arrays and excess initialisers; Gnu accepts the one and drops the other. */
  datatype Dialect = Iso | Gnu

  datatype Decl =
    | IntDecl(name: string, value: nat)
    | CharArray(name: string, data: seq<schar>)

  /** An initialiser list: constants separated by commas. Returns what follows it too. */
  function Initialisers(ts: seq<Token>): Option<(seq<nat>, seq<Token>)>
    decreases |ts|
  {
    if ts == [] || ts[0].Punct? then None
    else
      match Constant(ts[0].text)
      case None => None
      case Some(v) =>
        if |ts| > 1 && ts[1] == Punct(',') then
          match Initialisers(ts[2..])
          case None => None
          case Some((vs, rest)) => Some(([v] + vs, rest))
        else
          Some(([v], ts[1..]))
  }

  /** The array that a list initialises: narrowed, cut to the size, zeroes where the list is short. */
  function Initialised(vs: seq<nat>, size: nat): (data: seq<schar>)
    ensures |data| == size
  {
    seq(size, k requires 0 <= k => if k < |vs| then ToChar(vs[k]) else 0)
  }

  predicate SizeAllowed(size: nat, initialisers: nat, dialect: Dialect) {
    dialect.Iso? ==> 0 < size && initialisers <= size
  }

  function IntDeclaration(ts: seq<Token>): Option<(Decl, seq<Token>)> {
    if |ts| >= 6 && ts[0] == Word("const") && ts[1] == Word("int") && ts[2].Word? && ts[3] == Punct('=')
       && ts[4].Word? && ts[5] == Punct(';') then
      match Constant(ts[4].text)
      case None => None
      case Some(n) => Some((IntDecl(ts[2].text, n), ts[6..]))
    else None
  }

  function ArrayDeclaration(ts: seq<Token>, dialect: Dialect): Option<(Decl, seq<Token>)> {
    if |ts| >= 8 && ts[0] == Word("const") && ts[1] == Word("char") && ts[2].Word? && ts[3] == Punct('[')
       && ts[4].Word? && ts[5] == Punct(']') && ts[6] == Punct('=') && ts[7] == Punct('{') then
      match (Constant(ts[4].text), Initialisers(ts[8..]))
      case (Some(n), Some((vs, rest))) =>
        if |rest| >= 2 && rest[0] == Punct('}') && rest[1] == Punct(';') && SizeAllowed(n, |vs|, dialect) then
          Some((CharArray(ts[2].text, Initialised(vs, n)), rest[2..]))
        else None
      case (_, _) => None
    else None
  }

  function Declaration(ts: seq<Token>, dialect: Dialect): Option<(Decl, seq<Token>)> {
    if |ts| >= 2 && ts[1] == Word("int") then IntDeclaration(ts) else ArrayDeclaration(ts, dialect)
  }

  lemma {:induction false} InitialisersShorter(ts: seq<Token>)
    ensures Initialisers(ts).Some? ==> |Initialisers(ts).value.1| < |ts|
    decreases |ts|
  {
    if |ts| > 1 && ts[1] == Punct(',') {
      InitialisersShorter(ts[2..]);
    }
  }

  lemma DeclarationShorter(ts: seq<Token>, dialect: Dialect)
    ensures Declaration(ts, dialect).Some? ==> |Declaration(ts, dialect).value.1| < |ts|
  {
    if |ts| >= 8 {
      InitialisersShorter(ts[8..]);
    }
  }

  /** A translation unit is a sequence of declarations. */
  function Unit(ts: seq<Token>, dialect: Dialect): Option<seq<Decl>>
    decreases |ts|
  {
    if ts == [] then Some([])
    else
      match Declaration(ts, dialect)
      case None => None
      case Some((d, rest)) =>
        DeclarationShorter(ts, dialect);
        match Unit(rest, dialect)
        case None => None
        case Some(ds) => Some([d] + ds)
  }

  function Read(text: string, dialect: Dialect): Option<seq<Decl>> {
    Unit(Lex(text), dialect)
  }

  // ----- How reading splits -----

  /** The two texts do not run together into one word where they meet. */
  predicate Apart(a: string, b: string) {
    a == "" || b == "" || !IsWordChar(a[|a| - 1]) || !IsWordChar(b[0])
  }

  lemma {:induction false} WordLengthAppend(a: string, b: string)
    requires Apart(a, b)
    ensures WordLength(a) == 0 || WordLength(a + b) == WordLength(a)
  {
    if a == "" || !IsWordChar(a[0]) {
    } else {
      assert (a + b)[1..] == a[1..] + b;
      if a[1..] != "" {
        WordLengthAppend(a[1..], b);
      }
    }
  }

  lemma {:induction false} LexAppend(a: string, b: string)
    requires Apart(a, b)
    ensures Lex(a + b) == Lex(a) + Lex(b)
    decreases |a|
  {
    hide IsWordChar, IsSpace, WordLength;
    if a == "" {
      assert a + b == b;
    } else if IsWordChar(a[0]) {
      var n := WordLength(a);
      WordLengthAppend(a, b);
      assert (a + b)[..n] == a[..n] && (a + b)[n..] == a[n..] + b;
      LexAppend(a[n..], b);
    } else {
      assert (a + b)[1..] == a[1..] + b;
      LexAppend(a[1..], b);
    }
  }

  lemma LexWord(w: string)
    requires w != "" && AllWordChars(w)
    ensures Lex(w) == [Word(w)]
  {
    assert WordLength(w) == |w|;
    assert w[..|w|] == w && w[|w|..] == "";
  }
}
