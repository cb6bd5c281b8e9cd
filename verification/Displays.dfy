/**
 * The LED register (14 bits) and the hex-digit register (16 bits) of usb_host.h. Four routines share
 * them by read-modify-write: setLED, clearLED and two signed decimal displays, each of which owns a
 * sign LED, a hundreds LED and one byte of two digits.
 */
module Displays {
  import opened Basics

  const LED_COUNT := 14
  const SIGN_0 := 11
  const HUNDREDS_0 := 13
  const SIGN_1 := 10
  const HUNDREDS_1 := 12

  type Led = n: nat | n < LED_COUNT

  // ----- Reading the registers -----

  /** 0x001 << n. */
  function Mask(n: Led): bv14 {
    match n
    case 0 => 0x1 case 1 => 0x2 case 2 => 0x4 case 3 => 0x8
    case 4 => 0x10 case 5 => 0x20 case 6 => 0x40 case 7 => 0x80
    case 8 => 0x100 case 9 => 0x200 case 10 => 0x400 case 11 => 0x800
    case 12 => 0x1000 case 13 => 0x2000
  }

  function Lit(leds: bv14): set<Led> {
    set n: Led | 0 <= n < LED_COUNT && leds & Mask(n) != 0
  }

  function High(hex: bv16): bv8 {
    (hex >> 8) as bv8
  }

  function Low(hex: bv16): bv8 {
    (hex & 0xFF) as bv8
  }

  /** Everything the two registers show. */
  datatype Panel = Panel(lit: set<Led>, high: bv8, low: bv8)

  // ----- What each routine should do to the panel -----

  /** Negation in `int`, as C promotes it. */
  function Neg(x: int): int {
    -x
  }

  function Magnitude(v: int): nat {
    if v < 0 then -v else v
  }

  /** The digit byte of a value. C leaves -128 negative, so its digits come out as bits of -2 and -8. */
  function Face(v: schar): bv8 {
    if v == -128 then 0xF8 else (ToU8(Magnitude(v) % 100 / 10) << 4) | ToU8(Magnitude(v) % 10)
  }

  function Put(lit: set<Led>, n: Led, on: bool): set<Led> {
    if on then lit + {n} else lit - {n}
  }

  datatype Op = SetLed(led: Led) | ClearLed(led: Led) | Show0(value: schar) | Show1(value: schar)

  /** Display 1 computes in 32 bits, so the digits of -128 run over into display 0. */
  function Apply(p: Panel, op: Op): Panel {
    match op
    case SetLed(n) => p.(lit := Put(p.lit, n, true))
    case ClearLed(n) => p.(lit := Put(p.lit, n, false))
    case Show0(v) => Panel(Put(Put(p.lit, SIGN_0, v < 0), HUNDREDS_0, Magnitude(v) >= 100), Face(v), p.low)
    case Show1(v) => Panel(Put(Put(p.lit, SIGN_1, v < 0), HUNDREDS_1, Magnitude(v) >= 100),
                           if v == -128 then p.high | 0x0F else p.high, Face(v))
  }

  // ----- The registers bit by bit -----

  function LedBit(n: Led): bv14 {
    (1 as bv14) << n
  }

  /** What setLED and clearLED write back. */
  function Switched(leds: bv14, n: Led, on: bool): bv14 {
    WithBit(leds, LedBit(n), on)
  }

  function WithBit(leds: bv14, bit: bv14, on: bool): bv14 {
    if on then leds | bit else leds & !bit
  }

  lemma MaskShift(n: Led)
    ensures Mask(n) == LedBit(n)
  {
  }

  /** The number in the register. */
  function Number(leds: bv14): nat {
    leds as int
  }

  function HalfNumber(leds: bv13): nat {
    leds as int
  }

  function Halved(x: nat, n: nat): nat {
    if n == 0 then x else Halved(x, n - 1) / 2
  }

  lemma AppendBit(front: bv13, b: bv1)
    ensures Number(((front as bv14) << 1) | (b as bv14)) == 2 * HalfNumber(front) + (if b == 1 then 1 else 0)
  {
  }

  lemma WidenNumber(front: bv13)
    ensures Number(front as bv14) == HalfNumber(front)
  {
  }

  lemma SplitBit(leds: bv14)
    ensures leds == ((((leds >> 1) as bv13) as bv14) << 1) | (((leds & 1) as bv1) as bv14)
    ensures ((leds >> 1) as bv13) as bv14 == leds >> 1
    ensures (leds & 1) as bv1 == if leds & 1 != 0 then 1 else 0
  {
  }

  lemma HalveNumber(leds: bv14)
    ensures Number(leds) / 2 == Number(leds >> 1)
    ensures Number(leds) % 2 == if leds & 1 != 0 then 1 else 0
  {
    hide Number, HalfNumber;
    SplitBit(leds);
    AppendBit((leds >> 1) as bv13, (leds & 1) as bv1);
    WidenNumber((leds >> 1) as bv13);
  }

  /** The register without its n lowest bits. */
  function Dropped(leds: bv14, n: Led): bv14 {
    if n == 0 then leds else Dropped(leds, n - 1) >> 1
  }

  lemma {:induction false} HalvedNumber(leds: bv14, n: Led)
    ensures Halved(Number(leds), n) == Number(Dropped(leds, n))
  {
    hide Number;
    if n > 0 {
      HalvedNumber(leds, n - 1);
      HalveNumber(Dropped(leds, n - 1));
    }
  }

  lemma {:induction false} DroppedBit(leds: bv14, n: Led)
    ensures Dropped(leds, n) & 1 != 0 <==> leds & Mask(n) != 0
  {
    if n == 0 {
    } else {
      DroppedBit(leds >> 1, n - 1);
      DropOnce(leds, n);
      MaskNext(leds, n);
      hide Mask, Dropped;
    }
  }

  lemma {:induction false} DropOnce(leds: bv14, n: Led)
    requires n > 0
    ensures Dropped(leds, n) == Dropped(leds >> 1, n - 1)
  {
    if n > 1 {
      DropOnce(leds, n - 1);
    }
  }

  lemma MaskNext(leds: bv14, n: Led)
    requires n > 0
    ensures (leds >> 1) & Mask(n - 1) != 0 <==> leds & Mask(n) != 0
  {
  }

  lemma InLit(leds: bv14, n: Led)
    ensures n in Lit(leds) <==> leds & Mask(n) != 0
  {
    hide Mask;
  }

  /** LED n is lit exactly when the register's number, halved n times, is odd. */
  lemma LitBit(leds: bv14, n: Led)
    ensures n in Lit(leds) <==> Halved(leds as int, n) % 2 == 1
  {
    HalvedNumber(leds, n);
    DroppedBit(leds, n);
    InLit(leds, n);
    assert Number(leds) == leds as int;
    hide Number, Mask, Lit, Dropped;
    HalveNumber(Dropped(leds, n));
  }

  // ----- The program -----

  lemma OneBitSet(leds: bv14, m: Led, n: Led)
    ensures (leds | Mask(m)) & Mask(n) != 0 <==> n == m || leds & Mask(n) != 0
  {
  }

  lemma OneBitCleared(leds: bv14, m: Led, n: Led)
    ensures (leds & !Mask(m)) & Mask(n) != 0 <==> n != m && leds & Mask(n) != 0
  {
  }

  lemma MaskSet(leds: bv14, m: Led)
    ensures Lit(leds | Mask(m)) == Lit(leds) + {m}
  {
    hide Mask;
    forall n: Led
      ensures (leds | Mask(m)) & Mask(n) != 0 <==> n == m || leds & Mask(n) != 0
    {
      OneBitSet(leds, m, n);
    }
  }

  lemma MaskCleared(leds: bv14, m: Led)
    ensures Lit(leds & !Mask(m)) == Lit(leds) - {m}
  {
    hide Mask;
    forall n: Led
      ensures (leds & !Mask(m)) & Mask(n) != 0 <==> n != m && leds & Mask(n) != 0
    {
      OneBitCleared(leds, m, n);
    }
  }

  lemma MaskSwitched(leds: bv14, m: Led, on: bool)
    ensures Lit(WithBit(leds, Mask(m), on)) == Put(Lit(leds), m, on)
  {
    hide Mask, Lit;
    if on {
      MaskSet(leds, m);
    } else {
      MaskCleared(leds, m);
    }
  }

  lemma LedSwitched(leds: bv14, m: Led, on: bool)
    ensures Lit(Switched(leds, m, on)) == Put(Lit(leds), m, on)
  {
    hide Mask, LedBit, Lit, WithBit;
    MaskShift(m);
    MaskSwitched(leds, m, on);
  }

  /** The Nios II side of both registers; reading one returns what was last written. */
  class Board {
    var leds: bv14
    var hex: bv16

    constructor ()
      ensures Shown() == Panel({}, 0, 0)
    {
      leds, hex := 0, 0;
      new;
      assert Lit(0) == {};
    }

    function Shown(): Panel
      reads this
    {
      Panel(Lit(leds), High(hex), Low(hex))
    }

    method SetLED(n: Led)
      modifies this`leds
      ensures leds == Switched(old(leds), n, true)
      ensures Shown() == Apply(old(Shown()), SetLed(n))
    {
      LedSwitched(leds, n, true);
      hide LedBit, Lit, High, Low;
      leds := leds | LedBit(n);
    }

    method ClearLED(n: Led)
      modifies this`leds
      ensures leds == Switched(old(leds), n, false)
      ensures Shown() == Apply(old(Shown()), ClearLed(n))
    {
      LedSwitched(leds, n, false);
      hide LedBit, Lit, High, Low;
      leds := leds & !LedBit(n);
    }

    method PrintSignedHex0(v: schar)
      modifies this
      ensures Display0Stands(old(leds), old(hex), leds, hex, v)
      ensures Shown() == Apply(old(Shown()), Show0(v))
    {
      ghost var before, hexBefore := leds, hex;
      hide Lit, High, Low, ToU8, Face, Switched, Display0Stands, Display1Stands;
      var value: schar := v;
      var pio := hex;
      if value < 0 {
        SetLED(11);
        value := ToChar(Neg(value));
      } else {
        ClearLED(11);
      }
      DigitsOf(v);
      if CDiv(value, 100) != 0 {
        SetLED(13);
      } else {
        ClearLED(13);
      }
      value := CMod(value, 100);
      StoreDigits0(pio, ToU8(CDiv(value, 10)), ToU8(CMod(value, 10)));
      Display0Registers(before, hexBefore, leds, hex, v);
    }

    /** The digits go in as a 16-bit WORD: what does not fit is cut off. */
    method StoreDigits0(pioVal: bv16, tens: bv8, ones: bv8)
      requires pioVal == hex && Digits(tens, ones)
      modifies this`hex
      ensures Low(hex) == old(Low(hex)) && High(hex) == DigitByte(tens, ones)
    {
      PackHigh(hex, tens, ones);
      var pio := pioVal & 0x00FF;
      pio := (((pio as bv32) | ((tens as bv32) << 12)) & 0xFFFF) as bv16;
      pio := (((pio as bv32) | ((ones as bv32) << 8)) & 0xFFFF) as bv16;
      hex := pio;
    }

    method PrintSignedHex1(v: schar)
      modifies this
      ensures Display1Stands(old(leds), old(hex), leds, hex, v)
      ensures Shown() == Apply(old(Shown()), Show1(v))
    {
      ghost var before, hexBefore := leds, hex;
      hide Lit, High, Low, ToU8, Face, Switched, Display0Stands, Display1Stands;
      var value: schar := v;
      var pio := hex;
      if value < 0 {
        SetLED(10);
        value := ToChar(Neg(value));
      } else {
        ClearLED(10);
      }
      DigitsOf(v);
      if CDiv(value, 100) != 0 {
        SetLED(12);
      } else {
        ClearLED(12);
      }
      value := CMod(value, 100);
      StoreDigits1(pio, ToU8(CDiv(value, 10)), ToU8(CMod(value, 10)));
      Display1Registers(before, hexBefore, leds, hex, v);
    }

    /** The digits go in as a 32-bit DWORD: those of -128 reach bits 8..11. */
    method StoreDigits1(pioVal: bv16, tens: bv8, ones: bv8)
      requires pioVal == hex && Digits(tens, ones)
      modifies this`hex
      ensures Low(hex) == DigitByte(tens, ones)
      ensures High(hex) == if tens == 0xFE then old(High(hex)) | 0x0F else old(High(hex))
    {
      PackLow(hex, tens, ones);
      var pio: bv32 := (pioVal as bv32) & 0xFF00;
      pio := pio | ((tens as bv32) << 4);
      pio := pio | (ones as bv32);
      hex := (pio & 0xFFFF) as bv16;
    }
  }

  lemma DisplayBits()
    ensures LedBit(10) == 0x0400 && LedBit(11) == 0x0800 && LedBit(12) == 0x1000 && LedBit(13) == 0x2000
  {
    hide Mask;
    MaskShift(10);
    MaskShift(11);
    MaskShift(12);
    MaskShift(13);
    MaskValues();
    hide LedBit;
  }

  lemma MaskValues()
    ensures Mask(10) == 0x0400 && Mask(11) == 0x0800 && Mask(12) == 0x1000 && Mask(13) == 0x2000
  {
  }

  /** LEDs 11 and 13 are the sign and the hundreds of display 0, the others are kept. */
  predicate LedsStand0(leds: bv14, leds': bv14, negative: bool, hundred: bool) {
    && (leds' & 0x0800 != 0 <==> negative)
    && (leds' & 0x2000 != 0 <==> hundred)
    && leds' & 0x17FF == leds & 0x17FF
  }

  /** LEDs 10 and 12 are those of display 1. */
  predicate LedsStand1(leds: bv14, leds': bv14, negative: bool, hundred: bool) {
    && (leds' & 0x0400 != 0 <==> negative)
    && (leds' & 0x1000 != 0 <==> hundred)
    && leds' & 0x2BFF == leds & 0x2BFF
  }

  lemma SignBit0(leds: bv14, first: bool, second: bool)
    ensures WithBit(WithBit(leds, 0x0800, first), 0x2000, second) & 0x0800 != 0 <==> first
  {
  }

  lemma HundredsBit0(leds: bv14, first: bool, second: bool)
    ensures WithBit(WithBit(leds, 0x0800, first), 0x2000, second) & 0x2000 != 0 <==> second
  {
  }

  lemma OtherBits0(leds: bv14, first: bool, second: bool)
    ensures WithBit(WithBit(leds, 0x0800, first), 0x2000, second) & 0x17FF == leds & 0x17FF
  {
  }

  lemma LedBits0(leds: bv14, first: bool, second: bool)
    ensures LedsStand0(leds, WithBit(WithBit(leds, 0x0800, first), 0x2000, second), first, second)
  {
    SignBit0(leds, first, second);
    HundredsBit0(leds, first, second);
    OtherBits0(leds, first, second);
    hide WithBit;
  }

  lemma SwitchedLeds0(leds: bv14, first: bool, second: bool)
    ensures LedsStand0(leds, Switched(Switched(leds, 11, first), 13, second), first, second)
  {
    DisplayBits();
    hide LedBit, WithBit, LedsStand0;
    LedBits0(leds, first, second);
  }

  lemma SignBit1(leds: bv14, first: bool, second: bool)
    ensures WithBit(WithBit(leds, 0x0400, first), 0x1000, second) & 0x0400 != 0 <==> first
  {
  }

  lemma HundredsBit1(leds: bv14, first: bool, second: bool)
    ensures WithBit(WithBit(leds, 0x0400, first), 0x1000, second) & 0x1000 != 0 <==> second
  {
  }

  lemma OtherBits1(leds: bv14, first: bool, second: bool)
    ensures WithBit(WithBit(leds, 0x0400, first), 0x1000, second) & 0x2BFF == leds & 0x2BFF
  {
  }

  lemma LedBits1(leds: bv14, first: bool, second: bool)
    ensures LedsStand1(leds, WithBit(WithBit(leds, 0x0400, first), 0x1000, second), first, second)
  {
    SignBit1(leds, first, second);
    HundredsBit1(leds, first, second);
    OtherBits1(leds, first, second);
    hide WithBit;
  }

  lemma SwitchedLeds1(leds: bv14, first: bool, second: bool)
    ensures LedsStand1(leds, Switched(Switched(leds, 10, first), 12, second), first, second)
  {
    DisplayBits();
    hide LedBit, WithBit, LedsStand1;
    LedBits1(leds, first, second);
  }

  /** The registers after display 0 has shown v, from what they were. */
  predicate Display0Stands(leds: bv14, hex: bv16, leds': bv14, hex': bv16, v: schar) {
    && LedsStand0(leds, leds', v < 0, v >= 100 || v <= -100)
    && hex' & 0x00FF == hex & 0x00FF
    && ShowsValue((hex' >> 8) as bv8, v)
  }

  /** The same for display 1, where -128 runs over. */
  predicate Display1Stands(leds: bv14, hex: bv16, leds': bv14, hex': bv16, v: schar) {
    && LedsStand1(leds, leds', v < 0, v >= 100 || v <= -100)
    && hex' & 0xFF00 == (hex | (if v == -128 then 0x0F00 else 0)) & 0xFF00
    && ShowsValue((hex' & 0x00FF) as bv8, v)
  }

  lemma Display0Registers(leds: bv14, hex: bv16, leds': bv14, hex': bv16, v: schar)
    requires leds' == Switched(Switched(leds, 11, v < 0), 13, Magnitude(v) >= 100)
    requires High(hex') == Face(v) && Low(hex') == Low(hex)
    ensures Display0Stands(leds, hex, leds', hex', v)
  {
    hide High, Low, Face, ShowsValue, Switched, LedsStand0;
    SwitchedLeds0(leds, v < 0, Magnitude(v) >= 100);
    Display0Digits(hex, hex', v);
  }

  lemma Display1Registers(leds: bv14, hex: bv16, leds': bv14, hex': bv16, v: schar)
    requires leds' == Switched(Switched(leds, 10, v < 0), 12, Magnitude(v) >= 100)
    requires Low(hex') == Face(v) && High(hex') == if v == -128 then High(hex) | 0x0F else High(hex)
    ensures Display1Stands(leds, hex, leds', hex', v)
  {
    hide High, Low, Face, ShowsValue, Switched, LedsStand1;
    SwitchedLeds1(leds, v < 0, Magnitude(v) >= 100);
    Display1Digits(hex, hex', v);
  }

  lemma SameBytes(a: bv16, b: bv16)
    ensures Low(a) == Low(b) ==> a & 0x00FF == b & 0x00FF
    ensures High(a) == High(b) ==> a & 0xFF00 == b & 0xFF00
    ensures High(a | 0x0F00) == High(a) | 0x0F && High(b | 0x0F00) == High(b) | 0x0F
    ensures b | 0 == b
  {
  }

  lemma Display0Digits(hex: bv16, hex': bv16, v: schar)
    requires High(hex') == Face(v) && Low(hex') == Low(hex)
    ensures hex' & 0x00FF == hex & 0x00FF && ShowsValue((hex' >> 8) as bv8, v)
  {
    SameBytes(hex', hex);
    FaceShows(v);
    hide Face;
  }

  lemma Display1Digits(hex: bv16, hex': bv16, v: schar)
    requires Low(hex') == Face(v) && High(hex') == if v == -128 then High(hex) | 0x0F else High(hex)
    ensures hex' & 0xFF00 == (hex | (if v == -128 then 0x0F00 else 0)) & 0xFF00
    ensures ShowsValue((hex' & 0x00FF) as bv8, v)
  {
    SameBytes(hex', hex);
    SameBytes(hex', hex | 0x0F00);
    FaceShows(v);
    hide Face;
  }

  /** A digit byte holds the last two decimal digits of |v|; for -128 it holds bits of -2 and -8. */
  predicate ShowsValue(digits: bv8, v: schar) {
    if v == -128 then digits == 0xF8
    else (digits >> 4) as int == (if v < 0 then -v else v) % 100 / 10
         && (digits & 0x0F) as int == (if v < 0 then -v else v) % 10
  }

  lemma FaceShows(v: schar)
    ensures ShowsValue(Face(v), v)
  {
    if v != -128 {
      FaceDigits(v);
      hide Face;
    }
  }

  predicate Digits(tens: bv8, ones: bv8) {
    (tens == 0xFE && ones == 0xF8) || (tens <= 9 && ones <= 9)
  }

  function DigitByte(tens: bv8, ones: bv8): bv8 {
    if tens == 0xFE then 0xF8 else (tens << 4) | ones
  }

  /** The integer digits that the routines compute. */
  lemma IntegerDigits(v: schar)
    ensures var value := if v < 0 then ToChar(Neg(v)) else v;
            var rest := CMod(value, 100);
            && (CDiv(value, 100) != 0 <==> Magnitude(v) >= 100)
            && -128 <= rest < 128
            && (v == -128 ==> CDiv(rest, 10) == -2 && CMod(rest, 10) == -8)
            && (v != -128 ==> CDiv(rest, 10) == Magnitude(v) % 100 / 10 && CMod(rest, 10) == Magnitude(v) % 10)
  {
    if v != -128 {
      var m := Magnitude(v);
      assert (if v < 0 then ToChar(Neg(v)) else v) == m;
      SmallDecimal(m);
      hide ToChar, Neg, Magnitude;
      assert m >= 100 ==> CDiv(m, 100) == 1 && CMod(m, 100) == m - 100;
      assert m < 100 ==> CDiv(m, 100) == 0 && CMod(m, 100) == m;
    }
  }

  lemma SmallDecimal(m: nat)
    requires m < 128
    ensures m % 100 == if m >= 100 then m - 100 else m
    ensures (if m >= 100 then 100 else 0) + 10 * (m % 100 / 10) + m % 10 == m
    ensures m % 100 % 10 == m % 10
  {
    if m >= 100 {
      assert m == 100 + (m - 100);
      assert m % 100 == m - 100 < 28;
      assert m % 10 == (m - 100) % 10;
    }
  }

  lemma SmallDigit(t: nat)
    requires t <= 9
    ensures ToU8(t) <= 9 && ToU8(t) != 0xFE
  {
    assert t == 0 || t == 1 || t == 2 || t == 3 || t == 4 || t == 5 || t == 6 || t == 7 || t == 8 || t == 9;
  }

  lemma StuckDigits()
    ensures ToU8(-2) == 0xFE && ToU8(-8) == 0xF8
  {
    assert -2 % 0x100 == 254 && -8 % 0x100 == 248;
  }

  lemma DigitsOf(v: schar)
    ensures var value := if v < 0 then ToChar(Neg(v)) else v;
            var rest := CMod(value, 100);
            var tens, ones := ToU8(CDiv(rest, 10)), ToU8(CMod(rest, 10));
            && (CDiv(value, 100) != 0 <==> Magnitude(v) >= 100)
            && -128 <= rest < 128
            && Digits(tens, ones) && DigitByte(tens, ones) == Face(v) && (tens == 0xFE <==> v == -128)
  {
    IntegerDigits(v);
    StuckDigits();
    hide CDiv, CMod, ToChar, Magnitude, Neg, ToU8;
    if v != -128 {
      SmallDigit(Magnitude(v) % 100 / 10);
      SmallDigit(Magnitude(v) % 10);
    }
  }

  lemma PackHigh(hex: bv16, tens: bv8, ones: bv8)
    requires Digits(tens, ones)
    ensures var packed := ((((hex & 0x00FF) as bv32 | ((tens as bv32) << 12)) & 0xFFFF)
                           | ((ones as bv32) << 8)) & 0xFFFF;
            && Low(packed as bv16) == Low(hex)
            && High(packed as bv16) == DigitByte(tens, ones)
  {
  }

  lemma PackLow(hex: bv16, tens: bv8, ones: bv8)
    requires Digits(tens, ones)
    ensures var packed := (((hex as bv32) & 0xFF00) | ((tens as bv32) << 4) | (ones as bv32)) & 0xFFFF;
            && Low(packed as bv16) == DigitByte(tens, ones)
            && High(packed as bv16) == if tens == 0xFE then High(hex) | 0x0F else High(hex)
  {
  }

  // ----- Over every run -----

  function RunOps(p: Panel, ops: seq<Op>): Panel {
    if ops == [] then p else Apply(RunOps(p, ops[..|ops| - 1]), ops[|ops| - 1])
  }

  /** The last value given to a display. */
  function Last0(ops: seq<Op>): Option<schar> {
    if ops == [] then None
    else if ops[|ops| - 1].Show0? then Some(ops[|ops| - 1].value)
    else Last0(ops[..|ops| - 1])
  }

  function Last1(ops: seq<Op>): Option<schar> {
    if ops == [] then None
    else if ops[|ops| - 1].Show1? then Some(ops[|ops| - 1].value)
    else Last1(ops[..|ops| - 1])
  }

  /** -128 was given to display 1 after the last value given to display 0. */
  predicate Spilled(ops: seq<Op>) {
    ops != [] && !ops[|ops| - 1].Show0? && (ops[|ops| - 1] == Show1(-128) || Spilled(ops[..|ops| - 1]))
  }

  /** The last operation that concerns LED n, direct or by a display, left it on; before any, it is as it was. */
  predicate LastOn(ops: seq<Op>, n: Led, before: bool) {
    if ops == [] then before
    else
      match ops[|ops| - 1]
      case SetLed(k) => k == n || LastOn(ops[..|ops| - 1], n, before)
      case ClearLed(k) => k != n && LastOn(ops[..|ops| - 1], n, before)
      case Show0(v) =>
        if n == SIGN_0 then v < 0
        else if n == HUNDREDS_0 then Magnitude(v) >= 100
        else LastOn(ops[..|ops| - 1], n, before)
      case Show1(v) =>
        if n == SIGN_1 then v < 0
        else if n == HUNDREDS_1 then Magnitude(v) >= 100
        else LastOn(ops[..|ops| - 1], n, before)
  }

  /** What the last direct use of LED n made of it since a value was last given to display 0 (or to display 1). */
  function Tampered(ops: seq<Op>, n: Led, display0: bool): Option<bool> {
    if ops == [] || (if display0 then ops[|ops| - 1].Show0? else ops[|ops| - 1].Show1?) then None
    else if ops[|ops| - 1] == SetLed(n) then Some(true)
    else if ops[|ops| - 1] == ClearLed(n) then Some(false)
    else Tampered(ops[..|ops| - 1], n, display0)
  }

  function Or(o: Option<bool>, otherwise: bool): bool {
    if o.Some? then o.value else otherwise
  }

  lemma {:induction false} LedsAsLastLeft(p: Panel, ops: seq<Op>, n: Led)
    ensures n in RunOps(p, ops).lit <==> LastOn(ops, n, n in p.lit)
  {
    if ops != [] {
      LedsAsLastLeft(p, ops[..|ops| - 1], n);
      hide Face, Magnitude;
    }
  }

  /** The LEDs of a display follow its last value, unless they were used directly since. */
  lemma {:induction false} LedsOf0(ops: seq<Op>, before: bool)
    requires Last0(ops).Some?
    ensures LastOn(ops, SIGN_0, before) == Or(Tampered(ops, SIGN_0, true), Last0(ops).value < 0)
    ensures LastOn(ops, HUNDREDS_0, before) == Or(Tampered(ops, HUNDREDS_0, true), Magnitude(Last0(ops).value) >= 100)
  {
    hide Magnitude;
    if !ops[|ops| - 1].Show0? {
      LedsOf0(ops[..|ops| - 1], before);
    }
  }

  lemma {:induction false} LedsOf1(ops: seq<Op>, before: bool)
    requires Last1(ops).Some?
    ensures LastOn(ops, SIGN_1, before) == Or(Tampered(ops, SIGN_1, false), Last1(ops).value < 0)
    ensures LastOn(ops, HUNDREDS_1, before) == Or(Tampered(ops, HUNDREDS_1, false), Magnitude(Last1(ops).value) >= 100)
  {
    hide Magnitude;
    if !ops[|ops| - 1].Show1? {
      LedsOf1(ops[..|ops| - 1], before);
    }
  }

  lemma {:induction false} DisplayDigits(p: Panel, ops: seq<Op>)
    ensures var r := RunOps(p, ops);
            && r.high == Spill(Spilled(ops), if Last0(ops).Some? then Face(Last0(ops).value) else p.high)
            && r.low == (if Last1(ops).Some? then Face(Last1(ops).value) else p.low)
  {
    if ops != [] {
      DisplayDigits(p, ops[..|ops| - 1]);
      hide Face, Magnitude, Put;
      SpillTwice(if Last0(ops).Some? then Face(Last0(ops).value) else p.high);
    }
  }

  /** A display's sign and hundreds LEDs stand for v, except where `sign` or `hundreds` overrides them. */
  predicate Shows(lit: set<Led>, signLed: Led, sign: Option<bool>, hundredsLed: Led, hundreds: Option<bool>, v: schar) {
    && (signLed in lit <==> Or(sign, v < 0))
    && (hundredsLed in lit <==> Or(hundreds, Magnitude(v) >= 100))
  }

  /**
   * After any interleaving of the four routines on any LEDs: each display stands for the last value
   * it was given, except that direct uses of its two LEDs since then override them, and that display
   * 0 carries four stray bits exactly when -128 went to display 1 since. Every LED is as the last
   * operation that concerns it left it.
   */
  lemma DisplaysShowLast(p: Panel, ops: seq<Op>)
    ensures var r := RunOps(p, ops);
            && (Last0(ops).Some? ==>
                  Shows(r.lit, SIGN_0, Tampered(ops, SIGN_0, true),
                        HUNDREDS_0, Tampered(ops, HUNDREDS_0, true), Last0(ops).value))
            && (Last1(ops).Some? ==>
                  Shows(r.lit, SIGN_1, Tampered(ops, SIGN_1, false),
                        HUNDREDS_1, Tampered(ops, HUNDREDS_1, false), Last1(ops).value))
            && r.high == Spill(Spilled(ops), if Last0(ops).Some? then Face(Last0(ops).value) else p.high)
            && r.low == (if Last1(ops).Some? then Face(Last1(ops).value) else p.low)
            && (forall n: Led :: n in r.lit <==> LastOn(ops, n, n in p.lit))
  {
    hide RunOps, Face, Magnitude, LastOn, Tampered;
    forall n: Led
      ensures n in RunOps(p, ops).lit <==> LastOn(ops, n, n in p.lit)
    {
      LedsAsLastLeft(p, ops, n);
    }
    if Last0(ops).Some? {
      LedsOf0(ops, SIGN_0 in p.lit);
      LedsOf0(ops, HUNDREDS_0 in p.lit);
    }
    if Last1(ops).Some? {
      LedsOf1(ops, SIGN_1 in p.lit);
      LedsOf1(ops, HUNDREDS_1 in p.lit);
    }
    DisplayDigits(p, ops);
  }

  /** The program uses LEDs 0, 1, 2 and 9 directly; 10 to 13 are left to the displays. */
  predicate OwnLedsOnly(ops: seq<Op>) {
    forall k :: 0 <= k < |ops| && (ops[k].SetLed? || ops[k].ClearLed?) ==> ops[k].led < 10
  }

  lemma {:induction false} NotTampered(ops: seq<Op>, n: Led, display0: bool)
    requires OwnLedsOnly(ops) && n >= 10
    ensures Tampered(ops, n, display0) == None
  {
    if ops != [] {
      NotTampered(ops[..|ops| - 1], n, display0);
    }
  }

  function Spill(spilled: bool, high: bv8): bv8 {
    if spilled then high | 0x0F else high
  }

  lemma SpillTwice(high: bv8)
    ensures (high | 0x0F) | 0x0F == high | 0x0F
  {
  }

  // ----- What a reader of the board sees -----

  /** The number shown: sign, hundreds and two decimal digits; None when a digit is not decimal. */
  function Readout(negative: bool, hundred: bool, digits: bv8): Option<int> {
    var tens, ones := (digits >> 4) as int, (digits & 0x0F) as int;
    if tens <= 9 && ones <= 9 then
      var n := (if hundred then 100 else 0) + 10 * tens + ones;
      Some(if negative then -n else n)
    else None
  }

  function Readout0(p: Panel): Option<int> {
    Readout(SIGN_0 in p.lit, HUNDREDS_0 in p.lit, p.high)
  }

  function Readout1(p: Panel): Option<int> {
    Readout(SIGN_1 in p.lit, HUNDREDS_1 in p.lit, p.low)
  }

  /** Where the readouts stand in the registers: LEDs 11 and 13 and the high byte, LEDs 10 and 12 and the low byte. */
  lemma ReadoutRegisters(leds: bv14, hex: bv16)
    ensures var p := Panel(Lit(leds), High(hex), Low(hex));
            && Readout0(p) == Readout(leds & 0x0800 != 0, leds & 0x2000 != 0, (hex >> 8) as bv8)
            && Readout1(p) == Readout(leds & 0x0400 != 0, leds & 0x1000 != 0, (hex & 0x00FF) as bv8)
  {
    MaskValues();
    hide Mask, Lit, Readout;
    InLit(leds, 10);
    InLit(leds, 11);
    InLit(leds, 12);
    InLit(leds, 13);
  }

  lemma NibbleFields(tens: bv8, ones: bv8)
    requires tens <= 9 && ones <= 9
    ensures ((tens << 4) | ones) >> 4 == tens && ((tens << 4) | ones) & 0x0F == ones
  {
  }

  lemma SpilledDigits(high: bv8)
    ensures (high | 0x0F) & 0x0F == 15
  {
  }

  lemma FaceDigits(v: schar)
    requires v != -128
    ensures (Face(v) >> 4) as int == Magnitude(v) % 100 / 10 && (Face(v) & 0x0F) as int == Magnitude(v) % 10
  {
    var tens, ones := Magnitude(v) % 100 / 10, Magnitude(v) % 10;
    SmallDigit(tens);
    SmallDigit(ones);
    ToU8Value(tens);
    ToU8Value(ones);
    hide ToU8;
    NibbleFields(ToU8(tens), ToU8(ones));
  }

  lemma StuckDigitsDoNotRead(negative: bool, hundred: bool)
    ensures Readout(negative, hundred, 0xF8) == None
  {
  }

  /** Which sign and hundreds LEDs make the face of v read as v: zero reads as zero with either sign. */
  lemma FaceReadsWith(negative: bool, hundred: bool, v: schar)
    ensures Readout(negative, hundred, Face(v)) == Some(v)
            <==> v != -128 && (v == 0 || negative == (v < 0)) && hundred == (Magnitude(v) >= 100)
  {
    if v == -128 {
      hide Readout;
      StuckDigitsDoNotRead(negative, hundred);
    } else {
      hide Face;
      FaceDigits(v);
      SmallDecimal(Magnitude(v));
    }
  }

  /** The face of a value reads as that value, for every value but -128. */
  lemma FaceReads(v: schar)
    ensures Readout(v < 0, Magnitude(v) >= 100, Face(v)) == if v == -128 then None else Some(v)
  {
    hide Readout;
    if v == -128 {
      StuckDigitsDoNotRead(v < 0, Magnitude(v) >= 100);
    } else {
      FaceReadsWith(v < 0, Magnitude(v) >= 100, v);
    }
  }

  lemma SpilledDoesNotRead(negative: bool, hundred: bool, high: bv8)
    ensures Readout(negative, hundred, high | 0x0F) == None
  {
    SpilledDigits(high);
  }

  /** The last direct use of an LED, if any, agrees with what the display wants of it. */
  predicate Harmless(tampered: Option<bool>, wanted: bool) {
    tampered.Some? ==> tampered.value == wanted
  }

  /**
   * So, after any run, a display reads as its last value exactly when that is not -128, no direct use
   * of its LEDs since changed them (the sign does not matter for zero), and, for display 0, -128 did
   * not go to display 1 since.
   */
  lemma ReadoutsExact(p: Panel, ops: seq<Op>)
    ensures Last0(ops).Some? ==>
              var v := Last0(ops).value;
              Readout0(RunOps(p, ops)) == Some(v)
              <==> v != -128 && !Spilled(ops)
                   && (v == 0 || Harmless(Tampered(ops, SIGN_0, true), v < 0))
                   && Harmless(Tampered(ops, HUNDREDS_0, true), Magnitude(v) >= 100)
    ensures Last1(ops).Some? ==>
              var v := Last1(ops).value;
              Readout1(RunOps(p, ops)) == Some(v)
              <==> v != -128
                   && (v == 0 || Harmless(Tampered(ops, SIGN_1, false), v < 0))
                   && Harmless(Tampered(ops, HUNDREDS_1, false), Magnitude(v) >= 100)
  {
    hide RunOps, Face, Magnitude, Readout, Tampered;
    DisplaysShowLast(p, ops);
    var r := RunOps(p, ops);
    if Last0(ops).Some? {
      FaceReadsWith(SIGN_0 in r.lit, HUNDREDS_0 in r.lit, Last0(ops).value);
      SpilledDoesNotRead(SIGN_0 in r.lit, HUNDREDS_0 in r.lit, Face(Last0(ops).value));
    }
    if Last1(ops).Some? {
      FaceReadsWith(SIGN_1 in r.lit, HUNDREDS_1 in r.lit, Last1(ops).value);
    }
  }

  /** Display 0 never disturbs display 1; display 1 leaves display 0 alone, on every panel, unless given -128. */
  lemma DisturbsExactly(v: schar)
    ensures forall p: Panel :: Apply(p, Show0(v)).low == p.low
    ensures (forall p: Panel :: Apply(p, Show1(v)).high == p.high) <==> v != -128
  {
    hide Face;
    var blank := Panel({}, 0, 0);
    assert v == -128 ==> Apply(blank, Show1(v)).high != blank.high;
  }
}
