/** Value types shared by the models: file bytes, C integer conversions and the usual Option. */
module Basics {

  datatype Option<+T> = None | Some(value: T)

  /** A byte of an NES file, as Python's `bytes` yields it. */
  type byte = x: int | 0 <= x < 256

  /** A value of C's `signed char` (plain `char` is signed on the Nios II). */
  type schar = x: int | -128 <= x < 128

  type u16 = x: int | 0 <= x < 0x1_0000

  function Min(a: int, b: int): int {
    if a < b then a else b
  }

  function Max(a: int, b: int): int {
    if a < b then b else a
  }

  /** Conversion to `alt_u8`/`BYTE`: the value modulo 2^8 (section 6.3.1.3 of ISO/IEC 9899:2011). */
  function ToU8(x: int): bv8 {
    (x % 0x100) as bv8
  }

  /** Conversion to `alt_u16`: the value modulo 2^16. */
  function ToU16(x: int): bv16 {
    (x % 0x1_0000) as bv16
  }

  /** Conversion to `char`: gcc reduces modulo 2^8 into -128..127. */
  function ToChar(x: int): schar {
    (x + 128) % 256 - 128
  }

  /** C's `/` and `%` truncate toward zero, Dafny's are Euclidean. */
  function CDiv(a: int, b: int): int
    requires b > 0
  {
    if a >= 0 then a / b else -((-a) / b)
  }

  function CMod(a: int, b: int): int
    requires b > 0
  {
    a - b * CDiv(a, b)
  }

  lemma IncrementByte(v: bv8)
    requires v != 0xFF
    ensures (v + 1) as int == v as int + 1
  {
  }

  /** Every byte value is the value of some bv8, counted up from zero. */
  lemma FromByte(r: nat) returns (v: bv8)
    requires r < 0x100
    ensures v as int == r
  {
    if r == 0 {
      v := 0;
    } else {
      var u := FromByte(r - 1);
      assert u != 0xFF;
      IncrementByte(u);
      v := u + 1;
    }
  }

  lemma FromInt8(v: bv8)
    ensures (v as int) as bv8 == v
  {
  }

  lemma ToU8Value(x: int)
    ensures ToU8(x) as int == x % 0x100
  {
    var v := FromByte(x % 0x100);
    FromInt8(v);
  }

  lemma ConcatBytes(hi: bv8, lo: bv8)
    ensures (((hi as bv16) << 8) | (lo as bv16)) as int == 0x100 * hi as int + lo as int
  {
  }

  /** Every 16-bit number is the value of some bv16, built from its two byte halves. */
  lemma FromHalves(r: nat) returns (v: bv16)
    requires r < 0x1_0000
    ensures v as int == r
  {
    var hi := FromByte(r / 0x100);
    var lo := FromByte(r % 0x100);
    ConcatBytes(hi, lo);
    v := ((hi as bv16) << 8) | (lo as bv16);
  }

  lemma FromInt16(v: bv16)
    ensures (v as int) as bv16 == v
  {
  }

  lemma ToU16Value(x: int)
    ensures ToU16(x) as int == x % 0x1_0000
  {
    var v := FromHalves(x % 0x1_0000);
    FromInt16(v);
  }

  /** Going through a signed `char` and back to `alt_u8` loses nothing. */
  lemma CharRoundTrip(b: byte)
    ensures ToU8(ToChar(b)) == b as bv8
  {
    assert ToChar(b) % 0x100 == b;
  }

  lemma Associate<T>(a: seq<T>, b: seq<T>, c: seq<T>)
    ensures (a + b) + c == a + (b + c)
  {
  }
}
