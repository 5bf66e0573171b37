/** Machine integers, and the digit strings the program formats them into. */
module Numbers {

  newtype i32 = x: int | -0x8000_0000 <= x < 0x8000_0000
  newtype i64 = x: int | -0x8000_0000_0000_0000 <= x < 0x8000_0000_0000_0000

  type u8 = x: int | 0 <= x < 256
  type u64 = x: int | 0 <= x < 0x1_0000_0000_0000_0000

  type Bytes = seq<u8>

  const TWO_TO_THE_64: int := 0x1_0000_0000_0000_0000

  /** Signed division that rounds toward zero. */
  function TruncDiv(a: i32, b: i32): i32
    requires b > 0
  {
    if a >= 0 then a / b else (-((-(a as int)) / (b as int))) as i32
  }

  /** The value a 64-bit signed register holds after an exact result x is cut to its low 64 bits. */
  function Wrap64(x: int): i64 {
    var low := x % TWO_TO_THE_64;
    (if low < 0x8000_0000_0000_0000 then low else low - TWO_TO_THE_64) as i64
  }

  function Sixteen(exponent: nat): (p: nat)
    ensures p > 0
  {
    if exponent == 0 then 1 else 16 * Sixteen(exponent - 1)
  }

  function Digit(d: nat): (c: char)
    requires d < 16
  {
    "0123456789abcdef"[d]
  }

  lemma DigitInjective(d: nat, e: nat)
    requires d < 16 && e < 16
    ensures Digit(d) == Digit(e) <==> d == e
  {}

  /** v in lower-case hexadecimal, padded with zeros to exactly `width` digits. */
  function Hex(v: nat, width: nat): (s: string)
    ensures |s| == width
  {
    if width == 0 then "" else Hex(v / 16, width - 1) + [Digit(v % 16)]
  }

  /** v in base ten with no leading zero. */
  function Decimal(v: nat): (s: string)
    ensures |s| >= 1
  {
    if v < 10 then [Digit(v)] else Decimal(v / 10) + [Digit(v % 10)]
  }

  lemma {:induction false} HexInjective(v: nat, w: nat, width: nat)
    requires v < Sixteen(width) && w < Sixteen(width)
    requires Hex(v, width) == Hex(w, width)
    ensures v == w
  {
    if width > 0 {
      var s, t := Hex(v, width), Hex(w, width);
      assert s[..width - 1] == Hex(v / 16, width - 1) && t[..width - 1] == Hex(w / 16, width - 1);
      assert s[width - 1] == Digit(v % 16) && t[width - 1] == Digit(w % 16);
      DigitInjective(v % 16, w % 16);
      HexInjective(v / 16, w / 16, width - 1);
    }
  }

  lemma {:induction false} DecimalInjective(v: nat, w: nat)
    requires Decimal(v) == Decimal(w)
    ensures v == w
  {
    var s, t := Decimal(v), Decimal(w);
    assert s[|s| - 1] == Digit(v % 10) && t[|t| - 1] == Digit(w % 10);
    DigitInjective(v % 10, w % 10);
    if v >= 10 && w >= 10 {
      assert Decimal(v / 10) == s[..|s| - 1] == t[..|t| - 1] == Decimal(w / 10);
      DecimalInjective(v / 10, w / 10);
    }
  }

  /** Digit strings are made of digits only: no separator, quote or space can hide in them. */
  lemma {:induction false} HexDigits(v: nat, width: nat)
    ensures forall c :: c in Hex(v, width) ==> c in "0123456789abcdef"
  {
    if width > 0 {
      HexDigits(v / 16, width - 1);
    }
  }

  lemma {:induction false} DecimalDigits(v: nat)
    ensures forall c :: c in Decimal(v) ==> c in "0123456789"
  {
    if v >= 10 {
      DecimalDigits(v / 10);
    }
  }

  // ------------------------------------------------------------ digit strings read back

  /** The place of a character in the digits, or sixteen. */
  function DigitOf(c: char): nat {
    if '0' <= c <= '9' then c as nat - '0' as nat
    else if 'a' <= c <= 'f' then c as nat - 'a' as nat + 10
    else 16
  }

  /** A decimal digit string read from the left. */
  function ReadDecimal(s: string): nat {
    if s == "" then 0 else 10 * ReadDecimal(s[..|s| - 1]) + DigitOf(s[|s| - 1])
  }

  /** A hexadecimal digit string read from the left. */
  function ReadHex(s: string): nat {
    if s == "" then 0 else 16 * ReadHex(s[..|s| - 1]) + DigitOf(s[|s| - 1])
  }

  lemma DigitReadsBack(d: nat)
    requires d < 16
    ensures DigitOf(Digit(d)) == d
  {}

  lemma ReadOneMore(s: string, c: char)
    ensures ReadDecimal(s + [c]) == 10 * ReadDecimal(s) + DigitOf(c)
    ensures ReadHex(s + [c]) == 16 * ReadHex(s) + DigitOf(c)
  {
    assert (s + [c])[..|s|] == s;
  }

  lemma ReadOne(c: char)
    ensures ReadDecimal([c]) == DigitOf(c)
  {
    assert [c][..|[c]| - 1] == "";
  }

  lemma DecimalNext(v: nat)
    requires v >= 10
    ensures Decimal(v) == Decimal(v / 10) + [Digit(v % 10)]
  {}

  lemma TenthAndRest(v: nat)
    ensures 10 * (v / 10) + v % 10 == v
  {}

  /** Reading a decimal gives the number it was written for. */
  lemma {:induction false} DecimalReadsBack(v: nat)
    ensures ReadDecimal(Decimal(v)) == v
  {
    DigitReadsBack(v % 10);
    if v < 10 {
      ReadOne(Digit(v));
    } else {
      DecimalReadsBack(v / 10);
      DecimalNext(v);
      ReadOneMore(Decimal(v / 10), Digit(v % 10));
      TenthAndRest(v);
    }
  }

  /** A decimal has no leading zero, but for zero itself. */
  lemma {:induction false} DecimalStart(v: nat)
    ensures Decimal(v)[0] == '0' ==> v == 0
  {
    if v >= 10 {
      DecimalStart(v / 10);
    }
  }

  /** Reading a fixed-width hexadecimal gives the number back when it fits. */
  lemma {:induction false} HexReadsBack(v: nat, width: nat)
    requires v < Sixteen(width)
    ensures ReadHex(Hex(v, width)) == v
  {
    if width > 0 {
      DigitReadsBack(v % 16);
      HexReadsBack(v / 16, width - 1);
      ReadOneMore(Hex(v / 16, width - 1), Digit(v % 16));
    }
  }
}
