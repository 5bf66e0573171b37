/** The strong entity tag: a 64-bit FNV-1a hash and the length of the bytes. */
module EntityTag {
  import opened Wrappers
  import opened Numbers

  const FNV_OFFSET: u64 := 14_695_981_039_346_656_037
  const FNV_PRIME: u64 := 1_099_511_628_211
  /** FNV_PRIME * FNV_INVERSE is one modulo 2^64. */
  const FNV_INVERSE: u64 := 14_886_173_955_864_302_971

  // ------------------------------------------------------------------- hashing

  /** Bitwise exclusive or. */
  function Xor(a: nat, b: nat): nat
    decreases b
  {
    if b == 0 then a
    else (if a % 2 != b % 2 then 1 else 0) + 2 * Xor(a / 2, b / 2)
  }

  function PowerOfTwo(n: nat): (p: nat)
    ensures p > 0
  {
    if n == 0 then 1 else 2 * PowerOfTwo(n - 1)
  }

  lemma {:induction false} XorBound(a: nat, b: nat, bits: nat)
    requires a < PowerOfTwo(bits) && b < PowerOfTwo(bits)
    ensures Xor(a, b) < PowerOfTwo(bits)
  {
    if bits > 0 {
      XorBound(a / 2, b / 2, bits - 1);
    }
  }

  /** The lowest bit, and the rest. */
  lemma XorBits(a: nat, b: nat)
    ensures Xor(a, b) % 2 == (if a % 2 != b % 2 then 1 else 0) && Xor(a, b) / 2 == Xor(a / 2, b / 2)
  {
    if b == 0 {
      assert Xor(a, b) == a && Xor(a / 2, b / 2) == a / 2;
    } else {
      BitAndRest(if a % 2 != b % 2 then 1 else 0, Xor(a / 2, b / 2));
    }
  }

  lemma BitAndRest(bit: nat, rest: nat)
    requires bit < 2
    ensures (bit + 2 * rest) % 2 == bit && (bit + 2 * rest) / 2 == rest
  {}

  /** Exclusive or with the same value twice changes nothing. */
  lemma {:induction false} XorCancel(a: nat, b: nat)
    ensures Xor(Xor(a, b), b) == a
    decreases b
  {
    if b != 0 {
      XorBits(a, b);
      XorBits(Xor(a, b), b);
      XorCancel(a / 2, b / 2);
    }
  }

  lemma {:induction false} XorCommutes(a: nat, b: nat)
    ensures Xor(a, b) == Xor(b, a)
    decreases a + b
  {
    if a != 0 || b != 0 {
      XorBits(a, b);
      XorBits(b, a);
      XorCommutes(a / 2, b / 2);
    }
  }

  lemma XorFits(h: u64, b: u8)
    ensures Xor(h, b) < TWO_TO_THE_64
  {
    SixtyFourBits();
    XorBound(h, b, 64);
  }

  lemma SixtyFourBits()
    ensures PowerOfTwo(64) == TWO_TO_THE_64
  {
    assert PowerOfTwo(8) == 256;
    PowerOfTwoSum(8, 8);
    PowerOfTwoSum(16, 16);
    PowerOfTwoSum(32, 32);
  }

  lemma {:induction false} PowerOfTwoSum(m: nat, n: nat)
    ensures PowerOfTwo(m + n) == PowerOfTwo(m) * PowerOfTwo(n)
  {
    if m > 0 {
      PowerOfTwoSum(m - 1, n);
    }
  }

  function WrappingMul(a: u64, b: u64): u64 {
    a * b % TWO_TO_THE_64
  }

  /** One FNV-1a step. */
  function FnvStep(hash: u64, b: u8): u64 {
    XorFits(hash, b);
    WrappingMul(Xor(hash, b), FNV_PRIME)
  }

  function Fnv(hash: u64, data: Bytes): u64
    decreases |data|
  {
    if data == [] then hash else Fnv(FnvStep(hash, data[0]), data[1..])
  }

  /** The prime has an inverse modulo 2^64, so multiplying by it loses nothing. */
  lemma MulByPrimeInjective(x: u64, y: u64)
    requires WrappingMul(x, FNV_PRIME) == WrappingMul(y, FNV_PRIME)
    ensures x == y
  {
    Undo(x);
    Undo(y);
  }

  lemma Undo(x: u64)
    ensures WrappingMul(WrappingMul(x, FNV_PRIME), FNV_INVERSE) == x
  {
    var product := x * FNV_PRIME;
    var q := product / TWO_TO_THE_64;
    assert product % TWO_TO_THE_64 == product - q * TWO_TO_THE_64;
    assert (product - q * TWO_TO_THE_64) * FNV_INVERSE
        == x + (x * 887_285_111_055 - q * FNV_INVERSE) * TWO_TO_THE_64;
    AddMultiple(x, x * 887_285_111_055 - q * FNV_INVERSE);
  }

  lemma AddMultiple(x: u64, k: int)
    ensures (x + k * TWO_TO_THE_64) % TWO_TO_THE_64 == x
  {}

  /** A step with a fixed byte is injective on hash states. */
  lemma StepInjectiveInState(h: u64, g: u64, b: u8)
    requires FnvStep(h, b) == FnvStep(g, b)
    ensures h == g
  {
    XorFits(h, b);
    XorFits(g, b);
    MulByPrimeInjective(Xor(h, b), Xor(g, b));
    XorCancel(h, b);
    XorCancel(g, b);
  }

  /** A step from a fixed state is injective on bytes. */
  lemma StepInjectiveInByte(h: u64, b: u8, c: u8)
    requires FnvStep(h, b) == FnvStep(h, c)
    ensures b == c
  {
    XorFits(h, b);
    XorFits(h, c);
    MulByPrimeInjective(Xor(h, b), Xor(h, c));
    XorCommutes(h, b);
    XorCommutes(h, c);
    XorCancel(b, h);
    XorCancel(c, h);
  }

  lemma {:induction false} FnvInjectiveInState(h: u64, g: u64, data: Bytes)
    requires Fnv(h, data) == Fnv(g, data)
    ensures h == g
    decreases |data|
  {
    if data != [] {
      FnvInjectiveInState(FnvStep(h, data[0]), FnvStep(g, data[0]), data[1..]);
      StepInjectiveInState(h, g, data[0]);
    }
  }

  lemma {:induction false} FnvConcat(h: u64, a: Bytes, b: Bytes)
    ensures Fnv(h, a + b) == Fnv(Fnv(h, a), b)
    decreases |a|
  {
    if a == [] {
      assert a + b == b;
    } else {
      assert (a + b)[0] == a[0] && (a + b)[1..] == a[1..] + b;
      FnvConcat(FnvStep(h, a[0]), a[1..], b);
    }
  }

  /** Changing one byte, anywhere, always changes the hash. */
  lemma FnvSeesOneByte(h: u64, before: Bytes, b: u8, c: u8, after: Bytes)
    requires Fnv(h, before + [b] + after) == Fnv(h, before + [c] + after)
    ensures b == c
  {
    FnvConcat(h, before + [b], after);
    FnvConcat(h, before + [c], after);
    FnvInjectiveInState(Fnv(h, before + [b]), Fnv(h, before + [c]), after);
    FnvConcat(h, before, [b]);
    FnvConcat(h, before, [c]);
    StepInjectiveInByte(Fnv(h, before), b, c);
  }

  // ------------------------------------------------------------------- the tag

  function Extra(extra: Option<Bytes>): Bytes {
    match extra
    case Some(bytes) => bytes
    case None => []
  }

  function TagText(hash: u64, length: nat): string {
    "\"" + Hex(hash, 16) + "-" + Decimal(length) + "\""
  }

  function EtagOf(prefix: Bytes, bytes: Bytes, extra: Option<Bytes>): string {
    TagText(Fnv(FNV_OFFSET, prefix + bytes + Extra(extra)), |bytes|)
  }

  method StrongEtag(prefix: Bytes, bytes: Bytes, extra: Option<Bytes>) returns (tag: string)
    ensures tag == EtagOf(prefix, bytes, extra)
  {
    var hash: u64 := FNV_OFFSET;
    var chained := prefix + bytes + Extra(extra);
    for i := 0 to |chained|
      invariant Fnv(hash, chained[i..]) == Fnv(FNV_OFFSET, chained)
    {
      XorFits(hash, chained[i]);
      hash := Xor(hash, chained[i]);
      hash := WrappingMul(hash, FNV_PRIME);
    }
    tag := TagText(hash, |bytes|);
  }

  lemma TagTextInjective(h: u64, g: u64, m: nat, n: nat)
    requires TagText(h, m) == TagText(g, n)
    ensures h == g && m == n
  {
    var s, t := TagText(h, m), TagText(g, n);
    assert s[1..17] == Hex(h, 16) && t[1..17] == Hex(g, 16);
    assert s[18..|s| - 1] == Decimal(m) && t[18..|t| - 1] == Decimal(n);
    SixteenHexDigits();
    HexInjective(h, g, 16);
    DecimalInjective(m, n);
  }

  lemma SixteenHexDigits()
    ensures Sixteen(16) == TWO_TO_THE_64
  {
    assert Sixteen(8) == 0x1_0000_0000;
    assert Sixteen(16) == 0x1_0000_0000 * Sixteen(8);
  }

  ghost predicate DifferAt(a: Bytes, b: Bytes, i: nat) {
    i < |a| && i < |b| && a[i] != b[i]
  }

  /** Same length, and exactly one byte changed. */
  ghost predicate OneByteApart(a: Bytes, b: Bytes) {
    |a| == |b| && exists i: nat :: DifferAt(a, b, i) && forall j: nat :: DifferAt(a, b, j) ==> j == i
  }

  /**
   Two byte strings with the same tag have the same length, and if they are not the same
   string they differ in at least two places.
   */
  lemma SameTag(prefix: Bytes, a: Bytes, b: Bytes, extra: Option<Bytes>)
    requires EtagOf(prefix, a, extra) == EtagOf(prefix, b, extra)
    ensures |a| == |b|
    ensures a == b || exists i: nat, j: nat :: i < j && DifferAt(a, b, i) && DifferAt(a, b, j)
  {
    var x := Extra(extra);
    TagTextInjective(Fnv(FNV_OFFSET, prefix + a + x), Fnv(FNV_OFFSET, prefix + b + x), |a|, |b|);
    if a != b {
      var i := FirstDifference(a, b);
      if forall j: nat :: DifferAt(a, b, j) ==> j == i {
        SameElsewhere(a, b, i);
        OneByteSeen(prefix, a, b, x, i);
        assert false;
      } else {
        var j: nat :| DifferAt(a, b, j) && j != i;
        assert i < j || j < i;
      }
    }
  }

  lemma OneByteSeen(prefix: Bytes, a: Bytes, b: Bytes, x: Bytes, i: nat)
    requires |a| == |b| && i < |a| && a[..i] == b[..i] && a[i + 1..] == b[i + 1..] && a[i] != b[i]
    ensures Fnv(FNV_OFFSET, prefix + a + x) != Fnv(FNV_OFFSET, prefix + b + x)
  {
    assert prefix + a + x == (prefix + a[..i]) + [a[i]] + (a[i + 1..] + x);
    assert prefix + b + x == (prefix + a[..i]) + [b[i]] + (a[i + 1..] + x);
    if Fnv(FNV_OFFSET, prefix + a + x) == Fnv(FNV_OFFSET, prefix + b + x) {
      FnvSeesOneByte(FNV_OFFSET, prefix + a[..i], a[i], b[i], a[i + 1..] + x);
    }
  }

  lemma FirstDifference(a: Bytes, b: Bytes) returns (i: nat)
    requires |a| == |b| && a != b
    ensures DifferAt(a, b, i)
  {
    assert a == a[..|a|] && b == b[..|b|];
    i := 0;
    while i < |a| && a[i] == b[i]
      invariant i <= |a| && a[..i] == b[..i]
    {
      i := i + 1;
    }
  }

  lemma SameElsewhere(a: Bytes, b: Bytes, i: nat)
    requires |a| == |b| && i < |a|
    requires forall j: nat :: DifferAt(a, b, j) ==> j == i
    ensures a[..i] == b[..i] && a[i + 1..] == b[i + 1..]
  {
    forall j: nat | j < |a| && j != i ensures a[j] == b[j] {
      assert !DifferAt(a, b, j);
    }
  }

  /** So a changed length or a single changed byte always gives a new tag. */
  lemma ChangeSeen(prefix: Bytes, a: Bytes, b: Bytes, extra: Option<Bytes>)
    requires |a| != |b| || OneByteApart(a, b)
    ensures EtagOf(prefix, a, extra) != EtagOf(prefix, b, extra)
  {
    if EtagOf(prefix, a, extra) == EtagOf(prefix, b, extra) {
      SameTag(prefix, a, b, extra);
    }
  }

  /** A tag is quoted and holds no comma, space or star, so it survives in a comma-separated list. */
  lemma TagCharacters(prefix: Bytes, bytes: Bytes, extra: Option<Bytes>)
    ensures var tag := EtagOf(prefix, bytes, extra);
            |tag| > 2 && tag[0] == '"' && forall c :: c in tag ==> c in "\"-0123456789abcdef"
  {
    HexDigits(Fnv(FNV_OFFSET, prefix + bytes + Extra(extra)), 16);
    DecimalDigits(|bytes|);
  }

  // ---------------------------------------------------------------- published values

  /** An exclusive or from that of the halves. */
  lemma XorHalf(a: nat, b: nat, x: nat, y: nat, rest: nat)
    requires b > 0 && (a == 2 * x || a == 2 * x + 1) && (b == 2 * y || b == 2 * y + 1)
    requires Xor(x, y) == rest
    ensures Xor(a, b) == 2 * rest + if a % 2 != b % 2 then 1 else 0
  {}

  /** One step, from its exclusive or and the whole part of its product over 2^64. */
  lemma StepIs(hash: u64, b: u8, mixed: u64, whole: nat, next: u64)
    requires Xor(hash, b) == mixed && mixed * 1_099_511_628_211 == whole * TWO_TO_THE_64 + next
    ensures FnvStep(hash, b) == next
  {
    AddMultiple(next, whole);
  }

  lemma StepA()
    ensures FnvStep(0xcbf29ce484222325, 97) == 0xaf63dc4c8601ec8c
  {
    StepAMixes();
    StepIs(0xcbf29ce484222325, 97, 0xcbf29ce484222344, 875948729822, 0xaf63dc4c8601ec8c);
  }

  lemma StepAMixes()
    ensures Xor(0xcbf29ce484222325, 97) == 0xcbf29ce484222344
  {
    assert Xor(114812351869895750, 0) == 114812351869895750;
    XorHalf(229624703739791500, 1, 114812351869895750, 0, 114812351869895750);
    XorHalf(459249407479583001, 3, 229624703739791500, 1, 229624703739791501);
    XorHalf(918498814959166002, 6, 459249407479583001, 3, 459249407479583002);
    XorHalf(1836997629918332004, 12, 918498814959166002, 6, 918498814959166004);
    XorHalf(3673995259836664009, 24, 1836997629918332004, 12, 1836997629918332008);
    XorHalf(7347990519673328018, 48, 3673995259836664009, 24, 3673995259836664017);
    XorHalf(14695981039346656037, 97, 7347990519673328018, 48, 7347990519673328034);
  }

  lemma StepF()
    ensures FnvStep(0xcbf29ce484222325, 102) == 0xaf63db4c8601ead9
  {
    StepFMixes();
    StepIs(0xcbf29ce484222325, 102, 0xcbf29ce484222343, 875948729822, 0xaf63db4c8601ead9);
  }

  lemma StepFMixes()
    ensures Xor(0xcbf29ce484222325, 102) == 0xcbf29ce484222343
  {
    assert Xor(114812351869895750, 0) == 114812351869895750;
    XorHalf(229624703739791500, 1, 114812351869895750, 0, 114812351869895750);
    XorHalf(459249407479583001, 3, 229624703739791500, 1, 229624703739791501);
    XorHalf(918498814959166002, 6, 459249407479583001, 3, 459249407479583002);
    XorHalf(1836997629918332004, 12, 918498814959166002, 6, 918498814959166004);
    XorHalf(3673995259836664009, 25, 1836997629918332004, 12, 1836997629918332008);
    XorHalf(7347990519673328018, 51, 3673995259836664009, 25, 3673995259836664016);
    XorHalf(14695981039346656037, 102, 7347990519673328018, 51, 7347990519673328033);
  }

  lemma StepO()
    ensures FnvStep(0xaf63db4c8601ead9, 111) == 0x8985907b541d342
  {
    StepOMixes();
    StepIs(0xaf63db4c8601ead9, 111, 0xaf63db4c8601eab6, 753294593456, 0x8985907b541d342);
  }

  lemma StepOMixes()
    ensures Xor(0xaf63db4c8601ead9, 111) == 0xaf63db4c8601eab6
  {
    assert Xor(98735828914406357, 0) == 98735828914406357;
    XorHalf(197471657828812715, 1, 98735828914406357, 0, 98735828914406357);
    XorHalf(394943315657625430, 3, 197471657828812715, 1, 197471657828812714);
    XorHalf(789886631315250861, 6, 394943315657625430, 3, 394943315657625429);
    XorHalf(1579773262630501723, 13, 789886631315250861, 6, 789886631315250859);
    XorHalf(3159546525261003446, 27, 1579773262630501723, 13, 1579773262630501718);
    XorHalf(6319093050522006892, 55, 3159546525261003446, 27, 3159546525261003437);
    XorHalf(12638186101044013785, 111, 6319093050522006892, 55, 6319093050522006875);
  }

  lemma FnvOne(hash: u64, b: u8)
    ensures Fnv(hash, [b]) == FnvStep(hash, b)
  {
    assert [b][1..] == [];
  }

  lemma FnvTwo(hash: u64, b: u8, c: u8)
    ensures Fnv(hash, [b, c]) == FnvStep(FnvStep(hash, b), c)
  {
    FnvConcat(hash, [b], [c]);
    assert [b] + [c] == [b, c];
    FnvOne(hash, b);
    FnvOne(FnvStep(hash, b), c);
  }

  /** The published FNV-1a values of the empty string, `a` and `fo`. */
  lemma PublishedValues()
    ensures Fnv(FNV_OFFSET, []) == 0xcbf29ce484222325
    ensures Fnv(FNV_OFFSET, ['a' as int]) == 0xaf63dc4c8601ec8c
    ensures Fnv(FNV_OFFSET, ['f' as int, 'o' as int]) == 0x08985907b541d342
  {
    StepA();
    StepF();
    StepO();
    FnvOne(FNV_OFFSET, 97);
    FnvTwo(FNV_OFFSET, 102, 111);
  }

  /**
   The whole tag, read back: between quotes, sixteen hexadecimal digits of the hash of
   prefix, bytes and extra in that order, a hyphen, and the number of the bytes.
   */
  lemma TagReadsBack(prefix: Bytes, bytes: Bytes, extra: Option<Bytes>) returns (hash: string, length: string)
    ensures EtagOf(prefix, bytes, extra) == "\"" + hash + "-" + length + "\""
    ensures |hash| == 16 && ReadHex(hash) ==
              Fnv(0xcbf29ce484222325, prefix + bytes + (if extra.Some? then extra.value else []))
    ensures ReadDecimal(length) == |bytes| && (length[0] == '0' ==> |bytes| == 0)
  {
    var h := Fnv(FNV_OFFSET, prefix + bytes + Extra(extra));
    hash, length := Hex(h, 16), Decimal(|bytes|);
    SixteenHexDigits();
    HexReadsBack(h, 16);
    DecimalReadsBack(|bytes|);
    DecimalStart(|bytes|);
  }
}
