/** The CRC of the OctoClock image, computed bit by bit, and the errors it never misses. */
module Crc16 {
  import opened LinearRegister

  type Bytes = seq<bv8>

  // ---------- the register ----------

  /** One turn of the inner loop. */
  function Step(crc: bv16): bv16 {
    if crc & 1 == 1 then (crc >> 1) ^ 0xA001 else crc >> 1
  }

  function StepTimes(crc: bv16, n: nat): bv16
    decreases n, crc
  {
    if n == 0 then crc else StepTimes(Step(crc), n - 1)
  }

  function CrcFrom(crc: bv16, buffer: Bytes): bv16
    decreases |buffer|, crc
  {
    if buffer == [] then crc else CrcFrom(StepTimes(crc ^ (buffer[0] as bv16), 8), buffer[1..])
  }

  function Crc(buffer: Bytes): bv16 {
    CrcFrom(0xFFFF, buffer)
  }

  lemma {:induction false} StepsMore(crc: bv16, n: nat)
    ensures StepTimes(crc, n + 1) == Step(StepTimes(crc, n))
    decreases n
  {
    if n > 0 {
      StepsMore(Step(crc), n - 1);
    }
  }

  lemma {:induction false} CrcConcat(crc: bv16, a: Bytes, b: Bytes)
    ensures CrcFrom(crc, a + b) == CrcFrom(CrcFrom(crc, a), b)
    decreases |a|
  {
    if a == [] {
      assert a + b == b;
    } else {
      assert (a + b)[1..] == a[1..] + b;
      CrcConcat(StepTimes(crc ^ (a[0] as bv16), 8), a[1..], b);
    }
  }

  lemma OneByte(crc: bv16, b: bv8)
    ensures CrcFrom(crc, [b]) == StepTimes(crc ^ (b as bv16), 8)
  {
    assert [b][1..] == [];
  }

  /** The register starts with ones. */
  lemma CrcOfNothing()
    ensures Crc([]) == 0xFFFF
  {}

  lemma ByteTaken(crc: bv16, next: bv16, b: bv8, rest: Bytes)
    requires StepTimes(crc ^ (b as bv16), 8) == next
    ensures CrcFrom(crc, [b] + rest) == CrcFrom(next, rest)
  {
    assert ([b] + rest)[1..] == rest;
  }

  lemma FirstDigits()
    ensures CrcFrom(0xFFFF, [0x31, 0x32, 0x33]) == 0x7A75
  {
    assert StepTimes(0xFFCE, 8) == 0x947E;
    assert StepTimes(0x944C, 8) == 0xF595;
    assert StepTimes(0xF5A6, 8) == 0x7A75;
    hide StepTimes;
    ByteTaken(0xFFFF, 0x947E, 0x31, [0x32, 0x33]);
    ByteTaken(0x947E, 0xF595, 0x32, [0x33]);
    ByteTaken(0xF595, 0x7A75, 0x33, []);
    assert [0x31] + [0x32, 0x33] == [0x31, 0x32, 0x33] && [0x32] + [0x33] == [0x32, 0x33];
    var none: Bytes := [];
    assert [0x33] + none == [0x33];
  }

  lemma MiddleDigits()
    ensures CrcFrom(0x7A75, [0x34, 0x35, 0x36]) == 0x32E4
  {
    assert StepTimes(0x7A41, 8) == 0x30BA;
    assert StepTimes(0x308F, 8) == 0xA471;
    assert StepTimes(0xA447, 8) == 0x32E4;
    hide StepTimes;
    ByteTaken(0x7A75, 0x30BA, 0x34, [0x35, 0x36]);
    ByteTaken(0x30BA, 0xA471, 0x35, [0x36]);
    ByteTaken(0xA471, 0x32E4, 0x36, []);
    assert [0x34] + [0x35, 0x36] == [0x34, 0x35, 0x36] && [0x35] + [0x36] == [0x35, 0x36];
    var none: Bytes := [];
    assert [0x36] + none == [0x36];
  }

  lemma LastDigits()
    ensures CrcFrom(0x32E4, [0x37, 0x38, 0x39]) == 0x4B37
  {
    assert StepTimes(0x32D3, 8) == 0x9D73;
    assert StepTimes(0x9D4B, 8) == 0x37DD;
    assert StepTimes(0x37E4, 8) == 0x4B37;
    hide StepTimes;
    ByteTaken(0x32E4, 0x9D73, 0x37, [0x38, 0x39]);
    ByteTaken(0x9D73, 0x37DD, 0x38, [0x39]);
    ByteTaken(0x37DD, 0x4B37, 0x39, []);
    assert [0x37] + [0x38, 0x39] == [0x37, 0x38, 0x39] && [0x38] + [0x39] == [0x38, 0x39];
    var none: Bytes := [];
    assert [0x39] + none == [0x39];
  }

  /** The usual check value, that of the nine digits. */
  lemma CheckValue()
    ensures Crc([0x31, 0x32, 0x33] + [0x34, 0x35, 0x36] + [0x37, 0x38, 0x39]) == 0x4B37
  {
    CrcConcat(0xFFFF, [0x31, 0x32, 0x33] + [0x34, 0x35, 0x36], [0x37, 0x38, 0x39]);
    CrcConcat(0xFFFF, [0x31, 0x32, 0x33], [0x34, 0x35, 0x36]);
    FirstDigits();
    MiddleDigits();
    LastDigits();
  }

  /** calculate_crc over the first len bytes of the buffer. */
  method CalculateCrc(buffer: Bytes, len: nat) returns (crc: bv16)
    requires len <= |buffer|
    ensures crc == Crc(buffer[..len])
  {
    crc := 0xFFFF;
    for i := 0 to len
      invariant crc == Crc(buffer[..i])
    {
      ghost var before := crc;
      crc := crc ^ (buffer[i] as bv16);
      ghost var mixed := crc;
      for j := 0 to 8
        invariant crc == StepTimes(mixed, j)
      {
        StepsMore(mixed, j);
        if crc & 1 == 1 {
          crc := (crc >> 1) ^ 0xA001;
        } else {
          crc := crc >> 1;
        }
      }
      assert buffer[..i + 1] == buffer[..i] + [buffer[i]];
      CrcConcat(0xFFFF, buffer[..i], [buffer[i]]);
      OneByte(before, buffer[i]);
    }
  }

  // ---------- bits ----------

  const ZERO_BITS: seq<bool> :=
    [false, false, false, false, false, false, false, false,
     false, false, false, false, false, false, false, false]

  /** The register bit by bit, least significant first. */
  type Word16 = w: seq<bool> | |w| == 16 witness ZERO_BITS

  predicate Test(c: bv16, m: bv16) { c & m == m }

  function BitsOf(c: bv16): Word16 {
    [Test(c, 1), Test(c, 2), Test(c, 4), Test(c, 8),
     Test(c, 0x10), Test(c, 0x20), Test(c, 0x40), Test(c, 0x80),
     Test(c, 0x100), Test(c, 0x200), Test(c, 0x400), Test(c, 0x800),
     Test(c, 0x1000), Test(c, 0x2000), Test(c, 0x4000), Test(c, 0x8000)]
  }

  function ByteBits(b: bv8): (bits: seq<bool>)
    ensures |bits| == 8
  {
    BitsOf(b as bv16)[..8]
  }

  /** The bits of a buffer in the order they are taken in. */
  function Bits(buffer: Bytes): (bits: seq<bool>)
    ensures |bits| == 8 * |buffer|
  {
    if buffer == [] then [] else ByteBits(buffer[0]) + Bits(buffer[1..])
  }

  function Mask(i: nat): bv16
    requires i < 16
  {
    match i
    case 0 => 1 case 1 => 2 case 2 => 4 case 3 => 8
    case 4 => 0x10 case 5 => 0x20 case 6 => 0x40 case 7 => 0x80
    case 8 => 0x100 case 9 => 0x200 case 10 => 0x400 case 11 => 0x800
    case 12 => 0x1000 case 13 => 0x2000 case 14 => 0x4000 case _ => 0x8000
  }

  lemma MaskLaws(i: nat)
    requires i < 16
    ensures Mask(i) != 0 && Mask(i) & (Mask(i) - 1) == 0
    ensures i < 15 ==> Mask(i) <= 0x4000 && Mask(i + 1) == Mask(i) << 1
    ensures i >= 8 ==> Mask(i) >= 0x100
  {}

  lemma BitAt(c: bv16, i: nat)
    requires i < 16
    ensures BitsOf(c)[i] == Test(c, Mask(i))
  {
    hide Test;
  }

  lemma MixTest(c: bv16, e: bv16, d: bv16, m: bv16)
    requires m != 0 && m & (m - 1) == 0 && d == c ^ e
    ensures Test(d, m) <==> Test(c, m) != Test(e, m)
  {}

  lemma ShiftTest(c: bv16, d: bv16, m: bv16)
    requires m <= 0x4000 && d == c >> 1
    ensures Test(d, m) <==> Test(c, m << 1)
  {}

  lemma TopTest(c: bv16, d: bv16)
    requires d == c >> 1
    ensures !Test(d, 0x8000)
  {}

  lemma HighTest(e: bv16, m: bv16)
    requires e <= 0xFF && m >= 0x100
    ensures !Test(e, m)
  {}

  lemma MixBits(c: bv16, e: bv16, d: bv16)
    requires d == c ^ e
    ensures BitsOf(d) == XorWord(BitsOf(c), BitsOf(e))
  {
    hide BitsOf, Test, Mask;
    forall i | 0 <= i < 16 ensures BitsOf(d)[i] == XorWord(BitsOf(c), BitsOf(e))[i] {
      BitAt(d, i);
      BitAt(c, i);
      BitAt(e, i);
      MaskLaws(i);
      MixTest(c, e, d, Mask(i));
    }
  }

  lemma ShiftBits(c: bv16, d: bv16)
    requires d == c >> 1
    ensures BitsOf(d) == HalfWord(BitsOf(c))
  {
    hide BitsOf, Test;
    forall i | 0 <= i < 16 ensures BitsOf(d)[i] == HalfWord(BitsOf(c))[i] {
      BitAt(d, i);
      if i < 15 {
        BitAt(c, i + 1);
        MaskLaws(i);
        ShiftTest(c, d, Mask(i));
      } else {
        TopTest(c, d);
      }
    }
  }

  lemma GeneratorBits()
    ensures BitsOf(0xA001) == GENERATOR
  {}

  /** A byte has no bit above the eighth. */
  lemma ByteIsLow(b: bv8, w: Word16)
    requires w == BitsOf(b as bv16)
    ensures forall i :: 8 <= i < 16 ==> !w[i]
  {
    hide BitsOf, Test;
    forall i | 8 <= i < 16 ensures !w[i] {
      BitAt(b as bv16, i);
      MaskLaws(i);
      HighTest(b as bv16, Mask(i));
    }
  }

  lemma SameBit(c: bv16, d: bv16, m: bv16)
    requires m & (m - 1) == 0 && (Test(c, m) <==> Test(d, m))
    ensures c & m == d & m
  {}

  lemma SameLowByte(c: bv16, d: bv16)
    requires c <= 0xFF && d <= 0xFF
    requires c & 1 == d & 1 && c & 2 == d & 2 && c & 4 == d & 4 && c & 8 == d & 8
    requires c & 0x10 == d & 0x10 && c & 0x20 == d & 0x20 && c & 0x40 == d & 0x40 && c & 0x80 == d & 0x80
    ensures c == d
  {}

  lemma SameMasked(a: bv8, b: bv8, i: nat)
    requires ByteBits(a) == ByteBits(b) && i < 8
    ensures (a as bv16) & Mask(i) == (b as bv16) & Mask(i)
  {
    hide BitsOf, Test, Mask;
    assert ByteBits(a)[i] == ByteBits(b)[i];
    BitAt(a as bv16, i);
    BitAt(b as bv16, i);
    MaskLaws(i);
    SameBit(a as bv16, b as bv16, Mask(i));
  }

  lemma ByteFromBits(a: bv8, b: bv8)
    requires ByteBits(a) == ByteBits(b)
    ensures a == b
  {
    hide ByteBits;
    SameMasked(a, b, 0); SameMasked(a, b, 1); SameMasked(a, b, 2); SameMasked(a, b, 3);
    SameMasked(a, b, 4); SameMasked(a, b, 5); SameMasked(a, b, 6); SameMasked(a, b, 7);
    SameLowByte(a as bv16, b as bv16);
  }

  // ---------- the register as a linear machine ----------

  function XorWord(a: Word16, b: Word16): Word16 {
    XorBits(a, b)
  }

  function HalfWord(w: Word16): Word16 {
    w[1..] + [false]
  }

  function PushWord(w: Word16, b: bool): Word16 {
    [b] + w[..15]
  }

  function BitWord(b: bool): Word16 {
    [b] + ZERO_BITS[1..]
  }

  const ZERO: Word16 := ZERO_BITS

  const GENERATOR: Word16 :=
    [true, false, false, false, false, false, false, false,
     false, false, false, false, false, true, false, true]

  function StepWord(w: Word16): Word16 {
    if w[0] then XorWord(HalfWord(w), GENERATOR) else HalfWord(w)
  }

  predicate FitsWord(w: Word16, n: nat) {
    forall i :: 0 <= i < 16 ==> i >= n ==> !w[i]
  }

  function Register16(): Register<Word16> {
    Register(ZERO, (a: Word16, b: Word16) => XorWord(a, b), (w: Word16) => StepWord(w), (w: Word16) => w[0],
             (w: Word16) => HalfWord(w), (w: Word16, b: bool) => PushWord(w, b), (b: bool) => BitWord(b),
             (w: Word16, n: nat) => FitsWord(w, n), 16)
  }

  lemma XorAt(a: Word16, b: Word16, i: nat)
    requires i < 16
    ensures XorWord(a, b)[i] == (a[i] != b[i])
  {}

  lemma XorAssociates(a: Word16, b: Word16, c: Word16)
    ensures XorWord(XorWord(a, b), c) == XorWord(a, XorWord(b, c))
  {
    hide XorWord;
    var l, r := XorWord(XorWord(a, b), c), XorWord(a, XorWord(b, c));
    forall i | 0 <= i < 16 ensures l[i] == r[i] {
      XorAt(XorWord(a, b), c, i);
      XorAt(a, b, i);
      XorAt(a, XorWord(b, c), i);
      XorAt(b, c, i);
    }
  }

  lemma XorZero(a: Word16)
    ensures XorWord(a, ZERO) == a && XorWord(a, a) == ZERO
  {
    hide XorWord;
    forall i | 0 <= i < 16 ensures XorWord(a, ZERO)[i] == a[i] && XorWord(a, a)[i] == ZERO[i] {
      XorAt(a, ZERO, i);
      XorAt(a, a, i);
    }
  }

  lemma XorCommutes(a: Word16, b: Word16)
    ensures XorWord(a, b) == XorWord(b, a)
  {
    hide XorWord;
    forall i | 0 <= i < 16 ensures XorWord(a, b)[i] == XorWord(b, a)[i] {
      XorAt(a, b, i);
      XorAt(b, a, i);
    }
  }

  lemma XorWordLaws(a: Word16, b: Word16, c: Word16)
    ensures XorWord(a, b) == XorWord(b, a)
    ensures XorWord(XorWord(a, b), c) == XorWord(a, XorWord(b, c))
    ensures XorWord(a, ZERO) == a && XorWord(a, a) == ZERO
  {
    hide XorWord;
    XorAssociates(a, b, c);
    XorCommutes(a, b);
    XorZero(a);
  }

  lemma StepIsLinear(a: Word16, b: Word16)
    ensures StepWord(XorWord(a, b)) == XorWord(StepWord(a), StepWord(b))
  {
    assert HalfWord(XorWord(a, b)) == XorWord(HalfWord(a), HalfWord(b));
  }

  /** The top bit of the generator gives an odd word away. */
  lemma StepKeepsNonZero(a: Word16)
    requires StepWord(a) == ZERO
    ensures a == ZERO
  {
    assert StepWord(a)[15] == a[0];
    assert forall i :: 0 <= i < 15 ==> HalfWord(a)[i] == a[i + 1];
    assert forall i :: 1 <= i < 16 ==> a[i] == HalfWord(a)[i - 1];
  }

  lemma HalfOfXor(a: Word16, w: Word16)
    ensures HalfWord(XorWord(a, w)) == XorWord(HalfWord(a), HalfWord(w))
  {
    forall i | 0 <= i < 16 ensures HalfWord(XorWord(a, w))[i] == XorWord(HalfWord(a), HalfWord(w))[i] {}
  }

  lemma HalfOfBit(b: bool)
    ensures HalfWord(BitWord(b)) == ZERO
  {
    forall i | 0 <= i < 16 ensures HalfWord(BitWord(b))[i] == ZERO[i] {}
  }

  lemma HalfOfBitMix(a: Word16, b: bool)
    ensures HalfWord(XorWord(a, BitWord(b))) == HalfWord(a)
  {
    hide BitWord, HalfWord, XorWord;
    HalfOfXor(a, BitWord(b));
    HalfOfBit(b);
    XorWordLaws(HalfWord(a), ZERO, ZERO);
  }

  lemma LowBitOfMix(a: Word16, w: Word16)
    ensures XorWord(a, w)[0] == XorWord(a, BitWord(w[0]))[0] == (a[0] != w[0])
  {}

  /** The upper bits of a mixed-in word survive one step unchanged. */
  lemma StepSplits(a: Word16, w: Word16)
    ensures StepWord(XorWord(a, w)) == XorWord(StepWord(XorWord(a, BitWord(w[0]))), HalfWord(w))
  {
    HalfOfXor(a, w);
    HalfOfBitMix(a, w[0]);
    LowBitOfMix(a, w);
    XorWordLaws(HalfWord(a), HalfWord(w), GENERATOR);
    XorWordLaws(HalfWord(a), GENERATOR, HalfWord(w));
    XorWordLaws(HalfWord(w), GENERATOR, ZERO);
    hide XorWord, HalfWord, BitWord;
  }

  lemma PushAndHalve(w: Word16, b: bool, n: nat)
    ensures FitsWord(w, 0) <==> w == ZERO
    ensures n < 16 && FitsWord(w, n + 1) ==> FitsWord(HalfWord(w), n)
    ensures n < 16 && FitsWord(w, n) ==>
              PushWord(w, b)[0] == b && HalfWord(PushWord(w, b)) == w && FitsWord(PushWord(w, b), n + 1)
  {}

  lemma BitWordAt(b: bool, i: nat)
    requires i < 16
    ensures BitWord(b)[i] == (i == 0 && b)
  {}

  lemma MixBools(x: bool, y: bool)
    ensures XorWord(BitWord(x), BitWord(y)) == BitWord(x != y)
  {
    hide XorWord, BitWord;
    var s, d := XorWord(BitWord(x), BitWord(y)), BitWord(x != y);
    forall i | 0 <= i < 16 ensures s[i] == d[i] {
      XorAt(BitWord(x), BitWord(y), i);
      BitWordAt(x, i);
      BitWordAt(y, i);
      BitWordAt(x != y, i);
    }
  }

  lemma ZeroWord()
    ensures BitWord(false) == ZERO && !ZERO[0]
  {
    assert BitWord(false) == ZERO;
  }

  lemma HalfOfZero()
    ensures HalfWord(ZERO) == ZERO
  {
    forall i | 0 <= i < 16 ensures HalfWord(ZERO)[i] == ZERO[i] {}
  }

  lemma GroupLaws16()
    ensures GroupLaws(Register16())
  {
    hide XorWord, XorBits;
    forall a: Word16, b: Word16, c: Word16 {:trigger XorWord(XorWord(a, b), c)}
      ensures XorWord(XorWord(a, b), c) == XorWord(a, XorWord(b, c))
    {
      XorWordLaws(a, b, c);
    }
    forall a: Word16, b: Word16 {:trigger XorWord(a, b)}
      ensures XorWord(a, b) == XorWord(b, a) && XorWord(a, ZERO) == a && XorWord(a, a) == ZERO
    {
      XorWordLaws(a, b, a);
    }
  }

  lemma StepLaws16()
    ensures StepLaws(Register16())
  {
    hide XorWord, XorBits, StepWord, HalfWord, BitWord;
    forall a: Word16, b: Word16 {:trigger StepWord(XorWord(a, b))}
      ensures StepWord(XorWord(a, b)) == XorWord(StepWord(a), StepWord(b))
      ensures StepWord(XorWord(a, b)) == XorWord(StepWord(XorWord(a, BitWord(b[0]))), HalfWord(b))
    {
      StepIsLinear(a, b);
      StepSplits(a, b);
    }
    forall a: Word16 {:trigger StepWord(a)} | StepWord(a) == ZERO ensures a == ZERO {
      StepKeepsNonZero(a);
    }
  }

  lemma WordLaws16()
    ensures LinearRegister.WordLaws(Register16())
  {
    hide HalfWord, PushWord, FitsWord;
    forall w: Word16, b: bool, n: nat {:trigger FitsWord(w, n), PushWord(w, b)}
      | n < 16 && FitsWord(w, n)
      ensures PushWord(w, b)[0] == b && HalfWord(PushWord(w, b)) == w && FitsWord(PushWord(w, b), n + 1)
    {
      PushAndHalve(w, b, n);
    }
    forall w: Word16 {:trigger FitsWord(w, 0)} ensures FitsWord(w, 0) <==> w == ZERO {
      PushAndHalve(w, false, 0);
    }
    forall w: Word16, n: nat {:trigger FitsWord(HalfWord(w), n)} | n < 16 && FitsWord(w, n + 1)
      ensures FitsWord(HalfWord(w), n)
    {
      PushAndHalve(w, false, n);
    }
  }

  lemma BitLaws16()
    ensures LinearRegister.BitLaws(Register16())
  {
    hide XorWord, XorBits, HalfWord, BitWord;
    ZeroWord();
    HalfOfZero();
    var m := Register16();
    forall x: bool, y: bool ensures m.xor(m.bit(x), m.bit(y)) == m.bit(x != y) {
      MixBools(x, y);
    }
  }

  lemma Register16IsLawful()
    ensures Lawful(Register16())
  {
    GroupLaws16();
    StepLaws16();
    WordLaws16();
    BitLaws16();
  }

  // ---------- the computation on bits ----------

  lemma LowTest(c: bv16)
    ensures Test(c, 1) <==> c & 1 == 1
  {}

  lemma StepBits(c: bv16)
    ensures BitsOf(Step(c)) == StepWord(BitsOf(c))
  {
    hide BitsOf, XorWord, HalfWord, Test;
    BitAt(c, 0);
    LowTest(c);
    ShiftBits(c, c >> 1);
    if c & 1 == 1 {
      GeneratorBits();
      MixBits(c >> 1, 0xA001, Step(c));
    }
  }

  lemma {:induction false} StepTimesBits(c: bv16, n: nat)
    ensures BitsOf(StepTimes(c, n)) == Steps(Register16(), BitsOf(c), n)
    decreases n
  {
    hide BitsOf, StepWord, Step, XorWord, HalfWord, PushWord, BitWord, FitsWord;
    if n > 0 {
      StepBits(c);
      StepTimesBits(Step(c), n - 1);
    }
  }

  lemma {:induction false} LowBitsArePrefix(w: Word16, n: nat)
    requires n <= 16
    ensures LowBits(Register16(), w, n) == w[..n]
    decreases n
  {
    if n > 0 {
      LowBitsArePrefix(HalfWord(w), n - 1);
      assert HalfWord(w)[..n - 1] == w[1..n];
      assert w[..n] == [w[0]] + w[1..n];
    }
  }

  lemma ByteFits(b: bv8)
    ensures FitsWord(BitsOf(b as bv16), 8)
  {
    hide BitsOf;
    ByteIsLow(b, BitsOf(b as bv16));
  }

  /** One byte, mixed in at once and shifted out, is eight bits fed in turn. */
  lemma ByteFed(crc: bv16, b: bv8)
    ensures BitsOf(StepTimes(crc ^ (b as bv16), 8)) == Serial(Register16(), BitsOf(crc), ByteBits(b))
  {
    hide BitsOf, FitsWord, StepTimes, Steps, Serial, Lawful;
    var mixed := crc ^ (b as bv16);
    Register16IsLawful();
    MixBits(crc, b as bv16, mixed);
    StepTimesBits(mixed, 8);
    ByteFits(b);
    WordAsBits(Register16(), BitsOf(crc), BitsOf(b as bv16), 8);
    LowBitsArePrefix(BitsOf(b as bv16), 8);
  }

  /** The byte-wise computation is the serial one on the bits of the buffer. */
  lemma {:induction false} CrcIsSerial(crc: bv16, buffer: Bytes)
    ensures BitsOf(CrcFrom(crc, buffer)) == Serial(Register16(), BitsOf(crc), Bits(buffer))
    decreases |buffer|
  {
    hide BitsOf, ByteBits, StepTimes;
    if buffer != [] {
      ByteFed(crc, buffer[0]);
      SerialConcat(Register16(), BitsOf(crc), ByteBits(buffer[0]), Bits(buffer[1..]));
      CrcIsSerial(StepTimes(crc ^ (buffer[0] as bv16), 8), buffer[1..]);
    }
  }

  lemma {:induction false} BitsInjective(a: Bytes, b: Bytes)
    requires |a| == |b| && Bits(a) == Bits(b)
    ensures a == b
  {
    if a != [] {
      assert ByteBits(a[0]) == Bits(a)[..8] && ByteBits(b[0]) == Bits(b)[..8];
      assert Bits(a)[8..] == Bits(a[1..]) && Bits(b)[8..] == Bits(b[1..]);
      BitsInjective(a[1..], b[1..]);
      ByteFromBits(a[0], b[0]);
    }
  }

  // ---------- bursts ----------

  /** a and b agree on every bit outside n consecutive ones, starting at bit `at`. */
  ghost predicate DifferWithin(a: Bytes, b: Bytes, at: nat, n: nat)
    requires |a| == |b|
  {
    forall i :: 0 <= i < 8 * |a| && !(at <= i < at + n) ==> Bits(a)[i] == Bits(b)[i]
  }

  /** Buffers of one length that differ, but only within sixteen consecutive bits, never share a CRC. */
  lemma BurstsAreDetected(a: Bytes, b: Bytes, at: nat)
    requires |a| == |b| && a != b && DifferWithin(a, b, at, 16)
    ensures Crc(a) != Crc(b)
  {
    CrcIsSerial(0xFFFF, a);
    CrcIsSerial(0xFFFF, b);
    if Bits(a) == Bits(b) {
      BitsInjective(a, b);
    }
    Register16IsLawful();
    BurstSeparates(Register16(), BitsOf(0xFFFF), Bits(a), Bits(b), at);
  }

  lemma SameByMixing(c: bv16, d: bv16)
    requires c ^ d == 0
    ensures c == d
  {}

  lemma NoTests(e: bv16)
    requires !Test(e, 1) && !Test(e, 2) && !Test(e, 4) && !Test(e, 8)
    requires !Test(e, 0x10) && !Test(e, 0x20) && !Test(e, 0x40) && !Test(e, 0x80)
    requires !Test(e, 0x100) && !Test(e, 0x200) && !Test(e, 0x400) && !Test(e, 0x800)
    requires !Test(e, 0x1000) && !Test(e, 0x2000) && !Test(e, 0x4000) && !Test(e, 0x8000)
    ensures e == 0
  {}

  lemma NoBits(e: bv16)
    requires BitsOf(e) == ZERO
    ensures e == 0
  {
    hide BitsOf, Test;
    forall i | 0 <= i < 16 ensures !Test(e, Mask(i)) {
      BitAt(e, i);
    }
    assert !Test(e, Mask(0)) && !Test(e, Mask(1)) && !Test(e, Mask(2)) && !Test(e, Mask(3));
    assert !Test(e, Mask(4)) && !Test(e, Mask(5)) && !Test(e, Mask(6)) && !Test(e, Mask(7));
    assert !Test(e, Mask(8)) && !Test(e, Mask(9)) && !Test(e, Mask(10)) && !Test(e, Mask(11));
    assert !Test(e, Mask(12)) && !Test(e, Mask(13)) && !Test(e, Mask(14)) && !Test(e, Mask(15));
    NoTests(e);
  }

  lemma WordFromBits(c: bv16, d: bv16)
    requires BitsOf(c) == BitsOf(d)
    ensures c == d
  {
    hide BitsOf;
    var e := c ^ d;
    MixBits(c, d, e);
    XorWordLaws(BitsOf(c), ZERO, ZERO);
    NoBits(e);
    SameByMixing(c, d);
  }

  lemma StepOfOne()
    ensures StepWord(BitWord(true)) == GENERATOR
  {
    hide XorWord, HalfWord;
    HalfOfBit(true);
    XorWordLaws(ZERO, GENERATOR, ZERO);
    XorWordLaws(GENERATOR, ZERO, ZERO);
  }

  lemma GeneratorOf16()
    ensures Generator(Register16()) == [true] + GENERATOR
  {
    hide StepWord, BitWord, LowBits;
    StepOfOne();
    LowBitsArePrefix(GENERATOR, 16);
    assert GENERATOR[..16] == GENERATOR;
  }

  lemma AllFit(w: Word16)
    ensures FitsWord(w, 16)
  {}

  /** With seventeen bits there is exactly one exception: a difference that is the generator, with its leading
      one, is never detected, and every other one always is. */
  lemma SeventeenBits(a: Bytes, b: Bytes, at: nat)
    requires |a| == |b| && a != b && DifferWithin(a, b, at, 17)
    ensures Crc(a) == Crc(b)
       <==> at + 17 <= 8 * |a| && XorBits(Bits(a), Bits(b))[at..at + 17] == [true] + GENERATOR
  {
    hide BitsOf, FitsWord;
    var m := Register16();
    CrcIsSerial(0xFFFF, a);
    CrcIsSerial(0xFFFF, b);
    if BitsOf(Crc(a)) == BitsOf(Crc(b)) {
      WordFromBits(Crc(a), Crc(b));
    }
    if Bits(a) == Bits(b) {
      BitsInjective(a, b);
    }
    Register16IsLawful();
    GeneratorOf16();
    assert m.fits(m.step(m.bit(true)), 16) by {
      AllFit(m.step(m.bit(true)));
    }
    LongerBurst(m, BitsOf(0xFFFF), Bits(a), Bits(b), at);
  }

  lemma {:induction false} BitsAt(buffer: Bytes, i: nat)
    requires i < 8 * |buffer|
    ensures Bits(buffer)[i] == ByteBits(buffer[i / 8])[i % 8]
  {
    hide BitsOf;
    if i >= 8 {
      BitsAt(buffer[1..], i - 8);
    }
  }

  lemma ZeroAndOne()
    ensures BitsOf(0) == ZERO && BitsOf(1) == BitWord(true)
  {}

  lemma LastByte()
    ensures StepTimes(0xB001, 8) == 0xC071
  {
    assert Step(0xB001) == 0xF801;
    assert StepTimes(0xB001, 8) == StepTimes(0xF801, 7);
  }

  lemma SameCrc()
    ensures Crc([0, 0, 0]) == Crc([3, 0x40, 1])
  {
    var a: Bytes, b: Bytes := [0, 0, 0], [3, 0x40, 1];
    assert StepTimes(0xFFFF, 8) == 0x40BF;
    assert StepTimes(0x40BF, 8) == 0xB001;
    assert StepTimes(0xFFFC, 8) == 0x41FF;
    assert StepTimes(0x41BF, 8) == 0xB000;
    LastByte();
    assert a[1..] == [0, 0] && a[1..][1..] == [0] && a[1..][1..][1..] == [];
    assert b[1..] == [0x40, 1] && b[1..][1..] == [1] && b[1..][1..][1..] == [];
  }

  /** There are such buffers. */
  lemma SeventeenBitsCollide()
    ensures DifferWithin([0, 0, 0], [3, 0x40, 1], 0, 17) && Crc([0, 0, 0]) == Crc([3, 0x40, 1])
  {
    var a: Bytes, b: Bytes := [0, 0, 0], [3, 0x40, 1];
    SameCrc();
    hide BitsOf, StepTimes;
    ZeroAndOne();
    forall i | 17 <= i < 24 ensures Bits(a)[i] == Bits(b)[i] {
      BitsAt(a, i);
      BitsAt(b, i);
    }
  }
}
