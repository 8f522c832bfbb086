/** The CRC-32 of lfs_util.c: a nibble table that divides by 0x04c11db7 with every register bit-reversed. */
module Crc {
  import opened Words

  /** rtable of lfs_crc. */
  function Table(i: bv4): word {
    if i == 0 then 0x00000000 else if i == 1 then 0x1db71064 else if i == 2 then 0x3b6e20c8
    else if i == 3 then 0x26d930ac else if i == 4 then 0x76dc4190 else if i == 5 then 0x6b6b51f4
    else if i == 6 then 0x4db26158 else if i == 7 then 0x5005713c else if i == 8 then 0xedb88320
    else if i == 9 then 0xf00f9344 else if i == 10 then 0xd6d6a3e8 else if i == 11 then 0xcb61b38c
    else if i == 12 then 0x9b64c2b0 else if i == 13 then 0x86d3d2d4 else if i == 14 then 0xa00ae278 else 0xbdbdf21c
  }

  /** One table step: the low four bits of n enter the register. */
  function Nibble(crc: word, n: word): word {
    Xor(Quarter(crc), Table(Index(Xor(crc, n))))
  }

  function Quarter(x: word): word { x >> 4 }

  function Index(x: word): bv4 { (x & 0xf) as bv4 }

  /** The body of the loop of lfs_crc. */
  function CrcByte(crc: word, b: byte): word {
    Nibble(Nibble(crc, (b >> 0) as word), (b >> 4) as word)
  }

  function CrcOf(crc: word, data: seq<byte>): word {
    if data == [] then crc else CrcByte(CrcOf(crc, data[..|data| - 1]), data[|data| - 1])
  }

  /** lfs_crc. */
  method Update(crc: word, data: seq<byte>) returns (r: word)
    ensures r == CrcOf(crc, data)
  {
    hide Nibble, Table;
    r := crc;
    for i := 0 to |data|
      invariant r == CrcOf(crc, data[..i])
    {
      assert data[..i + 1][..i] == data[..i];
      r := Nibble(r, (data[i] >> 0) as word);
      r := Nibble(r, (data[i] >> 4) as word);
    }
    assert data[..|data|] == data;
  }

  // ----- division, most significant bit first

  const POLYNOMIAL: word := 0x04c1_1db7

  /** One step of long division by x^32 + POLYNOMIAL over GF(2): shift one message bit in. */
  function DivideBit(r: word, bit: bool): word {
    if (r & 0x8000_0000 != 0) != bit then (r << 1) ^ POLYNOMIAL else r << 1
  }

  /** The eight bits of a byte, least significant first. */
  function DivideByte(r: word, b: byte): word {
    var r := DivideBit(DivideBit(DivideBit(DivideBit(r, b & 1 != 0), b & 2 != 0), b & 4 != 0), b & 8 != 0);
    DivideBit(DivideBit(DivideBit(DivideBit(r, b & 16 != 0), b & 32 != 0), b & 64 != 0), b & 128 != 0)
  }

  function Divide(r: word, data: seq<byte>): word {
    if data == [] then r else DivideByte(Divide(r, data[..|data| - 1]), data[|data| - 1])
  }

  /** A register read from the other end. */
  function Reverse(w: word): word {
    var w := ((w >> 1) & 0x5555_5555) | ((w & 0x5555_5555) << 1);
    var w := ((w >> 2) & 0x3333_3333) | ((w & 0x3333_3333) << 2);
    var w := ((w >> 4) & 0x0f0f_0f0f) | ((w & 0x0f0f_0f0f) << 4);
    var w := ((w >> 8) & 0x00ff_00ff) | ((w & 0x00ff_00ff) << 8);
    (w >> 16) | (w << 16)
  }

  /** The division step on the reversed register. */
  function ReflectedBit(c: word, bit: bool): word {
    if (c & 1 != 0) != bit then (c >> 1) ^ 0xedb8_8320 else c >> 1
  }

  predicate IsEven(x: word) { x & 1 == 0 }

  function Half(x: word): word { x >> 1 }

  predicate IsTop(x: word) { x & 0x8000_0000 != 0 }

  function Double(x: word): word { x << 1 }

  lemma ReflectedCases(x: word, bit: bool)
    ensures ReflectedBit(x, bit) == if !IsEven(x) != bit then Xor(Half(x), 0xedb8_8320) else Half(x)
  {
  }

  lemma DivideCases(x: word, bit: bool)
    ensures DivideBit(x, bit) == if IsTop(x) != bit then Xor(Double(x), 0x04c1_1db7) else Double(x)
  {
  }

  lemma ReverseStep(c: word, bit: bool)
    ensures Reverse(ReflectedBit(c, bit)) == DivideBit(Reverse(c), bit)
  {
    hide *;
    ReflectedCases(c, bit);
    DivideCases(Reverse(c), bit);
    ReverseHalf(c);
    ReverseXor(Half(c), 0xedb8_8320);
    ReversePolynomial();
    ReverseLow(c);
  }

  lemma ReverseHalf(c: word)
    ensures Reverse(Half(c)) == Double(Reverse(c))
  {
    hide Reverse;
    ReverseShift(c);
  }

  lemma ReverseShift(c: word)
    ensures Reverse(c >> 1) == Reverse(c) << 1
  {
  }

  lemma ReverseXor(a: word, b: word)
    ensures Reverse(Xor(a, b)) == Xor(Reverse(a), Reverse(b))
  {
  }

  lemma ReversePolynomial()
    ensures Reverse(0xedb8_8320) == 0x04c1_1db7
  {
  }

  lemma ReverseLow(c: word)
    ensures !IsEven(c) <==> IsTop(Reverse(c))
  {
  }

  /** The reflected step without a message bit; it is linear over exclusive or. */
  function Step(c: word): word { ReflectedBit(c, false) }

  lemma HalfXor(a: word, b: word)
    ensures (a ^ b) >> 1 == (a >> 1) ^ (b >> 1)
    ensures (a ^ b) & 1 == (a & 1) ^ (b & 1)
  {
  }

  lemma XorRegroup(x: word, y: word, p: word)
    ensures (x ^ y) ^ p == (x ^ p) ^ y
    ensures (x ^ y) ^ p == x ^ (y ^ p)
    ensures (x ^ p) ^ (y ^ p) == x ^ y
  {
  }

  lemma LowBit(a: word)
    ensures a & 1 == 0 || a & 1 == 1
  {
  }

  lemma StepLinear(a: word, b: word)
    ensures Step(Xor(a, b)) == Xor(Step(a), Step(b))
  {
    HalfXor(a, b);
    LowBit(a);
    LowBit(b);
    XorRegroup(a >> 1, b >> 1, 0xedb8_8320);
  }

  function Part(n: word, mask: word): word { n & mask }

  lemma PartsOfLow(c: word, n: word)
    ensures Xor(c, Low(n)) == Xor(Xor(Xor(Xor(c, Part(n, 1)), Part(n, 2)), Part(n, 4)), Part(n, 8))
  {
  }

  function One(bit: bool): word { if bit then 1 else 0 }

  lemma FlipEven(x: word) ensures IsEven(Xor(x, 1)) == !IsEven(x) {}

  lemma FlipHalf(x: word) ensures Half(Xor(x, 1)) == Half(x) {}

  lemma XorZero(x: word) ensures Xor(x, 0) == x {}

  /** A message bit enters through the low end of the register. */
  lemma BitEnters(x: word, bit: bool)
    ensures ReflectedBit(x, bit) == Step(Xor(x, One(bit)))
  {
    hide ReflectedBit, Xor, IsEven, Half;
    FlipEven(x);
    FlipHalf(x);
    XorZero(x);
    ReflectedCases(x, bit);
    ReflectedCases(Xor(x, One(bit)), false);
  }

  lemma Part0(n: word) ensures Part(n, 1) == One(n & 1 != 0) {}

  lemma Part1(n: word) ensures Step(Part(n, 2)) == One(n & 2 != 0) {}

  lemma Part2(n: word) ensures Step(Step(Part(n, 4))) == One(n & 4 != 0) {}

  lemma Part3(n: word) ensures Step(Step(Step(Part(n, 8)))) == One(n & 8 != 0) {}

  lemma Step4Linear(a: word, b: word)
    ensures Step(Step(Step(Step(Xor(a, b))))) == Xor(Step(Step(Step(Step(a)))), Step(Step(Step(Step(b)))))
  {
    hide *;
    StepLinear(a, b);
    StepLinear(Step(a), Step(b));
    StepLinear(Step(Step(a)), Step(Step(b)));
    StepLinear(Step(Step(Step(a))), Step(Step(Step(b))));
  }

  function Low(x: word): word { x & 0xf }

  function High(x: word): word { x & !0xf }

  lemma Halves(x: word)
    ensures x == Xor(High(x), Low(x))
  {
  }

  lemma EvenStep(x: word)
    requires IsEven(x)
    ensures Step(x) == Half(x)
  {
  }

  lemma HighIsEven(x: word)
    ensures IsEven(High(x)) && IsEven(Half(High(x))) && IsEven(Half(Half(High(x)))) && IsEven(Half(Half(Half(High(x)))))
  {
  }

  lemma HighHalved(x: word)
    ensures Half(Half(Half(Half(High(x))))) == Quarter(x)
  {
  }

  lemma HighSteps(x: word)
    ensures Step(Step(Step(Step(High(x))))) == Quarter(x)
  {
    hide *;
    HighIsEven(x);
    HighHalved(x);
    EvenStep(High(x));
    EvenStep(Half(High(x)));
    EvenStep(Half(Half(High(x))));
    EvenStep(Half(Half(Half(High(x)))));
  }

  lemma TableIsSteps(x: word)
    ensures Step(Step(Step(Step(Low(x))))) == Table(Index(x))
  {
    hide *;
    if Index(x) < 8 {
      if Index(x) < 4 { LowTable(Index(x)); } else { LowTable(Index(x)); }
    } else {
      LowTable(Index(x));
    }
    LowIsIndex(x);
  }

  lemma LowIsIndex(x: word)
    ensures Low(x) == Index(x) as word
  {
  }

  lemma LowTable(i: bv4)
    ensures Step(Step(Step(Step(i as word)))) == Table(i)
  {
    if i == 0 {} else if i == 1 {} else if i == 2 {} else if i == 3 {} else if i == 4 {} else if i == 5 {}
    else if i == 6 {} else if i == 7 {} else if i == 8 {} else if i == 9 {} else if i == 10 {} else if i == 11 {}
    else if i == 12 {} else if i == 13 {} else if i == 14 {} else {}
  }

  lemma FourSteps(x: word)
    ensures Step(Step(Step(Step(x)))) == Xor(Quarter(x), Table(Index(x)))
  {
    hide *;
    Halves(x);
    Step4Linear(High(x), Low(x));
    HighSteps(x);
    TableIsSteps(x);
  }
  /** Four bits one after the other are four bits at once. */
  lemma BitsTogether(c: word, n: word)
    ensures ReflectedBit(ReflectedBit(ReflectedBit(ReflectedBit(c, n & 1 != 0), n & 2 != 0), n & 4 != 0), n & 8 != 0)
      == Step(Step(Step(Step(Xor(c, Low(n))))))
  {
    hide *;
    Part0(n);
    Part1(n);
    Part2(n);
    Part3(n);
    PartsEnter(c, n, n & 1 != 0, n & 2 != 0, n & 4 != 0, n & 8 != 0);
  }

  lemma PartsEnter(c: word, n: word, e0: bool, e1: bool, e2: bool, e3: bool)
    requires Part(n, 1) == One(e0) && Step(Part(n, 2)) == One(e1) && Step(Step(Part(n, 4))) == One(e2)
    requires Step(Step(Step(Part(n, 8)))) == One(e3)
    ensures ReflectedBit(ReflectedBit(ReflectedBit(ReflectedBit(c, e0), e1), e2), e3)
      == Step(Step(Step(Step(Xor(c, Low(n))))))
  {
    hide *;
    var b0, b1, b2, b3 := Part(n, 1), Part(n, 2), Part(n, 4), Part(n, 8);
    PartsOfLow(c, n);
    var c0 := Xor(c, b0);
    var c1 := Step(c0);
    var c2 := Step(Xor(c1, Step(b1)));
    var c3 := Step(Xor(c2, Step(Step(b2))));
    BitEnters(c, e0);
    BitEnters(c1, e1);
    BitEnters(c2, e2);
    BitEnters(c3, e3);
    StepLinear(Xor(Xor(c0, b1), b2), b3);
    StepLinear(Xor(c0, b1), b2);
    StepLinear(c0, b1);
    StepLinear(Xor(Xor(c1, Step(b1)), Step(b2)), Step(b3));
    StepLinear(Xor(c1, Step(b1)), Step(b2));
    StepLinear(Xor(c2, Step(Step(b2))), Step(Step(b3)));
  }

  lemma NibbleShape(c: word, n: word)
    ensures Nibble(c, n) == Xor(Quarter(Xor(c, Low(n))), Table(Index(Xor(c, Low(n)))))
  {
    hide Xor, Quarter, Table, Index, Low;
    QuarterOfLow(c, n);
    IndexOfLow(c, n);
  }

  lemma QuarterOfLow(c: word, n: word) ensures Quarter(Xor(c, Low(n))) == Quarter(c) {}

  lemma IndexOfLow(c: word, n: word) ensures Index(Xor(c, Low(n))) == Index(Xor(c, n)) {}

  /** The table step is four reflected division steps. */
  lemma NibbleIsFourBits(c: word, n: word)
    ensures Nibble(c, n)
      == ReflectedBit(ReflectedBit(ReflectedBit(ReflectedBit(c, n & 1 != 0), n & 2 != 0), n & 4 != 0), n & 8 != 0)
  {
    hide *;
    BitsTogether(c, n);
    FourSteps(Xor(c, Low(n)));
    NibbleShape(c, n);
  }

  lemma NibbleDivides(c: word, n: word)
    ensures Reverse(Nibble(c, n))
      == DivideBit(DivideBit(DivideBit(DivideBit(Reverse(c), n & 1 != 0), n & 2 != 0), n & 4 != 0), n & 8 != 0)
  {
    hide Nibble, ReflectedBit, DivideBit, Reverse;
    NibbleIsFourBits(c, n);
    var c1 := ReflectedBit(c, n & 1 != 0);
    var c2 := ReflectedBit(c1, n & 2 != 0);
    var c3 := ReflectedBit(c2, n & 4 != 0);
    ReverseStep(c, n & 1 != 0);
    ReverseStep(c1, n & 2 != 0);
    ReverseStep(c2, n & 4 != 0);
    ReverseStep(c3, n & 8 != 0);
  }

  lemma NibblesOfByte(b: byte)
    ensures ((b >> 0) as word) & 1 != 0 <==> b & 1 != 0
    ensures ((b >> 0) as word) & 2 != 0 <==> b & 2 != 0
    ensures ((b >> 0) as word) & 4 != 0 <==> b & 4 != 0
    ensures ((b >> 0) as word) & 8 != 0 <==> b & 8 != 0
    ensures ((b >> 4) as word) & 1 != 0 <==> b & 16 != 0
    ensures ((b >> 4) as word) & 2 != 0 <==> b & 32 != 0
    ensures ((b >> 4) as word) & 4 != 0 <==> b & 64 != 0
    ensures ((b >> 4) as word) & 8 != 0 <==> b & 128 != 0
  {
  }

  lemma ByteDivides(c: word, b: byte)
    ensures Reverse(CrcByte(c, b)) == DivideByte(Reverse(c), b)
  {
    hide Nibble, DivideBit, Reverse;
    NibblesOfByte(b);
    NibbleDivides(c, (b >> 0) as word);
    NibbleDivides(Nibble(c, (b >> 0) as word), (b >> 4) as word);
  }

  /** lfs_crc is division by the generator polynomial, on bit-reversed registers. */
  lemma {:induction false} CrcIsDivision(c: word, data: seq<byte>)
    ensures Reverse(CrcOf(c, data)) == Divide(Reverse(c), data)
  {
    hide CrcByte, DivideByte, Reverse;
    if data != [] {
      CrcIsDivision(c, data[..|data| - 1]);
      ByteDivides(CrcOf(c, data[..|data| - 1]), data[|data| - 1]);
    }
  }

  // ----- framing

  lemma {:induction false} CrcConcat(c: word, a: seq<byte>, b: seq<byte>)
    ensures CrcOf(c, a + b) == CrcOf(CrcOf(c, a), b)
    decreases |b|
  {
    if b == [] {
      assert a + b == a;
    } else {
      assert (a + b)[..|a + b| - 1] == a + b[..|b| - 1];
      CrcConcat(c, a, b[..|b| - 1]);
    }
  }

  lemma OwnNibble(c: word, n: word)
    requires (c ^ n) & 0xf == 0
    ensures Nibble(c, n) == c >> 4
  {
    assert Index(Xor(c, n)) == 0;
  }

  lemma LowNibble(c: word)
    ensures (c ^ (((c & 0xff) as byte >> 0) as word)) & 0xf == 0
  {
  }

  lemma HighNibble(c: word)
    ensures ((c >> 4) ^ (((c & 0xff) as byte >> 4) as word)) & 0xf == 0
    ensures (c >> 4) >> 4 == c >> 8
  {
  }

  /** A register that meets its own low byte shifts it out. */
  lemma OwnByte(c: word)
    ensures CrcByte(c, (c & 0xff) as byte) == c >> 8
  {
    hide Nibble;
    LowNibble(c);
    HighNibble(c);
    OwnNibble(c, ((c & 0xff) as byte >> 0) as word);
    OwnNibble(c >> 4, ((c & 0xff) as byte >> 4) as word);
  }

  function LowByte(c: word): byte { (c & 0xff) as byte }

  function Drop(c: word): word { c >> 8 }

  lemma DropsByte(c: word)
    ensures CrcByte(c, LowByte(c)) == Drop(c)
  {
    OwnByte(c);
  }

  lemma LeBytes(c: word)
    ensures Le(c) == [LowByte(c), LowByte(Drop(c)), LowByte(Drop(Drop(c))), LowByte(Drop(Drop(Drop(c))))]
  {
    assert (c >> 8) >> 8 == c >> 16 && (c >> 16) >> 8 == c >> 24;
  }

  lemma DropAll(c: word)
    ensures Drop(Drop(Drop(Drop(c)))) == 0
  {
    assert ((c >> 8) >> 8) >> 8 == c >> 24;
  }

  /** Data followed by its own little-endian checksum has checksum zero. */
  lemma OwnChecksum(c: word)
    ensures CrcOf(c, Le(c)) == 0
  {
    hide CrcByte, LowByte, Drop, Le;
    LeBytes(c);
    DropsByte(c);
    DropsByte(Drop(c));
    DropsByte(Drop(Drop(c)));
    DropsByte(Drop(Drop(Drop(c))));
    DropAll(c);
    FourBytes(c, LowByte(c), LowByte(Drop(c)), LowByte(Drop(Drop(c))), LowByte(Drop(Drop(Drop(c)))));
  }

  lemma CrcSnoc(c: word, s: seq<byte>, b: byte)
    ensures CrcOf(c, s + [b]) == CrcByte(CrcOf(c, s), b)
  {
    hide CrcByte;
    assert (s + [b])[..|s + [b]| - 1] == s;
  }

  lemma FourBytes(c: word, b0: byte, b1: byte, b2: byte, b3: byte)
    ensures CrcOf(c, [b0, b1, b2, b3]) == CrcByte(CrcByte(CrcByte(CrcByte(c, b0), b1), b2), b3)
  {
    hide CrcByte;
    assert [b0, b1, b2, b3] == [b0, b1, b2] + [b3] && [b0, b1, b2] == [b0, b1] + [b2];
    assert [b0, b1] == [b0] + [b1] && [b0] == [] + [b0];
    CrcSnoc(c, [b0, b1, b2], b3);
    CrcSnoc(c, [b0, b1], b2);
    CrcSnoc(c, [b0], b1);
    CrcSnoc(c, [], b0);
    hide CrcOf;
  }

  /** A faithfully written segment passes the check of its reader. */
  lemma ChecksumPasses(seed: word, data: seq<byte>)
    ensures CrcOf(seed, data + Le(CrcOf(seed, data))) == 0
  {
    CrcConcat(seed, data, Le(CrcOf(seed, data)));
    OwnChecksum(CrcOf(seed, data));
  }
}
