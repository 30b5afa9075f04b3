/**
 Laws of the checksum itself (crc32_ieee, src/codec/integrity.cpp): it can be computed in pieces, a
 range followed by its own checksum always has the same checksum, whose value is published.
 */
module CrcLaws {
  import opened Bits
  import opened Crc

  // ---- In pieces ----

  lemma NotNot(w: Word)
    ensures Not(Not(w)) == w
  {
  }

  lemma {:induction false} RegisterAppend(register: Word, a: Bytes, b: Bytes)
    ensures SerialRegister(register, a + b) == SerialRegister(SerialRegister(register, a), b)
    decreases |a|
  {
    if a == [] {
      assert a + b == b;
    } else {
      assert (a + b)[0] == a[0] && (a + b)[1..] == a[1..] + b;
      RegisterAppend(Serial(register, ToBits(a[0], 8)), a[1..], b);
    }
  }

  /** Nothing leaves the seed as it is, and the checksum of one part seeds that of the next. */
  lemma Crc32Chains(a: Bytes, b: Bytes, seed: Word)
    ensures Crc32([], seed) == seed
    ensures Crc32(a + b, seed) == Crc32(b, Crc32(a, seed))
  {
    NotNot(seed);
    RegisterAppend(Not(seed), a, b);
    NotNot(SerialRegister(Not(seed), a));
  }

  // ---- The residue ----

  lemma {:induction false} SerialAppend(register: Word, a: seq<bool>, b: seq<bool>)
    ensures Serial(register, a + b) == Serial(Serial(register, a), b)
    decreases |a|
  {
    if a == [] {
      assert a + b == b;
    } else {
      assert (a + b)[0] == a[0] && (a + b)[1..] == a[1..] + b;
      SerialAppend(Shift(register[0 := register[0] != a[0]]), a[1..], b);
    }
  }

  /** A word as its bytes, the least significant first. */
  function WordBytes(w: Word): (bytes: Bytes)
    ensures |bytes| == 4
  {
    ByteIndex(w[0..8]);
    ByteIndex(w[8..16]);
    ByteIndex(w[16..24]);
    ByteIndex(w[24..32]);
    [FromBits(w[0..8]), FromBits(w[8..16]), FromBits(w[16..24]), FromBits(w[24..32])]
  }

  lemma RegisterOne(register: Word, b: Byte)
    ensures SerialRegister(register, [b]) == Serial(register, ToBits(b, 8))
  {
    assert [b][1..] == [];
  }

  /** Feeding the bytes of a word is feeding its bits. */
  lemma RegisterWord(register: Word, w: Word)
    ensures SerialRegister(register, WordBytes(w)) == Serial(register, w)
  {
    var a, b, c, d := w[0..8], w[8..16], w[16..24], w[24..32];
    assert w == a + (b + (c + (d + [])));
    RegisterBytes(register, a, b, c, d, WordBytes(w));
  }

  lemma RegisterBytes(register: Word, a: seq<bool>, b: seq<bool>, c: seq<bool>, d: seq<bool>, bytes: Bytes)
    requires |a| == |b| == |c| == |d| == 8
    requires |bytes| == 4 && bytes[0] == FromBits(a) && bytes[1] == FromBits(b)
    requires bytes[2] == FromBits(c) && bytes[3] == FromBits(d)
    ensures SerialRegister(register, bytes) == Serial(register, a + (b + (c + (d + []))))
  {
    var one := FeedByte(register, a, bytes[1..], b + (c + (d + [])));
    var two := FeedByte(one, b, bytes[2..], c + (d + []));
    var three := FeedByte(two, c, bytes[3..], d + []);
    var four := FeedByte(three, d, bytes[4..], []);
    assert bytes == [bytes[0]] + bytes[1..] && bytes[1..] == [bytes[1]] + bytes[2..];
    assert bytes[2..] == [bytes[2]] + bytes[3..] && bytes[3..] == [bytes[3]] + bytes[4..] && bytes[4..] == [];
  }

  lemma FeedByte(register: Word, bits: seq<bool>, rest: Bytes, more: seq<bool>) returns (next: Word)
    requires |bits| == 8
    ensures FromBits(bits) < 256 && next == Serial(register, bits)
    ensures SerialRegister(register, [FromBits(bits)] + rest) == SerialRegister(next, rest)
    ensures Serial(register, bits + more) == Serial(next, more)
  {
    ByteIndex(bits);
    ToFromBits(bits);
    RegisterAppend(register, [FromBits(bits)], rest);
    RegisterOne(register, FromBits(bits));
    SerialAppend(register, bits, more);
    next := Serial(register, bits);
  }

  const ONES: Word := seq(32, _ => true)

  /** A register that is fed its own complement keeps nothing of what it held. */
  lemma OwnComplement(register: Word)
    ensures Serial(register, Not(register)) == Shifts(ONES, 32)
  {
    var w := Not(register);
    SerialIsShifts(register, w);
    assert Xor(register, Pad(w)) == ONES;
  }

  /** Any range followed by its own checksum has the checksum of four zero bytes. */
  lemma ResidueConstant(data: Bytes)
    ensures Crc32(data + WordBytes(Crc32(data))) == Crc32([0, 0, 0, 0])
  {
    var start := Not(Zeros(32));
    var register := SerialRegister(start, data);
    RegisterAppend(start, data, WordBytes(Not(register)));
    RegisterWord(register, Not(register));
    OwnComplement(register);
    FourZeros(start);
  }

  lemma FourZeros(start: Word)
    requires start == Not(Zeros(32))
    ensures SerialRegister(start, [0, 0, 0, 0]) == Shifts(ONES, 32)
  {
    var none: Word := Zeros(32);
    ZeroBytes(none);
    RegisterWord(start, none);
    SerialIsShifts(start, none);
    assert Xor(start, Pad(none)) == ONES;
  }

  lemma ZeroBytes(none: Word)
    requires none == Zeros(32)
    ensures WordBytes(none) == [0, 0, 0, 0]
  {
    assert none[0..8] == Zeros(8) && none[8..16] == Zeros(8) && none[16..24] == Zeros(8) && none[24..32] == Zeros(8);
    ZeroBits(8);
  }

  lemma {:induction false} ZeroBits(n: nat)
    ensures FromBits(Zeros(n)) == 0
  {
    if n > 0 {
      assert Zeros(n)[1..] == Zeros(n - 1);
      ZeroBits(n - 1);
    }
  }

  lemma OnesFed(start: Word)
    requires start == ONES
    ensures Serial(start, ONES) == Zeros(32)
  {
    var none: Word := Zeros(32);
    SerialIsShifts(start, ONES);
    assert Xor(start, Pad(ONES)) == none;
    assert none[..32] == none;
    ShiftsFall(none, 32);
    assert Right(none, 32) == none;
  }

  /** Four bytes of ones clear the register: their checksum is all ones, and what follows starts from zero. */
  lemma OnesClear(data: Bytes)
    ensures Crc32([0xFF, 0xFF, 0xFF, 0xFF]) == ONES
    ensures Crc32([0xFF, 0xFF, 0xFF, 0xFF] + data) == Crc32(data, ONES)
  {
    var start := Not(Zeros(32));
    OnesBytes(ONES);
    RegisterWord(start, ONES);
    assert start == ONES;
    OnesFed(start);
    Crc32Chains([0xFF, 0xFF, 0xFF, 0xFF], data, Zeros(32));
  }

  lemma OnesBytes(ones: Word)
    requires ones == ONES
    ensures WordBytes(ones) == [0xFF, 0xFF, 0xFF, 0xFF]
  {
    var byte := seq(8, _ => true);
    assert ones[0..8] == byte && ones[8..16] == byte && ones[16..24] == byte && ones[24..32] == byte;
    OneBits(8);
    assert Pow2(8) == 256;
  }

  lemma {:induction false} OneBits(n: nat)
    ensures FromBits(seq(n, _ => true)) == Pow2(n) - 1
  {
    var ones := seq(n, _ => true);
    if n > 0 {
      assert ones[1..] == seq(n - 1, _ => true);
      OneBits(n - 1);
    }
  }

  // ---- The value of the residue ----

  /** Four bits of the register, as a hexadecimal digit. */
  predicate Digit(w: Word, k: nat, digit: nat)
    requires k <= 28
  {
    && (w[k + 3] <==> digit >= 8)
    && (w[k + 2] <==> digit % 8 >= 4)
    && (w[k + 1] <==> digit % 4 >= 2)
    && (w[k] <==> digit % 2 == 1)
  }

  /** The register as eight hexadecimal digits, the most significant first. */
  predicate Hex(w: Word, a: nat, b: nat, c: nat, d: nat, e: nat, f: nat, g: nat, h: nat) {
    && Digit(w, 28, a) && Digit(w, 24, b) && Digit(w, 20, c) && Digit(w, 16, d)
    && Digit(w, 12, e) && Digit(w, 8, f) && Digit(w, 4, g) && Digit(w, 0, h)
  }

  lemma ShiftBits(w: Word)
    ensures forall i :: 0 <= i < 32 ==> Shift(w)[i] == ((i < 31 && w[i + 1]) != (w[0] && Generator(31 - i)))
  {
  }

  lemma FourShifts(w: Word)
    ensures Shifts(w, 4) == Shift(Shift(Shift(Shift(w))))
  {
    assert Shifts(w, 4) == Shifts(Shift(w), 3) == Shifts(Shift(Shift(w)), 2);
  }

  lemma Shifted4(w: Word)
    requires Hex(w, 0xF, 0xF, 0xF, 0xF, 0xF, 0xF, 0xF, 0xF)
    ensures Hex(Shifts(w, 4), 0xB, 0x2, 0x4, 0x2, 0x0, 0xD, 0xE, 0x3)
  {
    var x, y, z := Shift(w), Shift(Shift(w)), Shift(Shift(Shift(w)));
    ShiftBits(w);
    assert Hex(x, 0x9, 0x2, 0x4, 0x7, 0x7, 0xC, 0xD, 0xF);
    ShiftBits(x);
    assert Hex(y, 0xA, 0x4, 0x9, 0xB, 0x3, 0xD, 0x4, 0xF);
    ShiftBits(y);
    assert Hex(z, 0xB, 0xF, 0xF, 0x5, 0x1, 0xD, 0x8, 0x7);
    ShiftBits(z);
    FourShifts(w);
  }

  lemma Shifted8(w: Word)
    requires Hex(w, 0xB, 0x2, 0x4, 0x2, 0x0, 0xD, 0xE, 0x3)
    ensures Hex(Shifts(w, 4), 0x2, 0xD, 0xF, 0xD, 0x1, 0x0, 0x7, 0x2)
  {
    var x, y, z := Shift(w), Shift(Shift(w)), Shift(Shift(Shift(w)));
    ShiftBits(w);
    assert Hex(x, 0xB, 0x4, 0x9, 0x9, 0x8, 0x5, 0xD, 0x1);
    ShiftBits(x);
    assert Hex(y, 0xB, 0x7, 0xF, 0x4, 0x4, 0x1, 0xC, 0x8);
    ShiftBits(y);
    assert Hex(z, 0x5, 0xB, 0xF, 0xA, 0x2, 0x0, 0xE, 0x4);
    ShiftBits(z);
    FourShifts(w);
  }

  lemma Shifted12(w: Word)
    requires Hex(w, 0x2, 0xD, 0xF, 0xD, 0x1, 0x0, 0x7, 0x2)
    ensures Hex(Shifts(w, 4), 0x3, 0x9, 0xB, 0x1, 0xF, 0x1, 0xC, 0xF)
  {
    var x, y, z := Shift(w), Shift(Shift(w)), Shift(Shift(Shift(w)));
    ShiftBits(w);
    assert Hex(x, 0x1, 0x6, 0xF, 0xE, 0x8, 0x8, 0x3, 0x9);
    ShiftBits(x);
    assert Hex(y, 0xE, 0x6, 0xC, 0x7, 0xC, 0x7, 0x3, 0xC);
    ShiftBits(y);
    assert Hex(z, 0x7, 0x3, 0x6, 0x3, 0xE, 0x3, 0x9, 0xE);
    ShiftBits(z);
    FourShifts(w);
  }

  lemma Shifted16(w: Word)
    requires Hex(w, 0x3, 0x9, 0xB, 0x1, 0xF, 0x1, 0xC, 0xF)
    ensures Hex(Shifts(w, 4), 0xB, 0xE, 0x2, 0x6, 0xE, 0xD, 0x0, 0x0)
  {
    var x, y, z := Shift(w), Shift(Shift(w)), Shift(Shift(Shift(w)));
    ShiftBits(w);
    assert Hex(x, 0xF, 0x1, 0x6, 0x0, 0x7, 0xB, 0xC, 0x7);
    ShiftBits(x);
    assert Hex(y, 0x9, 0x5, 0x0, 0x8, 0xB, 0xE, 0xC, 0x3);
    ShiftBits(y);
    assert Hex(z, 0xA, 0x7, 0x3, 0xC, 0xD, 0xC, 0x4, 0x1);
    ShiftBits(z);
    FourShifts(w);
  }

  lemma Shifted20(w: Word)
    requires Hex(w, 0xB, 0xE, 0x2, 0x6, 0xE, 0xD, 0x0, 0x0)
    ensures Hex(Shifts(w, 4), 0x0, 0xB, 0xE, 0x2, 0x6, 0xE, 0xD, 0x0)
  {
    var x, y, z := Shift(w), Shift(Shift(w)), Shift(Shift(Shift(w)));
    ShiftBits(w);
    assert Hex(x, 0x5, 0xF, 0x1, 0x3, 0x7, 0x6, 0x8, 0x0);
    ShiftBits(x);
    assert Hex(y, 0x2, 0xF, 0x8, 0x9, 0xB, 0xB, 0x4, 0x0);
    ShiftBits(y);
    assert Hex(z, 0x1, 0x7, 0xC, 0x4, 0xD, 0xD, 0xA, 0x0);
    ShiftBits(z);
    FourShifts(w);
  }

  lemma Shifted24(w: Word)
    requires Hex(w, 0x0, 0xB, 0xE, 0x2, 0x6, 0xE, 0xD, 0x0)
    ensures Hex(Shifts(w, 4), 0x0, 0x0, 0xB, 0xE, 0x2, 0x6, 0xE, 0xD)
  {
    var x, y, z := Shift(w), Shift(Shift(w)), Shift(Shift(Shift(w)));
    ShiftBits(w);
    assert Hex(x, 0x0, 0x5, 0xF, 0x1, 0x3, 0x7, 0x6, 0x8);
    ShiftBits(x);
    assert Hex(y, 0x0, 0x2, 0xF, 0x8, 0x9, 0xB, 0xB, 0x4);
    ShiftBits(y);
    assert Hex(z, 0x0, 0x1, 0x7, 0xC, 0x4, 0xD, 0xD, 0xA);
    ShiftBits(z);
    FourShifts(w);
  }

  lemma Shifted28(w: Word)
    requires Hex(w, 0x0, 0x0, 0xB, 0xE, 0x2, 0x6, 0xE, 0xD)
    ensures Hex(Shifts(w, 4), 0x8, 0x6, 0xD, 0x8, 0x3, 0x0, 0xB, 0xA)
  {
    var x, y, z := Shift(w), Shift(Shift(w)), Shift(Shift(Shift(w)));
    ShiftBits(w);
    assert Hex(x, 0xE, 0xD, 0xE, 0x7, 0x9, 0x0, 0x5, 0x6);
    ShiftBits(x);
    assert Hex(y, 0x7, 0x6, 0xF, 0x3, 0xC, 0x8, 0x2, 0xB);
    ShiftBits(y);
    assert Hex(z, 0xD, 0x6, 0xC, 0x1, 0x6, 0x7, 0x3, 0x5);
    ShiftBits(z);
    FourShifts(w);
  }

  lemma Shifted32(w: Word)
    requires Hex(w, 0x8, 0x6, 0xD, 0x8, 0x3, 0x0, 0xB, 0xA)
    ensures Hex(Shifts(w, 4), 0xD, 0xE, 0xB, 0xB, 0x2, 0x0, 0xE, 0x3)
  {
    var x, y, z := Shift(w), Shift(Shift(w)), Shift(Shift(Shift(w)));
    ShiftBits(w);
    assert Hex(x, 0x4, 0x3, 0x6, 0xC, 0x1, 0x8, 0x5, 0xD);
    ShiftBits(x);
    assert Hex(y, 0xC, 0xC, 0x0, 0xE, 0x8, 0xF, 0x0, 0xE);
    ShiftBits(y);
    assert Hex(z, 0x6, 0x6, 0x0, 0x7, 0x4, 0x7, 0x8, 0x7);
    ShiftBits(z);
    FourShifts(w);
  }

  lemma {:induction false} ShiftsAdd(w: Word, m: nat, n: nat)
    ensures Shifts(w, m + n) == Shifts(Shifts(w, m), n)
    decreases m
  {
    if m > 0 {
      ShiftsAdd(Shift(w), m - 1, n);
    }
  }

  lemma OnesShifted()
    ensures Hex(Shifts(ONES, 32), 0xD, 0xE, 0xB, 0xB, 0x2, 0x0, 0xE, 0x3)
  {
    var w := ONES;
    Shifted4(w);
    var a := Shifts(w, 4);
    Shifted8(a);
    var b := Shifts(a, 4);
    Shifted12(b);
    var c := Shifts(b, 4);
    Shifted16(c);
    var d := Shifts(c, 4);
    Shifted20(d);
    var e := Shifts(d, 4);
    Shifted24(e);
    var f := Shifts(e, 4);
    Shifted28(f);
    var g := Shifts(f, 4);
    Shifted32(g);
    ShiftsAdd(w, 4, 28);
    ShiftsAdd(a, 4, 24);
    ShiftsAdd(b, 4, 20);
    ShiftsAdd(c, 4, 16);
    ShiftsAdd(d, 4, 12);
    ShiftsAdd(e, 4, 8);
    ShiftsAdd(f, 4, 4);
  }

  lemma HexValue(w: Word, k: nat, digit: nat, rest: nat)
    requires k <= 28 && digit < 16 && Digit(w, k, digit) && FromBits(w[k + 4..]) == rest
    ensures FromBits(w[k..]) == digit + 16 * rest
  {
    ConsumeNibble(w, k, rest);
  }

  lemma HexHigh(w: Word, a: nat, b: nat, c: nat, d: nat)
    requires a < 16 && b < 16 && c < 16 && d < 16
    requires Digit(w, 28, a) && Digit(w, 24, b) && Digit(w, 20, c) && Digit(w, 16, d)
    ensures FromBits(w[16..]) == d + 16 * (c + 16 * (b + 16 * a))
  {
    assert w[32..] == [];
    HexValue(w, 28, a, 0);
    HexValue(w, 24, b, a);
    HexValue(w, 20, c, b + 16 * a);
    HexValue(w, 16, d, c + 16 * (b + 16 * a));
  }

  lemma HexLow(w: Word, e: nat, f: nat, g: nat, h: nat, rest: nat)
    requires e < 16 && f < 16 && g < 16 && h < 16 && FromBits(w[16..]) == rest
    requires Digit(w, 12, e) && Digit(w, 8, f) && Digit(w, 4, g) && Digit(w, 0, h)
    ensures FromBits(w) == h + 16 * (g + 16 * (f + 16 * (e + 16 * rest)))
  {
    assert w[0..] == w;
    HexValue(w, 12, e, rest);
    HexValue(w, 8, f, e + 16 * rest);
    HexValue(w, 4, g, f + 16 * (e + 16 * rest));
    HexValue(w, 0, h, g + 16 * (f + 16 * (e + 16 * rest)));
  }

  lemma NotHex(w: Word)
    requires Hex(w, 0xD, 0xE, 0xB, 0xB, 0x2, 0x0, 0xE, 0x3)
    ensures Hex(Not(w), 0x2, 0x1, 0x4, 0x4, 0xD, 0xF, 0x1, 0xC)
  {
  }

  lemma ResidueOf(r: Word)
    requires r == Not(Shifts(ONES, 32))
    ensures FromBits(r) == 0x2144DF1C
  {
    OnesShifted();
    NotHex(Shifts(ONES, 32));
    HexHigh(r, 0x2, 0x1, 0x4, 0x4);
    HexLow(r, 0xD, 0xF, 0x1, 0xC, 0x2144);
  }

  // ---- The checksum as it is stored ----

  lemma FromNibble(a: seq<bool>, rest: seq<bool>)
    requires |a| == 4
    ensures FromBits(a + rest) == FromBits(a) + 16 * FromBits(rest)
  {
    var nibble := [a[0], a[1], a[2], a[3]];
    assert a == nibble && nibble + [] == nibble;
    PrependNibble(a[0], a[1], a[2], a[3], rest);
    PrependNibble(a[0], a[1], a[2], a[3], []);
  }

  lemma FromByte(a: seq<bool>, rest: seq<bool>)
    requires |a| == 8
    ensures FromBits(a + rest) == FromBits(a) + 256 * FromBits(rest)
  {
    var low, high := a[..4], a[4..];
    assert a == low + high && a + rest == low + (high + rest);
    FromNibble(low, high + rest);
    FromNibble(high, rest);
    FromNibble(low, high);
  }

  lemma LoadFour(bytes: Bytes, a: nat, b: nat, c: nat, d: nat)
    requires |bytes| == 4 && bytes[0] == a && bytes[1] == b && bytes[2] == c && bytes[3] == d
    ensures LoadLE(bytes) == a + 256 * (b + 256 * (c + 256 * d))
  {
    assert bytes[1..][1..] == bytes[2..] && bytes[2..][1..] == bytes[3..] && bytes[3..][1..] == [];
    assert LoadLE(bytes[3..]) == d;
    assert LoadLE(bytes[2..]) == c + 256 * d;
  }

  lemma FromFour(a: seq<bool>, b: seq<bool>, c: seq<bool>, d: seq<bool>)
    requires |a| == |b| == |c| == |d| == 8
    ensures FromBits(a + (b + (c + d)))
         == FromBits(a) + 256 * (FromBits(b) + 256 * (FromBits(c) + 256 * FromBits(d)))
  {
    FromByte(a, b + (c + d));
    FromByte(b, c + d);
    FromByte(c, d);
  }

  /** The bytes of a word are its little-endian encoding. */
  lemma WordStored(w: Word)
    ensures WordBytes(w) == StoreLE(FromBits(w), 4)
  {
    var a, b, c, d := w[0..8], w[8..16], w[16..24], w[24..32];
    assert w == a + (b + (c + d));
    FromFour(a, b, c, d);
    LoadFour(WordBytes(w), FromBits(a), FromBits(b), FromBits(c), FromBits(d));
    StoreLoad(WordBytes(w));
  }

  /**
   Any range followed by its own stored checksum has one published checksum, whatever the range. It
   depends on both complements: without them it would be zero.
   */
  lemma Residue(data: Bytes)
    ensures FromBits(Crc32(data + StoreLE(FromBits(Crc32(data)), 4))) == 0x2144DF1C
  {
    WordStored(Crc32(data));
    ResidueConstant(data);
    FourZeros(Not(Zeros(32)));
    ResidueOf(Not(Shifts(ONES, 32)));
  }
}
