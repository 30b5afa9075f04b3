/**
 CRC-32 as the integrity layer computes it (src/codec/integrity.cpp), against the bit-serial
 definition of the IEEE 802.3 frame check sequence (section 3.2.9), reflected, polynomial
 0xEDB88320. A 32-bit register is a sequence of 32 bits, least significant first.
 */
module Crc {
  import opened Bits

  type Word = w: seq<bool> | |w| == 32 witness seq(32, _ => false)

  /** Whether the standard's generator polynomial has a term of this exponent, below 32. */
  predicate Generator(exponent: nat) {
    exponent in {0, 1, 2, 4, 5, 7, 8, 10, 11, 12, 16, 22, 23, 26}
  }

  /** The generator in reflected order: bit i holds the coefficient of exponent 31 - i. */
  function Polynomial(): (w: Word) {
    seq(32, i requires 0 <= i < 32 => Generator(31 - i))
  }

  function Zeros(n: nat): (bits: seq<bool>)
    ensures |bits| == n
  {
    seq(n, _ => false)
  }

  function Xor(a: Word, b: Word): (w: Word) {
    seq(32, i requires 0 <= i < 32 => a[i] != b[i])
  }

  function Not(a: Word): (w: Word) {
    seq(32, i requires 0 <= i < 32 => !a[i])
  }

  /** A right shift by n positions. */
  function Right(a: Word, n: nat): (w: Word)
    requires n <= 32
  {
    a[n..] + Zeros(n)
  }

  /** A short bit string as a word. */
  function Pad(bits: seq<bool>): (w: Word)
    requires |bits| <= 32
  {
    bits + Zeros(32 - |bits|)
  }

  // ---- The bit-serial reference ----

  /** One shift of the reflected register. */
  function Shift(register: Word): (shifted: Word) {
    if register[0] then Xor(Polynomial(), Right(register, 1)) else Right(register, 1)
  }

  /** Feeds bits one at a time, least significant first, one register shift per bit. */
  function Serial(register: Word, bits: seq<bool>): (result: Word)
    decreases |bits|
  {
    if bits == [] then register
    else Serial(Shift(register[0 := register[0] != bits[0]]), bits[1..])
  }

  function SerialRegister(register: Word, data: Bytes): (result: Word)
    decreases |data|
  {
    if data == [] then register
    else SerialRegister(Serial(register, ToBits(data[0], 8)), data[1..])
  }

  /** CRC-32 of a byte sequence: complemented register in, complemented register out. */
  function Crc32(data: Bytes, seed: Word := Zeros(32)): (crc: Word) {
    Not(SerialRegister(Not(seed), data))
  }

  // ---- The polynomial as the source writes it ----

  lemma PrependBit(b: bool, rest: seq<bool>)
    ensures FromBits([b] + rest) == (if b then 1 else 0) + 2 * FromBits(rest)
  {
    assert ([b] + rest)[1..] == rest;
  }

  lemma PrependNibble(b0: bool, b1: bool, b2: bool, b3: bool, rest: seq<bool>)
    ensures FromBits([b0, b1, b2, b3] + rest)
         == (if b0 then 1 else 0) + (if b1 then 2 else 0) + (if b2 then 4 else 0) + (if b3 then 8 else 0) +
           16 * FromBits(rest)
  {
    assert [b0, b1, b2, b3] + rest == [b0] + ([b1] + ([b2] + ([b3] + rest)));
    PrependBit(b3, rest);
    PrependBit(b2, [b3] + rest);
    PrependBit(b1, [b2] + ([b3] + rest));
    PrependBit(b0, [b1] + ([b2] + ([b3] + rest)));
  }

  lemma ConsumeNibble(p: Word, k: nat, rest: nat)
    requires k <= 28 && FromBits(p[k + 4..]) == rest
    ensures FromBits(p[k..])
         == (if p[k] then 1 else 0) + (if p[k + 1] then 2 else 0) + (if p[k + 2] then 4 else 0) +
           (if p[k + 3] then 8 else 0) + 16 * rest
  {
    assert p[k..] == [p[k], p[k + 1], p[k + 2], p[k + 3]] + p[k + 4..];
    PrependNibble(p[k], p[k + 1], p[k + 2], p[k + 3], p[k + 4..]);
  }

  lemma PolynomialHigh(p: Word)
    requires forall i :: 0 <= i < 32 ==> p[i] == Generator(31 - i)
    ensures FromBits(p[16..]) == 0xEDB8
  {
    assert p[32..] == [];
    assert !p[28] && p[29] && p[30] && p[31];
    ConsumeNibble(p, 28, 0x0);
    assert p[24] && !p[25] && p[26] && p[27];
    ConsumeNibble(p, 24, 0xe);
    assert p[20] && p[21] && !p[22] && p[23];
    ConsumeNibble(p, 20, 0xed);
    assert !p[16] && !p[17] && !p[18] && p[19];
    ConsumeNibble(p, 16, 0xedb);
  }

  lemma PolynomialLow(p: Word)
    requires forall i :: 0 <= i < 32 ==> p[i] == Generator(31 - i)
    requires FromBits(p[16..]) == 0xEDB8
    ensures FromBits(p[0..]) == 0xEDB88320
  {
    assert !p[12] && !p[13] && !p[14] && p[15];
    ConsumeNibble(p, 12, 0xedb8);
    assert p[8] && p[9] && !p[10] && !p[11];
    ConsumeNibble(p, 8, 0xedb88);
    assert !p[4] && p[5] && !p[6] && !p[7];
    ConsumeNibble(p, 4, 0xedb883);
    assert !p[0] && !p[1] && !p[2] && !p[3];
    ConsumeNibble(p, 0, 0xedb8832);
  }

  /** The reflected generator is the constant the table is built from. */
  lemma PolynomialValue()
    ensures FromBits(Polynomial()) == 0xEDB88320
  {
    PolynomialHigh(Polynomial());
    PolynomialLow(Polynomial());
    assert Polynomial()[0..] == Polynomial();
  }

  // ---- Shifting a whole byte at once ----

  function Shifts(register: Word, count: nat): (result: Word)
    decreases count
  {
    if count == 0 then register else Shifts(Shift(register), count - 1)
  }

  /** Shifting is linear over exclusive or. */
  lemma ShiftLinear(x: Word, y: Word)
    ensures Shift(Xor(x, y)) == Xor(Shift(x), Shift(y))
  {
    var z := Xor(x, y);
    forall i | 0 <= i < 32
      ensures Shift(z)[i] == Xor(Shift(x), Shift(y))[i]
    {
    }
  }

  lemma {:induction false} ShiftsLinear(x: Word, y: Word, count: nat)
    ensures Shifts(Xor(x, y), count) == Xor(Shifts(x, count), Shifts(y, count))
    decreases count
  {
    if count > 0 {
      ShiftLinear(x, y);
      ShiftsLinear(Shift(x), Shift(y), count - 1);
    }
  }

  /** The polynomial's top bit records the bit shifted out, so no information is lost. */
  lemma ShiftInjective(x: Word, y: Word)
    requires Shift(x) == Shift(y)
    ensures x == y
  {
    assert Shift(x)[31] == x[0] && Shift(y)[31] == y[0];
    forall i | 0 < i < 32
      ensures x[i] == y[i]
    {
      assert Right(x, 1)[i - 1] == x[i] && Right(y, 1)[i - 1] == y[i];
      assert Shift(x)[i - 1] == Shift(y)[i - 1];
    }
  }

  lemma {:induction false} ShiftsInjective(x: Word, y: Word, count: nat)
    requires Shifts(x, count) == Shifts(y, count)
    ensures x == y
    decreases count
  {
    if count > 0 {
      ShiftsInjective(Shift(x), Shift(y), count - 1);
      ShiftInjective(x, y);
    }
  }

  /** Zero bits fall out of the register without touching the polynomial. */
  lemma {:induction false} ShiftsFall(x: Word, count: nat)
    requires count <= 32 && x[..count] == Zeros(count)
    ensures Shifts(x, count) == Right(x, count)
    decreases count
  {
    if count > 0 {
      assert !x[0] by { assert x[..count][0] == Zeros(count)[0]; }
      var y := Right(x, 1);
      forall i | 0 <= i < count - 1
        ensures !y[i]
      {
        assert y[i] == x[i + 1] == x[..count][i + 1] == Zeros(count)[i + 1];
      }
      assert y[..count - 1] == Zeros(count - 1);
      ShiftsFall(y, count - 1);
      assert Right(y, count - 1) == Right(x, count);
    }
  }

  /** Mixing bits in first and then shifting them all out is the bit-serial update. */
  lemma {:induction false} SerialIsShifts(register: Word, bits: seq<bool>)
    requires |bits| <= 32
    ensures Serial(register, bits) == Shifts(Xor(register, Pad(bits)), |bits|)
    decreases |bits|
  {
    if bits == [] {
      assert Xor(register, Pad(bits)) == register;
    } else {
      var mixed := register[0 := register[0] != bits[0]];
      var rest: Word := [false] + Pad(bits[1..])[..31];
      assert Xor(register, Pad(bits)) == Xor(mixed, rest);
      ShiftLinear(mixed, rest);
      assert Shift(rest) == Pad(bits[1..]);
      SerialIsShifts(Shift(mixed), bits[1..]);
    }
  }

  // ---- The table ----

  /** Entry i of the table is byte i shifted through the register. */
  function TableEntry(index: Byte): (entry: Word) {
    Shifts(Pad(ToBits(index, 8)), 8)
  }

  lemma SplitLow(mixed: Word, low: Word, high: Word)
    requires low == Pad(mixed[..8]) && high == Zeros(8) + mixed[8..]
    ensures mixed == Xor(low, high) && Right(high, 8) == Right(mixed, 8) && high[..8] == Zeros(8)
  {
  }

  lemma ByteStep(register: Word, bits: seq<bool>, mixed: Word)
    requires |bits| == 8 && mixed == Xor(register, Pad(bits))
    ensures Xor(Shifts(Pad(mixed[..8]), 8), Right(register, 8)) == Serial(register, bits)
  {
    var low: Word, high: Word := Pad(mixed[..8]), Zeros(8) + mixed[8..];
    SerialIsShifts(register, bits);
    assert Right(mixed, 8) == Right(register, 8);
    SplitLow(mixed, low, high);
    ShiftsLinear(low, high, 8);
    ShiftsFall(high, 8);
  }

  /** One table lookup replaces eight register shifts. */
  lemma TableStep(register: Word, b: Byte, index: Byte)
    requires index == FromBits(Xor(register, Pad(ToBits(b, 8)))[..8])
    ensures Xor(TableEntry(index), Right(register, 8)) == Serial(register, ToBits(b, 8))
  {
    var mixed := Xor(register, Pad(ToBits(b, 8)));
    ByteStep(register, ToBits(b, 8), mixed);
    ToFromBits(mixed[..8]);
  }

  lemma ByteIndex(bits: seq<bool>)
    requires |bits| == 8
    ensures FromBits(bits) < 256
  {
    FromBitsBound(bits);
    assert Pow2(8) == 256;
  }

  method MakeEntry(index: Byte) returns (value: Word)
    ensures value == TableEntry(index)
  {
    value := Pad(ToBits(index, 8));
    for bit := 0 to 8
      invariant Shifts(value, 8 - bit) == TableEntry(index)
    {
      value := if value[0] then Xor(Polynomial(), Right(value, 1)) else Right(value, 1);
    }
  }

  /** Fills the 256-entry table with eight shifts per entry. */
  method MakeTable() returns (table: array<Word>)
    ensures fresh(table) && table.Length == 256
    ensures forall i :: 0 <= i < 256 ==> table[i] == TableEntry(i)
  {
    table := new Word[256](_ => Zeros(32));
    for index := 0 to 256
      invariant forall i :: 0 <= i < index ==> table[i] == TableEntry(i)
    {
      table[index] := MakeEntry(index);
    }
  }

  /** The table-driven loop computes the bit-serial CRC. */
  method Crc32Table(table: array<Word>, data: Bytes, seed: Word) returns (crc: Word)
    requires table.Length == 256 && forall i :: 0 <= i < 256 ==> table[i] == TableEntry(i)
    ensures crc == Crc32(data, seed)
  {
    crc := Not(seed);
    for i := 0 to |data|
      invariant SerialRegister(crc, data[i..]) == SerialRegister(Not(seed), data)
    {
      assert data[i..][0] == data[i] && data[i..][1..] == data[i + 1..];
      var low := Xor(crc, Pad(ToBits(data[i], 8)))[..8];
      ByteIndex(low);
      TableStep(crc, data[i], FromBits(low));
      crc := Xor(table[FromBits(low)], Right(crc, 8));
    }
    crc := Not(crc);
  }

  // ---- Detection ----

  lemma XorCancels(x: Word, y: Word, p: Word, q: Word)
    requires Xor(x, p) == Xor(y, q)
    ensures x == y <==> p == q
  {
    forall i | 0 <= i < 32
      ensures (x[i] != p[i]) == (y[i] != q[i])
    {
      assert Xor(x, p)[i] == Xor(y, q)[i];
    }
  }

  lemma PadInjective(a: Byte, b: Byte)
    requires Pad(ToBits(a, 8)) == Pad(ToBits(b, 8))
    ensures a == b
  {
    assert Pad(ToBits(a, 8))[..8] == ToBits(a, 8) && Pad(ToBits(b, 8))[..8] == ToBits(b, 8);
    assert Pow2(8) == 256;
    ToBitsInjective(a, b, 8);
  }

  /** A byte update loses nothing of the register and nothing of the byte. */
  lemma UpdateInjective(x: Word, y: Word, a: Byte, b: Byte)
    requires Serial(x, ToBits(a, 8)) == Serial(y, ToBits(b, 8))
    ensures x == y <==> a == b
  {
    var p, q: Word := Pad(ToBits(a, 8)), Pad(ToBits(b, 8));
    SerialIsShifts(x, ToBits(a, 8));
    SerialIsShifts(y, ToBits(b, 8));
    ShiftsInjective(Xor(x, p), Xor(y, q), 8);
    XorCancels(x, y, p, q);
    if p == q {
      PadInjective(a, b);
    }
  }

  /** Registers that differ stay different, whatever follows. */
  lemma {:induction false} RegisterInjective(x: Word, y: Word, data: Bytes)
    requires x != y
    ensures SerialRegister(x, data) != SerialRegister(y, data)
    decreases |data|
  {
    if data != [] {
      var bits := ToBits(data[0], 8);
      if Serial(x, bits) == Serial(y, bits) {
        UpdateInjective(x, y, data[0], data[0]);
      }
      RegisterInjective(Serial(x, bits), Serial(y, bits), data[1..]);
    }
  }

  lemma {:induction false} RegisterDetects(register: Word, data: Bytes, i: nat, b: Byte)
    requires i < |data| && b != data[i]
    ensures SerialRegister(register, data) != SerialRegister(register, data[i := b])
    decreases |data|
  {
    var changed := data[i := b];
    if i == 0 {
      assert changed[1..] == data[1..];
      var x, y := Serial(register, ToBits(data[0], 8)), Serial(register, ToBits(b, 8));
      if x == y {
        UpdateInjective(register, register, data[0], b);
      }
      RegisterInjective(x, y, data[1..]);
    } else {
      assert changed[1..] == data[1..][i - 1 := b];
      RegisterDetects(Serial(register, ToBits(data[0], 8)), data[1..], i - 1, b);
    }
  }

  /** Changing any one byte of a sequence of any length changes its CRC. */
  lemma CrcDetects(data: Bytes, i: nat, b: Byte)
    requires i < |data| && b != data[i]
    ensures Crc32(data) != Crc32(data[i := b])
  {
    var start := Not(Zeros(32));
    RegisterDetects(start, data, i, b);
    var x, y := SerialRegister(start, data), SerialRegister(start, data[i := b]);
    var j :| 0 <= j < 32 && x[j] != y[j];
    assert Not(x)[j] != Not(y)[j];
  }
}
