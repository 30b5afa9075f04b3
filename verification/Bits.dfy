/**
 Machine words as bit sequences, least significant bit first, and the little-endian integer
 encoding of the byte codec (src/codec/bytes.cpp, src/persist/records.cpp:25-51).
 */
module Bits {

  type Byte = x: nat | x < 256
  type Bytes = seq<Byte>

  function ToBits(value: nat, width: nat): (bits: seq<bool>)
    ensures |bits| == width
  {
    if width == 0 then [] else [value % 2 == 1] + ToBits(value / 2, width - 1)
  }

  function FromBits(bits: seq<bool>): (value: nat) {
    if bits == [] then 0 else (if bits[0] then 1 else 0) + 2 * FromBits(bits[1..])
  }

  lemma {:induction false} FromBitsInjective(a: seq<bool>, b: seq<bool>)
    requires |a| == |b| && FromBits(a) == FromBits(b)
    ensures a == b
  {
    if a != [] {
      FromBitsInjective(a[1..], b[1..]);
      assert a == [a[0]] + a[1..] && b == [b[0]] + b[1..];
    }
  }

  lemma {:induction false} ToFromBits(bits: seq<bool>)
    ensures ToBits(FromBits(bits), |bits|) == bits
  {
    if bits != [] {
      ToFromBits(bits[1..]);
      assert bits == [bits[0]] + bits[1..];
    }
  }

  lemma {:induction false} ToBitsInjective(a: nat, b: nat, width: nat)
    requires ToBits(a, width) == ToBits(b, width) && a < Pow2(width) && b < Pow2(width)
    ensures a == b
  {
    if width > 0 {
      var x, y := ToBits(a, width), ToBits(b, width);
      assert x[0] == y[0] && x[1..] == ToBits(a / 2, width - 1) && y[1..] == ToBits(b / 2, width - 1);
      ToBitsInjective(a / 2, b / 2, width - 1);
    }
  }

  function Pow2(n: nat): (power: nat)
    ensures power > 0
  {
    if n == 0 then 1 else 2 * Pow2(n - 1)
  }

  lemma {:induction false} FromBitsBound(bits: seq<bool>)
    ensures FromBits(bits) < Pow2(|bits|)
  {
    if bits != [] {
      FromBitsBound(bits[1..]);
    }
  }

  // ---- Little-endian integers ----

  function Pow256(n: nat): (power: nat)
    ensures power > 0
  {
    if n == 0 then 1 else 256 * Pow256(n - 1)
  }

  function StoreLE(value: nat, width: nat): (bytes: Bytes)
    ensures |bytes| == width
  {
    if width == 0 then [] else [value % 256] + StoreLE(value / 256, width - 1)
  }

  function LoadLE(bytes: Bytes): (value: nat) {
    if bytes == [] then 0 else bytes[0] + 256 * LoadLE(bytes[1..])
  }

  lemma {:induction false} LoadStore(value: nat, width: nat)
    requires value < Pow256(width)
    ensures LoadLE(StoreLE(value, width)) == value
  {
    if width > 0 {
      LoadStore(value / 256, width - 1);
    }
  }

  lemma {:induction false} LoadBound(bytes: Bytes)
    ensures LoadLE(bytes) < Pow256(|bytes|)
  {
    if bytes != [] {
      LoadBound(bytes[1..]);
    }
  }

  /** Different bytes never load as the same integer. */
  lemma {:induction false} LoadInjective(a: Bytes, b: Bytes)
    requires |a| == |b| && LoadLE(a) == LoadLE(b)
    ensures a == b
  {
    if a != [] {
      LoadInjective(a[1..], b[1..]);
      assert a == [a[0]] + a[1..] && b == [b[0]] + b[1..];
    }
  }

  lemma {:induction false} StoreLoad(bytes: Bytes)
    ensures StoreLE(LoadLE(bytes), |bytes|) == bytes
  {
    if bytes != [] {
      StoreLoad(bytes[1..]);
      assert bytes == [bytes[0]] + bytes[1..];
    }
  }
}
