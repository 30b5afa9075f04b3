/** The checksum the durable and wire formats are instantiated with: CRC-32 as an integer. */
module Integrity {
  import opened Identity
  import opened Bits
  import Crc
  import opened Limits
  import opened Records

  lemma {:induction false} PowBytes(n: nat)
    ensures Pow2(8 * n) == Pow256(n)
  {
    if n > 0 {
      PowBytes(n - 1);
      assert Pow2(8 * n) == 256 * Pow2(8 * (n - 1)) by {
        var k := 8 * (n - 1);
        assert Pow2(k + 2) == 4 * Pow2(k);
        assert Pow2(k + 4) == 16 * Pow2(k);
        assert Pow2(k + 6) == 64 * Pow2(k);
        assert Pow2(k + 8) == 256 * Pow2(k);
      }
    }
  }

  /** The CRC-32 of a byte range as the integer the encoder stores. */
  function Checksum(data: Bytes): (crc: U32) {
    FromBitsBound(Crc.Crc32(data));
    PowBytes(4);
    assert Pow256(4) == 0x1_0000_0000;
    FromBits(Crc.Crc32(data))
  }

  lemma ChecksumDetects(a: Bytes, b: Bytes, i: nat)
    requires Apart(a, b, i)
    ensures Checksum(a) != Checksum(b)
  {
    assert b == a[i := b[i]] by {
      assert a == a[..i] + [a[i]] + a[i + 1..] && b == b[..i] + [b[i]] + b[i + 1..];
    }
    Crc.CrcDetects(a, i, b[i]);
    if Checksum(a) == Checksum(b) {
      FromBitsInjective(Crc.Crc32(a), Crc.Crc32(b));
    }
  }

  /** The format in use: any single-byte change is detected. */
  function Ieee(limits: Limits): (format: Format)
    ensures format.limits == limits
    ensures Detects(format.checksum)
  {
    var format := Format(limits, data => Checksum(data));
    assert Detects(format.checksum) by {
      forall a, b, i | Apart(a, b, i)
        ensures format.checksum(a) != format.checksum(b)
      {
        ChecksumDetects(a, b, i);
      }
    }
    format
  }
}
