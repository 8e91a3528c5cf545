/**
 * Fixed-width unsigned integers of the 32-bit PowerPC host and the big-endian
 * byte order in which device-tree properties hold their cells.
 */
module ByteOrder {

  /** C `unsigned int` / `uint32_t` (and `unsigned long` on 32-bit PowerPC). */
  type u32 = x: int | 0 <= x < 0x1_0000_0000
  /** C `uint64_t` / `unsigned long long`. */
  type u64 = x: int | 0 <= x < 0x1_0000_0000_0000_0000

  /** One byte of a property's contents. */
  type byte = x: int | 0 <= x < 0x100

  const U32_MOD: int := 0x1_0000_0000
  const U64_MOD: int := 0x1_0000_0000_0000_0000
  const U64_MAX: u64 := 0xFFFF_FFFF_FFFF_FFFF

  /** Result of a C `unsigned int` addition or subtraction: the true value modulo 2^32. */
  function Wrap32(x: int): (r: u32)
    ensures 0 <= x < U32_MOD ==> r == x
    ensures (r - x) % U32_MOD == 0
  {
    x % U32_MOD
  }

  /** Result of a C `uint64_t` addition or subtraction: the true value modulo 2^64. */
  function Wrap64(x: int): (r: u64)
    ensures 0 <= x < U64_MOD ==> r == x
    ensures (r - x) % U64_MOD == 0
  {
    x % U64_MOD
  }

  function Pow256(n: nat): (p: nat)
    ensures p >= 1
  {
    if n == 0 then 1 else 256 * Pow256(n - 1)
  }

  lemma Pow256Four()
    ensures Pow256(4) == U32_MOD
  {
    assert Pow256(2) == 0x1_0000;
  }

  lemma {:induction false} Pow256Monotone(m: nat, n: nat)
    requires m <= n
    ensures Pow256(m) <= Pow256(n)
  {
    if m < n {
      Pow256Monotone(m, n - 1);
    }
  }

  lemma Pow256Eight()
    ensures Pow256(8) == U64_MOD
  {
    Pow256Four();
    assert Pow256(8) == Pow256(4) * Pow256(4) by {
      assert Pow256(8) == 256 * 256 * 256 * 256 * Pow256(4);
    }
  }

  /** The unsigned integer that `bytes` hold, most significant byte first. */
  function BeUint(bytes: seq<byte>): (v: nat)
    ensures v < Pow256(|bytes|)
  {
    if |bytes| == 0 then 0
    else BeUint(bytes[..|bytes| - 1]) * 256 + bytes[|bytes| - 1]
  }

  /** The `width` bytes that hold `v`, most significant byte first. */
  function BeBytes(v: nat, width: nat): (bytes: seq<byte>)
    requires v < Pow256(width)
    ensures |bytes| == width
  {
    if width == 0 then []
    else BeBytes(v / 256, width - 1) + [v % 256]
  }

  /** Decoding what was encoded gives the value back. */
  lemma {:induction false} BeUintOfBeBytes(v: nat, width: nat)
    requires v < Pow256(width)
    ensures BeUint(BeBytes(v, width)) == v
  {
    if width > 0 {
      var q, b := v / 256, v % 256;
      SplitLowByte(v, width);
      var high := BeBytes(q, width - 1);
      BeUintOfBeBytes(q, width - 1);
      assert BeBytes(v, width) == high + [b];
      BeUintSnoc(high, b);
    }
  }

  /** Dropping the low byte of a `width`-byte value leaves a `width - 1`-byte value. */
  lemma SplitLowByte(v: nat, width: nat)
    requires 0 < width && v < Pow256(width)
    ensures v / 256 < Pow256(width - 1) && v == v / 256 * 256 + v % 256
  {
    var q, r := v / 256, v % 256;
    assert v == q * 256 + r;
    FactorLess(q, Pow256(width - 1));
  }

  /** Cancelling the common factor 256 keeps a strict order. */
  lemma FactorLess(q: nat, p: nat)
    requires q * 256 < p * 256
    ensures q < p
  {
  }

  /** Appending a low byte shifts the value up by one byte. */
  lemma BeUintSnoc(high: seq<byte>, b: byte)
    ensures BeUint(high + [b]) == BeUint(high) * 256 + b
  {
    assert (high + [b])[..|high|] == high;
  }

  /** The bytes `a + b` hold `a`'s value shifted up by `|b|` bytes, plus `b`'s. */
  lemma {:induction false} BeUintAppend(a: seq<byte>, b: seq<byte>)
    ensures BeUint(a + b) == BeUint(a) * Pow256(|b|) + BeUint(b)
  {
    if |b| == 0 {
      assert a + b == a;
    } else {
      var init, last := b[..|b| - 1], b[|b| - 1];
      BeUintAppend(a, init);
      assert a + b == (a + init) + [last];
      assert b == init + [last];
      BeUintSnoc(a + init, last);
      BeUintSnoc(init, last);
      ShiftSum(BeUint(a), Pow256(|init|), BeUint(init), last);
    }
  }

  lemma ShiftSum(x: nat, p: nat, y: nat, c: nat)
    ensures (x * p + y) * 256 + c == x * (256 * p) + (y * 256 + c)
  {
  }

  /** Encoding what was decoded, at the same width, gives the bytes back. */
  lemma {:induction false} BeBytesOfBeUint(bytes: seq<byte>)
    ensures BeBytes(BeUint(bytes), |bytes|) == bytes
  {
    if |bytes| > 0 {
      var n := |bytes|;
      var init, last := bytes[..n - 1], bytes[n - 1];
      var q, r := BeUint(init), last;
      assert BeUint(bytes) == q * 256 + r;
      DivMod256(q, r);
      BeBytesOfBeUint(init);
      assert bytes == init + [last];
    }
  }

  /** `q * 256 + r` splits back into `q` and `r`. */
  lemma DivMod256(q: nat, r: nat)
    requires r < 256
    ensures (q * 256 + r) / 256 == q && (q * 256 + r) % 256 == r
  {
  }
}
