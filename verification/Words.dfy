/** Machine words and bytes, and the byte orders in which they are stored on flash. */
module Words {
  type byte = bv8
  type word = bv32

  // LFS_BLOCK_NULL as a tag or a CRC seed
  const ALL_ONES: word := 0xffff_ffff

  function Xor(a: word, b: word): word { a ^ b }

  /** lfs_tole32 followed by a copy to memory. */
  function Le(w: word): (s: seq<byte>)
    ensures |s| == 4
  {
    [(w & 0xff) as byte, ((w >> 8) & 0xff) as byte, ((w >> 16) & 0xff) as byte, ((w >> 24) & 0xff) as byte]
  }

  /** A copy from memory followed by lfs_fromle32. */
  function UnLe(s: seq<byte>): word
    requires |s| == 4
  {
    (s[0] as word) | ((s[1] as word) << 8) | ((s[2] as word) << 16) | ((s[3] as word) << 24)
  }

  /** lfs_tobe32 followed by a copy to memory. */
  function Be(w: word): (s: seq<byte>)
    ensures |s| == 4
  {
    [((w >> 24) & 0xff) as byte, ((w >> 16) & 0xff) as byte, ((w >> 8) & 0xff) as byte, (w & 0xff) as byte]
  }

  /** A copy from memory followed by lfs_frombe32. */
  function UnBe(s: seq<byte>): word
    requires |s| == 4
  {
    ((s[0] as word) << 24) | ((s[1] as word) << 16) | ((s[2] as word) << 8) | (s[3] as word)
  }

  lemma LeRoundTrip(w: word)
    ensures UnLe(Le(w)) == w
  {
  }

  lemma BeRoundTrip(w: word)
    ensures UnBe(Be(w)) == w
  {
  }

  function ToByte(n: nat): (b: byte)
    requires n < 256
    ensures b as nat == n
  {
    if n == 0 then 0
    else
      var b := ToByte(n - 1);
      NextByte(b);
      b + 1
  }

  lemma NextByte(b: byte)
    requires b as nat < 255
    ensures (b + 1) as nat == b as nat + 1
  {
  }

  /** The little-endian bytes of a 32-bit value that is used as a number. */
  function LeNat(n: nat): (s: seq<byte>)
    ensures |s| == 4
  {
    [ToByte(n % 256), ToByte(n / 256 % 256), ToByte(n / 65536 % 256), ToByte(n / 16777216 % 256)]
  }

  function UnLeNat(s: seq<byte>): (n: nat)
    requires |s| == 4
  {
    (s[0] as nat) + 256 * (s[1] as nat) + 65536 * (s[2] as nat) + 16777216 * (s[3] as nat)
  }

  /** Digit k of a number to base 256. */
  function Digit(n: nat, k: nat): nat { if k == 0 then n % 256 else Digit(n / 256, k - 1) }

  /** The lowest byte comes first. */
  lemma LowByteFirst(n: nat, k: nat)
    requires k < 4
    ensures LeNat(n)[k] as nat == Digit(n, k)
  {
    hide ToByte;
    assert n / 65536 == n / 256 / 256 && n / 16777216 == n / 65536 / 256;
    assert Digit(n, 0) == n % 256 && Digit(n, 1) == Digit(n / 256, 0);
    assert Digit(n, 2) == Digit(n / 256, 1) == Digit(n / 65536, 0);
    assert Digit(n, 3) == Digit(n / 256, 2) == Digit(n / 65536, 1) == Digit(n / 16777216, 0);
  }

  lemma LeNatRoundTrip(n: nat)
    requires n < 0x1_0000_0000
    ensures UnLeNat(LeNat(n)) == n
  {
    hide ToByte;
    Digits(n);
  }

  lemma Digits(n: nat)
    requires n < 0x1_0000_0000
    ensures n == n % 256 + 256 * (n / 256 % 256) + 65536 * (n / 65536 % 256) + 16777216 * (n / 16777216 % 256)
  {
    assert n / 65536 == n / 256 / 256;
    assert n / 16777216 == n / 65536 / 256;
  }

  predicate AllOnes(s: seq<byte>) { forall i :: 0 <= i < |s| ==> s[i] == 0xff }

  /** Erased flash. */
  function Ones(n: nat): (s: seq<byte>)
    ensures |s| == n && AllOnes(s)
  {
    seq(n, _ => 0xff)
  }

  /** s after data was programmed into it at off. */
  function Overwrite(s: seq<byte>, off: nat, data: seq<byte>): (r: seq<byte>)
    requires off + |data| <= |s|
    ensures |r| == |s|
  {
    s[..off] + data + s[off + |data|..]
  }

  lemma SliceOfSlice(s: seq<byte>, a: nat, b: nat, n: nat, m: nat)
    requires a <= b <= |s| && n <= m <= b - a
    ensures s[a..b][n..m] == s[a + n..a + m]
  {
    var left, right := s[a..b][n..m], s[a + n..a + m];
    assert |left| == |right|;
    forall i | 0 <= i < |left| ensures left[i] == right[i] {
      assert left[i] == s[a..b][n + i];
    }
  }
}
