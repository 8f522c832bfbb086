/** Closed-form addressing of a CTZ skip-list: which block of a file holds which byte. */
module CtzIndex {
  import opened Bits

  const WORD_LIMIT: nat := 0x1_0000_0000

  // 2^26: above every block index that a 32-bit file with blocks of at least 128 bytes can have.
  const INDEX_LIMIT: nat := 0x400_0000

  /** Bytes taken by the pointers at the front of block n: none in block 0, ctz(n)+1 words after it. */
  function HeaderSize(n: nat): nat {
    if n == 0 then 0 else 4 * (Ctz(n) + 1)
  }

  /** File bytes stored in block n. */
  function Capacity(blockSize: nat, n: nat): int {
    blockSize - HeaderSize(n)
  }

  /** File position of the first byte of block n: the capacities of the blocks before it, added up. */
  function Start(blockSize: nat, n: nat): int {
    if n == 0 then 0 else Start(blockSize, n - 1) + Capacity(blockSize, n - 1)
  }

  /** Byte pos of a file lives at offset off of block n. */
  ghost predicate Holds(blockSize: nat, pos: nat, n: nat, off: int) {
    && HeaderSize(n) <= off < blockSize
    && pos == Start(blockSize, n) + (off - HeaderSize(n))
  }

  /** lfs_ctz_index: the block index and the offset that replaces *off. */
  function Index(blockSize: nat, size: nat): (r: (int, int))
    requires blockSize > 8
  {
    var b := blockSize - 2 * 4;
    var i := size / b;
    if i == 0 then (0, size)
    else
      var i := (size - 4 * (Popc(i - 1) + 2)) / b;
      (i, if i >= 0 then size - b * i - 4 * Popc(i) else 0)
  }

  /** d * q by repeated addition, which keeps the proofs below linear. */
  ghost function Times(d: nat, q: nat): nat {
    if q == 0 then 0 else Times(d, q - 1) + d
  }

  lemma {:induction false} TimesIsProduct(d: nat, q: nat)
    ensures Times(d, q) == d * q
  {
    if q > 0 {
      TimesIsProduct(d, q - 1);
    }
  }

  /** The capacities add up to a closed form: pointers of blocks 1..n-1 number 2(n-1) - popcount(n-1). */
  lemma {:induction false} StartClosed(blockSize: nat, n: nat)
    requires blockSize > 8 && n > 0
    ensures Start(blockSize, n) == Times(blockSize - 8, n) + 8 + 4 * Popc(n - 1)
  {
    if n > 1 {
      StartClosed(blockSize, n - 1);
      PopcStep(n - 1);
    } else {
      assert Times(blockSize - 8, 1) == Times(blockSize - 8, 0) + blockSize - 8;
    }
  }

  /** Only indices below 2^26 occur in a 32-bit file with blocks of at least 128 bytes. */
  lemma IndexRange(blockSize: nat, size: nat)
    requires blockSize >= 128 && size < WORD_LIMIT
    ensures size / (blockSize - 8) < INDEX_LIMIT
  {
    var b := blockSize - 8;
    var q := size / b;
    assert b * q <= size;
    MulMonotonic(q, 120, b);
    assert b * q == q * b && q * 120 <= size;
  }

  lemma SmallIndexCapacity(blockSize: nat, n: nat)
    requires blockSize >= 128 && n < INDEX_LIMIT
    ensures HeaderSize(n) <= 104
    ensures Popc(n) <= 26
  {
    assert Pow2(26) == INDEX_LIMIT by { Pow2Split(13, 26); assert Pow2(13) == 8192; }
    PopcBound(n, 26);
    if n > 0 {
      CtzBound(n);
      Log2Below(n, 26);
    }
  }

  lemma {:induction false} Log2Below(n: nat, k: nat)
    requires 0 < n < Pow2(k)
    ensures Log2(n) < k
  {
    if n > 1 {
      Log2Below(n / 2, k - 1);
    }
  }

  /** Subtracting at most one divisor lowers a quotient by at most one. */
  lemma SecondQuotient(b: nat, size: nat, slack: nat)
    requires 0 < slack <= b && size / b > 0
    ensures var i := (size - slack) / b;
      && 0 <= i
      && size / b - 1 <= i <= size / b
      && Times(b, i) + slack <= size < Times(b, i) + b + slack
      && Times(b, size / b) <= size < Times(b, size / b) + b
  {
    var guess := size / b;
    TimesDivMod(b, size);
    assert Times(b, guess) == Times(b, guess - 1) + b;
    SecondQuotientAt(b, size - slack, guess);
  }

  lemma TimesDivMod(b: nat, size: nat)
    requires b > 0
    ensures Times(b, size / b) <= size < Times(b, size / b) + b
  {
    TimesIsProduct(b, size / b);
  }

  lemma SecondQuotientAt(b: nat, a: int, guess: nat)
    requires b > 0 && guess > 0
    requires Times(b, guess - 1) <= a < Times(b, guess) + b
    ensures a / b == if a >= Times(b, guess) then guess else guess - 1
  {
    hide Times;
    TimesIsProduct(b, guess);
    TimesIsProduct(b, guess - 1);
    var q := if a >= Times(b, guess) then guess else guess - 1;
    NextMultiple(b, guess - 1);
    DivUnique(a, b, q, a - Times(b, q));
  }

  lemma NextMultiple(b: nat, n: nat)
    ensures b * (n + 1) == b * n + b
  {
  }

  /** The first guess size / b is exact or one too large, and the second quotient repairs it. */
  lemma RepairedHolds(blockSize: nat, size: nat, b: nat, guess: nat)
    requires blockSize >= 128 && b == blockSize - 8 && 0 < guess < INDEX_LIMIT && guess == size / b
    ensures var n := (size - 4 * (Popc(guess - 1) + 2)) / b;
      && 0 <= n < INDEX_LIMIT
      && size - Times(b, n) - 4 * Popc(n) >= 0
      && Holds(blockSize, size, n, size - Times(b, n) - 4 * Popc(n))
  {
    hide *;
    SmallIndexCapacity(blockSize, guess - 1);
    var slack := 4 * (Popc(guess - 1) + 2);
    SecondQuotient(b, size, slack);
    var n := (size - slack) / b;
    InBlock(blockSize, size, n, guess);
  }

  /** The block that the inequalities of SecondQuotient single out holds the byte. */
  lemma InBlock(blockSize: nat, size: nat, n: nat, guess: nat)
    requires blockSize >= 128 && n < INDEX_LIMIT && n <= guess <= n + 1 && guess > 0
    requires Times(blockSize - 8, n) + 4 * (Popc(guess - 1) + 2) <= size
    requires size < Times(blockSize - 8, n) + blockSize + 4 * Popc(guess - 1)
    requires Times(blockSize - 8, guess) <= size < Times(blockSize - 8, guess) + blockSize - 8
    ensures size - Times(blockSize - 8, n) - 4 * Popc(n) >= 0
    ensures Holds(blockSize, size, n, size - Times(blockSize - 8, n) - 4 * Popc(n))
  {
    var t := Times(blockSize - 8, n);
    if n == 0 {
      FirstBlock(blockSize, size);
    } else {
      if n < guess {
        assert Times(blockSize - 8, guess) == t + (blockSize - 8);
        SmallIndexCapacity(blockSize, n - 1);
      }
      hide *;
      InLaterBlock(blockSize, size, n);
    }
  }

  lemma InLaterBlock(blockSize: nat, size: nat, n: nat)
    requires blockSize > 8 && n > 0
    requires Times(blockSize - 8, n) + 8 + 4 * Popc(n - 1) <= size
    requires size < Times(blockSize - 8, n) + blockSize + 4 * Popc(n)
    ensures size - Times(blockSize - 8, n) - 4 * Popc(n) >= 0
    ensures Holds(blockSize, size, n, size - Times(blockSize - 8, n) - 4 * Popc(n))
  {
    hide Start, Popc, Ctz, Times;
    StartClosed(blockSize, n);
    PopcStep(n);
  }

  lemma FirstBlock(blockSize: nat, size: nat)
    requires blockSize >= 8 && size < blockSize
    ensures Holds(blockSize, size, 0, size)
  {
  }

  lemma IndexValue(blockSize: nat, size: nat, guess: nat, n: nat)
    requires blockSize >= 128 && guess == size / (blockSize - 8)
    requires n == if guess == 0 then 0 else (size - 4 * (Popc(guess - 1) + 2)) / (blockSize - 8)
    ensures Index(blockSize, size)
      == (n, if guess == 0 then size else size - Times(blockSize - 8, n) - 4 * Popc(n))
  {
    TimesIsProduct(blockSize - 8, n);
  }

  lemma IndexCorrect(blockSize: nat, size: nat)
    requires blockSize >= 128 && size < WORD_LIMIT
    ensures Index(blockSize, size).0 >= 0 && Index(blockSize, size).1 >= 0
    ensures Index(blockSize, size).0 < INDEX_LIMIT
    ensures Holds(blockSize, size, Index(blockSize, size).0, Index(blockSize, size).1)
  {
    hide *;
    var guess := size / (blockSize - 8);
    IndexRange(blockSize, size);
    if guess > 0 {
      RepairedHolds(blockSize, size, blockSize - 8, guess);
      IndexValue(blockSize, size, guess, (size - 4 * (Popc(guess - 1) + 2)) / (blockSize - 8));
    } else {
      IndexValue(blockSize, size, 0, 0);
      QuotientZero(blockSize - 8, size);
      FirstBlock(blockSize, size);
    }
  }

  lemma QuotientZero(b: nat, size: nat)
    requires b > 0 && size / b == 0
    ensures size < b
  {
  }

  lemma {:induction false} StartMonotonic(blockSize: nat, m: nat, n: nat)
    requires blockSize >= 128 && m <= n <= INDEX_LIMIT
    ensures Start(blockSize, m) + 24 * (n - m) <= Start(blockSize, n)
    decreases n
  {
    if m < n {
      StartMonotonic(blockSize, m, n - 1);
      SmallIndexCapacity(blockSize, n - 1);
    }
  }

  /** No other place holds the same byte. */
  lemma HoldsUnique(blockSize: nat, pos: nat, m: nat, off: int, n: nat, off': int)
    requires blockSize >= 128 && m < INDEX_LIMIT && n < INDEX_LIMIT
    requires Holds(blockSize, pos, m, off) && Holds(blockSize, pos, n, off')
    ensures m == n && off == off'
  {
    if m < n { StartMonotonic(blockSize, m + 1, n); }
    if n < m { StartMonotonic(blockSize, n + 1, m); }
  }

  /** lfs_ctz_index returns the one place that holds the byte: both directions. */
  lemma IndexIsTheOnlyPlace(blockSize: nat, size: nat, n: nat, off: int)
    requires blockSize >= 128 && size < WORD_LIMIT && n < INDEX_LIMIT
    ensures Index(blockSize, size) == (n, off) <==> Holds(blockSize, size, n, off)
  {
    IndexCorrect(blockSize, size);
    if Holds(blockSize, size, n, off) {
      var (m, o) := Index(blockSize, size);
      HoldsUnique(blockSize, size, m, o, n, off);
    }
  }
}
