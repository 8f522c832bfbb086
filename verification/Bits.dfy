/** Integer helpers of lfs_util.h that the skip-list and cache arithmetic rests on. */
module Bits {

  function Min(a: nat, b: nat): nat { if a < b then a else b }

  function Max(a: nat, b: nat): nat { if a > b then a else b }

  function AlignDown(a: nat, alignment: nat): nat
    requires alignment > 0
  {
    a - a % alignment
  }

  function AlignUp(a: nat, alignment: nat): nat
    requires alignment > 0
  {
    AlignDown(a + alignment - 1, alignment)
  }

  function Pow2(n: nat): (p: nat)
    ensures p > 0
  {
    if n == 0 then 1 else 2 * Pow2(n - 1)
  }

  /** Number of one bits (lfs_popc). */
  function Popc(n: nat): nat {
    if n == 0 then 0 else n % 2 + Popc(n / 2)
  }

  /** Number of trailing zero bits (lfs_ctz). */
  function Ctz(n: nat): nat
    requires n > 0
  {
    if n % 2 == 1 then 0 else 1 + Ctz(n / 2)
  }

  /** Position of the highest one bit. */
  function Log2(n: nat): nat
    requires n > 0
  {
    if n == 1 then 0 else 1 + Log2(n / 2)
  }

  /** The exponent of the next power of two at or above a (lfs_npw2): 32 - clz(a - 1). */
  function Npw2(a: nat): (r: nat)
    requires a >= 2
    ensures r > 0
  {
    Log2(a - 1) + 1
  }

  lemma AlignBounds(a: nat, alignment: nat)
    requires alignment > 0
    ensures AlignDown(a, alignment) <= a < AlignDown(a, alignment) + alignment
    ensures AlignDown(a, alignment) % alignment == 0
    ensures a <= AlignUp(a, alignment) < a + alignment
    ensures AlignUp(a, alignment) % alignment == 0
  {
    AlignDownMultiple(a, alignment);
    AlignDownMultiple(a + alignment - 1, alignment);
  }

  lemma AlignDownMultiple(a: nat, alignment: nat)
    requires alignment > 0
    ensures AlignDown(a, alignment) == alignment * (a / alignment)
    ensures AlignDown(a, alignment) % alignment == 0
  {
    MultipleMod(alignment, a / alignment);
  }

  lemma {:induction false} MultipleMod(d: nat, q: nat)
    requires d > 0
    ensures (d * q) % d == 0 && (d * q) / d == q
  {
    if q > 0 {
      MultipleMod(d, q - 1);
      assert d * q == d * (q - 1) + d;
      DivModStep(d * (q - 1), d);
    }
  }

  lemma DivModStep(a: nat, d: nat)
    requires d > 0
    ensures (a + d) / d == a / d + 1 && (a + d) % d == a % d
  {
    var q, r := a / d, a % d;
    assert a + d == d * (q + 1) + r;
    DivUnique(a + d, d, q + 1, r);
  }

  lemma DivUnique(a: nat, d: nat, q: nat, r: nat)
    requires d > 0 && r < d && a == d * q + r
    ensures a / d == q && a % d == r
  {
    var q', r' := a / d, a % d;
    assert a == d * q' + r';
    if q' > q {
      MulMonotonic(d, q + 1, q');
    }
    if q' < q {
      MulMonotonic(d, q' + 1, q);
    }
  }

  lemma MulMonotonic(d: nat, a: nat, b: nat)
    requires a <= b
    ensures d * a <= d * b
  {
    assert d * b == d * a + d * (b - a);
  }

  lemma {:induction false} Pow2Monotonic(a: nat, b: nat)
    requires a <= b
    ensures Pow2(a) <= Pow2(b)
    decreases b
  {
    if a < b {
      Pow2Monotonic(a, b - 1);
    }
  }

  lemma {:induction false} Log2Bounds(n: nat)
    requires n > 0
    ensures Pow2(Log2(n)) <= n < 2 * Pow2(Log2(n))
  {
    if n > 1 {
      Log2Bounds(n / 2);
    }
  }

  lemma Log2Monotonic(a: nat, b: nat)
    requires 0 < a <= b
    ensures Log2(a) <= Log2(b)
  {
    Log2Bounds(a);
    ExponentOfBound(b, Log2(a));
  }

  /** Removing the highest bit. */
  lemma Log2DropTop(n: nat)
    requires n > 0
    ensures var r := n - Pow2(Log2(n)); 0 <= r < n && (r > 0 ==> Log2(r) < Log2(n))
  {
    Log2Bounds(n);
    var r := n - Pow2(Log2(n));
    if r > 0 {
      Log2Bounds(r);
      if Log2(r) >= Log2(n) {
        Pow2Monotonic(Log2(n), Log2(r));
      }
    }
  }

  /** 2^k divides n for k up to ctz(n), and the quotient by 2^ctz(n) is odd. */
  lemma {:induction false} CtzDivides(n: nat)
    requires n > 0
    ensures n % Pow2(Ctz(n)) == 0 && (n / Pow2(Ctz(n))) % 2 == 1
    ensures n == Pow2(Ctz(n)) * (n / Pow2(Ctz(n)))
  {
    if n % 2 == 0 {
      CtzDivides(n / 2);
      var p := Pow2(Ctz(n / 2));
      var q := (n / 2) / p;
      assert n == (2 * p) * q by { assert n / 2 == p * q; assert 2 * (p * q) == (2 * p) * q; }
      DivUnique(n, 2 * p, q, 0);
    }
  }

  lemma {:induction false} CtzOfMultiple(k: nat, q: nat)
    requires q > 0
    ensures Pow2(k) * q > 0
    ensures Ctz(Pow2(k) * q) == k + Ctz(q)
  {
    hide Ctz;
    if k > 0 {
      CtzOfMultiple(k - 1, q);
      CtzTwice(Pow2(k - 1) * q);
      Twice(Pow2(k - 1), q);
    }
  }

  lemma CtzTwice(m: nat)
    requires m > 0
    ensures Ctz(2 * m) == 1 + Ctz(m)
  {
    DivUnique(2 * m, 2, m, 0);
  }

  lemma Twice(a: nat, q: nat)
    ensures (2 * a) * q == 2 * (a * q)
  {
  }

  lemma CtzBound(n: nat)
    requires n > 0
    ensures Pow2(Ctz(n)) <= n
    ensures Ctz(n) <= Log2(n)
  {
    CtzDivides(n);
    MulMonotonic(Pow2(Ctz(n)), 1, n / Pow2(Ctz(n)));
    ExponentOfBound(n, Ctz(n));
  }

  lemma {:induction false} ExponentOfBound(n: nat, k: nat)
    requires Pow2(k) <= n
    ensures k <= Log2(n)
  {
    if k > 0 {
      ExponentOfBound(n / 2, k - 1);
    }
  }

  /** Stepping back by 2^k from an index that has a k-th pointer: the target's own ctz. */
  lemma {:induction false} CtzAfterStep(n: nat, k: nat)
    requires n > 0 && k <= Ctz(n) && Pow2(k) < n
    ensures k < Ctz(n) ==> Ctz(n - Pow2(k)) == k
    ensures k == Ctz(n) ==> Ctz(n - Pow2(k)) > k
  {
    if k > 0 {
      CtzAfterStep(n / 2, k - 1);
      assert (n - Pow2(k)) / 2 == n / 2 - Pow2(k - 1);
    }
  }

  lemma {:induction false} Pow2Split(a: nat, b: nat)
    requires a <= b
    ensures Pow2(b) == Pow2(a) * Pow2(b - a)
  {
    if a > 0 {
      Pow2Split(a - 1, b - 1);
    }
  }

  lemma {:induction false} PopcStep(n: nat)
    requires n > 0
    ensures Popc(n) + Ctz(n) == Popc(n - 1) + 1
  {
    if n % 2 == 0 {
      PopcStep(n / 2);
      assert (n - 1) / 2 == n / 2 - 1;
    } else {
      assert (n - 1) / 2 == n / 2;
    }
  }

  lemma {:induction false} PopcBound(n: nat, k: nat)
    requires n < Pow2(k)
    ensures Popc(n) <= k
  {
    if n > 0 {
      PopcBound(n / 2, k - 1);
    }
  }

  lemma AlignFits(a: nat, length: nat, alignment: nat)
    requires alignment > 0 && a <= length && length % alignment == 0
    ensures AlignUp(a, alignment) <= length
  {
    hide AlignUp;
    AlignBounds(a, alignment);
    if AlignUp(a, alignment) > length {
      Apart(length, AlignUp(a, alignment), alignment);
    }
  }

  lemma {:induction false} Apart(a: nat, b: nat, alignment: nat)
    requires alignment > 0 && a % alignment == 0 && b % alignment == 0 && a < b
    ensures a + alignment <= b
  {
    if a >= alignment {
      DivModStep(a - alignment, alignment);
      DivModStep(b - alignment, alignment);
      Apart(a - alignment, b - alignment, alignment);
    }
  }

  predicate Divides(n: nat, a: nat)
    requires n > 0
  {
    a % n == 0
  }

  lemma MultipleBelow(a: nat, n: nat)
    requires n > 0 && Divides(n, a)
    ensures a < n ==> a == 0
    ensures a >= n ==> Divides(n, a - n)
  {
    if a >= n {
      DivModStep(a - n, n);
    }
  }

  lemma MultipleAbove(a: nat, n: nat)
    requires n > 0 && Divides(n, a)
    ensures Divides(n, a + n)
  {
    DivModStep(a, n);
  }

  lemma {:induction false} ModAdd(a: nat, b: nat, n: nat)
    requires n > 0 && Divides(n, a) && Divides(n, b)
    ensures Divides(n, a + b)
    decreases b
  {
    hide Divides;
    MultipleBelow(b, n);
    if b > 0 {
      ModAdd(a, b - n, n);
      MultipleAbove(a + b - n, n);
    }
  }

  lemma {:induction false} MultipleOfMultiple(a: nat, b: nat, n: nat)
    requires n > 0 && b > 0 && Divides(b, a) && Divides(n, b)
    ensures Divides(n, a)
    decreases a
  {
    hide Divides;
    MultipleBelow(a, b);
    if a > 0 {
      MultipleOfMultiple(a - b, b, n);
      ModAdd(a - b, b, n);
    } else {
      Nothing(n);
    }
  }

  lemma Nothing(n: nat)
    requires n > 0
    ensures Divides(n, 0)
  {
  }

  lemma AlignStep(a: nat, n: nat)
    requires n > 0
    ensures AlignUp(a + n, n) == AlignUp(a, n) + n
  {
    DivModStep(a + n - 1, n);
  }

  lemma {:induction false} AlignShift(a: nat, off: nat, n: nat)
    requires n > 0 && Divides(n, off)
    ensures AlignUp(off + a, n) == off + AlignUp(a, n)
    decreases off
  {
    hide AlignUp, Divides;
    MultipleBelow(off, n);
    if off > 0 {
      AlignShift(a, off - n, n);
      AlignStep(off - n + a, n);
    }
  }

  lemma AlignMultiple(a: nat, n: nat)
    requires n > 0 && a % n == 0
    ensures AlignUp(a, n) == a
  {
    hide AlignUp;
    AlignBounds(a, n);
    if AlignUp(a, n) > a {
      Apart(a, AlignUp(a, n), n);
    }
  }
}
