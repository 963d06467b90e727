/** Bits of unbounded two's complement integers, as Python's `&`, `|` and `^` see them. */
module Bits {

  function Pow2(k: nat): (r: nat)
    ensures r >= 1
  {
    if k == 0 then 1 else 2 * Pow2(k - 1)
  }

  /** Bit k of m, the truth of `m & (1 << k)`; m may be negative. */
  predicate Bit(m: int, k: nat)
    decreases k
  {
    if k == 0 then m % 2 == 1 else Bit(m / 2, k - 1)
  }

  /** `m | (1 << k)` */
  function SetBit(m: int, k: nat): int {
    if Bit(m, k) then m else m + Pow2(k)
  }

  /** `m & ~(1 << k)` */
  function ClearBit(m: int, k: nat): int {
    if Bit(m, k) then m - Pow2(k) else m
  }

  lemma LargerQuotient(d: int, q: int, q': int)
    requires d > 0 && q > q'
    ensures q * d >= q' * d + d
  {
    var e := q - q' - 1;
    assert q * d == q' * d + d + e * d;
    assert e * d >= 0;
  }

  lemma QuotientIsUnique(d: int, q: int, r: int, q': int, r': int)
    requires 0 <= r < d && 0 <= r' < d
    requires q * d + r == q' * d + r'
    ensures q == q' && r == r'
  {
    if q > q' {
      LargerQuotient(d, q, q');
    } else if q < q' {
      LargerQuotient(d, q', q);
    }
  }

  lemma DivisionIsUnique(a: int, d: int, q: int, r: int)
    requires 0 <= r < d && a == q * d + r
    ensures a / d == q && a % d == r
  {
    var q', r' := a / d, a % d;
    assert a == q' * d + r';
    QuotientIsUnique(d, q, r, q', r');
  }

  lemma HalveThenDivide(m: int, d: int)
    requires d >= 1
    ensures (m / 2) / d == m / (2 * d)
    ensures m % (2 * d) == 2 * ((m / 2) % d) + m % 2
  {
    var h := m / 2;
    assert h == (h / d) * d + h % d;
    assert m == (h / d) * (2 * d) + (2 * (h % d) + m % 2) by {
      assert 2 * ((h / d) * d) == (h / d) * (2 * d);
    }
    DivisionIsUnique(m, 2 * d, h / d, 2 * (h % d) + m % 2);
  }

  /** Bit is the shift-and-mask of the source. */
  lemma {:induction false} BitIsShift(m: int, k: nat)
    ensures Bit(m, k) <==> (m / Pow2(k)) % 2 == 1
    decreases k
  {
    if k > 0 {
      BitIsShift(m / 2, k - 1);
      HalveThenDivide(m, Pow2(k - 1));
    }
  }

  lemma {:induction false} BitsOfSetBit(m: int, k: nat, j: nat)
    ensures Bit(SetBit(m, k), j) <==> j == k || Bit(m, j)
    decreases k
  {
    if !Bit(m, k) {
      BitsOfAdded(m, k, j);
    }
  }

  lemma {:induction false} BitsOfAdded(m: int, k: nat, j: nat)
    requires !Bit(m, k)
    ensures Bit(m + Pow2(k), j) <==> j == k || Bit(m, j)
    decreases k
  {
    if k == 0 {
      assert (m + 1) / 2 == m / 2;
    } else {
      assert (m + Pow2(k)) / 2 == m / 2 + Pow2(k - 1);
      if j > 0 {
        BitsOfAdded(m / 2, k - 1, j - 1);
      }
    }
  }

  lemma {:induction false} BitsOfClearBit(m: int, k: nat, j: nat)
    ensures Bit(ClearBit(m, k), j) <==> j != k && Bit(m, j)
    decreases k
  {
    if Bit(m, k) {
      BitsOfRemoved(m, k, j);
    }
  }

  lemma {:induction false} BitsOfRemoved(m: int, k: nat, j: nat)
    requires Bit(m, k)
    ensures Bit(m - Pow2(k), j) <==> j != k && Bit(m, j)
    decreases k
  {
    if k == 0 {
      assert (m - 1) / 2 == m / 2;
    } else {
      assert (m - Pow2(k)) / 2 == m / 2 - Pow2(k - 1);
      if j > 0 {
        BitsOfRemoved(m / 2, k - 1, j - 1);
      }
    }
  }

  /** Two n-bit numbers with the same bits are the same number. */
  lemma {:induction false} BitsDetermine(a: int, b: int, n: nat)
    requires 0 <= a < Pow2(n) && 0 <= b < Pow2(n)
    requires forall k: nat :: k < n ==> (Bit(a, k) <==> Bit(b, k))
    ensures a == b
    decreases n
  {
    if n > 0 {
      assert Bit(a, 0) <==> Bit(b, 0);
      forall k: nat | k < n - 1
        ensures Bit(a / 2, k) <==> Bit(b / 2, k)
      {
        assert Bit(a, k + 1) <==> Bit(b, k + 1);
      }
      BitsDetermine(a / 2, b / 2, n - 1);
    }
  }

  lemma {:induction false} BitsOfMod(m: int, n: nat, k: nat)
    ensures 0 <= m % Pow2(n) < Pow2(n)
    ensures Bit(m % Pow2(n), k) <==> k < n && Bit(m, k)
    decreases n
  {
    if n == 0 {
      assert m % 1 == 0;
      BitsOfZero(k);
    } else {
      HalveThenDivide(m, Pow2(n - 1));
      var low := (m / 2) % Pow2(n - 1);
      BitsOfMod(m / 2, n - 1, if k == 0 then 0 else k - 1);
      assert m % Pow2(n) == 2 * low + m % 2;
      assert (2 * low + m % 2) / 2 == low;
    }
  }

  lemma {:induction false} BitsOfZero(k: nat)
    ensures !Bit(0, k)
    decreases k
  {
    if k > 0 {
      BitsOfZero(k - 1);
    }
  }

  lemma {:induction false} Pow2Monotone(j: nat, k: nat)
    requires j <= k
    ensures Pow2(j) <= Pow2(k)
    decreases k
  {
    if j < k {
      Pow2Monotone(j, k - 1);
    }
  }
}
