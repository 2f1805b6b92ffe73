/** Unsigned machine words as natural numbers: the shift and the mask that the hash table uses, and the
    division and the remainder they stand for. */
module Words {

  type uint32 = n: nat | n < 0x1_0000_0000

  function Pow2(k: nat): (p: nat)
    ensures p > 0
  {
    if k == 0 then 1 else 2 * Pow2(k - 1)
  }

  /** The bitwise `x & y` of C on unsigned operands. */
  function BitAnd(x: nat, y: nat): (r: nat)
    ensures r <= x && r <= y
  {
    if x == 0 || y == 0 then 0 else 2 * BitAnd(x / 2, y / 2) + (if x % 2 == 1 && y % 2 == 1 then 1 else 0)
  }

  /** The shift `x >> k` of C on an unsigned operand. */
  function ShiftRight(x: nat, k: nat): (r: nat)
  {
    if k == 0 then x else ShiftRight(x / 2, k - 1)
  }

  lemma {:induction false} ModDouble(x: nat, m: nat)
    requires m > 0
    ensures x % (2 * m) == x % 2 + 2 * ((x / 2) % m)
  {
    var q, r := (x / 2) / m, (x / 2) % m;
    assert x / 2 == m * q + r;
    DoubleProduct(m, q);
    DivModUnique(x, 2 * m, q, x % 2 + 2 * r);
  }

  lemma {:induction false} DivModUnique(x: nat, d: nat, q: nat, r: nat)
    requires d > 0 && r < d && x == d * q + r
    ensures x / d == q && x % d == r
  {
    var q', r' := x / d, x % d;
    assert x == d * q' + r';
    if q' < q {
      MulStep(d, q', q);
    } else if q < q' {
      MulStep(d, q, q');
    }
  }

  lemma {:induction false} MulStep(d: nat, a: nat, b: nat)
    requires a < b
    ensures d * a + d <= d * b
  {
    var k := b - a - 1;
    assert d * b == d * (a + 1 + k) == d * a + d + d * k;
  }

  /** Masking with a power of two less one is the remainder: this is what makes
      `hashv & (num_buckets - 1)` a bucket index. */
  lemma {:induction false} MaskIsMod(x: nat, k: nat)
    ensures BitAnd(x, Pow2(k) - 1) == x % Pow2(k)
  {
    if k == 0 {
    } else {
      var m := Pow2(k - 1);
      MaskIsMod(x / 2, k - 1);
      ModDouble(x, m);
      assert (2 * m - 1) / 2 == m - 1 && (2 * m - 1) % 2 == 1;
      if x == 0 {
        assert 0 % (2 * m) == 0 by { DivModUnique(0, 2 * m, 0, 0); }
      }
    }
  }

  /** The bucket of a hash value among `numBkts` buckets, a power of two. */
  function ToBkt(hashv: nat, numBkts: nat): (b: nat)
    requires numBkts > 0
    ensures b < numBkts
  {
    BitAnd(hashv, numBkts - 1)
  }

  /** Among 2^`log2` buckets that is the remainder of the hash value. */
  lemma {:induction false} ToBktIsMod(hashv: nat, log2: nat)
    ensures ToBkt(hashv, Pow2(log2)) == hashv % Pow2(log2)
    ensures Pow2(log2 + 1) == 2 * Pow2(log2) && Pow2(5) == 32
  {
    MaskIsMod(hashv, log2);
    assert Pow2(1) == 2 && Pow2(2) == 4 && Pow2(3) == 8 && Pow2(4) == 16;
  }

  /** Doubling the buckets sends what was in bucket b to b or to b + numBkts. */
  lemma {:induction false} ToBktSplits(hashv: nat, log2: nat)
    ensures var n, b := Pow2(log2), ToBkt(hashv, Pow2(log2));
            ToBkt(hashv, 2 * n) == b || ToBkt(hashv, 2 * n) == b + n
  {
    MaskIsMod(hashv, log2);
    MaskIsMod(hashv, log2 + 1);
    ResidueSplits(hashv, Pow2(log2));
  }

  lemma {:induction false} ShiftIsDiv(x: nat, k: nat)
    ensures ShiftRight(x, k) == x / Pow2(k)
  {
    if k > 0 {
      ShiftIsDiv(x / 2, k - 1);
      HalfThenDiv(x, Pow2(k - 1));
    }
  }

  lemma {:induction false} HalfThenDiv(x: nat, m: nat)
    requires m > 0
    ensures (x / 2) / m == x / (2 * m)
  {
    var q, r := (x / 2) / m, (x / 2) % m;
    assert x / 2 == m * q + r;
    DoubleProduct(m, q);
    DivModUnique(x, 2 * m, q, x % 2 + 2 * r);
  }

  lemma {:induction false} DoubleProduct(m: nat, q: nat)
    ensures (2 * m) * q == 2 * (m * q)
  {
  }

  /** Doubling the modulus either keeps a residue or adds the old modulus to it. */
  lemma {:induction false} ResidueSplits(h: nat, n: nat)
    requires n > 0
    ensures h % (2 * n) == h % n || h % (2 * n) == h % n + n
    ensures (h % (2 * n)) % n == h % n
  {
    var q, r := h / (2 * n), h % (2 * n);
    assert h == (2 * n) * q + r;
    var t := n * (2 * q);
    assert (2 * n) * q == t;
    if r < n {
      DivModUnique(h, n, 2 * q, r);
      DivModUnique(r, n, 0, r);
    } else {
      assert n * (2 * q + 1) == t + n;
      DivModUnique(h, n, 2 * q + 1, r - n);
      DivModUnique(r, n, 1, r - n);
    }
  }

  /** The quotient of C's unsigned division, by repeated subtraction. */
  function Quotient(x: nat, d: nat): (q: nat)
    requires d > 0
  {
    if x < d then 0 else 1 + Quotient(x - d, d)
  }

  lemma {:induction false} QuotientIsDiv(x: nat, d: nat)
    requires d > 0
    ensures Quotient(x, d) == x / d
  {
    var q, r := x / d, x % d;
    assert x == d * q + r;
    if x < d {
      DivModUnique(x, d, 0, x);
    } else {
      QuotientIsDiv(x - d, d);
      var q', r' := (x - d) / d, (x - d) % d;
      assert x - d == d * q' + r';
      assert d * (q' + 1) == d * q' + d;
      DivModUnique(x, d, q' + 1, r');
    }
  }

  /** The quotient of `x` by `d` rounded up: how many parcels of at most `d` hold `x`. */
  function Ceiling(x: nat, d: nat): (c: nat)
    requires d > 0
    ensures c == 0 <==> x == 0
  {
    if x == 0 then 0 else if x <= d then 1 else 1 + Ceiling(x - d, d)
  }

  lemma {:induction false} CeilingIsLeast(x: nat, d: nat)
    requires d > 0
    ensures x <= d * Ceiling(x, d)
    ensures x > 0 ==> d * (Ceiling(x, d) - 1) < x
  {
    if x > d {
      CeilingIsLeast(x - d, d);
      var c := Ceiling(x - d, d);
      assert d * (1 + c) == d + d * c && d * c == d + d * (c - 1);
    }
  }

  /** The rounded-up quotient by a power of two, computed with a shift and a mask. */
  lemma {:induction false} ShiftAndMaskIsCeiling(x: nat, k: nat)
    ensures ShiftRight(x, k) + (if BitAnd(x, Pow2(k) - 1) != 0 then 1 else 0) == Ceiling(x, Pow2(k))
  {
    ShiftIsDiv(x, k);
    MaskIsMod(x, k);
    QuotientCeiling(x, Pow2(k));
  }

  lemma {:induction false} QuotientCeiling(x: nat, d: nat)
    requires d > 0
    ensures x / d + (if x % d != 0 then 1 else 0) == Ceiling(x, d)
  {
    if x < d {
      DivModUnique(x, d, 0, x);
    } else if x == d {
      DivModUnique(x, d, 1, 0);
    } else {
      QuotientCeiling(x - d, d);
      OneDivisorMore(x, d);
    }
  }

  lemma {:induction false} OneDivisorMore(x: nat, d: nat)
    requires 0 < d <= x
    ensures x / d == (x - d) / d + 1 && x % d == (x - d) % d
  {
    var q, r := (x - d) / d, (x - d) % d;
    assert x - d == d * q + r;
    assert d * (q + 1) == d * q + d;
    DivModUnique(x, d, q + 1, r);
  }
}
