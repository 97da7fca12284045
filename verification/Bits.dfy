/** Unsigned machine words as natural numbers, with C's bitwise operators defined
    bit by bit and each characterised by the single bits of its result. */
module Bits {

  const TWO32: nat := 0x1_0000_0000

  type u32 = n: nat | n < TWO32

  function Pow2(n: nat): (r: nat)
    ensures r > 0
  {
    if n == 0 then 1 else 2 * Pow2(n - 1)
  }

  /** Bit `k` of `w`, counted from the least significant one. */
  predicate Bit(w: nat, k: nat) {
    if k == 0 then w % 2 == 1 else Bit(w / 2, k - 1)
  }

  function Max(a: nat, b: nat): nat {
    if a < b then b else a
  }

  function B2N(b: bool): nat {
    if b then 1 else 0
  }

  function And(a: nat, b: nat): nat {
    if a == 0 || b == 0 then 0
    else 2 * And(a / 2, b / 2) + B2N(a % 2 == 1 && b % 2 == 1)
  }

  function Or(a: nat, b: nat): nat
    decreases a + b
  {
    if a == 0 && b == 0 then 0
    else 2 * Or(a / 2, b / 2) + B2N(a % 2 == 1 || b % 2 == 1)
  }

  function Xor(a: nat, b: nat): nat
    decreases a + b
  {
    if a == 0 && b == 0 then 0
    else 2 * Xor(a / 2, b / 2) + B2N((a % 2 == 1) != (b % 2 == 1))
  }

  /** One's complement in a 32-bit register. */
  function Not32(a: nat): u32
    requires a < TWO32
  {
    TWO32 - 1 - a
  }

  function Shl(w: nat, s: nat): nat {
    w * Pow2(s)
  }

  function Shr(w: nat, s: nat): nat {
    if s == 0 then w else Shr(w / 2, s - 1)
  }

  lemma {:induction false} BitAnd(a: nat, b: nat, k: nat)
    ensures Bit(And(a, b), k) <==> Bit(a, k) && Bit(b, k)
    decreases k
  {
    if a == 0 || b == 0 {
      BitZero(k);
    } else if k > 0 {
      BitAnd(a / 2, b / 2, k - 1);
    }
  }

  lemma {:induction false} BitOr(a: nat, b: nat, k: nat)
    ensures Bit(Or(a, b), k) <==> Bit(a, k) || Bit(b, k)
    decreases k
  {
    if a == 0 && b == 0 {
      BitZero(k);
    } else if k > 0 {
      BitOr(a / 2, b / 2, k - 1);
    }
  }

  lemma {:induction false} BitXor(a: nat, b: nat, k: nat)
    ensures Bit(Xor(a, b), k) <==> (Bit(a, k) != Bit(b, k))
    decreases k
  {
    if a == 0 && b == 0 {
      BitZero(k);
    } else if k > 0 {
      BitXor(a / 2, b / 2, k - 1);
    }
  }

  lemma {:induction false} BitZero(k: nat)
    ensures !Bit(0, k)
  {
    if k > 0 {
      BitZero(k - 1);
    }
  }

  lemma {:induction false} SomeBit(w: nat) returns (k: nat)
    requires w != 0
    ensures Bit(w, k)
  {
    if w % 2 == 1 {
      k := 0;
    } else {
      k := SomeBit(w / 2);
      k := k + 1;
    }
  }

  lemma {:induction false} BitPow2(j: nat, k: nat)
    ensures Bit(Pow2(j), k) <==> j == k
  {
    if j == 0 {
      if k > 0 {
        BitZero(k - 1);
      }
    } else if k > 0 {
      BitPow2(j - 1, k - 1);
    }
  }

  lemma {:induction false} AndPow2(a: nat, k: nat)
    ensures And(a, Pow2(k)) != 0 <==> Bit(a, k)
  {
    if a == 0 {
      BitZero(k);
    } else if k > 0 {
      AndPow2(a / 2, k - 1);
    } else {
      assert And(a / 2, 0) == 0;
    }
  }

  /** A word of `n` bits has nothing above them, and bits decide it. */
  lemma {:induction false} BitHigh(w: nat, n: nat, k: nat)
    requires w < Pow2(n) && n <= k
    ensures !Bit(w, k)
  {
    if n == 0 {
      BitZero(k);
    } else {
      BitHigh(w / 2, n - 1, k - 1);
    }
  }

  lemma {:induction false} SameBits(a: nat, b: nat, n: nat)
    requires a < Pow2(n) && b < Pow2(n)
    requires forall k: nat :: k < n ==> Bit(a, k) == Bit(b, k)
    ensures a == b
  {
    if n > 0 {
      forall k: nat | k < n - 1
        ensures Bit(a / 2, k) == Bit(b / 2, k)
      {
        assert Bit(a, k + 1) == Bit(b, k + 1);
      }
      SameBits(a / 2, b / 2, n - 1);
      assert Bit(a, 0) == Bit(b, 0);
    }
  }

  /** `hi` placed above an `n`-bit `lo`. */
  lemma {:induction false} BitJoin(hi: nat, lo: nat, n: nat, k: nat)
    requires lo < Pow2(n)
    ensures Bit(hi * Pow2(n) + lo, k) <==> if k < n then Bit(lo, k) else Bit(hi, k - n)
  {
    if n > 0 {
      assert hi * Pow2(n) == 2 * (hi * Pow2(n - 1));
      assert (hi * Pow2(n) + lo) / 2 == hi * Pow2(n - 1) + lo / 2;
      if k > 0 {
        BitJoin(hi, lo / 2, n - 1, k - 1);
      }
    }
  }

  lemma {:induction false} BitMod(w: nat, n: nat, k: nat)
    ensures Bit(w % Pow2(n), k) <==> k < n && Bit(w, k)
  {
    if n == 0 {
      BitZero(k);
    } else {
      var p := Pow2(n - 1);
      assert Pow2(n) == 2 * p;
      hide *;
      DivMod2(w, p);
      BitCons((w / 2) % p, w % 2, k);
      BitCons(w / 2, w % 2, k);
      if k > 0 {
        BitMod(w / 2, n - 1, k - 1);
      }
    }
  }

  lemma BitCons(w: nat, b: nat, k: nat)
    requires b < 2
    ensures Bit(2 * w + b, k) <==> if k == 0 then b == 1 else Bit(w, k - 1)
  {
    assert (2 * w + b) / 2 == w;
  }

  lemma {:induction false} BitShr(w: nat, s: nat, k: nat)
    ensures Bit(Shr(w, s), k) <==> Bit(w, s + k)
  {
    if s > 0 {
      BitShr(w / 2, s - 1, k);
    }
  }

  lemma {:induction false} Pow2Mono(m: nat, n: nat)
    requires m <= n
    ensures Pow2(m) <= Pow2(n)
  {
    if m < n {
      Pow2Mono(m, n - 1);
    }
  }

  lemma {:induction false} Pow2Strict(m: nat, n: nat)
    requires m < n
    ensures Pow2(m) < Pow2(n)
  {
    Pow2Mono(m, n - 1);
  }

  lemma {:induction false} AndBound(a: nat, b: nat)
    ensures And(a, b) <= a && And(a, b) <= b
  {
    if a != 0 && b != 0 {
      AndBound(a / 2, b / 2);
    }
  }

  lemma {:induction false} OrBound(a: nat, b: nat, n: nat)
    requires a < Pow2(n) && b < Pow2(n)
    ensures Or(a, b) < Pow2(n)
  {
    if n > 0 {
      OrBound(a / 2, b / 2, n - 1);
    }
  }

  lemma {:induction false} XorBound(a: nat, b: nat, n: nat)
    requires a < Pow2(n) && b < Pow2(n)
    ensures Xor(a, b) < Pow2(n)
  {
    if n > 0 {
      XorBound(a / 2, b / 2, n - 1);
    }
  }

  lemma {:induction false} ShlShr(w: nat, n: nat)
    ensures Shr(w, n) == w / Pow2(n)
  {
    if n > 0 {
      ShlShr(w / 2, n - 1);
      DivMod2(w, Pow2(n - 1));
    }
  }

  lemma DivMod2(w: nat, d: nat)
    requires d > 0
    ensures w / (2 * d) == (w / 2) / d
    ensures w % (2 * d) == 2 * ((w / 2) % d) + w % 2
  {
    var q, r := (w / 2) / d, (w / 2) % d;
    assert w == 2 * (q * d + r) + w % 2;
    assert w == q * (2 * d) + (2 * r + w % 2);
    DivUnique(w, 2 * d, q, 2 * r + w % 2);
  }

  lemma DivUnique(w: nat, d: nat, q: int, r: nat)
    requires w == q * d + r && r < d
    ensures w / d == q && w % d == r
  {
    var q', r' := w / d, w % d;
    assert w == q' * d + r';
    assert (q - q') * d == r' - r;
    if q > q' {
      AtLeast(q - q', d);
    } else if q < q' {
      assert (q' - q) * d == r - r';
      AtLeast(q' - q, d);
    }
  }

  lemma {:induction false} AtLeast(x: nat, d: nat)
    requires x > 0
    ensures x * d >= d
  {
    if x > 1 {
      AtLeast(x - 1, d);
      assert x * d == (x - 1) * d + d;
    }
  }

  lemma SameMod(x: nat, y: nat, m: nat)
    requires x <= y && m > 0
    ensures x % m == y % m <==> (y - x) % m == 0
  {
    SameModAt(x, y, m, x / m, x % m, y / m, y % m, (y - x) / m, (y - x) % m);
  }

  lemma SameModAt(x: nat, y: nat, m: nat, qx: int, rx: nat, qy: int, ry: nat, q: int, r: nat)
    requires rx < m && ry < m && r < m && x <= y
    requires x == qx * m + rx && y == qy * m + ry && y - x == q * m + r
    ensures rx == ry <==> r == 0
  {
    if rx == ry {
      assert y - x == (qy - qx) * m + 0;
      DivUnique(y - x, m, qy - qx, 0);
      DivUnique(y - x, m, q, r);
    } else if r == 0 {
      assert y == (qx + q) * m + rx;
      DivUnique(y, m, qx + q, rx);
      DivUnique(y, m, qy, ry);
    }
  }

  /** The next of `n` places on a circle. */
  function Up(k: nat, n: nat): nat {
    if k + 1 == n then 0 else k + 1
  }

  lemma ModStep(n: nat, m: nat)
    requires m > 0
    ensures (n + 1) % m == Up(n % m, m)
  {
    ModStepAt(n, m, n / m, n % m);
  }

  lemma ModStepAt(n: nat, m: nat, q: nat, r: nat)
    requires r < m && n == q * m + r
    ensures (n + 1) % m == Up(r, m)
  {
    if r + 1 < m {
      DivUnique(n + 1, m, q, r + 1);
    } else {
      assert n + 1 == (q + 1) * m;
      DivUnique(n + 1, m, q + 1, 0);
    }
  }

  lemma ModSucc(n: nat, m: nat)
    requires m > 0
    ensures (n % m + 1) % m == (n + 1) % m
  {
    ModStep(n, m);
    ModStep(n % m, m);
    assert n % m % m == n % m by { DivUnique(n % m, m, 0, n % m); }
  }

  /** The complement of an `n`-bit word flips each of its bits. */
  lemma {:induction false} BitComplement(w: nat, n: nat, k: nat)
    requires w < Pow2(n)
    ensures Bit(Pow2(n) - 1 - w, k) <==> k < n && !Bit(w, k)
  {
    if n == 0 {
      BitZero(k);
    } else if k > 0 {
      assert (Pow2(n) - 1 - w) / 2 == Pow2(n - 1) - 1 - w / 2;
      BitComplement(w / 2, n - 1, k - 1);
    }
  }

  /** Masking with `2^n - 1` keeps the low `n` bits. */
  lemma {:induction false} AndLow(w: nat, n: nat)
    ensures And(w, Pow2(n) - 1) == w % Pow2(n)
  {
    var m := Pow2(n) - 1;
    AndBound(w, m);
    forall k: nat | k < n
      ensures Bit(And(w, m), k) == Bit(w % Pow2(n), k)
    {
      BitAnd(w, m, k);
      BitMod(w, n, k);
      BitZero(k);
      BitComplement(0, n, k);
    }
    SameBits(And(w, m), w % Pow2(n), n);
  }

  /** Or of words without a common one bit is their sum. */
  lemma {:induction false} OrJoin(hi: nat, lo: nat, n: nat)
    requires lo < Pow2(n)
    ensures Or(hi * Pow2(n), lo) == hi * Pow2(n) + lo
  {
    if n == 0 {
      OrZero(hi);
    } else {
      assert hi * Pow2(n) == 2 * (hi * Pow2(n - 1));
      OrJoin(hi, lo / 2, n - 1);
    }
  }

  lemma {:induction false} OrZero(a: nat)
    ensures Or(a, 0) == a
  {
    if a != 0 {
      OrZero(a / 2);
    }
  }

  lemma Pow2Values()
    ensures Pow2(7) == 0x80 && Pow2(8) == 0x100 && Pow2(13) == 0x2000
    ensures Pow2(15) == 0x8000 && Pow2(16) == 0x1_0000 && Pow2(25) == 0x200_0000
    ensures Pow2(31) == 0x8000_0000 && Pow2(32) == TWO32
  {
    assert Pow2(8) == 0x100;
    assert Pow2(13) == 0x2000;
    assert Pow2(16) == 0x1_0000;
    assert Pow2(24) == 0x100_0000;
    assert Pow2(32) == TWO32;
  }
}
