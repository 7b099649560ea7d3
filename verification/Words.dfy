/** Unsigned machine words as natural numbers: powers of two, single bits, shifts and bitwise or.
    A `w`-bit word is a number below `Pow2(w)`; truncation to it is `Low(_, w)`. */
module Words {

  function Pow2(n: nat): (p: nat)
    ensures p > 0
  {
    if n == 0 then 1 else 2 * Pow2(n - 1)
  }

  /** Bit `k` of the word `m`, counting from the least significant one. */
  predicate Bit(m: nat, k: nat) {
    if k == 0 then m % 2 == 1 else Bit(m / 2, k - 1)
  }

  /** Bitwise or. */
  function Or(a: nat, b: nat): nat {
    if a == 0 then b
    else if b == 0 then a
    else (if a % 2 == 1 || b % 2 == 1 then 1 else 0) + 2 * Or(a / 2, b / 2)
  }

  /** `m` times two to the `n`. */
  function Scale(m: nat, n: nat): nat {
    if n == 0 then m else 2 * Scale(m, n - 1)
  }

  /** The low `width` bits of `m`: what is left of it in a word of that width. */
  function Low(m: nat, width: nat): nat {
    if width == 0 then 0 else m % 2 + 2 * Low(m / 2, width - 1)
  }

  /** `m << s` in a word of the given width. */
  function ShiftLeft(m: nat, s: nat, width: nat): nat {
    Low(Scale(m, s), width)
  }

  lemma {:induction false} ZeroBit(k: nat)
    ensures !Bit(0, k)
  {
    if k > 0 {
      ZeroBit(k - 1);
    }
  }

  lemma {:induction false} OrBit(a: nat, b: nat, k: nat)
    ensures Bit(Or(a, b), k) <==> Bit(a, k) || Bit(b, k)
  {
    if a == 0 || b == 0 {
      ZeroBit(k);
    } else if k > 0 {
      OrBit(a / 2, b / 2, k - 1);
    }
  }

  lemma {:induction false} Pow2Bit(j: nat, k: nat)
    ensures Bit(Pow2(j), k) <==> j == k
  {
    if j == 0 {
      if k > 0 {
        ZeroBit(k - 1);
      }
    } else if k > 0 {
      Pow2Bit(j - 1, k - 1);
    }
  }

  lemma {:induction false} Pow2IsScale(n: nat)
    ensures Scale(1, n) == Pow2(n)
  {
    if n > 0 {
      Pow2IsScale(n - 1);
    }
  }

  lemma {:induction false} ScaleSum(a: nat, b: nat, n: nat)
    ensures Scale(a + b, n) == Scale(a, n) + Scale(b, n)
  {
    if n > 0 {
      ScaleSum(a, b, n - 1);
    }
  }

  lemma {:induction false} ScaleMonotone(a: nat, b: nat, n: nat)
    ensures a <= b ==> Scale(a, n) <= Scale(b, n)
    ensures a < b ==> Scale(a, n) < Scale(b, n)
  {
    if n > 0 {
      ScaleMonotone(a, b, n - 1);
    }
  }

  lemma {:induction false} ScaleAdd(m: nat, a: nat, b: nat)
    ensures Scale(m, a + b) == Scale(Scale(m, a), b)
  {
    if b > 0 {
      ScaleAdd(m, a, b - 1);
    }
  }

  /** Shifting by seven and by eight bits. */
  lemma ScaleByte(m: nat)
    ensures Scale(m, 7) == 128 * m && Scale(m, 8) == 256 * m
    ensures Pow2(7) == 128 && Pow2(8) == 256
  {
    assert Scale(m, 1) == 2 * m && Pow2(1) == 2;
    assert Scale(m, 2) == 4 * m && Pow2(2) == 4;
    assert Scale(m, 3) == 8 * m && Pow2(3) == 8;
    assert Scale(m, 4) == 16 * m && Pow2(4) == 16;
    assert Scale(m, 5) == 32 * m && Pow2(5) == 32;
    assert Scale(m, 6) == 64 * m && Pow2(6) == 64;
  }

  lemma Pow2Add(a: nat, b: nat)
    ensures Pow2(a + b) == Scale(Pow2(a), b)
  {
    Pow2IsScale(a);
    Pow2IsScale(a + b);
    ScaleAdd(1, a, b);
  }

  lemma {:induction false} Pow2Monotone(a: nat, b: nat)
    requires a <= b
    ensures Pow2(a) <= Pow2(b)
  {
    if a < b {
      Pow2Monotone(a, b - 1);
    }
  }

  lemma {:induction false} ScaledBit(m: nat, s: nat, k: nat)
    ensures Bit(Scale(m, s), k) <==> k >= s && Bit(m, k - s)
  {
    if s > 0 && k > 0 {
      ScaledBit(m, s - 1, k - 1);
    }
  }

  lemma ModUnique(x: nat, p: nat, q: nat, r: nat)
    requires p > 0 && x == q * p + r && r < p
    ensures x % p == r && x / p == q
  {
    var q', r' := x / p, x % p;
    assert x == q' * p + r';
    if q' < q {
      MulStep(q', q, p);
    } else if q < q' {
      MulStep(q, q', p);
    }
  }

  lemma {:induction false} MulStep(a: nat, b: nat, p: nat)
    requires a < b
    ensures a * p + p <= b * p
  {
    var c := b - 1;
    assert b * p == c * p + p;
    if a < c {
      MulStep(a, c, p);
    }
  }

  lemma {:induction false} LowBit(m: nat, width: nat, k: nat)
    ensures Bit(Low(m, width), k) <==> k < width && Bit(m, k)
  {
    if width == 0 {
      ZeroBit(k);
    } else if k > 0 {
      LowBit(m / 2, width - 1, k - 1);
    }
  }

  lemma {:induction false} LowSmall(m: nat, width: nat)
    requires m < Pow2(width)
    ensures Low(m, width) == m
  {
    if width > 0 {
      LowSmall(m / 2, width - 1);
    }
  }

  lemma {:induction false} LowFits(m: nat, width: nat)
    ensures Low(m, width) < Pow2(width)
  {
    if width > 0 {
      LowFits(m / 2, width - 1);
    }
  }

  /** Of a shifted number, the bits that fit are the shifted low bits. */
  lemma {:induction false} LowScale(m: nat, s: nat, width: nat)
    ensures Low(Scale(m, s), s + width) == Scale(Low(m, width), s)
  {
    if s > 0 {
      LowScale(m, s - 1, width);
    }
  }

  /** Shifting a word left moves bit `k - s` to bit `k` and drops what leaves the word. */
  lemma ShiftLeftBit(m: nat, s: nat, width: nat, k: nat)
    ensures Bit(ShiftLeft(m, s, width), k) <==> s <= k < width && Bit(m, k - s)
  {
    LowBit(Scale(m, s), width, k);
    ScaledBit(m, s, k);
  }

  lemma {:induction false} OrFits(a: nat, b: nat, width: nat)
    requires a < Pow2(width) && b < Pow2(width)
    ensures Or(a, b) < Pow2(width)
  {
    if a != 0 && b != 0 {
      OrFits(a / 2, b / 2, width - 1);
    }
  }

  /** When the set bits of `b` lie above those of `a`, or is addition. */
  lemma {:induction false} OrIsAdd(a: nat, b: nat, s: nat)
    requires a < Pow2(s)
    ensures Or(a, Scale(b, s)) == a + Scale(b, s)
  {
    if a != 0 && Scale(b, s) != 0 {
      OrIsAdd(a / 2, b, s - 1);
    }
  }

  function ShiftRight(m: nat, s: nat): nat {
    if s == 0 then m else ShiftRight(m / 2, s - 1)
  }

  /** Shifting a word of ones right leaves fewer ones. */
  lemma {:induction false} OnesShiftRight(n: nat, s: nat)
    requires s <= n
    ensures ShiftRight(Pow2(n) - 1, s) == Pow2(n - s) - 1
  {
    if s > 0 {
      assert (Pow2(n) - 1) / 2 == Pow2(n - 1) - 1;
      OnesShiftRight(n - 1, s - 1);
    }
  }

  lemma {:induction false} OnesBit(n: nat, k: nat)
    ensures Bit(Pow2(n) - 1, k) <==> k < n
  {
    if n == 0 {
      ZeroBit(k);
    } else if k > 0 {
      assert (Pow2(n) - 1) / 2 == Pow2(n - 1) - 1;
      OnesBit(n - 1, k - 1);
    }
  }

  /** A word is determined by its bits. */
  lemma {:induction false} SameBits(a: nat, b: nat, n: nat)
    requires a < Pow2(n) && b < Pow2(n)
    requires forall k: nat :: k < n ==> (Bit(a, k) <==> Bit(b, k))
    ensures a == b
  {
    if n > 0 {
      assert Bit(a, 0) <==> Bit(b, 0);
      forall k: nat | k < n - 1
        ensures Bit(a / 2, k) <==> Bit(b / 2, k)
      {
        assert Bit(a, k + 1) <==> Bit(b, k + 1);
      }
      SameBits(a / 2, b / 2, n - 1);
    }
  }
}
