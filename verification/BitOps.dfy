/** Fixed-width machine words and their bit operators.

    A C unsigned word is a natural number below a power of two. The bit operators are defined on its
    binary digits, and the lemmas say what each operator does to every digit. */
module BitOps {

  function Pow2(k: nat): (r: nat)
    ensures r > 0
  {
    if k == 0 then 1 else 2 * Pow2(k - 1)
  }

  /** Digit `i` of `w`, least significant first. */
  predicate TestBit(w: nat, i: nat) {
    if i == 0 then w % 2 == 1 else TestBit(w / 2, i - 1)
  }

  function And(a: nat, b: nat): nat
    decreases a
  {
    if a == 0 then 0 else 2 * And(a / 2, b / 2) + if a % 2 == 1 && b % 2 == 1 then 1 else 0
  }

  function Or(a: nat, b: nat): nat
    decreases a + b
  {
    if a == 0 && b == 0 then 0
    else 2 * Or(a / 2, b / 2) + if a % 2 == 1 || b % 2 == 1 then 1 else 0
  }

  lemma {:induction false} ZeroBit(i: nat)
    ensures !TestBit(0, i)
  {
    if i == 0 {
    } else {
      ZeroBit(i - 1);
    }
  }

  lemma {:induction false} AndBit(a: nat, b: nat, i: nat)
    ensures TestBit(And(a, b), i) <==> TestBit(a, i) && TestBit(b, i)
    decreases i
  {
    if a == 0 {
      ZeroBit(i);
    } else if i > 0 {
      assert And(a, b) / 2 == And(a / 2, b / 2);
      AndBit(a / 2, b / 2, i - 1);
    }
  }

  lemma {:induction false} OrBit(a: nat, b: nat, i: nat)
    ensures TestBit(Or(a, b), i) <==> TestBit(a, i) || TestBit(b, i)
    decreases i
  {
    if a == 0 && b == 0 {
      ZeroBit(i);
    } else if i > 0 {
      assert Or(a, b) / 2 == Or(a / 2, b / 2);
      OrBit(a / 2, b / 2, i - 1);
    }
  }

  lemma {:induction false} OrRange(a: nat, b: nat, k: nat)
    requires a < Pow2(k) && b < Pow2(k)
    ensures Or(a, b) < Pow2(k)
  {
    if k == 0 || (a == 0 && b == 0) {
    } else {
      OrRange(a / 2, b / 2, k - 1);
    }
  }

  lemma {:induction false} AndRange(a: nat, b: nat)
    ensures And(a, b) <= a
  {
    if a == 0 {
    } else {
      AndRange(a / 2, b / 2);
    }
  }

  /** The complement within `k` digits. */
  lemma {:induction false} ComplementBit(w: nat, k: nat, i: nat)
    requires w < Pow2(k) && i < k
    ensures TestBit(Pow2(k) - 1 - w, i) <==> !TestBit(w, i)
  {
    if i == 0 {
    } else {
      assert (Pow2(k) - 1 - w) / 2 == Pow2(k - 1) - 1 - w / 2;
      ComplementBit(w / 2, k - 1, i - 1);
    }
  }

  lemma {:induction false} OnesBit(k: nat, i: nat)
    ensures TestBit(Pow2(k) - 1, i) <==> i < k
  {
    if k == 0 {
      ZeroBit(i);
    } else if i > 0 {
      assert (Pow2(k) - 1) / 2 == Pow2(k - 1) - 1;
      OnesBit(k - 1, i - 1);
    }
  }

  lemma {:induction false} ShlBit(w: nat, k: nat, i: nat)
    ensures TestBit(w * Pow2(k), i) <==> i >= k && TestBit(w, i - k)
  {
    if k == 0 {
    } else {
      assert w * Pow2(k) == 2 * (w * Pow2(k - 1));
      if i > 0 { ShlBit(w, k - 1, i - 1); }
    }
  }

  lemma {:induction false} TruncateBit(w: nat, k: nat, i: nat)
    ensures TestBit(w % Pow2(k), i) <==> i < k && TestBit(w, i)
  {
    if k == 0 {
      ZeroBit(i);
    } else {
      HalfOfMod(w, k);
      if i > 0 { TruncateBit(w / 2, k - 1, i - 1); }
    }
  }

  lemma HalfOfMod(w: nat, k: nat)
    requires k > 0
    ensures (w % Pow2(k)) / 2 == (w / 2) % Pow2(k - 1)
    ensures (w % Pow2(k)) % 2 == w % 2
  {
    HalfOfModDouble(w, Pow2(k - 1));
  }

  lemma HalfOfModDouble(w: nat, p: nat)
    requires p > 0
    ensures (w % (2 * p)) / 2 == (w / 2) % p
    ensures (w % (2 * p)) % 2 == w % 2
  {
    var q, r := w / 2 / p, w / 2 % p;
    var pq := p * q;
    Twice(p, q);
    assert w / 2 == pq + r;
    ModUnique(w, 2 * p, q, 2 * r + w % 2);
  }

  lemma Twice(p: nat, q: nat)
    ensures (2 * p) * q == 2 * (p * q)
  {
  }

  lemma {:induction false} ModUnique(x: nat, p: nat, q: nat, r: nat)
    requires p > 0 && x == p * q + r && r < p
    ensures x % p == r && x / p == q
  {
    var q', r' := x / p, x % p;
    assert p * q' + r' == x;
    if q' > q {
      MulGap(p, q, q');
    } else if q' < q {
      MulGap(p, q', q);
    }
  }

  lemma {:induction false} MulGap(p: nat, a: nat, b: nat)
    requires a < b
    ensures p * a + p <= p * b
  {
    assert p * b == p * (b - 1) + p;
    if a == b - 1 {
    } else {
      MulGap(p, a, b - 1);
    }
  }

  /** A word is zero exactly when no digit is set. */
  lemma {:induction false} NonZeroHasBit(w: nat, k: nat) returns (i: nat)
    requires 0 < w < Pow2(k)
    ensures i < k && TestBit(w, i)
  {
    if w % 2 == 1 {
      i := 0;
    } else {
      var j := NonZeroHasBit(w / 2, k - 1);
      i := j + 1;
    }
  }

  /** Words with the same digits are equal. */
  lemma {:induction false} BitsDetermineWord(a: nat, b: nat, k: nat)
    requires a < Pow2(k) && b < Pow2(k)
    requires forall i: nat :: i < k ==> (TestBit(a, i) <==> TestBit(b, i))
    ensures a == b
  {
    if k == 0 {
    } else {
      assert TestBit(a, 0) == TestBit(b, 0);
      forall i: nat | i < k - 1 ensures TestBit(a / 2, i) <==> TestBit(b / 2, i) {
        assert TestBit(a, i + 1) == TestBit(b, i + 1);
      }
      BitsDetermineWord(a / 2, b / 2, k - 1);
    }
  }

  /** `x & (2^k - 1)` keeps the low `k` digits. */
  lemma {:induction false} AndLowMask(x: nat, k: nat)
    ensures And(x, Pow2(k) - 1) == x % Pow2(k)
    decreases x
  {
    if k == 0 {
      AndZero(x);
    } else if x > 0 {
      hide And, Pow2;
      AndLowMask(x / 2, k - 1);
      HalfOfMod(x, k);
      LowMaskStep(x, k, x % Pow2(k));
    } else {
      ModUnique(0, Pow2(k), 0, 0);
    }
  }

  lemma LowMaskStep(x: nat, k: nat, r: nat)
    requires x > 0 && k > 0
    requires r / 2 == And(x / 2, Pow2(k - 1) - 1) && r % 2 == x % 2
    ensures And(x, Pow2(k) - 1) == r
  {
    var m := Pow2(k) - 1;
    assert m / 2 == Pow2(k - 1) - 1 && m % 2 == 1;
  }

  lemma {:induction false} AndZero(x: nat)
    ensures And(x, 0) == 0
  {
    if x == 0 {
    } else {
      AndZero(x / 2);
    }
  }

  lemma {:induction false} AndComm(a: nat, b: nat)
    ensures And(a, b) == And(b, a)
  {
    if a == 0 { AndZero(b); } else if b == 0 { AndZero(a); } else { AndComm(a / 2, b / 2); }
  }

  /** Or-ing words without common digits adds them. */
  lemma {:induction false} OrDisjoint(hi: nat, lo: nat, k: nat)
    requires lo < Pow2(k)
    ensures Or(hi * Pow2(k), lo) == hi * Pow2(k) + lo
  {
    if k == 0 {
      OrZero(hi);
    } else {
      assert hi * Pow2(k) == 2 * (hi * Pow2(k - 1));
      OrDisjoint(hi, lo / 2, k - 1);
    }
  }

  lemma {:induction false} OrZero(x: nat)
    ensures Or(x, 0) == x
  {
    if x == 0 {
    } else {
      OrZero(x / 2);
    }
  }
}
