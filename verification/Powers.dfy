/** Powers of two, and the few facts about division the rest of the project needs. */
module Powers {
  function Pow2(n: nat): (r: nat)
    ensures r > 0
  {
    if n == 0 then 1 else 2 * Pow2(n - 1)
  }

  lemma {:induction false} Pow2Grows(m: nat, n: nat)
    requires m <= n
    ensures Pow2(m) <= Pow2(n)
  {
    if m < n { Pow2Grows(m, n - 1); }
  }

  lemma {:induction false} Pow2Double(n: nat)
    ensures Pow2(2 * n) == Pow2(n) * Pow2(n)
  {
    if n > 0 {
      Pow2Double(n - 1);
      assert Pow2(2 * n) == 2 * Pow2(2 * n - 1) == 4 * Pow2(2 * (n - 1));
      assert Pow2(n) == 2 * Pow2(n - 1);
    }
  }

  lemma {:induction false} Square(a: nat, b: nat)
    requires a <= b
    ensures a * a <= b * b
  {
  }

  lemma {:induction false} Pow2Add(m: nat, n: nat)
    ensures Pow2(m + n) == Pow2(m) * Pow2(n)
  {
    if m > 0 {
      Pow2Add(m - 1, n);
      assert Pow2(m) * Pow2(n) == 2 * (Pow2(m - 1) * Pow2(n));
    }
  }

  lemma {:induction false} Pow2Values()
    ensures Pow2(10) == 1024 && Pow2(22) == 0x40_0000 && Pow2(32) == 0x1_0000_0000
    ensures Pow2(64) == 0x1_0000_0000_0000_0000
  {
    assert Pow2(5) == 32;
    Pow2Double(5);
    Pow2Add(10, 1);
    Pow2Double(11);
    Pow2Add(22, 10);
    Pow2Double(32);
  }

  /** `a >> n`. */
  function Shr(a: nat, n: nat): nat {
    if n == 0 then a else Shr(a / 2, n - 1)
  }

  /** The bits a shift drops. */
  lemma {:induction false} Dropped(a: nat, n: nat) returns (rem: nat)
    ensures a == Shr(a, n) * Pow2(n) + rem && rem < Pow2(n)
  {
    if n == 0 {
      rem := 0;
    } else {
      var rem' := Dropped(a / 2, n - 1);
      rem := 2 * rem' + a % 2;
      Doubled(Shr(a, n), Pow2(n - 1), rem', a / 2);
    }
  }

  lemma {:induction false} Doubled(q: nat, b: nat, r: nat, h: nat)
    requires h == q * b + r
    ensures 2 * h == q * (2 * b) + 2 * r
  {
  }

  /** A shift is known by the bits it drops. */
  lemma {:induction false} ShrIs(a: nat, n: nat, q: nat, rem: nat)
    requires a == q * Pow2(n) + rem && rem < Pow2(n)
    ensures Shr(a, n) == q
  {
    var rem' := Dropped(a, n);
    SameQuotient(Pow2(n), q, rem, Shr(a, n), rem');
  }

  lemma {:induction false} SameQuotient(b: int, q: int, r: int, q': int, r': int)
    requires b > 0 && q * b + r == q' * b + r' && 0 <= r < b && 0 <= r' < b
    ensures q == q' && r == r'
  {
    if q' > q {
      MulStep(q' - q, b);
    } else if q > q' {
      MulStep(q - q', b);
    }
  }

  lemma {:induction false} MulStep(n: int, b: int)
    requires n >= 1 && b >= 0
    ensures n * b >= b
  {
  }

  lemma {:induction false} MulMono(a: nat, a': nat, b: nat, b': nat)
    requires a <= a' && b <= b'
    ensures a * b <= a' * b'
  {
  }

  lemma {:induction false} ShrGrows(a: nat, a': nat, n: nat)
    requires a <= a'
    ensures Shr(a, n) <= Shr(a', n) <= a'
  {
    if n > 0 { ShrGrows(a / 2, a' / 2, n - 1); }
  }

  lemma {:induction false} ShrShr(a: nat, m: nat, n: nat)
    ensures Shr(Shr(a, m), n) == Shr(a, m + n)
  {
    if m > 0 { ShrShr(a / 2, m - 1, n); }
  }

  /** Shifting the low zeros of a product away. */
  lemma {:induction false} ShrCancel(a: nat, m: nat, n: nat)
    ensures Shr(a * Pow2(n), m + n) == Shr(a, m)
  {
    ShrExact(a, n);
    ShrShr(a * Pow2(n), n, m);
  }

  lemma {:induction false} ShrExact(a: nat, n: nat)
    ensures Shr(a * Pow2(n), n) == a
  {
    ShrIs(a * Pow2(n), n, a, 0);
  }
}
