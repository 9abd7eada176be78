/** Powers of two, and remainders modulo a number and modulo its multiples. */
module Arith {
  /** One more than the largest 32-bit number. */
  const WORD: nat := 0x1_0000_0000

  function Pow2(n: nat): (r: nat)
    ensures r >= 1
  {
    if n == 0 then 1 else 2 * Pow2(n - 1)
  }

  lemma {:induction false} Pow2Mono(m: nat, n: nat)
    requires m <= n
    ensures Pow2(m) <= Pow2(n)
  {
    if m < n {
      Pow2Mono(m, n - 1);
    }
  }

  lemma {:induction false} Pow2Add(m: nat, n: nat)
    ensures Pow2(m + n) == Pow2(m) * Pow2(n)
    decreases n
  {
    if n > 0 {
      Pow2Add(m, n - 1);
      assert Pow2(m) * (2 * Pow2(n - 1)) == 2 * (Pow2(m) * Pow2(n - 1));
    }
  }

  lemma AddModulus(a: nat, n: nat)
    requires n >= 1
    ensures (a + n) % n == a % n
  {
    var q, r := a / n, a % n;
    assert a + n == (q + 1) * n + r;
    Unique(a + n, n, q + 1, r);
  }

  lemma Unique(a: nat, n: nat, q: nat, r: nat)
    requires n >= 1 && a == q * n + r && r < n
    ensures a / n == q && a % n == r
  {
    var q', r' := a / n, a % n;
    assert q * n + r == q' * n + r';
    if q < q' {
      Mono(q + 1, q', n);
    } else if q' < q {
      Mono(q' + 1, q, n);
    }
  }

  lemma Mono(a: nat, b: nat, n: nat)
    requires a <= b
    ensures a * n <= b * n
  {
    assert b * n == a * n + (b - a) * n;
  }

  lemma {:induction false} AddMultiple(a: nat, n: nat, k: nat)
    requires n >= 1
    ensures (a + k * n) % n == a % n
    decreases k
  {
    if k > 0 {
      AddMultiple(a, n, k - 1);
      assert a + k * n == (a + (k - 1) * n) + n;
      AddModulus(a + (k - 1) * n, n);
    }
  }

  /** Reducing modulo a multiple of n first changes nothing. */
  lemma ModMod(a: nat, n: nat, m: nat, k: nat)
    requires n >= 1 && m >= 1 && m == k * n
    ensures (a % m) % n == a % n
  {
    var t, r := a / m, a % m;
    assert a == r + (t * k) * n by {
      assert t * (k * n) == (t * k) * n;
    }
    AddMultiple(r, n, t * k);
  }

  /** Two positions less than n apart fall on different slots of a ring of n. */
  lemma DistinctSlots(a: nat, b: nat, n: nat)
    requires n >= 1 && a < b < a + n
    ensures a % n != b % n
  {
    var qa, qb := a / n, b / n;
    assert a == qa * n + a % n && b == qb * n + b % n;
    if qa < qb {
      Mono(qa + 2, qb + 1, n);
    } else {
      Mono(qb, qa, n);
    }
  }
}
