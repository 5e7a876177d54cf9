/** Bitwise operations on natural numbers, so that packed words can be written
    with the same masks and shifts as in C.  A right shift by `k` is a division by
    `Pow2(k)`; the lemmas turn the mask idioms of the kernel into arithmetic. */
module Bits {

  function Pow2(n: nat): (r: nat)
    ensures r >= 1
  {
    if n == 0 then 1 else 2 * Pow2(n - 1)
  }

  function And(a: nat, b: nat): nat {
    if a == 0 || b == 0 then 0
    else 2 * And(a / 2, b / 2) + (if a % 2 == 1 && b % 2 == 1 then 1 else 0)
  }

  function Or(a: nat, b: nat): nat {
    if a == 0 then b
    else if b == 0 then a
    else 2 * Or(a / 2, b / 2) + (if a % 2 == 1 || b % 2 == 1 then 1 else 0)
  }

  lemma ModDouble(e: nat, p: nat)
    requires p >= 1
    ensures e % (2 * p) == 2 * ((e / 2) % p) + e % 2
  {
    var q, r := (e / 2) / p, (e / 2) % p;
    assert e / 2 == p * q + r;
    assert e == (2 * p) * q + (2 * r + e % 2);
    assert 0 <= 2 * r + e % 2 < 2 * p;
    DivModUnique(e, 2 * p, q, 2 * r + e % 2);
  }

  lemma MulAtLeast(d: nat, x: int)
    requires x >= 1
    ensures d * x >= d
  {
  }

  lemma DivMod(e: nat, d: nat)
    requires d >= 1
    ensures e == d * (e / d) + e % d && 0 <= e % d < d
  {
  }

  lemma DivModUnique(e: nat, d: nat, q: int, r: int)
    requires d >= 1
    requires e == d * q + r && 0 <= r < d
    ensures e / d == q && e % d == r
  {
    var q', r' := e / d, e % d;
    DivMod(e, d);
    var x := q' - q;
    assert d * x == d * q' - d * q;
    if x >= 1 {
      MulAtLeast(d, x);
    } else if x <= -1 {
      MulAtLeast(d, -x);
    }
  }

  /** Or-ing disjoint bits adds them. */
  lemma {:induction false} OrDisjoint(a: nat, b: nat)
    requires And(a, b) == 0
    ensures Or(a, b) == a + b
    decreases a
  {
    if a > 0 && b > 0 { OrDisjoint(a / 2, b / 2); }
  }

  /** The low `n` bits of `e`. */
  function Low(e: nat, n: nat): nat
    decreases n
  {
    if n == 0 then 0 else 2 * Low(e / 2, n - 1) + e % 2
  }

  lemma {:induction false} LowIsMod(e: nat, n: nat)
    ensures Low(e, n) == e % Pow2(n)
    decreases n
  {
    if n > 0 {
      LowIsMod(e / 2, n - 1);
      ModDouble(e, Pow2(n - 1));
    }
  }

  lemma {:induction false} LowZero(n: nat)
    ensures Low(0, n) == 0
  {
    if n > 0 { LowZero(n - 1); }
  }

  lemma {:induction false} AndIsLow(e: nat, n: nat)
    ensures And(e, Pow2(n) - 1) == Low(e, n)
    decreases n
  {
    if n > 0 {
      LowZero(n);
      AndIsLow(e / 2, n - 1);
      assert (Pow2(n) - 1) / 2 == Pow2(n - 1) - 1 && (Pow2(n) - 1) % 2 == 1;
    }
  }

  lemma {:induction false} Pow2Mono(k: nat, n: nat)
    requires k <= n
    ensures Pow2(k) <= Pow2(n)
    decreases n
  {
    if k < n { Pow2Mono(k, n - 1); }
  }

  lemma {:induction false} AndIsField(e: nat, n: nat, k: nat)
    requires k <= n
    ensures Pow2(k) <= Pow2(n)
    ensures And(e, Pow2(n) - Pow2(k)) == Low(e, n) - Low(e, k)
    decreases k
  {
    Pow2Mono(k, n);
    if k == 0 {
      AndIsLow(e, n);
    } else if e == 0 {
      LowZero(n);
      LowZero(k);
    } else {
      AndIsField(e / 2, n - 1, k - 1);
      assert (Pow2(n) - Pow2(k)) / 2 == Pow2(n - 1) - Pow2(k - 1);
      assert (Pow2(n) - Pow2(k)) % 2 == 0;
    }
  }

  /** Masking with ones in positions `k` up to `n`. */
  lemma AndField(e: nat, n: nat, k: nat)
    requires k <= n
    ensures Pow2(k) <= Pow2(n)
    ensures And(e, Pow2(n) - Pow2(k)) == e % Pow2(n) - e % Pow2(k)
  {
    AndIsField(e, n, k);
    LowIsMod(e, n);
    LowIsMod(e, k);
  }

  /** Setting a field whose bits, positions `k` up to `n`, are all clear in `e`. */
  lemma OrField(e: nat, n: nat, k: nat)
    requires k <= n
    requires e % Pow2(n) == e % Pow2(k)
    ensures Pow2(k) <= Pow2(n)
    ensures Or(e, Pow2(n) - Pow2(k)) == e + (Pow2(n) - Pow2(k))
  {
    AndField(e, n, k);
    OrDisjoint(e, Pow2(n) - Pow2(k));
  }

  lemma {:induction false} Pow2Add(a: nat, b: nat)
    ensures Pow2(a + b) == Pow2(a) * Pow2(b)
  {
    if a > 0 { Pow2Add(a - 1, b); }
  }

  lemma Powers()
    ensures Pow2(1) == 2 && Pow2(2) == 4 && Pow2(3) == 8 && Pow2(6) == 0x40 && Pow2(9) == 0x200
    ensures Pow2(10) == 0x400 && Pow2(11) == 0x800 && Pow2(12) == 0x1000 && Pow2(16) == 0x1_0000
    ensures Pow2(30) == 0x4000_0000 && Pow2(32) == 0x1_0000_0000
    ensures Pow2(48) == 0x1_0000_0000_0000 && Pow2(53) == 0x20_0000_0000_0000
    ensures Pow2(64) == 0x1_0000_0000_0000_0000
  {
    assert Pow2(16) == 0x1_0000;
    assert Pow2(21) == 0x20_0000;
    Pow2Add(16, 16);
    Pow2Add(32, 16);
    Pow2Add(32, 21);
    Pow2Add(48, 16);
    Pow2Add(16, 14);
  }
}
