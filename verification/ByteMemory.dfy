/** Byte-addressed memory with little-endian loads and stores. */
module ByteMemory {

  type Byte = b: nat | b < 256

  /** Bytes never written read as 0. */
  type Bytes = map<nat, Byte>

  function Get(m: Bytes, a: nat): Byte { if a in m then m[a] else 0 }

  function Pow256(n: nat): (r: nat)
    ensures r >= 1
  {
    if n == 0 then 1 else 256 * Pow256(n - 1)
  }

  /** The `n`-byte little-endian value at `a`. */
  function Load(m: Bytes, a: nat, n: nat): nat
    decreases n
  {
    if n == 0 then 0 else Get(m, a) + 256 * Load(m, a + 1, n - 1)
  }

  function Store(m: Bytes, a: nat, n: nat, v: nat): Bytes
    decreases n
  {
    if n == 0 then m else Store(m[a := v % 256], a + 1, n - 1, v / 256)
  }

  lemma {:induction false} LoadBound(m: Bytes, a: nat, n: nat)
    ensures Load(m, a, n) < Pow256(n)
    decreases n
  {
    if n > 0 { LoadBound(m, a + 1, n - 1); }
  }

  /** A store touches its own bytes only. */
  lemma {:induction false} StoreFrame(m: Bytes, a: nat, n: nat, v: nat, x: nat)
    requires x < a || a + n <= x
    ensures Get(Store(m, a, n, v), x) == Get(m, x)
    decreases n
  {
    if n > 0 { StoreFrame(m[a := v % 256], a + 1, n - 1, v / 256, x); }
  }

  /** Loads depend on their own bytes only. */
  lemma {:induction false} LoadFrame(m: Bytes, m': Bytes, a: nat, n: nat)
    requires forall x :: a <= x < a + n ==> Get(m', x) == Get(m, x)
    ensures Load(m', a, n) == Load(m, a, n)
    decreases n
  {
    if n > 0 { LoadFrame(m, m', a + 1, n - 1); }
  }

  lemma LoadAfterStore(m: Bytes, a: nat, n: nat, v: nat, b: nat, k: nat)
    requires b + k <= a || a + n <= b
    ensures Load(Store(m, a, n, v), b, k) == Load(m, b, k)
  {
    forall x | b <= x < b + k ensures Get(Store(m, a, n, v), x) == Get(m, x) {
      StoreFrame(m, a, n, v, x);
    }
    LoadFrame(m, Store(m, a, n, v), b, k);
  }

  /** A value that fits is read back as stored. */
  lemma {:induction false} LoadStored(m: Bytes, a: nat, n: nat, v: nat)
    requires v < Pow256(n)
    ensures Load(Store(m, a, n, v), a, n) == v
    decreases n
  {
    if n > 0 {
      var m1 := m[a := v % 256];
      LoadStored(m1, a + 1, n - 1, v / 256);
      StoreFrame(m1, a + 1, n - 1, v / 256, a);
    }
  }

  lemma Pow256Values()
    ensures Pow256(4) == 0x1_0000_0000 && Pow256(8) == 0x1_0000_0000_0000_0000
  {
    assert Pow256(2) == 0x1_0000;
  }
}
