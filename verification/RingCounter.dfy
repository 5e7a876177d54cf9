/** Arithmetic of a ring of `depth` entries addressed by a running counter: the slot of
    count k, the phase bit of its pass, and what a 16-bit counter does to both. */
module RingCounter {
  import Bits

  const U16 := 0x1_0000

  function Slot(k: nat, depth: nat): (i: nat)
    requires depth > 0
    ensures i < depth
  {
    k % depth
  }

  /** 1 on the first pass over the ring, then alternating. */
  function Tag(k: nat, depth: nat): (t: nat)
    requires depth > 0
    ensures t < 2
  {
    Bits.DivMod(k, depth);
    1 - k / depth % 2
  }

  lemma SlotNext(k: nat, depth: nat)
    requires depth > 0
    ensures Slot(k + 1, depth) == if Slot(k, depth) + 1 == depth then 0 else Slot(k, depth) + 1
    ensures Tag(k + 1, depth) == if Slot(k + 1, depth) == 0 then 1 - Tag(k, depth) else Tag(k, depth)
  {
    Bits.DivMod(k, depth);
    var q, r := k / depth, k % depth;
    if r + 1 == depth {
      assert k + 1 == depth * (q + 1) + 0;
      Bits.DivModUnique(k + 1, depth, q + 1, 0);
    } else {
      Bits.DivModUnique(k + 1, depth, q, r + 1);
    }
  }

  /** The same slot one pass earlier carries the other phase. */
  lemma SlotBack(k: nat, depth: nat)
    requires 0 < depth <= k
    ensures Slot(k - depth, depth) == Slot(k, depth) && Tag(k - depth, depth) == 1 - Tag(k, depth)
  {
    Bits.DivMod(k, depth);
    var q, r := k / depth, k % depth;
    PassBack(k, depth, q, r);
    Bits.DivModUnique(k - depth, depth, q - 1, r);
  }

  lemma PassBack(k: nat, depth: nat, q: nat, r: nat)
    requires 0 < depth <= k && k == depth * q + r && r < depth
    ensures q > 0 && k - depth == depth * (q - 1) + r && (q - 1) % 2 == 1 - q % 2
  {
  }

  lemma SlotApart(j: nat, k: nat, depth: nat)
    requires j < k < j + depth
    ensures Slot(j, depth) != Slot(k, depth)
  {
    Bits.DivMod(j, depth);
    Bits.DivMod(k, depth);
    var x := k / depth - j / depth;
    assert depth * x == depth * (k / depth) - depth * (j / depth);
    assert x >= 1 ==> depth * x >= depth;
    assert x <= 0 ==> depth * x <= 0;
  }

  lemma SlotSmall(k: nat, depth: nat)
    requires k < depth
    ensures Slot(k, depth) == k && Tag(k, depth) == 1
  {
    Bits.DivModUnique(k, depth, 0, k);
  }

  lemma WrapKeepsSlot(k: nat, depth: nat)
    requires depth > 0 && U16 % depth == 0
    ensures Slot(k % U16, depth) == Slot(k, depth)
  {
    var q, r := k / U16, k % U16;
    Bits.DivMod(U16, depth);
    Bits.DivMod(r, depth);
    var m, a, b := U16 / depth, r / depth, r % depth;
    assert k == depth * m * q + depth * a + b == depth * (m * q + a) + b;
    Bits.DivModUnique(k, depth, m * q + a, b);
  }

  /** A 16-bit counter visits the slots in unbroken rotation exactly when the depth divides
      65536; otherwise the wrap skips to a wrong slot. */
  lemma RotationIff(depth: nat)
    requires depth > 0
    ensures U16 % depth == 0 <==> forall k: nat :: Slot(k % U16, depth) == Slot(k, depth)
  {
    if U16 % depth == 0 {
      forall k: nat ensures Slot(k % U16, depth) == Slot(k, depth) {
        WrapKeepsSlot(k, depth);
      }
    } else {
      assert Slot(U16 % U16, depth) != Slot(U16, depth) by { Bits.DivModUnique(0, depth, 0, 0); }
    }
  }

  /** Depth 48, within the driver's clamp, breaks at the first wrap. */
  lemma RotationBreaks()
    ensures Slot(U16 % U16, 48) == 0 && Slot(U16, 48) == 16
  {
  }
}
