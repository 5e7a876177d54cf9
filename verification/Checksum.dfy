/** The Internet checksum (section 1 of RFC 1071) as the DHCP agent computes it: big-endian
    16-bit words in a 32-bit accumulator, carries folded in at the end, one's complement. */
module Checksum {
  import opened ByteMemory
  import Bits

  const U32 := 0x1_0000_0000

  function Be16(v: nat): seq<Byte> { [v / 256 % 256, v % 256] }
  function Be32(v: nat): seq<Byte> { [v / 0x100_0000 % 256, v / 0x1_0000 % 256, v / 256 % 256, v % 256] }

  function Word(hi: Byte, lo: Byte): (w: nat)
    ensures w < 0x1_0000
  {
    256 * hi as nat + lo as nat
  }

  /** The sum of the 16-bit words; an odd last byte counts as a high byte. */
  function Sum(b: seq<Byte>): nat
    decreases |b|
  {
    if |b| >= 2 then Word(b[0], b[1]) + Sum(b[2..])
    else if |b| == 1 then Word(b[0], 0)
    else 0
  }

  function Fold(s: nat): (r: nat)
    ensures r < 0x1_0000
    decreases s
  {
    if s < 0x1_0000 then s else Fold(s % 0x1_0000 + s / 0x1_0000)
  }

  /** The residue modulo 65535 in 1..65535, with 0 only for 0. */
  function Residue(s: nat): (r: nat)
    ensures r <= 0xFFFF && (r == 0 <==> s == 0)
  {
    if s == 0 then 0 else (s - 1) % 0xFFFF + 1
  }

  lemma CarryKeepsResidue(s: nat)
    requires s >= 0x1_0000
    ensures Residue(s % 0x1_0000 + s / 0x1_0000) == Residue(s)
  {
    var q, n := s / 0x1_0000, s % 0x1_0000 + s / 0x1_0000;
    var a, b := (n - 1) / 0xFFFF, (n - 1) % 0xFFFF;
    Bits.DivModUnique(s - 1, 0xFFFF, q + a, b);
  }

  /** Folding the carries in, any number of times, computes the residue: the value modulo
      65535 is kept. */
  lemma {:induction false} FoldIsResidue(s: nat)
    ensures Fold(s) == Residue(s)
    decreases s
  {
    if s >= 0x1_0000 {
      CarryKeepsResidue(s);
      FoldIsResidue(s % 0x1_0000 + s / 0x1_0000);
    }
  }

  lemma ResidueMod(s: nat)
    ensures Residue(s) % 0xFFFF == s % 0xFFFF
  {
    if s > 0 {
      var q, r := (s - 1) / 0xFFFF, (s - 1) % 0xFFFF;
      if r + 1 == 0xFFFF {
        Bits.DivModUnique(s, 0xFFFF, q + 1, 0);
      } else {
        Bits.DivModUnique(s, 0xFFFF, q, r + 1);
      }
    }
  }

  /** Adding the complement of the residue gives 65535. */
  lemma ResidueComplement(s: nat)
    ensures Residue(s + (0xFFFF - Residue(s))) == 0xFFFF
  {
    if s > 0 {
      var q, r := (s - 1) / 0xFFFF, (s - 1) % 0xFFFF;
      Bits.DivModUnique(s + (0xFFFF - Residue(s)) - 1, 0xFFFF, q, 0xFFFE);
    }
  }

  function Csum(b: seq<Byte>, seed: nat): (c: nat)
    ensures c < 0x1_0000
  {
    0xFFFF - Fold((seed + Sum(b)) % U32)
  }

  /** An odd last byte counts as if followed by a zero byte. */
  lemma {:induction false} OddPads(b: seq<Byte>)
    requires |b| % 2 == 1
    ensures Sum(b) == Sum(b + [0])
    decreases |b|
  {
    if |b| >= 3 {
      assert (b + [0])[2..] == b[2..] + [0];
      OddPads(b[2..]);
    } else {
      assert (b + [0])[2..] == [];
    }
  }

  lemma {:induction false} SumConcat(a: seq<Byte>, b: seq<Byte>)
    requires |a| % 2 == 0
    ensures Sum(a + b) == Sum(a) + Sum(b)
    decreases |a|
  {
    if a == [] {
      assert a + b == b;
    } else {
      assert (a + b)[2..] == a[2..] + b;
      SumConcat(a[2..], b);
    }
  }

  lemma {:induction false} SumBound(b: seq<Byte>)
    ensures 2 * Sum(b) <= 0xFFFF * (|b| + 1)
    decreases |b|
  {
    if |b| >= 2 { SumBound(b[2..]); }
  }

  lemma SumBe16(v: nat)
    requires v < 0x1_0000
    ensures Sum(Be16(v)) == v
  {
    assert Be16(v)[2..] == [];
  }

  /** A checksum computed over a buffer whose field at an even offset is zero, stored in that
      field, makes the checksum of the whole 0: the receiver's test passes. */
  lemma StoredVerifies(pre: seq<Byte>, post: seq<Byte>, seed: nat)
    requires |pre| % 2 == 0 && seed + Sum(pre + [0, 0] + post) + 0xFFFF < U32
    ensures Csum(pre + Be16(Csum(pre + [0, 0] + post, seed)) + post, seed) == 0
  {
    hide Sum, Fold, Residue;
    var c := Csum(pre + [0, 0] + post, seed);
    Three(pre, [0, 0], post);
    Three(pre, Be16(c), post);
    SumBe16(c);
    SumZeroWord();
    var s := seed + Sum(pre) + Sum(post);
    FoldIsResidue(s);
    FoldIsResidue(s + c);
    ResidueComplement(s);
  }

  lemma SumZeroWord()
    ensures Sum([0, 0]) == 0
  {
    assert [0 as Byte, 0][2..] == [];
  }

  lemma Three(a: seq<Byte>, m: seq<Byte>, b: seq<Byte>)
    requires |a| % 2 == 0 && |m| % 2 == 0
    ensures Sum(a + m + b) == Sum(a) + Sum(m) + Sum(b)
  {
    SumConcat(a + m, b);
    SumConcat(a, m);
  }

  /** The result is 0, which UDP reads as "no checksum", exactly when the sum is a positive
      multiple of 65535. */
  lemma ZeroIff(b: seq<Byte>, seed: nat)
    requires seed + Sum(b) < U32
    ensures Csum(b, seed) == 0 <==> seed + Sum(b) > 0 && (seed + Sum(b)) % 0xFFFF == 0
  {
    hide Sum, Fold;
    FoldIsResidue(seed + Sum(b));
    ResidueMod(seed + Sum(b));
  }

  /** The carry loop. */
  method FoldCarries(total: nat) returns (s: nat)
    ensures s == Fold(total)
  {
    s := total;
    while s / 0x1_0000 != 0
      invariant Fold(s) == Fold(total)
      decreases s
    {
      s := s % 0x1_0000 + s / 0x1_0000;
    }
  }

  lemma WrapAdd(x: nat, w: nat)
    ensures (x % U32 + w) % U32 == (x + w) % U32
  {
  }

  /** csum16: the word loop, an odd last byte, the carries, the complement. */
  method Csum16(p: array<Byte>, at: nat, len: nat, seed: nat) returns (c: nat)
    requires at + len <= p.Length && seed < U32
    ensures c == Csum(p[at..at + len], seed)
  {
    hide Word, Fold;
    var s, i, left := seed, at, len;
    ghost var done: nat := 0;
    while left >= 2
      invariant at <= i && i + left == at + len
      invariant s == (seed + done) % U32 && done + Sum(p[i..i + left]) == Sum(p[at..at + len])
    {
      assert p[i..i + left][2..] == p[i + 2..i + left];
      WrapAdd(seed + done, Word(p[i], p[i + 1]));
      s := (s + Word(p[i], p[i + 1])) % U32;
      done := done + Word(p[i], p[i + 1]);
      i, left := i + 2, left - 2;
    }
    if left != 0 {
      WrapAdd(seed + done, Word(p[i], 0));
      s := (s + Word(p[i], 0)) % U32;
    }
    s := FoldCarries(s);
    c := 0xFFFF - s;
  }
}
