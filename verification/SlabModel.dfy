/** The slab allocator on values: a cache is a list of one-page slabs, each with the free
    list of its own object slots. */
module SlabModel {
  import opened Bits
  import opened Seqs

  const PAGE: nat := 0x1000
  const HEADER: nat := 32
  const ROOM: nat := 4064

  datatype Slab = Slab(page: nat, free: seq<nat>)

  /** `total` and `freeObjs` are the cache's own counters. */
  datatype Cache = Cache(objSize: nat, perSlab: nat, slabs: seq<Slab>, total: nat, freeObjs: int)

  const WORD_LIMIT: nat := 0x1_0000_0000_0000_0000

  /** kmem_cache_init's rounding of the object size, in 64 bits: a size within 7 of the limit
      rounds to 0. */
  function RoundSize(size: nat): (r: nat)
    requires size < WORD_LIMIT
    ensures r % 8 == 0
    ensures if size <= WORD_LIMIT - 8 then 8 <= r && size <= r && (size >= 8 ==> r < size + 8) else r == 0
  {
    var s := if size < 8 then 8 else size;
    (s + 7) % WORD_LIMIT / 8 * 8
  }

  /** objs_per_slab_for: how many objects of `size` bytes fit behind the header. */
  function PerSlab(size: nat): (n: nat)
    requires size >= 1
    ensures n * size <= ROOM < n * size + size
  {
    DivMod(ROOM, size);
    ROOM / size
  }

  /** The division of objs_per_slab_for as the processor carries it out: by 0 it gives 0. */
  function Capacity(size: nat): nat { if size == 0 then 0 else PerSlab(size) }

  function NewCache(size: nat): Cache
    requires size < WORD_LIMIT
  {
    Cache(RoundSize(size), Capacity(RoundSize(size)), [], 0, 0)
  }

  function Slot(page: nat, size: nat, i: nat): nat { page + HEADER + i * size }

  /** Slots `i` up to `n` in ascending order. */
  function Slots(page: nat, size: nat, i: nat, n: nat): seq<nat>
    requires i <= n
    decreases n - i
  {
    if i == n then [] else [Slot(page, size, i)] + Slots(page, size, i + 1, n)
  }

  function SlabOf(p: nat): nat { p / PAGE * PAGE }

  /** First slab from `k` on that has a free object. */
  function FindSlab(slabs: seq<Slab>, k: nat): (r: nat)
    requires k <= |slabs|
    ensures k <= r <= |slabs|
    ensures r < |slabs| ==> slabs[r].free != []
    ensures forall i :: k <= i < r ==> slabs[i].free == []
    decreases |slabs| - k
  {
    if k == |slabs| || slabs[k].free != [] then k else FindSlab(slabs, k + 1)
  }

  /** grow_cache with the fresh page `page`. */
  function Grow(c: Cache, page: nat): Cache {
    c.(slabs := [Slab(page, Slots(page, c.objSize, 0, c.perSlab))] + c.slabs,
       total := c.total + c.perSlab, freeObjs := c.freeObjs + c.perSlab)
  }

  function Pop(c: Cache, k: nat): Cache
    requires k < |c.slabs| && c.slabs[k].free != []
  {
    var s := c.slabs[k];
    c.(slabs := c.slabs[k := s.(free := s.free[1..])], freeObjs := c.freeObjs - 1)
  }

  function Push(c: Cache, k: nat, p: nat): Cache
    requires k < |c.slabs|
  {
    var s := c.slabs[k];
    c.(slabs := c.slabs[k := s.(free := [p] + s.free)], freeObjs := c.freeObjs + 1)
  }

  /** kmem_cache_alloc; `page` is what the page allocator would hand out (0: none). */
  function Alloc(c: Cache, page: nat): (Cache, nat)
    requires c.perSlab >= 1
  {
    var k := FindSlab(c.slabs, 0);
    if k < |c.slabs| then (Pop(c, k), c.slabs[k].free[0])
    else if page == 0 then (c, 0)
    else
      var g := Grow(c, page);
      SlotsCount(page, c.objSize, 0, c.perSlab);
      (Pop(g, 0), g.slabs[0].free[0])
  }

  lemma {:induction false} SlotsCount(page: nat, size: nat, i: nat, n: nat)
    requires i <= n
    ensures |Slots(page, size, i, n)| == n - i
    decreases n - i
  {
    if i < n { SlotsCount(page, size, i + 1, n); }
  }

  // ---- invariant of one cache ----

  ghost predicate IsSlot(c: Cache, page: nat, p: nat) {
    exists i :: 0 <= i < c.perSlab && p == Slot(page, c.objSize, i)
  }

  ghost predicate SlabOk(c: Cache, s: Slab) {
    && s.page > 0 && s.page % PAGE == 0 && NoDup(s.free) && |s.free| <= c.perSlab
    && forall p :: p in s.free ==> IsSlot(c, s.page, p)
  }

  function SumFree(slabs: seq<Slab>): nat {
    if slabs == [] then 0 else |slabs[0].free| + SumFree(slabs[1..])
  }

  ghost predicate Sized(c: Cache) {
    c.objSize >= 8 && c.objSize % 8 == 0 && c.perSlab >= 1 && c.perSlab == PerSlab(c.objSize)
  }

  ghost predicate CacheOk(c: Cache) {
    && Sized(c)
    && c.total == |c.slabs| * c.perSlab
    && c.freeObjs == SumFree(c.slabs)
    && (forall k :: 0 <= k < |c.slabs| ==> SlabOk(c, c.slabs[k]))
    && (forall k, m :: 0 <= k < m < |c.slabs| ==> c.slabs[k].page != c.slabs[m].page)
  }

  /** Object `p` of slab `k` has been handed out and not given back. */
  ghost predicate LiveIn(c: Cache, k: nat, p: nat) {
    k < |c.slabs| && IsSlot(c, c.slabs[k].page, p) && p !in c.slabs[k].free
  }

  ghost predicate Live(c: Cache, p: nat) { exists k :: LiveIn(c, k, p) }

  // ---- slot arithmetic ----

  lemma MulLe(a: nat, b: nat, m: nat)
    requires a <= b
    ensures a * m <= b * m
  {
  }

  /** A slot lies past the header, inside its page, and is 8-aligned. */
  lemma SlotInPage(c: Cache, page: nat, i: nat)
    requires Sized(c) && page % PAGE == 0 && i < c.perSlab
    ensures var p := Slot(page, c.objSize, i);
            page + HEADER <= p && p + c.objSize <= page + PAGE && p % 8 == 0 && SlabOf(p) == page
  {
    hide SlabOf;
    MulLe(i + 1, c.perSlab, c.objSize);
    assert (i + 1) * c.objSize == i * c.objSize + c.objSize;
    MulEight(i, c.objSize);
    OffsetInPage(page, i * c.objSize, c.objSize);
  }

  lemma MulEight(i: nat, size: nat)
    requires size % 8 == 0
    ensures i * size % 8 == 0
  {
    var q := size / 8;
    assert i * (8 * q) == 8 * (i * q);
    DivModUnique(i * size, 8, i * q, 0);
  }

  lemma OffsetInPage(page: nat, x: nat, size: nat)
    requires page % PAGE == 0 && x % 8 == 0 && x + size <= PAGE - HEADER && size > 0
    ensures var p := page + HEADER + x; p + size <= page + PAGE && p % 8 == 0 && SlabOf(p) == page
  {
    var p, m := page + HEADER + x, page / PAGE;
    DivMod(page, PAGE);
    DivModUnique(p, PAGE, m, HEADER + x);
    DivModUnique(p, 8, 512 * m + 4 + x / 8, 0);
  }

  /** slab_of's mask, `p & ~PAGE_MASK`, on 64-bit pointers. */
  lemma MaskIs(p: nat)
    requires p < 0x1_0000_0000_0000_0000
    ensures And(p, 0xffff_ffff_ffff_f000) == SlabOf(p)
  {
    hide And, Pow2;
    Powers();
    AndField(p, 64, 12);
  }

  lemma SlotsApart(c: Cache, page: nat, i: nat, j: nat)
    requires i < j
    ensures Slot(page, c.objSize, i) + c.objSize <= Slot(page, c.objSize, j)
  {
    MulLe(i + 1, j, c.objSize);
    assert (i + 1) * c.objSize == i * c.objSize + c.objSize;
  }

  /** Masking an object pointer of a slab gives back the slab. */
  lemma MaskRecoversSlab(c: Cache, page: nat, p: nat)
    requires Sized(c) && page % PAGE == 0 && IsSlot(c, page, p)
    ensures SlabOf(p) == page && page + HEADER <= p && p + c.objSize <= page + PAGE && p % 8 == 0
  {
    var i :| 0 <= i < c.perSlab && p == Slot(page, c.objSize, i);
    SlotInPage(c, page, i);
  }

  lemma {:induction false} SlotsMembers(page: nat, size: nat, i: nat, n: nat, p: nat)
    requires i <= n
    ensures p in Slots(page, size, i, n) <==> exists k :: i <= k < n && p == Slot(page, size, k)
    ensures |Slots(page, size, i, n)| == n - i
    decreases n - i
  {
    if i < n {
      SlotsMembers(page, size, i + 1, n, p);
      if p == Slot(page, size, i) { assert i <= i < n; }
    }
  }

  lemma {:induction false} SlotsNoDup(c: Cache, page: nat, i: nat)
    requires c.objSize >= 1 && i <= c.perSlab
    ensures NoDup(Slots(page, c.objSize, i, c.perSlab))
    decreases c.perSlab - i
  {
    if i < c.perSlab {
      SlotsNoDup(c, page, i + 1);
      var rest := Slots(page, c.objSize, i + 1, c.perSlab);
      forall k | 0 <= k < |rest| ensures rest[k] != Slot(page, c.objSize, i) {
        SlotsMembers(page, c.objSize, i + 1, c.perSlab, rest[k]);
        var m :| i + 1 <= m < c.perSlab && rest[k] == Slot(page, c.objSize, m);
        SlotsApart(c, page, i, m);
      }
    }
  }

  lemma {:induction false} SumUpdate(slabs: seq<Slab>, k: nat, s: Slab)
    requires k < |slabs|
    ensures SumFree(slabs[k := s]) == SumFree(slabs) - |slabs[k].free| + |s.free|
    ensures SumFree(slabs) >= |slabs[k].free|
  {
    if k == 0 {
      assert slabs[k := s][1..] == slabs[1..];
    } else {
      SumUpdate(slabs[1..], k - 1, s);
      assert slabs[k := s][1..] == slabs[1..][k - 1 := s];
    }
  }

  lemma {:induction false} SumZero(slabs: seq<Slab>)
    ensures SumFree(slabs) == 0 <==> forall i :: 0 <= i < |slabs| ==> slabs[i].free == []
  {
    if slabs != [] {
      SumZero(slabs[1..]);
      assert slabs == [slabs[0]] + slabs[1..];
      assert forall i :: 0 <= i < |slabs[1..]| ==> slabs[1..][i] == slabs[i + 1];
    }
  }

  // ---- operations keep it ----

  lemma NewCacheOk(size: nat)
    requires size < WORD_LIMIT && 0 < RoundSize(size) <= ROOM
    ensures CacheOk(NewCache(size)) && size <= NewCache(size).objSize
  {
    CapacityIff(size);
  }

  /** A cache can hold objects at all exactly when one fits behind the slab header. */
  lemma CapacityIff(size: nat)
    requires size < WORD_LIMIT
    ensures NewCache(size).perSlab >= 1 <==> 0 < RoundSize(size) <= ROOM
  {
    hide RoundSize;
    var n := RoundSize(size);
    if n > 0 {
      var k := PerSlab(n);
      if k >= 1 { MulLe(1, k, n); }
    }
  }

  lemma GrowKeeps(c: Cache, page: nat)
    requires CacheOk(c) && page > 0 && page % PAGE == 0
    requires forall k :: 0 <= k < |c.slabs| ==> c.slabs[k].page != page
    ensures CacheOk(Grow(c, page))
    ensures Grow(c, page).slabs[0].free != []
    ensures forall p :: Live(Grow(c, page), p) <==> Live(c, p)
  {
    hide PerSlab, IsSlot;
    var c' := Grow(c, page);
    assert (|c.slabs| + 1) * c.perSlab == |c.slabs| * c.perSlab + c.perSlab;
    assert c'.slabs[1..] == c.slabs;
    FreshSlab(c, page);
    forall k | 0 <= k < |c'.slabs| ensures SlabOk(c', c'.slabs[k]) {
      if k > 0 {
        assert c'.slabs[k] == c.slabs[k - 1];
        SlabOkSame(c, c', c.slabs[k - 1]);
      } else {
        SlabOkSame(c, c', c'.slabs[0]);
      }
    }
    GrowLive(c, page);
  }

  /** A fresh slab: every slot free, each once. */
  lemma FreshSlab(c: Cache, page: nat)
    requires Sized(c) && page > 0 && page % PAGE == 0
    ensures var s := Slab(page, Slots(page, c.objSize, 0, c.perSlab));
            SlabOk(c, s) && |s.free| == c.perSlab && forall p: nat :: p in s.free <==> IsSlot(c, page, p)
  {
    hide PerSlab;
    var s := Slab(page, Slots(page, c.objSize, 0, c.perSlab));
    SlotsNoDup(c, page, 0);
    SlotsMembers(page, c.objSize, 0, c.perSlab, 0);
    forall p: nat ensures p in s.free <==> IsSlot(c, page, p) {
      SlotsMembers(page, c.objSize, 0, c.perSlab, p);
    }
  }

  lemma GrowLive(c: Cache, page: nat)
    requires CacheOk(c) && page > 0 && page % PAGE == 0
    ensures forall p :: Live(Grow(c, page), p) <==> Live(c, p)
  {
    hide PerSlab;
    var c' := Grow(c, page);
    FreshSlab(c, page);
    forall p: nat ensures Live(c', p) <==> Live(c, p) {
      if Live(c', p) {
        var k: nat :| LiveIn(c', k, p);
        assert k == 0 ==> IsSlot(c, page, p);
        assert k > 0 && c'.slabs[k] == c.slabs[k - 1];
        assert LiveIn(c, k - 1, p);
      }
      if Live(c, p) {
        var k: nat :| LiveIn(c, k, p);
        assert c'.slabs[k + 1] == c.slabs[k];
        assert LiveIn(c', k + 1, p);
      }
    }
  }

  lemma SlabOkSame(c: Cache, c': Cache, s: Slab)
    requires SlabOk(c, s) && c'.objSize == c.objSize && c'.perSlab == c.perSlab
    ensures SlabOk(c', s)
  {
    forall p | p in s.free ensures IsSlot(c', s.page, p) { assert IsSlot(c, s.page, p); }
  }

  /** Popping hands out an object that was not live, and makes just that one live. */
  lemma PopKeeps(c: Cache, k: nat)
    requires CacheOk(c) && k < |c.slabs| && c.slabs[k].free != []
    ensures c.freeObjs > 0 && CacheOk(Pop(c, k))
    ensures var p := c.slabs[k].free[0];
            !Live(c, p) && forall q :: Live(Pop(c, k), q) <==> Live(c, q) || q == p
  {
    var s := c.slabs[k];
    var p, s' := s.free[0], s.(free := s.free[1..]);
    SumUpdate(c.slabs, k, s');
    var c' := Pop(c, k);
    assert SlabOk(c, s);
    assert s.free == [p] + s.free[1..];
    assert IsSlot(c, s.page, p);
    forall m | 0 <= m < |c'.slabs| ensures SlabOk(c', c'.slabs[m]) {
      assert SlabOk(c, c.slabs[m]);
      if m == k { assert SlabOk(c, s'); SlabOkSame(c, c', s'); } else { SlabOkSame(c, c', c.slabs[m]); }
    }
    OneSlab(c, k, p);
    forall q ensures Live(c', q) <==> Live(c, q) || q == p {
      if Live(c', q) {
        var m :| LiveIn(c', m, q);
        assert q != p ==> LiveIn(c, m, q);
      }
      if Live(c, q) {
        var m :| LiveIn(c, m, q);
        assert LiveIn(c', m, q);
      }
      if q == p { assert LiveIn(c', k, p); }
    }
  }

  /** A slot of slab `k` belongs to no other slab. */
  lemma OneSlab(c: Cache, k: nat, p: nat)
    requires CacheOk(c) && k < |c.slabs| && IsSlot(c, c.slabs[k].page, p)
    ensures forall m :: 0 <= m < |c.slabs| && IsSlot(c, c.slabs[m].page, p) ==> m == k
  {
    assert SlabOk(c, c.slabs[k]);
    MaskRecoversSlab(c, c.slabs[k].page, p);
    forall m | 0 <= m < |c.slabs| && IsSlot(c, c.slabs[m].page, p) ensures m == k {
      assert SlabOk(c, c.slabs[m]);
      MaskRecoversSlab(c, c.slabs[m].page, p);
    }
  }

  /** Giving a live object back ends exactly that object. */
  lemma PushKeeps(c: Cache, k: nat, p: nat)
    requires CacheOk(c) && LiveIn(c, k, p)
    ensures CacheOk(Push(c, k, p))
    ensures forall q :: Live(Push(c, k, p), q) <==> Live(c, q) && q != p
  {
    var s := c.slabs[k];
    var s' := s.(free := [p] + s.free);
    SumUpdate(c.slabs, k, s');
    var c' := Push(c, k, p);
    assert SlabOk(c, s);
    FreeRoom(c, s, p);
    forall m | 0 <= m < |c'.slabs| ensures SlabOk(c', c'.slabs[m]) {
      assert SlabOk(c, c.slabs[m]);
      if m == k { assert SlabOk(c, s'); SlabOkSame(c, c', s'); } else { SlabOkSame(c, c', c.slabs[m]); }
    }
    OneSlab(c, k, p);
    forall q ensures Live(c', q) <==> Live(c, q) && q != p {
      if Live(c', q) {
        var m :| LiveIn(c', m, q);
        assert LiveIn(c, m, q);
      }
      if Live(c, q) && q != p {
        var m :| LiveIn(c, m, q);
        assert LiveIn(c', m, q);
      }
    }
  }

  ghost function SlotIndex(c: Cache, page: nat, p: nat): (i: nat)
    requires IsSlot(c, page, p)
    ensures i < c.perSlab && p == Slot(page, c.objSize, i)
  {
    var i :| 0 <= i < c.perSlab && p == Slot(page, c.objSize, i);
    i
  }

  lemma {:induction false} BoundedSet(xs: set<nat>, n: nat)
    requires forall x :: x in xs ==> x < n
    ensures |xs| <= n
  {
    if n > 0 {
      BoundedSet(xs - {n - 1}, n - 1);
    } else {
      assert xs == {};
    }
  }

  lemma {:induction false} NoDupCard(ps: seq<nat>, c: Cache, page: nat) returns (xs: set<nat>)
    requires NoDup(ps) && forall p :: p in ps ==> IsSlot(c, page, p)
    ensures |xs| == |ps| && forall x :: x in xs <==> exists i :: 0 <= i < |ps| && x == SlotIndex(c, page, ps[i])
  {
    if ps == [] {
      xs := {};
    } else {
      var n := |ps| - 1;
      var ys := NoDupCard(ps[..n], c, page);
      assert forall i :: 0 <= i < n ==> ps[..n][i] == ps[i];
      assert ps[n] in ps;
      var x := SlotIndex(c, page, ps[n]);
      xs := ys + {x};
      forall y | y in xs ensures exists i :: 0 <= i < |ps| && y == SlotIndex(c, page, ps[i]) {
        if y in ys {
          var i :| 0 <= i < n && y == SlotIndex(c, page, ps[..n][i]);
          assert ps[i] in ps && y == SlotIndex(c, page, ps[i]);
        }
      }
      forall i | 0 <= i < |ps| ensures SlotIndex(c, page, ps[i]) in xs {
        assert ps[i] in ps;
        if i < n { assert ps[..n][i] == ps[i]; }
      }
    }
  }

  /** A slab with a live object has room on its free list for it. */
  lemma FreeRoom(c: Cache, s: Slab, p: nat)
    requires SlabOk(c, s) && IsSlot(c, s.page, p) && p !in s.free
    ensures |s.free| + 1 <= c.perSlab
  {
    var ps := [p] + s.free;
    assert forall q :: q in ps ==> IsSlot(c, s.page, q);
    var xs := NoDupCard(ps, c, s.page);
    forall x | x in xs ensures x < c.perSlab {
      var i :| 0 <= i < |ps| && x == SlotIndex(c, s.page, ps[i]);
      assert ps[i] in ps;
    }
    BoundedSet(xs, c.perSlab);
  }

  /** The page handed to a growing cache is fresh. */
  ghost predicate FreshPage(c: Cache, page: nat) {
    page % PAGE == 0 && forall k :: 0 <= k < |c.slabs| ==> c.slabs[k].page != page
  }

  /** kmem_cache_alloc hands out one object that was not live; it fails only when every
      slab is full and no page is left, and then nothing changes. */
  lemma AllocKeeps(c: Cache, page: nat)
    requires CacheOk(c) && FreshPage(c, page)
    ensures var (c', p) := Alloc(c, page);
            && CacheOk(c')
            && (p == 0 <==> c.freeObjs == 0 && page == 0)
            && (p == 0 ==> c' == c)
            && (p != 0 ==> !Live(c, p) && c'.total - c'.freeObjs == c.total - c.freeObjs + 1
                           && forall q :: Live(c', q) <==> Live(c, q) || q == p)
            && |c'.slabs| == |c.slabs| + (if c.freeObjs == 0 && page != 0 then 1 else 0)
  {
    hide PerSlab, Live;
    var k := FindSlab(c.slabs, 0);
    SumZero(c.slabs);
    if k < |c.slabs| {
      PopKeeps(c, k);
      NonZeroSlot(c, k);
    } else if page != 0 {
      GrowKeeps(c, page);
      PopKeeps(Grow(c, page), 0);
      NonZeroSlot(Grow(c, page), 0);
    }
  }

  lemma SlotPast(page: nat, i: nat, size: nat)
    ensures Slot(page, size, i) >= page + HEADER
  {
  }

  lemma NonZeroSlot(c: Cache, k: nat)
    requires CacheOk(c) && k < |c.slabs| && c.slabs[k].free != []
    ensures c.slabs[k].free[0] != 0 && c.freeObjs != 0
  {
    assert SlabOk(c, c.slabs[k]);
    assert IsSlot(c, c.slabs[k].page, c.slabs[k].free[0]);
    SlotPast(c.slabs[k].page, SlotIndex(c, c.slabs[k].page, c.slabs[k].free[0]), c.objSize);
    hide IsSlot, Slot, PerSlab;
    SumZero(c.slabs);
  }

  // ---- which object ----

  /** An object freed is the next one handed out, and the cache is as it was before, when the
      slabs before its own are full. */
  lemma FreedIsNext(c: Cache, k: nat, p: nat, page: nat)
    requires CacheOk(c) && LiveIn(c, k, p) && forall m :: 0 <= m < k ==> c.slabs[m].free == []
    ensures Push(c, k, p).perSlab >= 1 && Alloc(Push(c, k, p), page) == (c, p)
  {
    hide CacheOk, IsSlot;
    CacheFacts(c);
    var c' := Push(c, k, p);
    assert c'.slabs[k].free[1..] == c.slabs[k].free;
    var j := FindSlab(c'.slabs, 0);
    assert j == k;
    assert c'.slabs[k := c.slabs[k]] == c.slabs;
  }

  /** A new slab's objects are handed out in ascending order, back to back after the header. */
  lemma FreshOrder(c: Cache, page: nat, i: nat)
    requires i < c.perSlab
    ensures |Grow(c, page).slabs[0].free| == c.perSlab
    ensures Grow(c, page).slabs[0].free[i] == page + 32 + i * c.objSize
  {
    SlotsCount(page, c.objSize, 0, c.perSlab);
    SlotsAt(page, c.objSize, 0, c.perSlab, i);
  }

  lemma {:induction false} SlotsAt(page: nat, size: nat, i: nat, n: nat, k: nat)
    requires i <= n && k < n - i
    ensures |Slots(page, size, i, n)| == n - i && Slots(page, size, i, n)[k] == Slot(page, size, i + k)
    decreases k
  {
    hide Slot;
    SlotsCount(page, size, i, n);
    if k > 0 { SlotsAt(page, size, i + 1, n, k - 1); }
  }

  // ---- memory bound over whole runs ----

  datatype Op = DoAlloc(page: nat) | DoFree(k: nat, p: nat)

  function Max(a: nat, b: nat): nat { if a < b then b else a }

  /** A run on one cache; `live` are the objects handed out and not given back, `peak` the
      largest number of them ever live at once. */
  ghost predicate Run(c: Cache, live: set<nat>, peak: nat, ops: seq<Op>, c': Cache, peak': nat)
    requires c.perSlab >= 1
    decreases |ops|
  {
    if ops == [] then c' == c && peak' == peak
    else match ops[0]
      case DoAlloc(page) =>
        FreshPage(c, page) && var (d, p) := Alloc(c, page);
        var now := if p == 0 then live else live + {p};
        d.perSlab >= 1 && Run(d, now, Max(peak, |now|), ops[1..], c', peak')
      case DoFree(k, p) => LiveIn(c, k, p) && Run(Push(c, k, p), live - {p}, peak, ops[1..], c', peak')
  }

  ghost predicate PeakOk(c: Cache, live: set<nat>, peak: nat) {
    && CacheOk(c)
    && (forall p :: p in live <==> Live(c, p)) && |live| == c.total - c.freeObjs
    && |live| <= peak <= c.total
    && (c.slabs != [] ==> c.total - c.perSlab < peak)
  }

  lemma CacheFacts(c: Cache)
    requires CacheOk(c)
    ensures c.perSlab >= 1 && c.total == |c.slabs| * c.perSlab && c.freeObjs >= 0
  {
  }

  lemma AllocShape(c: Cache, page: nat)
    requires c.perSlab >= 1
    ensures var (d, p) := Alloc(c, page);
            && d.perSlab == c.perSlab
            && d.total == if |d.slabs| == |c.slabs| then c.total else c.total + c.perSlab
  {
  }

  lemma AllocPeak(c: Cache, live: set<nat>, peak: nat, page: nat)
    requires PeakOk(c, live, peak) && FreshPage(c, page)
    ensures c.perSlab >= 1
    ensures var (d, p) := Alloc(c, page);
            var now := if p == 0 then live else live + {p};
            d.perSlab >= 1 && PeakOk(d, now, Max(peak, |now|))
  {
    hide PerSlab, Live, CacheOk, FreshPage, Alloc;
    CacheFacts(c);
    AllocKeeps(c, page);
    AllocShape(c, page);
    CacheFacts(Alloc(c, page).0);
  }

  lemma FreePeak(c: Cache, live: set<nat>, peak: nat, k: nat, p: nat)
    requires PeakOk(c, live, peak) && LiveIn(c, k, p)
    ensures PeakOk(Push(c, k, p), live - {p}, peak)
  {
    hide PerSlab, CacheOk, IsSlot;
    assert Live(c, p);
    PushKeeps(c, k, p);
  }

  /** Because a cache grows only when every slab is full, its slab count is exactly the
      peak number of live objects divided by the slab capacity, rounded up. */
  lemma {:induction false} SlabsMatchPeak(c: Cache, live: set<nat>, peak: nat, ops: seq<Op>, c': Cache, peak': nat)
    requires PeakOk(c, live, peak) && Run(c, live, peak, ops, c', peak')
    ensures CacheOk(c') && |c'.slabs| == (peak' + c'.perSlab - 1) / c'.perSlab
    decreases |ops|
  {
    hide Live, IsSlot, CacheOk, FreshPage, Alloc, PerSlab, PeakOk, Max;
    PeakFacts(c, live, peak);
    if ops == [] {
      CeilIs(peak, c.perSlab, |c.slabs|);
    } else {
      match ops[0]
      case DoAlloc(page) =>
        AllocPeak(c, live, peak, page);
        var (d, p) := Alloc(c, page);
        var now := if p == 0 then live else live + {p};
        SlabsMatchPeak(d, now, Max(peak, |now|), ops[1..], c', peak');
      case DoFree(k, p) =>
        FreePeak(c, live, peak, k, p);
        SlabsMatchPeak(Push(c, k, p), live - {p}, peak, ops[1..], c', peak');
    }
  }

  lemma PeakFacts(c: Cache, live: set<nat>, peak: nat)
    requires PeakOk(c, live, peak)
    ensures CacheOk(c) && c.perSlab >= 1 && peak <= |c.slabs| * c.perSlab
    ensures c.slabs != [] ==> (|c.slabs| - 1) * c.perSlab < peak
  {
    hide Live;
    if c.slabs != [] { assert (|c.slabs| - 1) * c.perSlab == |c.slabs| * c.perSlab - c.perSlab; }
  }

  /** The same for a cache from its initialisation on. */
  lemma SlabsMatchPeakFromInit(size: nat, ops: seq<Op>, c: Cache, peak: nat)
    requires size < WORD_LIMIT && 0 < RoundSize(size) <= ROOM && NewCache(size).perSlab >= 1
    requires Run(NewCache(size), {}, 0, ops, c, peak)
    ensures CacheOk(c) && |c.slabs| == (peak + c.perSlab - 1) / c.perSlab
  {
    hide Run, RoundSize, PerSlab;
    NewCacheOk(size);
    SlabsMatchPeak(NewCache(size), {}, 0, ops, c, peak);
  }

  lemma CeilIs(a: nat, b: nat, n: nat)
    requires b >= 1 && a <= n * b && (n > 0 ==> (n - 1) * b < a)
    ensures n == (a + b - 1) / b
  {
    if n > 0 {
      assert n * b == (n - 1) * b + b;
      DivModUnique(a + b - 1, b, n, a + b - 1 - n * b);
    } else {
      DivModUnique(b - 1, b, 0, b - 1);
    }
  }
}
