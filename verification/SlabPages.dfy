/** Several caches fed from the one page list: slab pages, free pages and pages in other hands
    never meet, and each cache keeps its own memory bound. */
module SlabPages {
  import opened Descriptors
  import opened Pmm
  import opened Seqs
  import S = SlabModel

  /** The page pool, the caches with their live objects and peaks, and the pages that other
      code holds. */
  datatype State = State(pool: Pool, caches: map<nat, S.Cache>, live: map<nat, set<nat>>, peak: map<nat, nat>,
                         others: set<nat>)

  /** `WriteWord` is any write by the slab allocator, an object's owner or a page's holder. */
  datatype Op = CacheAlloc(c: nat) | CacheFree(c: nat, k: nat, p: nat) | GetPage | PutPage(p: nat) |
    WriteWord(p: nat, w: nat, v: nat)

  ghost predicate IsSlab(s: State, c: nat, k: nat, p: nat) {
    c in s.caches && k < |s.caches[c].slabs| && s.caches[c].slabs[k].page == p
  }

  ghost predicate Allowed(s: State, op: Op) {
    match op
    case CacheAlloc(c) => c in s.caches && s.caches[c].perSlab >= 1 && c in s.live && c in s.peak
    case CacheFree(c, k, p) => c in s.caches && S.LiveIn(s.caches[c], k, p) && c in s.live
    case GetPage => true
    case PutPage(p) => p in s.others
    case WriteWord(p, w, v) => w < WORDS && (p in s.others || exists c, k :: IsSlab(s, c, k, p))
  }

  /** The page a cache would get, asked for only when all its slabs are full. */
  ghost function Supply(s: State, c: nat): (Pool, nat)
    requires c in s.caches
  {
    if S.FindSlab(s.caches[c].slabs, 0) < |s.caches[c].slabs| then (s.pool, 0) else Alloc(s.pool)
  }

  ghost function Step(s: State, op: Op): State
    requires Allowed(s, op)
  {
    match op
    case CacheAlloc(c) =>
      var (pool', page) := Supply(s, c);
      var (v, p) := S.Alloc(s.caches[c], page);
      var now := if p == 0 then s.live[c] else s.live[c] + {p};
      s.(pool := pool', caches := s.caches[c := v], live := s.live[c := now],
         peak := s.peak[c := S.Max(s.peak[c], |now|)])
    case CacheFree(c, k, p) =>
      s.(caches := s.caches[c := S.Push(s.caches[c], k, p)], live := s.live[c := s.live[c] - {p}])
    case GetPage =>
      var (pool', p) := Alloc(s.pool);
      s.(pool := pool', others := if p == 0 then s.others else s.others + {p})
    case PutPage(p) => s.(pool := Free(s.pool, p), others := s.others - {p})
    case WriteWord(p, w, v) => s.(pool := s.pool.(mem := Poke(s.pool.mem, p, w, v)))
  }

  /** Each cache keeps its bound. */
  ghost predicate CachesOk(s: State) {
    && s.live.Keys == s.caches.Keys && s.peak.Keys == s.caches.Keys
    && forall c :: c in s.caches ==> S.PeakOk(s.caches[c], s.live[c], s.peak[c])
  }

  /** Slab pages, free pages and pages in other hands are apart, and all in memory. */
  ghost predicate PagesOk(s: State, free: seq<nat>) {
    && (forall p :: p in free ==> Frame(p))
    && (forall p :: p in s.others ==> Frame(p) && p in s.pool.mem && p !in free)
    && (forall c, k, p :: IsSlab(s, c, k, p) ==> p in s.pool.mem && Frame(p) && p !in free && p !in s.others)
    && (forall c, k, d, m, p :: IsSlab(s, c, k, p) && IsSlab(s, d, m, p) ==> c == d && k == m)
  }

  ghost predicate Inv(s: State, free: seq<nat>) { FreeIs(s.pool, free) && CachesOk(s) && PagesOk(s, free) }

  /** The slab pages of a cache after an allocation: the new page in front if it grew. */
  lemma AllocPages(v: S.Cache, page: nat)
    requires v.perSlab >= 1
    ensures var v', n := S.Alloc(v, page).0, |v.slabs|;
            if S.FindSlab(v.slabs, 0) < n || page == 0 then
              |v'.slabs| == n && forall k :: 0 <= k < n ==> v'.slabs[k].page == v.slabs[k].page
            else
              && |v'.slabs| == n + 1 && v'.slabs[0].page == page
              && forall k :: 0 <= k < n ==> v'.slabs[k + 1].page == v.slabs[k].page
  {
    hide S.Slots;
  }

  /** Taking the front page: what it is and is not. */
  lemma TakeFront(s: State, free: seq<nat>)
    requires Inv(s, free)
    ensures var (pool', p) := Alloc(s.pool);
            if free == [] then p == 0 && pool' == s.pool
            else
              && p == free[0] && Frame(p) && p in s.pool.mem && p !in free[1..] && p !in s.others
              && FreeIs(pool', free[1..]) && pool'.mem.Keys == s.pool.mem.Keys
              && (forall q :: q in free[1..] ==> q in free)
              && forall c, k :: !IsSlab(s, c, k, p)
  {
    hide CachesOk, Frame;
    AllocPops(s.pool, free);
    if free != [] { assert free[0] in free; }
  }

  lemma AllocStep(s: State, free: seq<nat>, c: nat) returns (free': seq<nat>)
    requires Inv(s, free) && Allowed(s, CacheAlloc(c))
    ensures Inv(Step(s, CacheAlloc(c)), free')
  {
    hide S.Alloc, S.PeakOk, S.FindSlab, FreeIs, Alloc, Frame, S.Max;
    var v := s.caches[c];
    var (pool', page) := Supply(s, c);
    var s' := Step(s, CacheAlloc(c));
    TakeFront(s, free);
    AllocPages(v, page);
    FreshFor(s, free, c, page);
    S.AllocPeak(v, s.live[c], s.peak[c], page);
    var grown := S.FindSlab(v.slabs, 0) == |v.slabs| && free != [];
    free' := if grown then free[1..] else free;
    assert page != 0 <==> grown by { if grown { NonZero(page); } }
    forall d: nat, m: nat, p: nat | IsSlab(s', d, m, p)
      ensures if grown && d == c && m == 0 then p == page else IsSlab(s, d, if grown && d == c then m - 1 else m, p)
    {
    }
  }

  lemma NonZero(p: nat)
    requires Frame(p)
    ensures p != 0
  {
  }

  /** A page off the list is fresh to the cache; so is no page. */
  lemma FreshFor(s: State, free: seq<nat>, c: nat, page: nat)
    requires Inv(s, free) && c in s.caches && page == Supply(s, c).1
    ensures S.FreshPage(s.caches[c], page)
  {
    TakeFront(s, free);
    var v := s.caches[c];
    assert S.PeakOk(v, s.live[c], s.peak[c]);
    forall k | 0 <= k < |v.slabs| ensures v.slabs[k].page != page {
      assert IsSlab(s, c, k, v.slabs[k].page);
      assert S.SlabOk(v, v.slabs[k]);
    }
  }

  /** Steps that leave the caches alone. */
  lemma SameCaches(s: State, t: State, free: seq<nat>, free': seq<nat>)
    requires CachesOk(s) && PagesOk(s, free) && t.caches == s.caches && t.live == s.live && t.peak == s.peak
    requires t.pool.mem.Keys == s.pool.mem.Keys
    requires forall p :: p in free' ==> Frame(p)
    requires forall p :: p in t.others ==> Frame(p) && p in s.pool.mem && p !in free'
    requires forall p :: p in free' || p in t.others ==> p in free || p in s.others
    ensures CachesOk(t) && PagesOk(t, free')
  {
    hide S.PeakOk, Frame;
    assert forall c, k, p :: IsSlab(t, c, k, p) <==> IsSlab(s, c, k, p);
  }

  lemma PageStep(s: State, free: seq<nat>, op: Op) returns (free': seq<nat>)
    requires Inv(s, free) && Allowed(s, op) && (op.GetPage? || op.PutPage? || op.WriteWord?)
    ensures Inv(Step(s, op), free')
  {
    hide CachesOk, FreeIs, Frame;
    match op
    case GetPage =>
      TakeFront(s, free);
      free' := if free == [] then free else free[1..];
      assert free != [] ==> free[0] in free;
      if free != [] { NonZero(free[0]); }
      SameCaches(s, Step(s, op), free, free');
    case PutPage(p) =>
      NonZero(p);
      FreePushes(s.pool, free, p);
      free' := [p] + free;
      SameCaches(s, Step(s, op), free, free');
    case WriteWord(p, w, v) =>
      free' := free;
      WriteStep(s, free, p, w, v);
      SameCaches(s, Step(s, op), free, free');
  }

  lemma FreeStep(s: State, free: seq<nat>, c: nat, k: nat, p: nat)
    requires Inv(s, free) && Allowed(s, CacheFree(c, k, p))
    ensures Inv(Step(s, CacheFree(c, k, p)), free)
  {
    hide S.PeakOk, FreeIs, Frame, S.IsSlot;
    S.FreePeak(s.caches[c], s.live[c], s.peak[c], k, p);
    var s' := Step(s, CacheFree(c, k, p));
    assert forall d, m, q :: IsSlab(s', d, m, q) <==> IsSlab(s, d, m, q);
  }

  lemma StepKeeps(s: State, free: seq<nat>, op: Op) returns (free': seq<nat>)
    requires Inv(s, free) && Allowed(s, op)
    ensures Inv(Step(s, op), free')
  {
    hide Inv, Allowed, Step;
    match op
    case CacheAlloc(c) => free' := AllocStep(s, free, c);
    case CacheFree(c, k, p) =>
      FreeStep(s, free, c, k, p);
      free' := free;
    case _ => free' := PageStep(s, free, op);
  }

  /** A write to a slab page or a page in other hands never reaches the free list. */
  lemma WriteStep(s: State, free: seq<nat>, p: nat, w: nat, v: nat)
    requires Inv(s, free) && Allowed(s, WriteWord(p, w, v))
    ensures FreeIs(s.pool.(mem := Poke(s.pool.mem, p, w, v)), free) && Poke(s.pool.mem, p, w, v).Keys == s.pool.mem.Keys
  {
    hide CachesOk, Frame;
    ListMembers(s.pool.mem, s.pool.freelist, free);
    ListFrame(s.pool.mem, Poke(s.pool.mem, p, w, v), s.pool.freelist, free);
  }

  ghost predicate Run(s: State, ops: seq<Op>, t: State)
    decreases |ops|
  {
    if ops == [] then t == s else Allowed(s, ops[0]) && Run(Step(s, ops[0]), ops[1..], t)
  }

  lemma {:induction false} RunKeeps(s: State, free: seq<nat>, ops: seq<Op>, t: State) returns (free': seq<nat>)
    requires Inv(s, free) && Run(s, ops, t)
    ensures Inv(t, free')
    decreases |ops|
  {
    hide Inv, Allowed, Step;
    if ops == [] {
      return free;
    }
    var free1 := StepKeeps(s, free, ops[0]);
    free' := RunKeeps(Step(s, ops[0]), free1, ops[1..], t);
  }

  /** Empty caches beside a free list. */
  ghost predicate Start(s: State, free: seq<nat>) {
    && FreeIs(s.pool, free) && (forall p :: p in free ==> Frame(p)) && s.others == {}
    && s.live.Keys == s.caches.Keys && s.peak.Keys == s.caches.Keys
    && forall c :: c in s.caches ==>
         s.live[c] == {} && s.peak[c] == 0 && S.CacheOk(s.caches[c]) && s.caches[c].slabs == []
  }

  lemma StartInv(s: State, free: seq<nat>)
    requires Start(s, free)
    ensures Inv(s, free)
  {
    forall c | c in s.caches ensures S.PeakOk(s.caches[c], s.live[c], s.peak[c]) {
      assert S.SumFree([]) == 0;
    }
  }

  /** Over every run of any number of caches sharing the page list with other code: a page is
      free, or a slab of one cache, or in other hands, never two of these, and every cache
      has as many slabs as its own peak of live objects needs. */
  lemma SlabsAndPages(s: State, free: seq<nat>, ops: seq<Op>, t: State) returns (free': seq<nat>)
    requires Start(s, free) && Run(s, ops, t)
    ensures FreeIs(t.pool, free') && PagesOk(t, free')
    ensures t.live.Keys == t.caches.Keys && t.peak.Keys == t.caches.Keys
    ensures forall c :: c in t.caches ==>
              && S.CacheOk(t.caches[c]) && (forall p :: p in t.live[c] <==> S.Live(t.caches[c], p))
              && |t.caches[c].slabs| == (t.peak[c] + t.caches[c].perSlab - 1) / t.caches[c].perSlab
  {
    hide Run, Start, FreeIs, PagesOk, S.CacheOk, S.Live;
    StartInv(s, free);
    free' := RunKeeps(s, free, ops, t);
    forall c | c in t.caches
      ensures S.CacheOk(t.caches[c]) && t.caches[c].perSlab >= 1
      ensures |t.caches[c].slabs| == (t.peak[c] + t.caches[c].perSlab - 1) / t.caches[c].perSlab
    {
      S.PeakFacts(t.caches[c], t.live[c], t.peak[c]);
      S.CeilIs(t.peak[c], t.caches[c].perSlab, |t.caches[c].slabs|);
    }
  }
}
