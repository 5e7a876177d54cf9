/** The slab allocator in its own form: slab headers at page starts, free objects linked
    through their own first words, caches as mutable records. */
module Kmem {
  import opened SlabModel

  const SLAB_MAGIC: nat := 0x5BAB_10C0

  /** `struct slab`. */
  datatype Hdr = Hdr(magic: nat, freeCount: nat, next: nat, cache: nat, freelist: nat)

  /** `struct kmem_cache`; `slabs` is the address of the first slab, or 0. */
  datatype CacheHdr = CacheHdr(objSize: nat, perSlab: nat, slabs: nat, total: nat, freeObjs: int)

  type Headers = map<nat, Hdr>
  type Words = map<nat, nat>
  type View = map<nat, Cache>

  ghost function PageAt(slabs: seq<Slab>, k: nat): nat { if k < |slabs| then slabs[k].page else 0 }

  ghost function ObjAt(free: seq<nat>, i: nat): nat { if i < |free| then free[i] else 0 }

  /** Free object `i` links to the next one. */
  ghost predicate LinkOk(word: Words, free: seq<nat>, i: nat)
    requires i < |free|
  {
    free[i] in word && word[free[i]] == ObjAt(free, i + 1)
  }

  ghost predicate Links(word: Words, free: seq<nat>) {
    forall i :: 0 <= i < |free| ==> LinkOk(word, free, i)
  }

  /** Memory holds slab `k` of cache `c`: its header and its free list. */
  ghost predicate SlabRepr(hdr: Headers, word: Words, c: nat, slabs: seq<Slab>, k: nat)
    requires k < |slabs|
  {
    var s := slabs[k];
    && s.page in hdr
    && hdr[s.page] == Hdr(SLAB_MAGIC, |s.free|, PageAt(slabs, k + 1), c, ObjAt(s.free, 0))
    && Links(word, s.free)
  }

  ghost predicate CacheRepr(hdr: Headers, word: Words, c: nat, h: CacheHdr, v: Cache) {
    && h == CacheHdr(v.objSize, v.perSlab, PageAt(v.slabs, 0), v.total, v.freeObjs)
    && forall k :: 0 <= k < |v.slabs| ==> SlabRepr(hdr, word, c, v.slabs, k)
  }

  ghost predicate HasSlab(view: View, c: nat, k: nat, page: nat) {
    c in view && k < |view[c].slabs| && view[c].slabs[k].page == page
  }

  /** Every slab page belongs to one slab of one cache. */
  ghost predicate Apart(view: View) {
    forall c, d, k, m, page :: HasSlab(view, c, k, page) && HasSlab(view, d, m, page) ==> c == d && k == m
  }

  ghost predicate Owned(hdr: Headers, view: View) {
    forall page :: page in hdr ==> exists c, k :: HasSlab(view, c, k, page)
  }

  /** A cache whose objects are too large for any slab, or whose size wrapped to 0, and that
      has no slab. */
  ghost predicate Barren(v: Cache) {
    (v.objSize > ROOM || v.objSize == 0) && v.perSlab == 0 && v.slabs == [] && v.total == 0 && v.freeObjs == 0
  }

  ghost predicate Settled(v: Cache) { CacheOk(v) || Barren(v) }

  /** Every object size gives a settled cache; only those that fit a slab can hold objects. */
  lemma NewCacheSettled(size: nat)
    requires size < WORD_LIMIT
    ensures Settled(NewCache(size))
    ensures Barren(NewCache(size)) <==> RoundSize(size) > ROOM || size > WORD_LIMIT - 8
  {
    hide PerSlab, RoundSize;
    CapacityIff(size);
    if 0 < RoundSize(size) <= ROOM { NewCacheOk(size); }
  }

  /** With every slab full, an allocation that gets a page pops a null object exactly when
      the cache is barren: the code would then follow a null pointer. */
  lemma NullPopIff(v: Cache, page: nat)
    requires Settled(v) && FindSlab(v.slabs, 0) == |v.slabs| && page > 0
    ensures Grow(v, page).slabs[0].free == [] <==> Barren(v)
  {
    hide CacheOk, Slot;
    if CacheOk(v) { CacheFacts(v); }
    SlotsCount(page, v.objSize, 0, v.perSlab);
  }

  ghost predicate Repr(hdr: Headers, word: Words, cache: map<nat, CacheHdr>, view: View) {
    && cache.Keys == view.Keys && Apart(view) && Owned(hdr, view)
    && (forall c :: c in view ==> Settled(view[c]))
    && (forall c :: c in view ==> CacheRepr(hdr, word, c, cache[c], view[c]))
  }

  // ---- frames ----

  lemma LinksFrame(word: Words, word': Words, free: seq<nat>)
    requires Links(word, free)
    requires forall p :: p in free && p in word ==> p in word' && word'[p] == word[p]
    ensures Links(word', free)
  {
    forall i | 0 <= i < |free| ensures LinkOk(word', free, i) {
      assert LinkOk(word, free, i);
    }
  }

  /** Cache `d` is represented as before when its own pages and free objects are untouched. */
  lemma CacheFrame(hdr: Headers, word: Words, hdr': Headers, word': Words, d: nat, h: CacheHdr, v: Cache)
    requires CacheRepr(hdr, word, d, h, v)
    requires forall k :: 0 <= k < |v.slabs| && v.slabs[k].page in hdr ==>
               v.slabs[k].page in hdr' && hdr'[v.slabs[k].page] == hdr[v.slabs[k].page]
    requires forall k, p :: 0 <= k < |v.slabs| && p in v.slabs[k].free && p in word ==>
               p in word' && word'[p] == word[p]
    ensures CacheRepr(hdr', word', d, h, v)
  {
    forall k | 0 <= k < |v.slabs| ensures SlabRepr(hdr', word', d, v.slabs, k) {
      assert SlabRepr(hdr, word, d, v.slabs, k);
      LinksFrame(word, word', v.slabs[k].free);
    }
  }

  /** A free object of one slab is a slot of no other page. */
  lemma FreeElsewhere(v: Cache, k: nat, p: nat)
    requires CacheOk(v) && k < |v.slabs| && p in v.slabs[k].free
    ensures SlabOf(p) == v.slabs[k].page && p != 0
  {
    assert SlabOk(v, v.slabs[k]);
    MaskRecoversSlab(v, v.slabs[k].page, p);
  }

  /** Free objects of other slabs keep their words when only `page`'s words change. */
  lemma WordsElsewhere(v: Cache, k: nat, page: nat, word: Words, word': Words)
    requires Settled(v) && k < |v.slabs| && v.slabs[k].page != page
    requires forall p :: p in word && SlabOf(p) != page ==> p in word' && word'[p] == word[p]
    ensures forall p :: p in v.slabs[k].free && p in word ==> p in word' && word'[p] == word[p]
  {
    hide SlabOf, CacheOk;
    forall p | p in v.slabs[k].free && p in word ensures p in word' && word'[p] == word[p] {
      FreeElsewhere(v, k, p);
    }
  }

  /** A cache whose slabs keep their pages leaves every page with its slab. */
  lemma SamePages(hdr: Headers, view: View, c: nat, v': Cache, page: nat, h: Hdr)
    requires Apart(view) && Owned(hdr, view) && c in view && page in hdr
    requires |v'.slabs| == |view[c].slabs|
    requires forall m :: 0 <= m < |v'.slabs| ==> v'.slabs[m].page == view[c].slabs[m].page
    ensures Apart(view[c := v']) && Owned(hdr[page := h], view[c := v'])
  {
    var view', hdr' := view[c := v'], hdr[page := h];
    forall d, m, q ensures HasSlab(view', d, m, q) <==> HasSlab(view, d, m, q) {
    }
    forall q | q in hdr' ensures exists d, m :: HasSlab(view', d, m, q) {
      var d, m :| HasSlab(view, d, m, q);
      assert HasSlab(view', d, m, q);
    }
  }

  /** One slab of one cache gets a new free list: header and at most one link change. */
  lemma Relist(hdr: Headers, word: Words, cache: map<nat, CacheHdr>, view: View, c: nat, k: nat,
               free': seq<nat>, word': Words, v': Cache, h': CacheHdr)
    requires Repr(hdr, word, cache, view) && c in view && k < |view[c].slabs|
    requires v'.slabs == view[c].slabs[k := Slab(view[c].slabs[k].page, free')] && CacheOk(v')
    requires v'.objSize == view[c].objSize && v'.perSlab == view[c].perSlab && v'.total == view[c].total
    requires h' == cache[c].(freeObjs := v'.freeObjs)
    requires Links(word', free')
    requires forall p :: p in word && SlabOf(p) != view[c].slabs[k].page ==> p in word' && word'[p] == word[p]
    ensures var page := view[c].slabs[k].page;
            && page in hdr
            && Repr(hdr[page := hdr[page].(freeCount := |free'|, freelist := ObjAt(free', 0))], word',
                    cache[c := h'], view[c := v'])
  {
    hide CacheOk;
    var v := view[c];
    var page := v.slabs[k].page;
    assert CacheRepr(hdr, word, c, cache[c], v);
    assert SlabRepr(hdr, word, c, v.slabs, k);
    var hdr' := hdr[page := hdr[page].(freeCount := |free'|, freelist := ObjAt(free', 0))];
    var view', cache' := view[c := v'], cache[c := h'];
    SamePages(hdr, view, c, v', page, hdr'[page]);
    assert HasSlab(view, c, k, page);
    hide Owned;
    forall d | d in view' ensures CacheRepr(hdr', word', d, cache'[d], view'[d]) {
      assert CacheRepr(hdr, word, d, cache[d], view[d]);
      forall m | 0 <= m < |view[d].slabs| && (d != c || m != k)
        ensures view[d].slabs[m].page != page
        ensures forall p :: p in view[d].slabs[m].free && p in word ==> p in word' && word'[p] == word[p]
      {
        assert HasSlab(view, d, m, view[d].slabs[m].page);
        WordsElsewhere(view[d], m, page, word, word');
      }
      if d != c {
        CacheFrame(hdr, word, hdr', word', d, cache[d], view[d]);
      } else {
        forall m | 0 <= m < |v'.slabs| ensures SlabRepr(hdr', word', c, v'.slabs, m) {
          assert SlabRepr(hdr, word, c, v.slabs, m);
          if m != k { LinksFrame(word, word', v.slabs[m].free); }
        }
      }
    }
  }

  lemma PopRepr(hdr: Headers, word: Words, cache: map<nat, CacheHdr>, view: View, c: nat, k: nat)
    requires Repr(hdr, word, cache, view) && c in view && k < |view[c].slabs| && view[c].slabs[k].free != []
    ensures var s, v' := view[c].slabs[k], Pop(view[c], k);
            && s.page in hdr && s.free[0] in word && hdr[s.page].freeCount >= 1
            && Repr(hdr[s.page := hdr[s.page].(freeCount := hdr[s.page].freeCount - 1, freelist := word[s.free[0]])],
                    word, cache[c := cache[c].(freeObjs := cache[c].freeObjs - 1)], view[c := v'])
            && hdr[s.page].freelist == s.free[0]
  {
    hide CacheOk;
    var v := view[c];
    var s, v' := v.slabs[k], Pop(v, k);
    assert CacheRepr(hdr, word, c, cache[c], v);
    assert SlabRepr(hdr, word, c, v.slabs, k);
    assert LinkOk(word, s.free, 0);
    PopKeeps(v, k);
    var free' := s.free[1..];
    forall i | 0 <= i < |free'| ensures LinkOk(word, free', i) { assert LinkOk(word, s.free, i + 1); }
    Relist(hdr, word, cache, view, c, k, free', word, v', cache[c].(freeObjs := v'.freeObjs));
  }

  lemma LinksPush(word: Words, free: seq<nat>, p: nat)
    requires Links(word, free) && p !in free
    ensures Links(word[p := ObjAt(free, 0)], [p] + free)
  {
    var word', free' := word[p := ObjAt(free, 0)], [p] + free;
    forall i | 0 <= i < |free'| ensures LinkOk(word', free', i) {
      if i > 0 { assert LinkOk(word, free, i - 1); }
    }
  }

  lemma PushRepr(hdr: Headers, word: Words, cache: map<nat, CacheHdr>, view: View, c: nat, k: nat, p: nat)
    requires Repr(hdr, word, cache, view) && c in view && LiveIn(view[c], k, p)
    ensures var page, v' := view[c].slabs[k].page, Push(view[c], k, p);
            && page in hdr && SlabOf(p) == page && hdr[page].cache == c && hdr[page].magic == SLAB_MAGIC
            && Repr(hdr[page := hdr[page].(freeCount := hdr[page].freeCount + 1, freelist := p)],
                    word[p := hdr[page].freelist], cache[c := cache[c].(freeObjs := cache[c].freeObjs + 1)],
                        view[c := v'])
  {
    var v := view[c];
    var s, v' := v.slabs[k], Push(v, k, p);
    assert CacheRepr(hdr, word, c, cache[c], v);
    assert SlabRepr(hdr, word, c, v.slabs, k);
    assert CacheOk(v) && SlabOk(v, s);
    MaskRecoversSlab(v, s.page, p);
    hide CacheOk, SlabOk, SlabOf, IsSlot;
    PushKeeps(v, k, p);
    var free', word' := [p] + s.free, word[p := hdr[s.page].freelist];
    LinksPush(word, s.free, p);
    Relist(hdr, word, cache, view, c, k, free', word', v', cache[c].(freeObjs := v'.freeObjs));
  }

  /** A free object's link word is outside every live object. */
  lemma FreeApart(hdr: Headers, word: Words, cache: map<nat, CacheHdr>, view: View,
                  c: nat, k: nat, p: nat, d: nat, m: nat, q: nat)
    requires Repr(hdr, word, cache, view) && c in view && LiveIn(view[c], k, p)
    requires d in view && m < |view[d].slabs| && q in view[d].slabs[m].free
    ensures q + 8 <= p || p + view[c].objSize <= q
  {
    hide CacheRepr, PerSlab, SlabOf;
    assert CacheOk(view[c]) && CacheOk(view[d]);
    assert SlabOk(view[c], view[c].slabs[k]) && SlabOk(view[d], view[d].slabs[m]);
    MaskRecoversSlab(view[c], view[c].slabs[k].page, p);
    MaskRecoversSlab(view[d], view[d].slabs[m].page, q);
    assert HasSlab(view, c, k, SlabOf(p)) && HasSlab(view, d, m, SlabOf(q));
    if SlabOf(p) == SlabOf(q) {
      var i, j := SlotIndex(view[c], SlabOf(p), p), SlotIndex(view[c], SlabOf(p), q);
      if i < j { SlotsApart(view[c], SlabOf(p), i, j); }
      if j < i { SlotsApart(view[c], SlabOf(p), j, i); }
    } else {
      PagesApart(SlabOf(p), SlabOf(q));
    }
  }

  /** Whatever the owner of a live object writes, anywhere in the object, the allocator's
      state stands. */
  lemma LiveWriteRepr(hdr: Headers, word: Words, cache: map<nat, CacheHdr>, view: View,
                      c: nat, k: nat, p: nat, w: nat, x: nat)
    requires Repr(hdr, word, cache, view) && c in view && LiveIn(view[c], k, p) && p <= w < p + view[c].objSize
    ensures Repr(hdr, word[w := x], cache, view) && SlabOf(p) + HEADER <= w
  {
    hide SlabOf, PerSlab;
    var word' := word[w := x];
    assert CacheOk(view[c]) && SlabOk(view[c], view[c].slabs[k]);
    MaskRecoversSlab(view[c], view[c].slabs[k].page, p);
    hide CacheOk, IsSlot;
    forall d | d in view ensures CacheRepr(hdr, word', d, cache[d], view[d]) {
      assert CacheRepr(hdr, word, d, cache[d], view[d]);
      forall m | 0 <= m < |view[d].slabs| ensures w !in view[d].slabs[m].free {
        if w in view[d].slabs[m].free {
          FreeApart(hdr, word, cache, view, c, k, p, d, m, w);
        }
      }
      CacheFrame(hdr, word, hdr, word', d, cache[d], view[d]);
    }
  }

  lemma GrowRepr(hdr: Headers, word: Words, cache: map<nat, CacheHdr>, view: View, c: nat, page: nat, word': Words)
    requires Repr(hdr, word, cache, view) && c in view && view[c].perSlab >= 1
    requires page > 0 && page % PAGE == 0 && page !in hdr
    requires Links(word', Slots(page, view[c].objSize, 0, view[c].perSlab))
    requires forall p :: p in word && SlabOf(p) != page ==> p in word' && word'[p] == word[p]
    ensures var v := view[c];
            FreshPage(v, page) && Repr(hdr[page := Hdr(SLAB_MAGIC, v.perSlab, cache[c].slabs, c,
                Slot(page, v.objSize, 0))], word',
                 cache[c := cache[c].(slabs := page, total := v.total + v.perSlab, freeObjs := v.freeObjs + v.perSlab)],
                 view[c := Grow(v, page)])
  {
    hide CacheOk;
    var v := view[c];
    var v' := Grow(v, page);
    var free := Slots(page, v.objSize, 0, v.perSlab);
    NotInHdr(hdr, word, cache, view, page);
    CacheFacts(v);
    SlotsCount(page, v.objSize, 0, v.perSlab);
    assert free[0] == Slot(page, v.objSize, 0);
    forall k | 0 <= k < |v.slabs| ensures v.slabs[k].page != page { assert HasSlab(view, c, k, v.slabs[k].page); }
    GrowKeeps(v, page);
    var hdr' := hdr[page := Hdr(SLAB_MAGIC, v.perSlab, cache[c].slabs, c, Slot(page, v.objSize, 0))];
    var h' := cache[c].(slabs := page, total := v.total + v.perSlab, freeObjs := v.freeObjs + v.perSlab);
    var view', cache' := view[c := v'], cache[c := h'];
    assert CacheRepr(hdr, word, c, cache[c], v);
    GrowOwned(hdr, view, c, page, v', Hdr(SLAB_MAGIC, v.perSlab, cache[c].slabs, c, Slot(page, v.objSize, 0)));
    forall d | d in view' ensures CacheRepr(hdr', word', d, cache'[d], view'[d]) {
      assert CacheRepr(hdr, word, d, cache[d], view[d]);
      forall m | 0 <= m < |view[d].slabs|
        ensures view[d].slabs[m].page != page
        ensures forall p :: p in view[d].slabs[m].free && p in word ==> p in word' && word'[p] == word[p]
      {
        assert HasSlab(view, d, m, view[d].slabs[m].page);
        WordsElsewhere(view[d], m, page, word, word');
      }
      if d != c {
        CacheFrame(hdr, word, hdr', word', d, cache[d], view[d]);
      } else {
        forall m | 0 <= m < |v'.slabs| ensures SlabRepr(hdr', word', c, v'.slabs, m) {
          if m > 0 {
            assert v'.slabs[m] == v.slabs[m - 1];
            assert SlabRepr(hdr, word, c, v.slabs, m - 1);
            LinksFrame(word, word', v.slabs[m - 1].free);
          }
        }
      }
    }
  }

  lemma SlabInHdr(hdr: Headers, word: Words, cache: map<nat, CacheHdr>, view: View, c: nat, k: nat, page: nat)
    requires Repr(hdr, word, cache, view) && HasSlab(view, c, k, page)
    ensures page in hdr && hdr[page].magic == SLAB_MAGIC && hdr[page].cache == c
  {
    assert CacheRepr(hdr, word, c, cache[c], view[c]);
    assert SlabRepr(hdr, word, c, view[c].slabs, k);
  }

  /** A page without a slab header is no slab's page. */
  lemma NotInHdr(hdr: Headers, word: Words, cache: map<nat, CacheHdr>, view: View, page: nat)
    requires Repr(hdr, word, cache, view) && page !in hdr
    ensures forall d, m :: !HasSlab(view, d, m, page)
  {
    hide Repr, HasSlab;
    forall d, m ensures !HasSlab(view, d, m, page) {
      if HasSlab(view, d, m, page) { SlabInHdr(hdr, word, cache, view, d, m, page); }
    }
  }

  lemma GrowOwned(hdr: Headers, view: View, c: nat, page: nat, v': Cache, h: Hdr)
    requires Apart(view) && Owned(hdr, view) && c in view && forall d, m :: !HasSlab(view, d, m, page)
    requires v'.slabs != [] && v'.slabs[0].page == page && v'.slabs[1..] == view[c].slabs
    ensures Apart(view[c := v']) && Owned(hdr[page := h], view[c := v'])
  {
    var view', hdr' := view[c := v'], hdr[page := h];
    assert forall m :: 0 < m < |v'.slabs| ==> v'.slabs[m] == v'.slabs[1..][m - 1];
    forall d: nat, m: nat, q: nat | HasSlab(view', d, m, q)
      ensures if d == c && m == 0 then q == page else HasSlab(view, d, if d == c then m - 1 else m, q)
    {
    }
    forall q | q in hdr' ensures exists d, m :: HasSlab(view', d, m, q) {
      if q == page {
        assert HasSlab(view', c, 0, page);
      } else {
        var d: nat, m: nat :| HasSlab(view, d, m, q);
        var m' := if d == c then m + 1 else m;
        assert HasSlab(view', d, m', q);
      }
    }
  }

  // ---- the allocator ----

  const CLASSES: seq<nat> := [16, 32, 64, 128, 256, 512, 1024, 2048]

  class Allocator {
    var hdr: Headers
    var word: Words
    var cache: map<nat, CacheHdr>
    ghost var view: View

    ghost predicate Valid()
      reads this
    {
      Repr(hdr, word, cache, view)
    }

    constructor ()
      ensures Valid() && view == map[]
    {
      hdr, word, cache, view := map[], map[], map[], map[];
    }

    /** kmem_cache_init of a new cache, for any object size. */
    method CacheInit(c: nat, size: nat)
      requires Valid() && c !in cache && size < WORD_LIMIT
      modifies this`cache, this`view
      ensures Valid() && view == old(view)[c := NewCache(size)]
    {
      hide Settled, PerSlab, RoundSize, SlabRepr, Capacity;
      NewCacheSettled(size);
      var n := RoundSize(size);
      cache := cache[c := CacheHdr(n, Capacity(n), 0, 0, 0)];
      view := view[c := NewCache(size)];
      forall page | page in hdr ensures exists d, k :: HasSlab(view, d, k, page) {
        var d, k :| HasSlab(old(view), d, k, page);
        assert HasSlab(view, d, k, page);
      }
      assert forall d, k, page :: HasSlab(view, d, k, page) ==> HasSlab(old(view), d, k, page);
    }

    /** grow_cache: format `page` as a slab of `c`, free list built from the last slot down. */
    method GrowCache(c: nat, page: nat) returns (ok: bool)
      requires Valid() && c in cache && page % PAGE == 0 && page !in hdr
      requires cache[c].perSlab >= 1 || page == 0
      modifies this
      ensures Valid() && ok == (page != 0) && c in old(view)
      ensures view == if ok then old(view)[c := Grow(old(view)[c], page)] else old(view)
      ensures ok ==> FreshPage(old(view)[c], page) && cache[c].slabs == page
    {
      hide Repr, Links, SlabOf, FreshPage, Grow;
      RecordOf(hdr, word, cache, view, c);
      if page == 0 { return false; }
      var size, n := cache[c].objSize, cache[c].perSlab;
      var free, i := 0, n;
      ghost var v := view[c];
      assert Links(word, Slots(page, size, n, n)) by { NoLinks(word, Slots(page, size, n, n)); }
      while i > 0
        invariant i <= n && hdr == old(hdr) && cache == old(cache) && view == old(view)
        invariant free == ObjAt(Slots(page, size, i, n), 0)
        invariant Links(word, Slots(page, size, i, n))
        invariant forall p :: p in old(word) && SlabOf(p) != page ==> p in word && word[p] == old(word)[p]
      {
        i := i - 1;
        ghost var word0 := word;
        SlotInPage(v, page, i);
        var obj := Slot(page, size, i);
        word := word[obj := free];
        LinkCons(v, page, i, word0, word);
        free := obj;
      }
      SlotsCount(page, size, 0, n);
      GrowRepr(old(hdr), old(word), old(cache), old(view), c, page, word);
      hdr := hdr[page := Hdr(SLAB_MAGIC, n, cache[c].slabs, c, free)];
      cache := cache[c := cache[c].(slabs := page, total := cache[c].total + n, freeObjs := cache[c].freeObjs + n)];
      view := view[c := Grow(view[c], page)];
      return true;
    }

    /** The walk along a cache's slabs to the first with a free object, 0 past the last. */
    method WalkSlabs(c: nat) returns (s: nat)
      requires Valid() && c in cache
      ensures c in view && var slabs := view[c].slabs; var k := FindSlab(slabs, 0);
              s == PageAt(slabs, k) && (s == 0 <==> k == |slabs|)
    {
      hide Repr, CacheOk, SlabOf;
      RecordOf(hdr, word, cache, view, c);
      ghost var v := view[c];
      s := cache[c].slabs;
      ghost var k := 0;
      SlabFields(hdr, word, cache, view, c);
      while s != 0 && hdr[s].freeCount == 0
        invariant k <= |v.slabs| && s == PageAt(v.slabs, k)
        invariant FindSlab(v.slabs, 0) == FindSlab(v.slabs, k)
        decreases |v.slabs| - k
      {
        s := hdr[s].next;
        k := k + 1;
      }
    }

    /** The first free object of slab `k` leaves its list. */
    method TakeFrom(c: nat, s: nat, ghost k: nat) returns (p: nat)
      requires Valid() && c in view && k < |view[c].slabs|
      requires view[c].slabs[k].page == s && view[c].slabs[k].free != []
      modifies this
      ensures Valid() && c in old(view) && view == old(view)[c := Pop(old(view)[c], k)]
      ensures p == old(view)[c].slabs[k].free[0]
    {
      hide Repr, Pop, CacheOk;
      RecordOf(hdr, word, cache, view, c);
      PopRepr(hdr, word, cache, view, c, k);
      view := view[c := Pop(view[c], k)];
      p := hdr[s].freelist;
      hdr := hdr[s := hdr[s].(freelist := word[p], freeCount := hdr[s].freeCount - 1)];
      cache := cache[c := cache[c].(freeObjs := cache[c].freeObjs - 1)];
    }

    /** kmem_cache_alloc: the first slab with a free object, else a new slab. A barren cache
        is served only when no page is left: then the call fails cleanly. */
    method CacheAlloc(c: nat, page: nat) returns (p: nat)
      requires Valid() && c in cache && page % PAGE == 0 && page !in hdr
      requires cache[c].perSlab >= 1 || page == 0
      modifies this
      ensures Valid() && c in old(view) && (old(view)[c].perSlab >= 1 || Barren(old(view)[c]))
      ensures old(view)[c].perSlab >= 1 ==>
                var (v', q) := Alloc(old(view)[c], page); view == old(view)[c := v'] && p == q
      ensures old(view)[c].perSlab == 0 ==> view == old(view) && p == 0
    {
      hide Repr, FreshPage, Pop, CacheOk, SlabOf;
      RecordOf(hdr, word, cache, view, c);
      ghost var v := view[c];
      var s := WalkSlabs(c);
      ghost var k := FindSlab(v.slabs, 0);
      if s == 0 {
        var ok := GrowCache(c, page);
        if !ok {
          assert view[c := v] == view;
          return 0;
        }
        SlotsCount(page, v.objSize, 0, v.perSlab);
        s, k := page, 0;
      }
      p := TakeFrom(c, s, k);
    }

    /** slab_free on the slab recovered from the pointer. */
    method SlabFree(s: nat, p: nat, ghost c: nat, ghost k: nat)
      requires Valid() && c in view && LiveIn(view[c], k, p) && s == view[c].slabs[k].page
      modifies this
      ensures Valid() && view == old(view)[c := Push(old(view)[c], k, p)]
    {
      hide Repr, SlabOf, IsSlot;
      RecordOf(hdr, word, cache, view, c);
      PushRepr(hdr, word, cache, view, c, k, p);
      view := view[c := Push(view[c], k, p)];
      word := word[p := hdr[s].freelist];
      hdr := hdr[s := hdr[s].(freelist := p, freeCount := hdr[s].freeCount + 1)];
      var owner := hdr[s].cache;
      cache := cache[owner := cache[owner].(freeObjs := cache[owner].freeObjs + 1)];
    }

    /** kfree: null and pointers outside any slab page change nothing; a live object goes
        back to the cache it came from, found by masking the pointer. */
    method Kfree(p: nat, ghost c: nat, ghost k: nat)
      requires Valid() && (p != 0 && SlabOf(p) in hdr ==> c in view && LiveIn(view[c], k, p))
      modifies this
      ensures Valid()
      ensures view == if p != 0 && SlabOf(p) in old(hdr) then old(view)[c := Push(old(view)[c], k, p)] else old(view)
    {
      hide Repr, SlabOf, IsSlot;
      if p == 0 { return; }
      var s := SlabOf(p);
      if s in hdr { PushRepr(hdr, word, cache, view, c, k, p); }
      if s !in hdr || hdr[s].magic != SLAB_MAGIC { return; }
      SlabFree(s, p, c, k);
    }

    /** kmem_cache_free: also refuses an object of another cache. */
    method CacheFree(d: nat, p: nat, ghost c: nat, ghost k: nat)
      requires Valid() && (p != 0 && SlabOf(p) in hdr ==> c in view && LiveIn(view[c], k, p))
      modifies this
      ensures Valid()
      ensures view == if p != 0 && SlabOf(p) in old(hdr) &&
                c == d then old(view)[c := Push(old(view)[c], k, p)] else old(view)
    {
      hide Repr, SlabOf, IsSlot;
      if p == 0 { return; }
      var s := SlabOf(p);
      if s in hdr { PushRepr(hdr, word, cache, view, c, k, p); }
      if s !in hdr || hdr[s].magic != SLAB_MAGIC || hdr[s].cache != d { return; }
      SlabFree(s, p, c, k);
    }

    /** kmalloc: the smallest size class that fits; none for 0 or above 2048 bytes. */
    method Kmalloc(size: nat, page: nat) returns (p: nat)
      requires Valid() && page % PAGE == 0 && page !in hdr
      requires forall i :: 0 <= i < |CLASSES| ==> i in cache && cache[i].objSize == CLASSES[i]
      modifies this
      ensures Valid()
      ensures size == 0 || ClassFor(size, 0) == |CLASSES| ==> p == 0 && view == old(view)
      ensures var i := ClassFor(size, 0);
              size != 0 && i < |CLASSES| ==>
                && i in old(view) && old(view)[i].perSlab >= 1
                && var (v', q) := Alloc(old(view)[i], page); view == old(view)[i := v'] && p == q
    {
      hide Repr, Alloc;
      if size == 0 { return 0; }
      var i := 0;
      while i < |CLASSES|
        invariant i <= |CLASSES| && ClassFor(size, 0) == ClassFor(size, i)
        invariant Valid() && view == old(view) && hdr == old(hdr) && cache == old(cache)
      {
        if CLASSES[i] >= size {
          RecordOf(hdr, word, cache, view, i);
          p := CacheAlloc(i, page);
          return;
        }
        i := i + 1;
      }
      return 0;
    }
  }

  /** Index of the first size class from `i` on that fits `size`. */
  function ClassFor(size: nat, i: nat): (k: nat)
    requires i <= |CLASSES|
    ensures i <= k <= |CLASSES|
    ensures k < |CLASSES| ==> size <= CLASSES[k]
    ensures forall m :: i <= m < k ==> CLASSES[m] < size
    decreases |CLASSES| - i
  {
    if i == |CLASSES| || CLASSES[i] >= size then i else ClassFor(size, i + 1)
  }

  /** kmalloc serves exactly the sizes 1 to 2048, from a class of less than twice the size or
      of 16 bytes. */
  lemma ClassIs(size: nat)
    ensures ClassFor(size, 0) == |CLASSES| <==> size > 2048
    ensures 0 < size <= 2048 ==>
              var n := CLASSES[ClassFor(size, 0)]; size <= n && (n == 16 || n < 2 * size) && n <= 2048
  {
    var k := ClassFor(size, 0);
    if k > 0 { assert CLASSES[k - 1] < size; }
    assert CLASSES[7] == 2048;
  }

  lemma NoLinks(word: Words, free: seq<nat>)
    requires free == []
    ensures Links(word, free)
  {
  }

  /** The cache record mirrors the cache. */
  lemma RecordOf(hdr: Headers, word: Words, cache: map<nat, CacheHdr>, view: View, c: nat)
    requires Repr(hdr, word, cache, view) && (c in cache || c in view)
    ensures c in view && c in cache && if view[c].perSlab >= 1 then Sized(view[c]) else Barren(view[c])
    ensures var v := view[c];
            cache[c] == CacheHdr(v.objSize, v.perSlab, PageAt(v.slabs, 0), v.total, v.freeObjs)
  {
    assert CacheRepr(hdr, word, c, cache[c], view[c]);
  }

  lemma LinkCons(v: Cache, page: nat, i: nat, word: Words, word': Words)
    requires Sized(v) && page > 0 && i < v.perSlab
    requires var rest := Slots(page, v.objSize, i + 1, v.perSlab);
             Links(word, rest) && word' == word[Slot(page, v.objSize, i) := ObjAt(rest, 0)]
    ensures Links(word', Slots(page, v.objSize, i, v.perSlab))
  {
    var rest, all := Slots(page, v.objSize, i + 1, v.perSlab), Slots(page, v.objSize, i, v.perSlab);
    SlotsNoDup(v, page, i);
    forall j | 0 <= j < |all| ensures LinkOk(word', all, j) {
      if j > 0 {
        assert LinkOk(word, rest, j - 1);
        assert all[j] != all[0];
      }
    }
  }

  lemma SlabFields(hdr: Headers, word: Words, cache: map<nat, CacheHdr>, view: View, c: nat)
    requires Repr(hdr, word, cache, view) && c in view
    ensures var slabs := view[c].slabs;
            forall k :: 0 <= k < |slabs| ==>
              && slabs[k].page != 0 && slabs[k].page in hdr
              && hdr[slabs[k].page].freeCount == |slabs[k].free| && hdr[slabs[k].page].next == PageAt(slabs, k + 1)
  {
    var slabs := view[c].slabs;
    assert CacheRepr(hdr, word, c, cache[c], view[c]);
    forall k | 0 <= k < |slabs|
      ensures slabs[k].page != 0 && slabs[k].page in hdr
      ensures hdr[slabs[k].page].freeCount == |slabs[k].free| && hdr[slabs[k].page].next == PageAt(slabs, k + 1)
    {
      assert SlabOk(view[c], slabs[k]);
      assert SlabRepr(hdr, word, c, slabs, k);
    }
  }

  /** Live objects of all caches are disjoint in memory, past their slab's header, 8-aligned,
      and masking any of them names its own slab and cache. */
  lemma LiveObjects(hdr: Headers, word: Words, cache: map<nat, CacheHdr>, view: View,
                    c: nat, k: nat, p: nat, d: nat, m: nat, q: nat)
    requires Repr(hdr, word, cache, view) && c in view && d in view
    requires LiveIn(view[c], k, p) && LiveIn(view[d], m, q)
    ensures SlabOf(p) in hdr && hdr[SlabOf(p)].cache == c && view[c].slabs[k].page == SlabOf(p)
    ensures p % 8 == 0 && SlabOf(p) + HEADER <= p && p + view[c].objSize <= SlabOf(p) + PAGE
    ensures p == q ==> c == d && k == m
    ensures p != q ==> p + view[c].objSize <= q || q + view[d].objSize <= p
  {
    assert SlabOk(view[c], view[c].slabs[k]) && SlabOk(view[d], view[d].slabs[m]);
    MaskRecoversSlab(view[c], view[c].slabs[k].page, p);
    MaskRecoversSlab(view[d], view[d].slabs[m].page, q);
    assert CacheRepr(hdr, word, c, cache[c], view[c]);
    assert SlabRepr(hdr, word, c, view[c].slabs, k);
    assert HasSlab(view, c, k, SlabOf(p)) && HasSlab(view, d, m, SlabOf(q));
    if SlabOf(p) == SlabOf(q) {
      var i, j := SlotIndex(view[c], SlabOf(p), p), SlotIndex(view[c], SlabOf(p), q);
      if i < j { SlotsApart(view[c], SlabOf(p), i, j); }
      if j < i { SlotsApart(view[c], SlabOf(p), j, i); }
    } else {
      PagesApart(SlabOf(p), SlabOf(q));
    }
  }

  lemma PagesApart(a: nat, b: nat)
    requires a % PAGE == 0 && b % PAGE == 0 && a != b
    ensures a + PAGE <= b || b + PAGE <= a
  {
  }
}
