/** The ENA receive ring: buffers travel from the driver through the submission ring to the
    device and back through the completion ring. Each buffer is in exactly one place in
    every reachable state, and neither ring overwrites an entry its reader still needs. */
module EnaRx {
  import opened RingCounter

  const SLOTS := 64
  const BUF_BYTES := 2048

  datatype Desc = Desc(rid: nat, addr: nat, phase: nat)
  datatype Done = Done(rid: nat, len: nat, phase: nat)

  /** The driver's rings, counters and phases; `mine` is the buffer the driver has taken and
      not yet posted back. The device keeps its own counters and the buffers it has read. */
  datatype Rx = Rx(depth: nat, bufs: seq<nat>,
                   sq: seq<Desc>, sqTail: nat, sqPhase: nat, sqBell: nat,
                   cq: seq<Done>, cqHead: nat, cqPhase: nat, mine: seq<nat>,
                   devRead: nat, held: seq<nat>, devPost: nat, devTag: nat)

  /** `Enrol`, `Post`, `Ring` and `Take` are the driver's steps, `Fetch` and `Complete` the device's. */
  datatype Step = Enrol(slot: nat, addr: nat) | Post | Ring | Take | Fetch | Complete(which: nat, len: nat)

  function Inc(k: nat): (r: nat)
    ensures r < U16
  {
    (k + 1) % U16
  }

  /** The depths the driver accepts. */
  predicate Depth(d: nat) { 0 < d <= SLOTS }

  /** A 16-bit counter still stands for count `n`: it has not wrapped, or wrapping is harmless. */
  predicate Rotates(depth: nat, n: nat)
    requires depth > 0
  {
    U16 % depth == 0 || n < U16
  }

  predicate Sized(x: Rx) {
    && Depth(x.depth) && |x.sq| == |x.cq| == x.depth && |x.bufs| == SLOTS
    && x.sqPhase < 2 && x.cqPhase < 2 && x.devTag < 2
  }

  function Flip(phase: nat, wrapped: bool): (p: nat)
    requires phase < 2
    ensures p < 2
  {
    if wrapped then 1 - phase else phase
  }

  predicate Enabled(x: Rx, s: Step) {
    && Sized(x)
    && match s
       case Enrol(slot, addr) => x.mine == [] && slot < x.depth
       case Post => |x.mine| == 1 && x.mine[0] < SLOTS
       case Ring => true
       case Take => x.mine == [] && x.cq[Slot(x.cqHead, x.depth)].phase == x.cqPhase
       case Fetch => x.devRead != x.sqBell
       case Complete(which, len) => which < |x.held|
  }

  function Apply(x: Rx, s: Step): (x': Rx)
    requires Enabled(x, s)
    ensures Sized(x')
  {
    match s
    case Enrol(slot, addr) => x.(bufs := x.bufs[slot := addr], mine := [slot])
    case Post =>
      var t := Inc(x.sqTail);
      x.(sq := x.sq[Slot(x.sqTail, x.depth) := Desc(x.mine[0], x.bufs[x.mine[0]], x.sqPhase)],
         sqTail := t, sqPhase := Flip(x.sqPhase, Slot(t, x.depth) == 0), mine := [])
    case Ring => x.(sqBell := x.sqTail)
    case Take =>
      var h := Inc(x.cqHead);
      x.(mine := [x.cq[Slot(x.cqHead, x.depth)].rid % SLOTS],
         cqHead := h, cqPhase := Flip(x.cqPhase, Slot(h, x.depth) == 0))
    case Fetch => x.(held := x.held + [x.sq[Slot(x.devRead, x.depth)].rid], devRead := Inc(x.devRead))
    case Complete(which, len) =>
      var p := Inc(x.devPost);
      x.(cq := x.cq[Slot(x.devPost, x.depth) := Done(x.held[which], len, x.devTag)],
         held := x.held[..which] + x.held[which + 1..],
         devPost := p, devTag := Flip(x.devTag, Slot(p, x.depth) == 0))
  }

  // ---- the unbounded history ----

  /** Buffers ever posted and how many the doorbell shows and the device has read; buffers
      ever completed, with lengths, and how many the driver has taken; and how many buffers
      are enrolled. */
  datatype Log = Log(posted: seq<nat>, rung: nat, read: nat, done: seq<nat>, lens: seq<nat>, taken: nat, count: nat)

  const EMPTY := Log([], 0, 0, [], [], 0, 0)

  ghost predicate InOrder(g: Log) {
    g.read <= g.rung <= |g.posted| && g.taken <= |g.done| == |g.lens|
  }

  /** What the step does to the history. */
  ghost function Record(x: Rx, g: Log, s: Step): Log
    requires Enabled(x, s) && InOrder(g)
  {
    match s
    case Enrol(_, _) => g.(count := g.count + 1)
    case Post => g.(posted := g.posted + x.mine)
    case Ring => g.(rung := |g.posted|)
    case Take => g.(taken := g.taken + 1)
    case Fetch => g.(read := g.read + 1)
    case Complete(which, len) => g.(done := g.done + [x.held[which]], lens := g.lens + [len])
  }

  function All(n: nat): (s: seq<nat>)
    ensures |s| == n && forall i :: 0 <= i < n ==> s[i] == i
  {
    if n == 0 then [] else All(n - 1) + [n - 1]
  }

  /** Where the buffers are: posted and unread, with the device, completed and untaken, or
      with the driver. */
  ghost function Places(posted: seq<nat>, held: seq<nat>, done: seq<nat>, mine: seq<nat>): multiset<nat> {
    multiset(posted) + multiset(held) + multiset(done) + multiset(mine)
  }

  ghost predicate Conserved(x: Rx, g: Log) {
    && InOrder(g) && g.count <= x.depth <= SLOTS
    && Places(g.posted[g.read..], x.held, g.done[g.taken..], x.mine) == multiset(All(g.count))
  }

  /** Unread descriptors are intact in the submission ring. */
  ghost predicate SqHolds(sq: seq<Desc>, bufs: seq<nat>, posted: seq<nat>, read: nat, depth: nat) {
    && 0 < depth == |sq| && |bufs| == SLOTS && read <= |posted| <= read + depth
    && forall k :: read <= k < |posted| ==>
         posted[k] < SLOTS && sq[Slot(k, depth)] == Desc(posted[k], bufs[posted[k]], Tag(k, depth))
  }

  /** The completion ring holds the last `depth` completions; the rest is still zero. */
  ghost predicate CqHolds(cq: seq<Done>, done: seq<nat>, lens: seq<nat>, depth: nat) {
    && 0 < depth == |cq| && |done| == |lens|
    && (forall k :: 0 <= k < |done| <= k + depth ==> cq[Slot(k, depth)] == Done(done[k], lens[k], Tag(k, depth)))
    && forall i :: |done| <= i < depth ==> cq[i].phase == 0
  }

  /** The 16-bit counters are the unbounded ones modulo 65536, the phases are pass parities. */
  ghost predicate Counters(x: Rx, g: Log)
    requires Sized(x)
  {
    && x.sqTail == |g.posted| % U16 && x.sqPhase == Tag(|g.posted|, x.depth)
    && x.sqBell == g.rung % U16 && x.devRead == g.read % U16
    && x.cqHead == g.taken % U16 && x.cqPhase == Tag(g.taken, x.depth)
    && x.devPost == |g.done| % U16 && x.devTag == Tag(|g.done|, x.depth)
    && |x.mine| <= 1 && |g.done| + |x.held| == g.read
  }

  /** Buffers conserved, counters and phases right, both rings holding what they should. */
  ghost predicate Intact(x: Rx, g: Log) {
    && Sized(x) && Conserved(x, g) && Counters(x, g)
    && SqHolds(x.sq, x.bufs, g.posted, g.read, x.depth)
    && CqHolds(x.cq, g.done, g.lens, x.depth)
  }

  ghost predicate Inv(x: Rx, g: Log) { Intact(x, g) && Rotates(x.depth, |g.posted|) }

  // ---- conservation ----

  lemma Totals(x: Rx, g: Log)
    requires Conserved(x, g)
    ensures |g.posted| - g.read + |x.held| + |g.done| - g.taken + |x.mine| == g.count
    ensures forall b :: b in x.held || b in x.mine || b in g.posted[g.read..] || b in g.done[g.taken..] ==> b < g.count
  {
    assert |Places(g.posted[g.read..], x.held, g.done[g.taken..], x.mine)| == g.count;
    forall b | b in x.held || b in x.mine || b in g.posted[g.read..] || b in g.done[g.taken..] ensures b < g.count {
      assert Places(g.posted[g.read..], x.held, g.done[g.taken..], x.mine)[b] > 0;
      assert b in All(g.count);
    }
  }

  lemma Enrolled(posted: seq<nat>, held: seq<nat>, done: seq<nat>, n: nat)
    requires Places(posted, held, done, []) == multiset(All(n))
    ensures Places(posted, held, done, [n]) == multiset(All(n + 1))
  {
    assert All(n + 1) == All(n) + [n];
  }

  lemma MovePosted(posted: seq<nat>, read: nat, held: seq<nat>, done: seq<nat>, mine: seq<nat>)
    requires read <= |posted| && |mine| == 1
    ensures Places((posted + mine)[read..], held, done, []) == Places(posted[read..], held, done, mine)
  {
    assert (posted + mine)[read..] == posted[read..] + mine;
  }

  lemma MoveRead(posted: seq<nat>, read: nat, held: seq<nat>, done: seq<nat>, mine: seq<nat>)
    requires read < |posted|
    ensures Places(posted[read + 1..], held + [posted[read]], done, mine) == Places(posted[read..], held, done, mine)
  {
    assert posted[read..] == [posted[read]] + posted[read + 1..];
  }

  lemma MoveDone(posted: seq<nat>, held: seq<nat>, i: nat, done: seq<nat>, taken: nat, mine: seq<nat>)
    requires i < |held| && taken <= |done|
    ensures Places(posted, held[..i] + held[i + 1..], (done + [held[i]])[taken..], mine) ==
              Places(posted, held, done[taken..], mine)
  {
    assert held == held[..i] + [held[i]] + held[i + 1..];
    assert (done + [held[i]])[taken..] == done[taken..] + [held[i]];
  }

  lemma MoveTaken(posted: seq<nat>, held: seq<nat>, done: seq<nat>, taken: nat)
    requires taken < |done|
    ensures Places(posted, held, done[taken + 1..], [done[taken]]) == Places(posted, held, done[taken..], [])
  {
    assert done[taken..] == [done[taken]] + done[taken + 1..];
  }

  lemma StepConserves(x: Rx, g: Log, s: Step)
    requires Conserved(x, g) && Enabled(x, s) && (s.Enrol? ==> s.slot == g.count)
    requires s.Take? ==> g.taken < |g.done| && Apply(x, s).mine == [g.done[g.taken]]
    requires s.Fetch? ==> g.read < g.rung && Apply(x, s).held == x.held + [g.posted[g.read]]
    ensures Conserved(Apply(x, s), Record(x, g, s))
  {
    hide Slot, Places, All, Flip, Inc;
    match s
    case Enrol(_, _) => Enrolled(g.posted[g.read..], x.held, g.done[g.taken..], g.count);
    case Post => MovePosted(g.posted, g.read, x.held, g.done[g.taken..], x.mine);
    case Ring =>
    case Take => MoveTaken(g.posted[g.read..], x.held, g.done, g.taken);
    case Fetch => MoveRead(g.posted, g.read, x.held, g.done[g.taken..], x.mine);
    case Complete(which, len) => MoveDone(g.posted[g.read..], x.held, which, g.done, g.taken, x.mine);
  }

  // ---- the rings ----

  /** A post goes to a slot whose previous descriptor the device has read. */
  lemma PostHolds(sq: seq<Desc>, bufs: seq<nat>, posted: seq<nat>, read: nat, depth: nat, b: nat)
    requires SqHolds(sq, bufs, posted, read, depth) && |posted| < read + depth && b < SLOTS
    ensures SqHolds(sq[Slot(|posted|, depth) := Desc(b, bufs[b], Tag(|posted|, depth))], bufs, posted + [b], read,
              depth)
  {
    hide Slot, Tag;
    var n := |posted|;
    var sq' := sq[Slot(n, depth) := Desc(b, bufs[b], Tag(n, depth))];
    forall k | read <= k < n + 1
      ensures (posted + [b])[k] < SLOTS && sq'[Slot(k, depth)] ==
                Desc((posted + [b])[k], bufs[(posted + [b])[k]], Tag(k, depth))
    {
      if k < n {
        SlotApart(k, n, depth);
        assert posted[k] < SLOTS;
      }
    }
  }

  /** A completion goes to a slot whose previous completion the driver has taken. */
  lemma CompleteHolds(cq: seq<Done>, done: seq<nat>, lens: seq<nat>, depth: nat, b: nat, len: nat)
    requires CqHolds(cq, done, lens, depth)
    ensures CqHolds(cq[Slot(|done|, depth) := Done(b, len, Tag(|done|, depth))], done + [b], lens + [len], depth)
  {
    hide Slot, Tag;
    var n := |done|;
    var cq' := cq[Slot(n, depth) := Done(b, len, Tag(n, depth))];
    forall k | 0 <= k < n + 1 <= k + depth
      ensures cq'[Slot(k, depth)] == Done((done + [b])[k], (lens + [len])[k], Tag(k, depth))
    {
      if k < n {
        SlotApart(k, n, depth);
        assert cq[Slot(k, depth)] == Done(done[k], lens[k], Tag(k, depth));
      }
    }
    forall i | n + 1 <= i < depth ensures cq'[i].phase == 0 {
      SlotSmall(n, depth);
    }
  }

  /** The head entry carries the expected phase exactly when an untaken completion is there. */
  lemma HeadMatches(cq: seq<Done>, done: seq<nat>, lens: seq<nat>, depth: nat, taken: nat)
    requires CqHolds(cq, done, lens, depth) && taken <= |done| <= taken + depth
    ensures cq[Slot(taken, depth)].phase == Tag(taken, depth) <==> taken < |done|
    ensures taken < |done| ==> cq[Slot(taken, depth)] == Done(done[taken], lens[taken], Tag(taken, depth))
  {
    hide Slot, Tag;
    if taken < |done| {
      assert cq[Slot(taken, depth)] == Done(done[taken], lens[taken], Tag(taken, depth));
    } else if taken >= depth {
      SlotBack(taken, depth);
      var k := taken - depth;
      assert cq[Slot(k, depth)] == Done(done[k], lens[k], Tag(k, depth));
    } else {
      SlotSmall(taken, depth);
    }
  }

  /** In every state of the invariant: the driver sees a completion exactly when one is
      pending and it is the oldest; the device sees a descriptor exactly when one is rung and
      unread and it is the oldest, unharmed; and neither ring is over-full. */
  lemma Sees(x: Rx, g: Log)
    requires Inv(x, g)
    ensures |g.posted| <= g.read + x.depth && |g.done| <= g.taken + x.depth
    ensures x.held != [] ==> |g.done| < g.taken + x.depth
    ensures x.mine != [] ==> |g.posted| < g.read + x.depth
    ensures x.cq[Slot(x.cqHead, x.depth)].phase == x.cqPhase <==> g.taken < |g.done|
    ensures g.taken < |g.done| ==>
              x.cq[Slot(x.cqHead, x.depth)] == Done(g.done[g.taken], g.lens[g.taken], x.cqPhase) &&
                  g.done[g.taken] < x.depth
    ensures x.devRead != x.sqBell <==> g.read < g.rung
    ensures g.read < g.rung ==>
              && g.posted[g.read] < x.depth
              && x.sq[Slot(x.devRead, x.depth)] == Desc(g.posted[g.read], x.bufs[g.posted[g.read]],
                  Tag(g.read, x.depth))
  {
    hide Slot, Tag, Places, All, Rotates, CqHolds, SqHolds, Conserved;
    Totals(x, g);
    WithinDepth(x, g);
    RotatesLess(x.depth, g.taken, |g.posted|);
    RotatesLess(x.depth, g.read, |g.posted|);
    SameSlot(g.taken, x.depth);
    SameSlot(g.read, x.depth);
    BellMoves(g.read, g.rung);
    HeadMatches(x.cq, g.done, g.lens, x.depth, g.taken);
    if g.read < g.rung {
      SqAt(x, g);
    }
    if g.taken < |g.done| {
      assert g.done[g.taken] in g.done[g.taken..];
    }
  }

  lemma WithinDepth(x: Rx, g: Log)
    requires Inv(x, g)
    ensures Sized(x) && InOrder(g) && g.count <= x.depth <= SLOTS && 0 < x.depth && Rotates(x.depth, |g.posted|)
  {
  }

  lemma SqAt(x: Rx, g: Log)
    requires Inv(x, g) && g.read < g.rung
    ensures g.posted[g.read] < x.depth
    ensures x.sq[Slot(g.read, x.depth)] == Desc(g.posted[g.read], x.bufs[g.posted[g.read]], Tag(g.read, x.depth))
  {
    hide Slot, Tag, Places, All, Rotates, CqHolds, Counters;
    Totals(x, g);
    assert g.posted[g.read] in g.posted[g.read..];
  }

  lemma BellMoves(read: nat, rung: nat)
    requires read <= rung <= read + SLOTS
    ensures read % U16 != rung % U16 <==> read < rung
  {
  }

  lemma SameSlot(k: nat, depth: nat)
    requires depth > 0 && Rotates(depth, k)
    ensures Slot(k % U16, depth) == Slot(k, depth)
  {
    hide Slot;
    if U16 % depth == 0 { WrapKeepsSlot(k, depth); }
  }

  lemma Advance(k: nat, depth: nat, phase: nat)
    requires depth > 0 && Rotates(depth, k + 1) && phase == Tag(k, depth)
    ensures Inc(k % U16) == (k + 1) % U16 && Slot(k % U16, depth) == Slot(k, depth)
    ensures Flip(phase, Slot(Inc(k % U16), depth) == 0) == Tag(k + 1, depth)
  {
    hide Slot, Tag;
    RotatesLess(depth, k, k + 1);
    SameSlot(k, depth);
    SameSlot(k + 1, depth);
    SlotNext(k, depth);
  }

  lemma Few(depth: nat, n: nat)
    requires depth > 0 && n <= SLOTS
    ensures Rotates(depth, n)
  {
  }

  lemma RotatesLess(depth: nat, j: nat, k: nat)
    requires depth > 0 && j <= k && Rotates(depth, k)
    ensures Rotates(depth, j)
  {
  }

  lemma StepCounts(x: Rx, g: Log, s: Step)
    requires Sized(x) && InOrder(g) && Counters(x, g) && Enabled(x, s)
    requires var g' := Record(x, g, s); InOrder(g') && Rotates(x.depth, |g'.posted|)
    ensures Counters(Apply(x, s), Record(x, g, s))
  {
    hide Slot, Tag, Flip, Inc, Rotates;
    var n := |Record(x, g, s).posted|;
    match s
    case Post => Advance(|g.posted|, x.depth, x.sqPhase);
    case Take =>
      RotatesLess(x.depth, g.taken + 1, n);
      Advance(g.taken, x.depth, x.cqPhase);
    case Fetch =>
      RotatesLess(x.depth, g.read + 1, n);
      Advance(g.read, x.depth, Tag(g.read, x.depth));
    case Complete(_, _) =>
      RotatesLess(x.depth, |g.done| + 1, n);
      Advance(|g.done|, x.depth, x.devTag);
    case _ =>
  }

  lemma StepRings(x: Rx, g: Log, s: Step)
    requires Inv(x, g) && Enabled(x, s) && (s.Enrol? ==> s.slot == g.count)
    requires Rotates(x.depth, |Record(x, g, s).posted|)
    ensures var x', g' := Apply(x, s), Record(x, g, s);
            SqHolds(x'.sq, x'.bufs, g'.posted, g'.read, x'.depth) && CqHolds(x'.cq, g'.done, g'.lens, x'.depth)
  {
    hide Slot, Tag, SqHolds, CqHolds, Conserved, Flip, Inc, Rotates;
    WithinDepth(x, g);
    Sees(x, g);
    match s
    case Enrol(slot, addr) => EnrolHolds(x, g, addr);
    case Post =>
      Advance(|g.posted|, x.depth, x.sqPhase);
      PostHolds(x.sq, x.bufs, g.posted, g.read, x.depth, x.mine[0]);
      assert x.mine == [x.mine[0]];
    case Ring =>
    case Take =>
    case Fetch => FetchHolds(x, g);
    case Complete(which, len) =>
      RotatesLess(x.depth, |g.done|, |g.posted|);
      SameSlot(|g.done|, x.depth);
      CompleteHolds(x.cq, g.done, g.lens, x.depth, x.held[which], len);
  }

  /** Every step of driver or device keeps the invariant, short of a harmful wrap. */
  lemma StepKeeps(x: Rx, g: Log, s: Step)
    requires Inv(x, g) && Enabled(x, s) && (s.Enrol? ==> s.slot == g.count)
    requires InOrder(g) && Rotates(x.depth, |Record(x, g, s).posted|)
    ensures Inv(Apply(x, s), Record(x, g, s))
  {
    hide Slot, Tag, SqHolds, CqHolds, Conserved, Flip, Inc, Rotates, Counters;
    WithinDepth(x, g);
    Sees(x, g);
    StepRings(x, g, s);
    StepConserves(x, g, s);
    ConservedOrder(Apply(x, s), Record(x, g, s));
    StepCounts(x, g, s);
  }

  lemma ConservedOrder(x: Rx, g: Log)
    requires Conserved(x, g)
    ensures InOrder(g)
  {
  }

  lemma FetchHolds(x: Rx, g: Log)
    requires Inv(x, g) && g.read < g.rung
    ensures SqHolds(x.sq, x.bufs, g.posted, g.read + 1, x.depth)
  {
  }

  /** A buffer being enrolled is in no unread descriptor. */
  lemma EnrolHolds(x: Rx, g: Log, addr: nat)
    requires Inv(x, g) && g.count < x.depth
    ensures SqHolds(x.sq, x.bufs[g.count := addr], g.posted, g.read, x.depth)
  {
    hide Slot, Tag, Places, All;
    Totals(x, g);
    forall k | g.read <= k < |g.posted| ensures g.posted[k] < g.count {
      assert g.posted[g.read..][k - g.read] == g.posted[k];
      assert g.posted[k] in g.posted[g.read..];
    }
  }

  // ---- whole runs ----

  ghost predicate Start(x: Rx) {
    && Sized(x) && (forall i :: 0 <= i < x.depth ==> x.cq[i] == Done(0, 0, 0))
    && x.sqTail == x.sqBell == x.cqHead == x.devRead == x.devPost == 0
    && x.sqPhase == x.cqPhase == x.devTag == 1 && x.mine == x.held == []
  }

  lemma StartInv(x: Rx)
    requires Start(x)
    ensures Inv(x, EMPTY)
  {
    SlotSmall(0, x.depth);
  }

  ghost predicate Allowed(x: Rx, g: Log, steps: seq<Step>)
    decreases |steps|
  {
    InOrder(g) &&
    (steps == [] ||
     (Enabled(x, steps[0]) && (steps[0].Enrol? ==> steps[0].slot == g.count) &&
      Allowed(Apply(x, steps[0]), Record(x, g, steps[0]), steps[1..])))
  }

  ghost function Run(x: Rx, g: Log, steps: seq<Step>): (Rx, Log)
    requires Allowed(x, g, steps)
    decreases |steps|
  {
    if steps == [] then (x, g) else Run(Apply(x, steps[0]), Record(x, g, steps[0]), steps[1..])
  }

  /** Any interleaving of driver and device steps keeps the invariant, for a depth that
      divides 65536 without end, for any other until the 65536th post. */
  lemma {:induction false} RunKeeps(x: Rx, g: Log, steps: seq<Step>)
    requires Inv(x, g) && Allowed(x, g, steps) && Rotates(x.depth, |Run(x, g, steps).1.posted|)
    ensures Inv(Run(x, g, steps).0, Run(x, g, steps).1)
    decreases |steps|
  {
    hide Inv, Enabled, Apply, Record;
    if steps != [] {
      PostedGrows(x, g, steps);
      StepKeeps(x, g, steps[0]);
      RunKeeps(Apply(x, steps[0]), Record(x, g, steps[0]), steps[1..]);
    }
  }

  /** The number of posts never drops, and the depth never changes. */
  lemma {:induction false} PostedGrows(x: Rx, g: Log, steps: seq<Step>)
    requires Allowed(x, g, steps)
    ensures Run(x, g, steps).0.depth == x.depth && |g.posted| <= |Run(x, g, steps).1.posted|
    ensures steps != [] ==> |Record(x, g, steps[0]).posted| <= |Run(x, g, steps).1.posted|
    ensures steps != [] ==> Apply(x, steps[0]).depth == x.depth
    decreases |steps|
  {
    hide Slot, Flip, Inc;
    if steps != [] { PostedGrows(Apply(x, steps[0]), Record(x, g, steps[0]), steps[1..]); }
  }

  lemma {:induction false} AllOnce(n: nat, b: nat)
    requires b < n
    ensures multiset(All(n))[b] == 1
  {
    hide All;
    AllLast(n);
    if b < n - 1 {
      AllOnce(n - 1, b);
    }
  }

  lemma AllLast(n: nat)
    requires n > 0
    ensures multiset(All(n)) == multiset(All(n - 1) + [n - 1])
    ensures multiset(All(n - 1))[n - 1] == 0
  {
    assert n - 1 !in All(n - 1);
  }

  /** Each enrolled buffer is named exactly once among unread descriptors, the device's
      hands, pending completions and the driver's hands. */
  lemma ExactlyOnePlace(x: Rx, g: Log, b: nat)
    requires Inv(x, g) && b < g.count
    ensures multiset(g.posted[g.read..])[b] + multiset(x.held)[b] + multiset(g.done[g.taken..])[b] +
              multiset(x.mine)[b] == 1
  {
    hide Slot, Tag, SqHolds, CqHolds, Counters, Rotates, All;
    AllOnce(g.count, b);
    assert Places(g.posted[g.read..], x.held, g.done[g.taken..], x.mine)[b] == 1;
  }

  /** Over any run from start-up: every buffer is in one place, the 16-bit counters and
      phases follow the unbounded counts, an unread descriptor is intact, and a completion is
      taken in order. */
  lemma ReceiveRingSafe(x: Rx, steps: seq<Step>, b: nat)
    requires Start(x) && Allowed(x, EMPTY, steps) && Rotates(x.depth, |Run(x, EMPTY, steps).1.posted|)
    ensures var (x', g) := Run(x, EMPTY, steps);
            && Inv(x', g)
            && (b < g.count ==>
                  multiset(g.posted[g.read..])[b] + multiset(x'.held)[b] + multiset(g.done[g.taken..])[b] +
                      multiset(x'.mine)[b] == 1)
            && |g.posted| <= g.read + x'.depth && |g.done| <= g.taken + x'.depth
  {
    hide Start, Allowed, Run, Inv;
    StartInv(x);
    RunKeeps(x, EMPTY, steps);
    var (x', g) := Run(x, EMPTY, steps);
    Sees(x', g);
    WithinDepth(x', g);
    if b < g.count {
      ExactlyOnePlace(x', g, b);
    }
  }

  // ---- depths that do not divide 65536 ----

  /** Every buffer posted, rung and unread; nothing under way; `n` posts so far. */
  ghost predicate Full(x: Rx, g: Log, n: nat) {
    && Inv(x, g) && x.mine == [] && x.held == [] && g.count == x.depth
    && |g.posted| == g.rung == n && g.read == g.taken == |g.done| == n - x.depth
  }

  lemma {:induction false} RunConcat(x: Rx, g: Log, a: seq<Step>, b: seq<Step>)
    requires Allowed(x, g, a) && Allowed(Run(x, g, a).0, Run(x, g, a).1, b)
    ensures Allowed(x, g, a + b) && Run(x, g, a + b) == Run(Run(x, g, a).0, Run(x, g, a).1, b)
    decreases |a|
  {
    hide Enabled, Apply, Record;
    if a == [] {
      assert a + b == b;
    } else {
      assert (a + b)[1..] == a[1..] + b;
      RunConcat(Apply(x, a[0]), Record(x, g, a[0]), a[1..], b);
    }
  }

  lemma OneStep(x: Rx, g: Log, s: Step)
    requires Inv(x, g) && InOrder(g) && Enabled(x, s) && (s.Enrol? ==> s.slot == g.count)
    requires Rotates(x.depth, |Record(x, g, s).posted|)
    ensures Allowed(x, g, [s]) && Run(x, g, [s]) == (Apply(x, s), Record(x, g, s))
    ensures Inv(Apply(x, s), Record(x, g, s)) && InOrder(Record(x, g, s))
  {
    hide Inv, Enabled, Apply, Record, Rotates;
    StepKeeps(x, g, s);
    WithinDepth(Apply(x, s), Record(x, g, s));
    assert [s][1..] == [];
  }

  /** The first `i` buffers enrolled and posted. */
  lemma {:induction false} Fill(x: Rx, i: nat) returns (steps: seq<Step>, x': Rx, g: Log)
    requires Start(x) && i <= x.depth
    ensures Allowed(x, EMPTY, steps) && Run(x, EMPTY, steps) == (x', g) && Inv(x', g) && x'.depth == x.depth
    ensures g == Log(All(i), 0, 0, [], [], 0, i) && x'.mine == [] && x'.held == []
    decreases i
  {
    if i == 0 {
      StartInv(x);
      return [], x, EMPTY;
    }
    hide Inv, Start, Allowed, Run, Slot, Flip, Inc;
    var s0, x0, g0 := Fill(x, i - 1);
    WithinDepth(x0, g0);
    var e := Enrol(i - 1, 0);
    Few(x.depth, i);
    OneStep(x0, g0, e);
    var x1, g1 := Apply(x0, e), Record(x0, g0, e);
    OneStep(x1, g1, Post);
    x', g := Apply(x1, Post), Record(x1, g1, Post);
    RunConcat(x, EMPTY, s0, [e]);
    RunConcat(x, EMPTY, s0 + [e], [Post]);
    steps := s0 + [e] + [Post];
  }

  lemma StartFull(x: Rx) returns (steps: seq<Step>, x': Rx, g: Log)
    requires Start(x)
    ensures Allowed(x, EMPTY, steps) && Run(x, EMPTY, steps) == (x', g) && Full(x', g, x.depth) && x'.depth == x.depth
  {
    hide Allowed, Run, Slot, Flip, Inc, Intact;
    var s0, x0, g0 := Fill(x, x.depth);
    Few(x.depth, x.depth);
    WithinDepth(x0, g0);
    OneStep(x0, g0, Ring);
    x', g := Apply(x0, Ring), Record(x0, g0, Ring);
    RunConcat(x, EMPTY, s0, [Ring]);
    steps := s0 + [Ring];
  }

  /** From a full ring the device reads, completes and the driver takes one buffer. */
  lemma Lap(x: Rx, g: Log, n: nat) returns (steps: seq<Step>, x': Rx, g': Log)
    requires Full(x, g, n) && n >= x.depth
    ensures Allowed(x, g, steps) && Run(x, g, steps) == (x', g') && Inv(x', g') && InOrder(g') && x'.depth == x.depth
    ensures |x'.mine| == 1 && x'.held == [] && g'.count == x.depth && x'.sqTail == x.sqTail && x'.sqPhase == x.sqPhase
    ensures |g'.posted| == g'.rung == n && g'.read == g'.taken == |g'.done| == n - x.depth + 1
  {
    hide Allowed, Run, Slot, Flip, Inc, Intact, Rotates;
    WithinDepth(x, g);
    Sees(x, g);
    OneStep(x, g, Fetch);
    var x1, g1 := Apply(x, Fetch), Record(x, g, Fetch);
    OneStep(x1, g1, Complete(0, 1));
    var x2, g2 := Apply(x1, Complete(0, 1)), Record(x1, g1, Complete(0, 1));
    Sees(x2, g2);
    OneStep(x2, g2, Take);
    x', g' := Apply(x2, Take), Record(x2, g2, Take);
    RunConcat(x, g, [Fetch], [Complete(0, 1)]);
    RunConcat(x, g, [Fetch] + [Complete(0, 1)], [Take]);
    steps := [Fetch] + [Complete(0, 1)] + [Take];
  }

  /** A run to a full ring after any number of posts short of a harmful wrap. */
  lemma {:induction false} RunFull(x: Rx, n: nat) returns (steps: seq<Step>, x': Rx, g: Log)
    requires Start(x) && x.depth <= n < U16
    ensures Allowed(x, EMPTY, steps) && Run(x, EMPTY, steps) == (x', g) && Full(x', g, n) && x'.depth == x.depth
    decreases n
  {
    if n == x.depth {
      steps, x', g := StartFull(x);
      return;
    }
    hide Start, Allowed, Run, Slot, Flip, Inc, Intact;
    var s0, x0, g0 := RunFull(x, n - 1);
    var s1, x1, g1 := Lap(x0, g0, n - 1);
    InHand(x1, g1);
    OneStep(x1, g1, Post);
    var x2, g2 := Apply(x1, Post), Record(x1, g1, Post);
    OneStep(x2, g2, Ring);
    x', g := Apply(x2, Ring), Record(x2, g2, Ring);
    RunConcat(x, EMPTY, s0, s1);
    RunConcat(x, EMPTY, s0 + s1, [Post]);
    RunConcat(x, EMPTY, s0 + s1 + [Post], [Ring]);
    steps := s0 + s1 + [Post] + [Ring];
  }

  /** With a depth that does not divide 65536, the 65536th post flips the submission phase in
      mid-pass: the device sees descriptors of the wrong phase from then on. */
  lemma WrapBreaks(x: Rx) returns (steps: seq<Step>)
    requires Start(x) && U16 % x.depth != 0
    ensures Allowed(x, EMPTY, steps)
    ensures var (x', g) := Run(x, EMPTY, steps);
            |g.posted| == U16 && x'.sqPhase != Tag(U16, x.depth) && !Intact(x', g)
  {
    hide Start, Allowed, Run, Slot, Tag, Intact;
    StartDepth(x);
    var s0, x0, g0 := RunFull(x, U16 - 1);
    var s1, x1, g1 := Lap(x0, g0, U16 - 1);
    InHand(x1, g1);
    LastPost(x1, g1);
    RunConcat(x, EMPTY, s0, s1);
    RunConcat(x, EMPTY, s0 + s1, [Post]);
    steps := s0 + s1 + [Post];
  }

  lemma StartDepth(x: Rx)
    requires Start(x)
    ensures 0 < x.depth <= SLOTS
  {
  }

  lemma LastPost(x: Rx, g: Log)
    requires Inv(x, g) && InOrder(g) && Enabled(x, Post) && |g.posted| == U16 - 1 && U16 % x.depth != 0
    ensures Allowed(x, g, [Post]) && Run(x, g, [Post]) == (Apply(x, Post), Record(x, g, Post))
    ensures var x', g' := Apply(x, Post), Record(x, g, Post);
            |g'.posted| == U16 && x'.sqPhase != Tag(U16, x.depth) && !Intact(x', g')
  {
    hide Tag, SqHolds, CqHolds, Conserved;
    SlotNext(U16 - 1, x.depth);
    SlotSmall(0, x.depth);
    assert [Post][1..] == [];
    var x' := Apply(x, Post);
    assert x'.sqTail == 0 && x'.sqPhase == 1 - Tag(U16 - 1, x.depth);
  }

  /** Over all runs the ring stays intact exactly when its depth divides 65536. */
  lemma IntactIff(depth: nat)
    requires Depth(depth)
    ensures (forall x, steps :: Start(x) && x.depth == depth && Allowed(x, EMPTY, steps) ==>
               Intact(Run(x, EMPTY, steps).0, Run(x, EMPTY, steps).1)) <==> U16 % depth == 0
  {
    hide Start, Allowed, Run, Intact;
    if U16 % depth == 0 {
      forall x, steps | Start(x) && x.depth == depth && Allowed(x, EMPTY, steps)
        ensures Intact(Run(x, EMPTY, steps).0, Run(x, EMPTY, steps).1)
      {
        StartInv(x);
        RunKeeps(x, EMPTY, steps);
      }
    } else {
      var x := Fresh(depth);
      var steps := WrapBreaks(x);
      assert Allowed(x, EMPTY, steps) && !Intact(Run(x, EMPTY, steps).0, Run(x, EMPTY, steps).1);
    }
  }

  ghost function Fresh(depth: nat): (x: Rx)
    requires Depth(depth)
    ensures Start(x) && x.depth == depth
  {
    Rx(depth, seq(SLOTS, _ => 0), seq(depth, _ => Desc(0, 0, 0)), 0, 1, 0, seq(depth, _ => Done(0, 0, 0)), 0, 1, [],
       0, [], 0, 1)
  }

  // ---- the driver ----

  class Queue {
    var depth: nat
    var bufs: seq<nat>
    var sq: seq<Desc>
    var sqTail: nat
    var sqPhase: nat
    var sqBell: nat
    var cq: seq<Done>
    var cqHead: nat
    var cqPhase: nat
    var mine: seq<nat>
    var devRead: nat
    var held: seq<nat>
    var devPost: nat
    var devTag: nat
    ghost var log: Log

    function View(): Rx
      reads this
    {
      Rx(depth, bufs, sq, sqTail, sqPhase, sqBell, cq, cqHead, cqPhase, mine, devRead, held, devPost, devTag)
    }

    ghost predicate Valid()
      reads this
    {
      Inv(View(), log)
    }

    /** The receive side of ena_create_io_q: zeroed rings, counters at 0, phases at 1. */
    constructor (d: nat)
      requires Depth(d)
      ensures Valid() && log == EMPTY && Start(View()) && depth == d
    {
      depth := d;
      bufs := seq(SLOTS, _ => 0);
      sq, cq := seq(d, _ => Desc(0, 0, 0)), seq(d, _ => Done(0, 0, 0));
      sqTail, sqPhase, sqBell := 0, 1, 0;
      cqHead, cqPhase, mine := 0, 1, [];
      devRead, held, devPost, devTag := 0, [], 0, 1;
      log := EMPTY;
      new;
      StartInv(View());
    }

    /** ena_rx_post: write the descriptor for the buffer in hand at the tail. The ring stays
        valid short of a harmful wrap. */
    method RxPost(slot: nat)
      requires Valid() && mine == [slot]
      modifies this
      ensures Enabled(old(View()), Post) && InOrder(old(log))
      ensures depth == old(depth) && mine == [] && log.taken == old(log).taken && log.posted == old(log).posted + [slot]
      ensures View() == Apply(old(View()), Post) && log == Record(old(View()), old(log), Post)
      ensures depth > 0 && (Rotates(depth, |log.posted|) ==> Valid())
    {
      hide Inv, Slot, Rotates;
      InHand(View(), log);
      WithinDepth(View(), log);
      if Rotates(depth, |log.posted| + 1) { StepKeeps(View(), log, Post); }
      log := Record(View(), log, Post);
      sq := sq[Slot(sqTail, depth) := Desc(slot, bufs[slot], sqPhase)];
      sqTail := (sqTail + 1) % U16;
      if Slot(sqTail, depth) == 0 { sqPhase := 1 - sqPhase; }
      mine := [];
    }

    /** Ring the submission doorbell. */
    method Bell()
      requires InOrder(log)
      modifies this
      ensures sqBell == sqTail && (old(Valid()) ==> Valid())
      ensures View() == old(View()).(sqBell := old(sqTail)) && log == old(log).(rung := |old(log).posted|)
    {
      hide Inv;
      if Valid() {
        WithinDepth(View(), log);
        StepKeeps(View(), log, Step.Ring);
      }
      log := log.(rung := |log.posted|);
      sqBell := sqTail;
    }

    /** ena_rx_refill_all: enrol and post every buffer; a failed allocation (page 0) stops. */
    method RxRefillAll(pages: seq<nat>) returns (ok: bool)
      requires Valid() && log == EMPTY && |pages| == depth && mine == []
      modifies this
      ensures Valid() && depth == old(depth) && mine == []
      ensures ok <==> 0 !in pages
      ensures ok ==> log == Log(All(depth), depth, 0, [], [], 0, depth) && bufs[..depth] == pages
      ensures !ok ==> log.rung == 0
    {
      hide Inv, Slot, Rotates;
      WithinDepth(View(), log);
      var i := 0;
      while i < depth
        invariant i <= depth == old(depth) <= SLOTS && |pages| == depth && Valid() && mine == [] && |bufs| == SLOTS
        invariant log == Log(All(i), 0, 0, [], [], 0, i)
        invariant bufs[..i] == pages[..i] && 0 !in pages[..i]
      {
        var page := pages[i];
        if page == 0 {
          return false;
        }
        WithinDepth(View(), log);
        Few(depth, i + 1);
        StepKeeps(View(), log, Enrol(i, page));
        log := log.(count := i + 1);
        bufs := bufs[i := page];
        mine := [i];
        RxPost(i);
        assert pages[..i + 1] == pages[..i] + [page];
        i := i + 1;
      }
      assert pages[..i] == pages;
      Bell();
      return true;
    }

    /** The device takes a step if it can. */
    method Device(s: Step)
      requires Valid() && (s.Fetch? || s.Complete?)
      modifies this
      ensures Valid() && InOrder(old(log)) && mine == old(mine) && log.taken == old(log).taken &&
                log.posted == old(log).posted && depth == old(depth)
      ensures View() == if Enabled(old(View()), s) then Apply(old(View()), s) else old(View())
      ensures log == if Enabled(old(View()), s) then Record(old(View()), old(log), s) else old(log)
    {
      hide Inv, Slot, Rotates;
      WithinDepth(View(), log);
      if !Enabled(View(), s) {
        return;
      }
      StepKeeps(View(), log, s);
      log := Record(View(), log, s);
      match s
      case Fetch =>
        held := held + [sq[Slot(devRead, depth)].rid];
        devRead := Inc(devRead);
      case Complete(which, len) =>
        cq := cq[Slot(devPost, depth) := Done(held[which], len, devTag)];
        held := held[..which] + held[which + 1..];
        devPost := Inc(devPost);
        devTag := Flip(devTag, Slot(devPost, depth) == 0);
    }

    /** The first half of ena_rx_poll_one: take the head completion if its phase is the
        expected one; its frame is handed on when the length is sane. */
    method RxTake() returns (ok: bool, slot: nat, frame: seq<nat>)
      requires Valid() && mine == []
      modifies this
      ensures Valid() && InOrder(old(log)) && depth == old(depth) && |old(bufs)| == SLOTS
      ensures ok <==> old(log).taken < |old(log).done|
      ensures !ok ==> View() == old(View()) && log == old(log) && frame == []
      ensures ok ==>
                && log == old(log).(taken := old(log).taken + 1) && mine == [slot]
                && slot == old(log).done[old(log).taken] && slot < depth <= SLOTS
                && var len := old(log).lens[old(log).taken];
                frame == if 0 < len <= BUF_BYTES && old(bufs)[slot] != 0 then [old(bufs)[slot], len] else []
    {
      hide Inv, Slot, Rotates;
      WithinDepth(View(), log);
      Sees(View(), log);
      var c := cq[Slot(cqHead, depth)];
      if c.phase != cqPhase {
        return false, 0, [];
      }
      slot := c.rid % SLOTS;
      frame := if 0 < c.len <= BUF_BYTES && bufs[slot] != 0 then [bufs[slot], c.len] else [];
      StepKeeps(View(), log, Take);
      log := log.(taken := log.taken + 1);
      cqHead := (cqHead + 1) % U16;
      if Slot(cqHead, depth) == 0 { cqPhase := 1 - cqPhase; }
      mine := [slot];
      ok := true;
    }

    /** ena_rx_poll_one: take a completion, then post its buffer back and ring. The device
        takes the steps of `during` while the frame is being handled. */
    method RxPollOne(during: seq<Step>) returns (n: nat, frame: seq<nat>)
      requires Valid() && mine == [] && forall s :: s in during ==> s.Fetch? || s.Complete?
      modifies this
      ensures InOrder(old(log)) && mine == [] && depth == old(depth) && |old(bufs)| == SLOTS
      ensures depth > 0 && (Rotates(depth, |log.posted|) ==> Valid())
      ensures n == if old(log).taken < |old(log).done| then 1 else 0
      ensures n == 0 ==> View() == old(View()) && log == old(log) && frame == []
      ensures n == 1 ==>
                var b, len := old(log).done[old(log).taken], old(log).lens[old(log).taken];
                && b < depth <= SLOTS && log.taken == old(log).taken + 1 && log.posted == old(log).posted + [b]
                && sqBell == sqTail
                && frame == if 0 < len <= BUF_BYTES && old(bufs)[b] != 0 then [old(bufs)[b], len] else []
    {
      hide Inv, Slot, Rotates, Enabled;
      WithinDepth(View(), log);
      var ok, slot;
      ok, slot, frame := RxTake();
      if !ok {
        return 0, frame;
      }
      var i := 0;
      while i < |during|
        invariant i <= |during| && Valid() && mine == [slot] && depth == old(depth)
        invariant log.taken == old(log).taken + 1 && log.posted == old(log).posted
      {
        assert during[i] in during;
        Device(during[i]);
        i := i + 1;
      }
      RxPost(slot);
      Bell();
      n := 1;
    }
  }

  lemma InHand(x: Rx, g: Log)
    requires Inv(x, g) && |x.mine| == 1
    ensures Enabled(x, Post) && InOrder(g)
  {
    Totals(x, g);
    assert x.mine[0] in x.mine;
  }
}
