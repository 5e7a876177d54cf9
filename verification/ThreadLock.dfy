/** The exclusive-monitor spinlock and the polymorphic thread lock built on it, as steps
    of any number of CPUs in any interleaving.  Each load-exclusive, store-exclusive,
    release store and pointer access is one step; memory is sequentially consistent. */
module ThreadLock {

  type CpuId = nat
  type LockId = nat
  type ThreadId = nat

  /** Value of `t_lockp`: a lock, or the transition sentinel. */
  datatype LockRef = Transit | To(lock: LockId)

  /** What a spin_lock is for: a plain call, or thread_lock(t). */
  datatype Why = Plain | For(t: ThreadId)

  datatype Pc =
    | Idle
    | ReadPtr(t: ThreadId)               // thread_lock: about to read t_lockp
    | LoadEx(l: LockId, why: Why)        // spin_lock: about to ldaxr
    | StoreEx(l: LockId, why: Why)       // ldaxr saw 0: about to stxr
    | Recheck(t: ThreadId, l: LockId)    // thread_lock: acquired, about to compare
    | Drop(t: ThreadId, l: LockId)       // thread_lock: stale, about to release

  datatype Monitor = Clear | Armed(lock: LockId)

  /** `held` are the locks acquired and not yet released; `moving` the threads this CPU
      has put in transition. */
  datatype Cpu = Cpu(pc: Pc, mon: Monitor, held: set<LockId>, moving: set<ThreadId>)

  datatype State = State(words: map<LockId, nat>, lockp: map<ThreadId, LockRef>, cpus: map<CpuId, Cpu>)

  datatype Action =
    | CallThreadLock(t: ThreadId)
    | CallSpinLock(l: LockId)
    | ReadLockp
    | Ldaxr
    | StxrFail
    | StxrOk
    | Compare
    | ReleaseStale
    | Unlock(l: LockId)
    | Redirect(t: ThreadId, l: LockId)
    | BeginMove(t: ThreadId)
    | EndMove(t: ThreadId, l: LockId)
    | LoseMonitor

  ghost predicate HoldsNamed(s: State, c: CpuId, t: ThreadId) {
    c in s.cpus && t in s.lockp && s.lockp[t].To? && s.lockp[t].lock in s.cpus[c].held
  }

  /** When CPU `c` may take step `a`.  The last rows are the discipline on `t_lockp`: only
      the holder of the lock it names redirects it, to a lock it holds or via the sentinel. */
  ghost predicate Enabled(s: State, c: CpuId, a: Action) {
    && c in s.cpus
    && var me := s.cpus[c];
       match a
       case CallThreadLock(t) => me.pc == Idle && t in s.lockp
       case CallSpinLock(l) => me.pc == Idle && l in s.words
       case ReadLockp => me.pc.ReadPtr? && me.pc.t in s.lockp
       case Ldaxr => me.pc.LoadEx? && me.pc.l in s.words
       case StxrFail => me.pc.StoreEx?
       case StxrOk => me.pc.StoreEx? && me.mon == Armed(me.pc.l)
       case Compare => me.pc.Recheck? && me.pc.t in s.lockp
       case ReleaseStale => me.pc.Drop?
       case Unlock(l) => me.pc == Idle && l in me.held
       case Redirect(t, l) => me.pc == Idle && HoldsNamed(s, c, t) && l in me.held
       case BeginMove(t) => me.pc == Idle && HoldsNamed(s, c, t)
       case EndMove(t, l) => me.pc == Idle && t in me.moving && l in me.held
       case LoseMonitor => true
  }

  /** A store to lock `l` clears every CPU's reservation on it. */
  ghost function Cleared(cpus: map<CpuId, Cpu>, l: LockId): map<CpuId, Cpu> {
    map d | d in cpus :: if cpus[d].mon == Armed(l) then cpus[d].(mon := Clear) else cpus[d]
  }

  ghost function With(s: State, c: CpuId, me: Cpu): State { s.(cpus := s.cpus[c := me]) }

  /** Store `v` to lock `l` by CPU `c`, which becomes `me`. */
  ghost function Stored(s: State, c: CpuId, l: LockId, v: nat, me: Cpu): State {
    s.(words := s.words[l := v], cpus := Cleared(s.cpus[c := me], l))
  }

  ghost function Step(s: State, c: CpuId, a: Action): State
    requires Enabled(s, c, a)
  {
    var me := s.cpus[c];
    match a
    case CallThreadLock(t) => With(s, c, me.(pc := ReadPtr(t)))
    case CallSpinLock(l) => With(s, c, me.(pc := LoadEx(l, Plain)))
    case ReadLockp =>
      (match s.lockp[me.pc.t]
       case Transit => s
       case To(l) => With(s, c, me.(pc := LoadEx(l, For(me.pc.t)))))
    case Ldaxr =>
      var l := me.pc.l;
      if s.words[l] != 0 then With(s, c, me.(mon := Armed(l)))
      else With(s, c, me.(mon := Armed(l), pc := StoreEx(l, me.pc.why)))
    case StxrFail => With(s, c, me.(mon := Clear, pc := LoadEx(me.pc.l, me.pc.why)))
    case StxrOk =>
      var l := me.pc.l;
      var next := match me.pc.why case Plain => Idle case For(t) => Recheck(t, l);
      Stored(s, c, l, 1, me.(pc := next, held := me.held + {l}))
    case Compare =>
      var l, t := me.pc.l, me.pc.t;
      With(s, c, me.(pc := if s.lockp[t] == To(l) then Idle else Drop(t, l)))
    case ReleaseStale =>
      Stored(s, c, me.pc.l, 0, me.(pc := ReadPtr(me.pc.t), held := me.held - {me.pc.l}))
    case Unlock(l) => Stored(s, c, l, 0, me.(held := me.held - {l}))
    case Redirect(t, l) => s.(lockp := s.lockp[t := To(l)])
    case BeginMove(t) => With(s, c, me.(moving := me.moving + {t})).(lockp := s.lockp[t := Transit])
    case EndMove(t, l) => With(s, c, me.(moving := me.moving - {t})).(lockp := s.lockp[t := To(l)])
    case LoseMonitor => With(s, c, me.(mon := Clear))
  }

  // ---- the invariant ----

  ghost predicate Holds(s: State, c: CpuId, l: LockId) { c in s.cpus && l in s.cpus[c].held }

  ghost predicate Moves(s: State, c: CpuId, t: ThreadId) { c in s.cpus && t in s.cpus[c].moving }

  /** Lock words: 1 exactly while some CPU, and then only one, holds the lock. */
  ghost predicate WordsOk(s: State) {
    && (forall l :: l in s.words ==> s.words[l] <= 1)
    && (forall l, c :: Holds(s, c, l) ==> l in s.words && s.words[l] == 1)
    && (forall l, c, d :: Holds(s, c, l) && Holds(s, d, l) ==> c == d)
    && (forall l :: l in s.words && s.words[l] == 1 ==> exists c :: Holds(s, c, l))
  }

  ghost predicate CpuOk(s: State, c: CpuId)
    requires c in s.cpus
  {
    var me := s.cpus[c];
    && (me.pc.Recheck? || me.pc.Drop? ==> me.pc.l in me.held)
    && (me.pc.StoreEx? && me.mon == Armed(me.pc.l) ==> me.pc.l in s.words && s.words[me.pc.l] == 0)
    && (me.pc.LoadEx? || me.pc.StoreEx? ==> me.pc.l in s.words)
    && (me.pc.ReadPtr? || me.pc.Recheck? || me.pc.Drop? ==> me.pc.t in s.lockp)
    && ((me.pc.LoadEx? || me.pc.StoreEx?) && me.pc.why.For? ==> me.pc.why.t in s.lockp)
  }

  /** The sentinel stands in `t_lockp` exactly while one CPU is moving the thread. */
  ghost predicate PtrsOk(s: State) {
    && (forall t :: t in s.lockp && s.lockp[t].To? ==> s.lockp[t].lock in s.words)
    && (forall t, c :: Moves(s, c, t) ==> t in s.lockp && s.lockp[t] == Transit)
    && (forall t, c, d :: Moves(s, c, t) && Moves(s, d, t) ==> c == d)
    && (forall t :: t in s.lockp && s.lockp[t] == Transit ==> exists c :: Moves(s, c, t))
  }

  ghost predicate Inv(s: State) {
    WordsOk(s) && PtrsOk(s) && forall c :: c in s.cpus ==> CpuOk(s, c)
  }

  /** Power-on: locks free, every CPU outside, every pointer naming a lock. */
  ghost predicate Init(s: State) {
    && (forall l :: l in s.words ==> s.words[l] == 0)
    && (forall c :: c in s.cpus ==> s.cpus[c] == Cpu(Idle, Clear, {}, {}))
    && (forall t :: t in s.lockp ==> s.lockp[t].To? && s.lockp[t].lock in s.words)
  }

  lemma InitInv(s: State)
    requires Init(s)
    ensures Inv(s)
  {
    assert forall c, l :: !Holds(s, c, l);
    assert forall c, t :: !Moves(s, c, t);
    assert WordsOk(s);
    assert PtrsOk(s);
  }

  lemma StepWords(s: State, c: CpuId, a: Action)
    requires Inv(s) && Enabled(s, c, a)
    ensures WordsOk(Step(s, c, a))
  {
    var s' := Step(s, c, a);
    var me := s.cpus[c];
    assert CpuOk(s, c);
    assert a.ReleaseStale? ==> Holds(s, c, me.pc.l);
    assert a.Unlock? ==> Holds(s, c, a.l);
    forall d, l ensures Holds(s', d, l) <==>
        (if d == c && a.StxrOk? && l == me.pc.l then true
         else if d == c && a.ReleaseStale? && l == me.pc.l then false
         else if d == c && a.Unlock? && l == a.l then false
         else Holds(s, d, l))
    {
    }
    forall l | l in s'.words && s'.words[l] == 1 ensures exists d :: Holds(s', d, l) {
      if a.StxrOk? && l == me.pc.l {
        assert Holds(s', c, l);
      } else {
        var d :| Holds(s, d, l);
        assert Holds(s', d, l);
      }
    }
  }

  /** What a step does to the lock pointers and to the threads in transition. */
  lemma StepFrame(s: State, c: CpuId, a: Action)
    requires Inv(s) && Enabled(s, c, a)
    ensures var s' := Step(s, c, a);
            && s.words.Keys <= s'.words.Keys
            && s'.lockp == (match a
                            case Redirect(t, l) => s.lockp[t := To(l)]
                            case BeginMove(t) => s.lockp[t := Transit]
                            case EndMove(t, l) => s.lockp[t := To(l)]
                            case _ => s.lockp)
            && forall d, t :: Moves(s', d, t) <==>
                 (if d == c && a == BeginMove(t) then true
                  else if d == c && a.EndMove? && a.t == t then false
                  else Moves(s, d, t))
  {
    hide CpuOk, WordsOk, PtrsOk;
  }

  lemma StepPtrs(s: State, c: CpuId, a: Action)
    requires Inv(s) && Enabled(s, c, a)
    ensures PtrsOk(Step(s, c, a))
  {
    hide CpuOk, Step;
    var s' := Step(s, c, a);
    StepFrame(s, c, a);
    assert a.EndMove? ==> Moves(s, c, a.t);
    assert a.EndMove? || a.Redirect? ==> Holds(s, c, a.l);
    hide Enabled, Moves, Holds, WordsOk;
    forall t | t in s'.lockp && s'.lockp[t] == Transit ensures exists d :: Moves(s', d, t) {
      if a == BeginMove(t) {
        assert Moves(s', c, t);
      } else {
        var d :| Moves(s, d, t);
        assert Moves(s', d, t);
      }
    }
  }

  lemma StepCpus(s: State, c: CpuId, a: Action, d: CpuId)
    requires Inv(s) && Enabled(s, c, a) && d in Step(s, c, a).cpus
    ensures CpuOk(Step(s, c, a), d)
  {
    if d == c {
      StepSelf(s, c, a);
    } else {
      StepOther(s, c, a, d);
    }
  }

  lemma StepSelf(s: State, c: CpuId, a: Action)
    requires Inv(s) && Enabled(s, c, a)
    ensures CpuOk(Step(s, c, a), c)
  {
    hide WordsOk;
    assert CpuOk(s, c);
  }

  lemma StepOther(s: State, c: CpuId, a: Action, d: CpuId)
    requires Inv(s) && Enabled(s, c, a) && d != c && d in s.cpus
    ensures CpuOk(Step(s, c, a), d)
  {
    hide WordsOk;
    assert CpuOk(s, c);
    assert CpuOk(s, d);
  }

  lemma StepKeeps(s: State, c: CpuId, a: Action)
    requires Inv(s) && Enabled(s, c, a)
    ensures Inv(Step(s, c, a))
  {
    hide WordsOk, PtrsOk, CpuOk, Enabled, Step;
    StepWords(s, c, a);
    StepPtrs(s, c, a);
    forall d | d in Step(s, c, a).cpus ensures CpuOk(Step(s, c, a), d) { StepCpus(s, c, a, d); }
  }

  // ---- runs ----

  datatype Move = Move(c: CpuId, a: Action)

  ghost predicate Run(s: State, ms: seq<Move>, t: State)
    decreases |ms|
  {
    if ms == [] then t == s
    else Enabled(s, ms[0].c, ms[0].a) && Run(Step(s, ms[0].c, ms[0].a), ms[1..], t)
  }

  lemma {:induction false} RunKeeps(s: State, ms: seq<Move>, t: State)
    requires Inv(s) && Run(s, ms, t)
    ensures Inv(t)
    decreases |ms|
  {
    hide Inv, Enabled, Step;
    if ms != [] {
      StepKeeps(s, ms[0].c, ms[0].a);
      RunKeeps(Step(s, ms[0].c, ms[0].a), ms[1..], t);
    }
  }

  /** Spinlock mutual exclusion: in every reachable state at most one CPU is between
      spin_lock's return and spin_unlock, and the word is 1 exactly when one is. */
  lemma MutualExclusion(s: State, ms: seq<Move>, t: State, l: LockId, c: CpuId, d: CpuId)
    requires Init(s) && Run(s, ms, t) && l in t.words
    ensures Holds(t, c, l) && Holds(t, d, l) ==> c == d
    ensures t.words[l] == 1 <==> exists e :: Holds(t, e, l)
    ensures t.words[l] == 0 || t.words[l] == 1
  {
    InitInv(s);
    RunKeeps(s, ms, t);
  }

  /** CPU at `pc` is inside thread_lock(t). */
  ghost predicate Inside(pc: Pc, t: ThreadId) {
    match pc
    case Idle => false
    case ReadPtr(u) => u == t
    case LoadEx(_, why) => why == For(t)
    case StoreEx(_, why) => why == For(t)
    case Recheck(u, _) => u == t
    case Drop(u, _) => u == t
  }

  /** The locks held apart from one acquired by a thread_lock still in progress. */
  ghost function Base(me: Cpu): set<LockId> {
    if me.pc.Recheck? || me.pc.Drop? then me.held - {me.pc.l} else me.held
  }

  /** CPU `c` is past thread_lock(t): it has added to `base` the one lock that `t_lockp` names. */
  ghost predicate Owning(s: State, c: CpuId, t: ThreadId, base: set<LockId>) {
    && HoldsNamed(s, c, t) && s.cpus[c].pc == Idle
    && s.lockp[t].lock !in base && s.cpus[c].held == base + {s.lockp[t].lock}
  }

  /** A step by anyone leaves a CPU inside thread_lock(t), with the same other locks, or is
      that CPU's own comparison and leaves it owning the thread. */
  lemma StaysOrReturns(s: State, c: CpuId, t: ThreadId, d: CpuId, a: Action)
    requires Inv(s) && c in s.cpus && Inside(s.cpus[c].pc, t) && Enabled(s, d, a)
    ensures var s' := Step(s, d, a);
            && c in s'.cpus
            && ((Inside(s'.cpus[c].pc, t) && Base(s'.cpus[c]) == Base(s.cpus[c])) ||
                (d == c && a == Compare && Owning(s', c, t, Base(s.cpus[c]))))
  {
    hide PtrsOk;
    assert CpuOk(s, c);
    var me := s.cpus[c];
    assert me.pc.StoreEx? && me.mon == Armed(me.pc.l) ==> !Holds(s, c, me.pc.l);
  }

  /** Along the moves `ms`, CPU `c` stays inside thread_lock(t) until it returns, if it
      does, owning the thread. */
  ghost predicate Returns(s: State, ms: seq<Move>, u: State, c: CpuId, t: ThreadId, base: set<LockId>)
    requires Run(s, ms, u)
    decreases |ms|
  {
    && c in s.cpus && Inside(s.cpus[c].pc, t) && Base(s.cpus[c]) == base
    && (ms == [] ||
        var s' := Step(s, ms[0].c, ms[0].a);
        Owning(s', c, t, base) || Returns(s', ms[1..], u, c, t, base))
  }

  lemma {:induction false} InsideReturns(s: State, ms: seq<Move>, u: State, c: CpuId, t: ThreadId)
    requires Inv(s) && Run(s, ms, u) && c in s.cpus && Inside(s.cpus[c].pc, t)
    ensures Returns(s, ms, u, c, t, Base(s.cpus[c]))
    decreases |ms|
  {
    hide Inv, Enabled, Step, Inside, Owning, Base;
    if ms != [] {
      var s' := Step(s, ms[0].c, ms[0].a);
      StaysOrReturns(s, c, t, ms[0].c, ms[0].a);
      StepKeeps(s, ms[0].c, ms[0].a);
      if !Owning(s', c, t, Base(s.cpus[c])) {
        InsideReturns(s', ms[1..], u, c, t);
      }
    }
  }

  /** From start-up, in every interleaving: a CPU that calls thread_lock(t) leaves it only by
      owning the thread, holding the lock `t_lockp` names at that moment and, of the locks
      acquired on the way, no other. */
  lemma ThreadLockReturns(s0: State, ms0: seq<Move>, s: State, c: CpuId, t: ThreadId, ms: seq<Move>, u: State)
    requires Init(s0) && Run(s0, ms0, s) && Enabled(s, c, CallThreadLock(t))
    requires Run(Step(s, c, CallThreadLock(t)), ms, u)
    ensures Returns(Step(s, c, CallThreadLock(t)), ms, u, c, t, s.cpus[c].held)
  {
    hide Inv, Init, Run, Returns;
    InitInv(s0);
    RunKeeps(s0, ms0, s);
    StepKeeps(s, c, CallThreadLock(t));
    InsideReturns(Step(s, c, CallThreadLock(t)), ms, u, c, t);
  }

  // ---- left alone, a CPU gets the lock ----

  lemma RunStep(s: State, c: CpuId, a: Action, ms: seq<Move>, u: State)
    requires Enabled(s, c, a) && Run(Step(s, c, a), ms, u)
    ensures Run(s, [Move(c, a)] + ms, u)
  {
    assert ([Move(c, a)] + ms)[1..] == ms;
  }

  /** thread_lock from its pointer read to its comparison, undisturbed. */
  ghost function Attempt(c: CpuId): seq<Move> {
    [Move(c, ReadLockp), Move(c, Ldaxr), Move(c, StxrOk), Move(c, Compare)]
  }

  /** A free lock is taken in two steps. */
  lemma TakesFree(s: State, c: CpuId) returns (s1: State, s2: State)
    requires c in s.cpus && s.cpus[c].pc.LoadEx? && s.cpus[c].pc.l in s.words && s.words[s.cpus[c].pc.l] == 0
    ensures Enabled(s, c, Ldaxr) && s1 == Step(s, c, Ldaxr) && Enabled(s1, c, StxrOk) && s2 == Step(s1, c, StxrOk)
    ensures var l := s.cpus[c].pc.l;
            && c in s2.cpus && s2.lockp == s.lockp && s2.words == s.words[l := 1]
            && s2.cpus[c].held == s.cpus[c].held + {l} && s2.cpus[c].moving == s.cpus[c].moving
            && s2.cpus[c].pc == match s.cpus[c].pc.why case Plain => Idle case For(t) => Recheck(t, l)
  {
    s1 := Step(s, c, Ldaxr);
    s2 := Step(s1, c, StxrOk);
  }

  /** A failed store sends the CPU back to the load, with everything else as it was. */
  lemma SpinsAgain(s: State, c: CpuId)
    requires Enabled(s, c, StxrFail)
    ensures var u := Step(s, c, StxrFail);
            u.words == s.words && u.lockp == s.lockp && u.cpus[c].held == s.cpus[c].held
            && u.cpus[c].pc == LoadEx(s.cpus[c].pc.l, s.cpus[c].pc.why)
  {
  }

  /** From its pointer read on, thread_lock returns owning the thread when the lock named is free. */
  lemma ReadsAndReturns(s: State, c: CpuId, t: ThreadId) returns (u: State)
    requires Inv(s) && c in s.cpus && s.cpus[c].pc == ReadPtr(t) && t in s.lockp && s.lockp[t].To?
    requires s.lockp[t].lock in s.words && s.words[s.lockp[t].lock] == 0
    ensures Run(s, Attempt(c), u)
    ensures Owning(u, c, t, s.cpus[c].held) && u.words == s.words[s.lockp[t].lock := 1]
  {
    var l := s.lockp[t].lock;
    assert l !in s.cpus[c].held by { NotHeld(s, c, l); }
    var s1 := Step(s, c, ReadLockp);
    var s2, s3 := TakesFree(s1, c);
    hide Inv;
    u := Step(s3, c, Compare);
    assert Run(u, [], u);
    hide Run, Enabled, Step;
    RunStep(s3, c, Compare, [], u);
    assert [Move(c, Compare)] + [] == [Move(c, Compare)];
    RunStep(s2, c, StxrOk, [Move(c, Compare)], u);
    assert [Move(c, StxrOk)] + [Move(c, Compare)] == [Move(c, StxrOk), Move(c, Compare)];
    RunStep(s1, c, Ldaxr, [Move(c, StxrOk), Move(c, Compare)], u);
    assert [Move(c, Ldaxr)] + [Move(c, StxrOk), Move(c, Compare)]
        == [Move(c, Ldaxr), Move(c, StxrOk), Move(c, Compare)];
    RunStep(s, c, ReadLockp, [Move(c, Ldaxr), Move(c, StxrOk), Move(c, Compare)], u);
    assert [Move(c, ReadLockp)] + [Move(c, Ldaxr), Move(c, StxrOk), Move(c, Compare)] == Attempt(c);
  }

  lemma NotHeld(s: State, c: CpuId, l: LockId)
    requires Inv(s) && c in s.cpus && l in s.words && s.words[l] == 0
    ensures l !in s.cpus[c].held
  {
    assert l in s.cpus[c].held ==> Holds(s, c, l);
  }

  /** Called with the named lock free and nobody else moving, thread_lock returns. */
  lemma Uncontended(s: State, c: CpuId, t: ThreadId) returns (u: State)
    requires Inv(s) && Enabled(s, c, CallThreadLock(t)) && s.lockp[t].To?
    requires s.lockp[t].lock in s.words && s.words[s.lockp[t].lock] == 0
    ensures Run(Step(s, c, CallThreadLock(t)), Attempt(c), u)
    ensures Owning(u, c, t, s.cpus[c].held)
  {
    hide Inv;
    StepKeeps(s, c, CallThreadLock(t));
    u := ReadsAndReturns(Step(s, c, CallThreadLock(t)), c, t);
  }

  /** After a stale acquisition it releases that lock and gets the right one. */
  lemma Retries(s: State, c: CpuId, t: ThreadId, l: LockId) returns (u: State)
    requires Inv(s) && c in s.cpus && s.cpus[c].pc == Drop(t, l) && s.lockp[t].To? && s.lockp[t].lock != l
    requires s.lockp[t].lock in s.words && s.words[s.lockp[t].lock] == 0
    ensures Run(s, [Move(c, ReleaseStale)] + Attempt(c), u)
    ensures Owning(u, c, t, s.cpus[c].held - {l}) && l in u.words && u.words[l] == 0
  {
    var s1 := Step(s, c, ReleaseStale);
    StepKeeps(s, c, ReleaseStale);
    u := ReadsAndReturns(s1, c, t);
    RunStep(s, c, ReleaseStale, Attempt(c), u);
  }

  /** A stale acquisition is released before the CPU does anything else. */
  lemma StaleDropped(s: State, c: CpuId)
    requires Inv(s) && Enabled(s, c, Compare) && s.lockp[s.cpus[c].pc.t] != To(s.cpus[c].pc.l)
    ensures var t, l, s' := s.cpus[c].pc.t, s.cpus[c].pc.l, Step(s, c, Compare);
            && s'.cpus[c].pc == Drop(t, l)
            && (forall a :: Enabled(s', c, a) ==> a == ReleaseStale || a == LoseMonitor)
            && var s'' := Step(s', c, ReleaseStale);
               !Holds(s'', c, l) && s''.words[l] == 0 && s''.cpus[c].pc == ReadPtr(t)
  {
    assert CpuOk(s, c);
  }

  /** No two CPUs own a thread at once. */
  lemma OneOwner(s: State, c: CpuId, d: CpuId, t: ThreadId)
    requires Inv(s) && HoldsNamed(s, c, t) && HoldsNamed(s, d, t)
    ensures c == d
  {
    assert Holds(s, c, s.lockp[t].lock) && Holds(s, d, s.lockp[t].lock);
  }

  lemma OwnerStable(s: State, c: CpuId, t: ThreadId, d: CpuId, a: Action)
    requires Inv(s) && HoldsNamed(s, c, t) && d != c && Enabled(s, d, a)
    ensures HoldsNamed(Step(s, d, a), c, t) && Step(s, d, a).lockp[t] == s.lockp[t]
  {
    if a.Redirect? && a.t == t { OneOwner(s, c, d, t); }
    if a.BeginMove? && a.t == t { OneOwner(s, c, d, t); }
    if a.EndMove? && a.t == t { assert Moves(s, d, t); }
  }

  /** CPU `c` owns thread `t`: it holds the named lock, and not just provisionally inside a
      thread_lock that may still drop it. */
  ghost predicate Owns(s: State, c: CpuId, t: ThreadId) {
    HoldsNamed(s, c, t) && s.lockp[t].lock in Base(s.cpus[c])
  }

  /** The three steps by which an owner gives up thread `t`. */
  ghost predicate GivesUp(s: State, t: ThreadId, a: Action)
    requires t in s.lockp && s.lockp[t].To?
  {
    (a.Redirect? && a.t == t) || a == BeginMove(t) || a == Unlock(s.lockp[t].lock)
  }

  /** An owner's own steps, other than giving the thread up, leave it the owner. */
  lemma OwnStep(s: State, c: CpuId, t: ThreadId, a: Action)
    requires Inv(s) && Owns(s, c, t) && Enabled(s, c, a) && !GivesUp(s, t, a)
    ensures Owns(Step(s, c, a), c, t) && Step(s, c, a).lockp[t] == s.lockp[t]
  {
    hide WordsOk;
    assert CpuOk(s, c);
    assert a.EndMove? ==> Moves(s, c, a.t);
    assert !Moves(s, c, t);
    NotFree(s, c, s.lockp[t].lock);
  }

  lemma NotFree(s: State, c: CpuId, l: LockId)
    requires Inv(s) && Holds(s, c, l)
    ensures l in s.words && s.words[l] == 1
  {
  }

  lemma OwnsStable(s: State, c: CpuId, t: ThreadId, d: CpuId, a: Action)
    requires Inv(s) && Owns(s, c, t) && Enabled(s, d, a) && (d == c ==> !GivesUp(s, t, a))
    ensures Owns(Step(s, d, a), c, t) && Step(s, d, a).lockp[t] == s.lockp[t]
  {
    if d == c {
      OwnStep(s, c, t, a);
    } else {
      OwnerStable(s, c, t, d, a);
    }
  }

  /** Along the moves the owner never gives up thread `th`. */
  ghost predicate Keeps(s: State, ms: seq<Move>, u: State, c: CpuId, th: ThreadId)
    requires Run(s, ms, u)
    decreases |ms|
  {
    ms == [] ||
    (&& (ms[0].c == c ==> th in s.lockp && s.lockp[th].To? && !GivesUp(s, th, ms[0].a))
     && Keeps(Step(s, ms[0].c, ms[0].a), ms[1..], u, c, th))
  }

  /** Until the owner itself redirects or moves the thread or unlocks, whatever it and
      everyone else do, `t_lockp` does not change and the owner stays the owner. */
  lemma {:induction false} LockpFrozen(s: State, ms: seq<Move>, u: State, c: CpuId, th: ThreadId)
    requires Inv(s) && Run(s, ms, u) && Owns(s, c, th) && Keeps(s, ms, u, c, th)
    ensures Owns(u, c, th) && u.lockp[th] == s.lockp[th]
    decreases |ms|
  {
    hide Inv, Enabled, Step, HoldsNamed, GivesUp, Base;
    if ms != [] {
      var s' := Step(s, ms[0].c, ms[0].a);
      OwnsStable(s, c, th, ms[0].c, ms[0].a);
      StepKeeps(s, ms[0].c, ms[0].a);
      LockpFrozen(s', ms[1..], u, c, th);
    }
  }

  /** A CPU that has just returned from thread_lock(t) is an owner in that sense. */
  lemma OwningOwns(s: State, c: CpuId, t: ThreadId, base: set<LockId>)
    requires Owning(s, c, t, base)
    ensures Owns(s, c, t)
  {
  }
}
