/** atomic_inc and atomic_dec_and_test as load-exclusive / store-exclusive steps of any
    number of CPUs.  A reference is taken only by a current holder, as file and inode
    reference counts are used. */
module RefCount {
  import Bits

  const WRAP: nat := 0x1_0000_0000

  datatype Pc =
    | Idle
    | IncLoad
    | IncStore(v: nat)
    | DecLoad
    | DecStore(v: nat)

  datatype Cpu = Cpu(pc: Pc, armed: bool)

  /** `word` is the 32-bit counter; `holders` has one copy of a CPU per reference it
      holds; `lasts` lists the CPUs whose atomic_dec_and_test returned 1, in order. */
  datatype State = State(word: nat, cpus: map<nat, Cpu>, holders: multiset<nat>, lasts: seq<nat>)

  datatype Action = CallInc | CallDec | Ldaxr | StlxrFail | StlxrOk | Handoff(to: nat) | LoseMonitor

  ghost predicate Enabled(s: State, c: nat, a: Action) {
    && c in s.cpus
    && var pc := s.cpus[c].pc;
       match a
       case CallInc => pc == Idle && c in s.holders
       case CallDec => pc == Idle && c in s.holders
       case Ldaxr => pc.IncLoad? || pc.DecLoad?
       case StlxrFail => pc.IncStore? || pc.DecStore?
       case StlxrOk => (pc.IncStore? || pc.DecStore?) && s.cpus[c].armed
       case Handoff(d) => pc == Idle && c in s.holders && d in s.cpus
       case LoseMonitor => true
  }

  ghost function Disarmed(cpus: map<nat, Cpu>): map<nat, Cpu> {
    map d | d in cpus :: cpus[d].(armed := false)
  }

  ghost function Step(s: State, c: nat, a: Action): State
    requires Enabled(s, c, a)
  {
    var pc := s.cpus[c].pc;
    match a
    case CallInc => s.(cpus := s.cpus[c := Cpu(IncLoad, s.cpus[c].armed)])
    case CallDec => s.(cpus := s.cpus[c := Cpu(DecLoad, s.cpus[c].armed)])
    case Ldaxr =>
      s.(cpus := s.cpus[c := Cpu(if pc.IncLoad? then IncStore((s.word + 1) % WRAP)
          else DecStore((s.word + WRAP - 1) % WRAP), true)])
    case StlxrFail => s.(cpus := s.cpus[c := Cpu(if pc.IncStore? then IncLoad else DecLoad, false)])
    case StlxrOk =>
      s.(word := pc.v, cpus := Disarmed(s.cpus[c := Cpu(Idle, false)]),
         holders := if pc.IncStore? then s.holders + multiset{c} else s.holders - multiset{c},
         lasts := if pc.DecStore? && pc.v == 0 then s.lasts + [c] else s.lasts)
    case Handoff(d) => s.(holders := s.holders - multiset{c} + multiset{d})
    case LoseMonitor => s.(cpus := s.cpus[c := s.cpus[c].(armed := false)])
  }

  ghost predicate CpuOk(s: State, c: nat)
    requires c in s.cpus
  {
    var me := s.cpus[c];
    && (me.pc != Idle ==> c in s.holders)
    && (me.armed && me.pc.IncStore? ==> me.pc.v == (s.word + 1) % WRAP)
    && (me.armed && me.pc.DecStore? ==> me.pc.v == (s.word + WRAP - 1) % WRAP)
  }

  /** The counter is the number of references, up to its 32 bits. */
  ghost predicate Inv(s: State) {
    s.word == |s.holders| % WRAP && forall c :: c in s.cpus ==> CpuOk(s, c)
  }

  lemma Bump(n: nat)
    ensures (n % WRAP + 1) % WRAP == (n + 1) % WRAP
    ensures n > 0 ==> (n % WRAP + WRAP - 1) % WRAP == (n - 1) % WRAP
  {
    var q, r := n / WRAP, n % WRAP;
    if r + 1 == WRAP {
      Bits.DivModUnique(n + 1, WRAP, q + 1, 0);
    } else {
      Bits.DivModUnique(n + 1, WRAP, q, r + 1);
    }
    if r > 0 {
      Bits.DivModUnique(n - 1, WRAP, q, r - 1);
      Bits.DivModUnique(r + WRAP - 1, WRAP, 1, r - 1);
    } else if n > 0 {
      Bits.DivModUnique(n - 1, WRAP, q - 1, WRAP - 1);
    }
  }

  /** No update is lost: every successful store moves the count by exactly its reference. */
  lemma StepKeeps(s: State, c: nat, a: Action)
    requires Inv(s) && Enabled(s, c, a)
    ensures Inv(Step(s, c, a))
  {
    hide CpuOk, Step, Enabled;
    StepWord(s, c, a);
    forall d | d in Step(s, c, a).cpus ensures CpuOk(Step(s, c, a), d) { StepCpu(s, c, a, d); }
  }

  /** The counter follows the references. */
  lemma StepWord(s: State, c: nat, a: Action)
    requires Inv(s) && Enabled(s, c, a)
    ensures Step(s, c, a).word == |Step(s, c, a).holders| % WRAP
  {
    assert CpuOk(s, c);
    Bump(|s.holders|);
    Counts(s.holders, c);
    hide Disarmed;
  }

  lemma Counts(held: multiset<nat>, c: nat)
    ensures |held + multiset{c}| == |held| + 1 && (c in held ==> |held - multiset{c}| == |held| - 1)
    ensures forall d :: c in held ==> |held - multiset{c} + multiset{d}| == |held|
  {
    if c in held { assert held - multiset{c} + multiset{c} == held; }
  }

  /** Each CPU still stores what it read, plus or minus one. */
  lemma StepCpu(s: State, c: nat, a: Action, d: nat)
    requires Inv(s) && Enabled(s, c, a) && d in Step(s, c, a).cpus
    ensures CpuOk(Step(s, c, a), d)
  {
    assert CpuOk(s, c) && CpuOk(s, d);
  }

  /** Left alone from its load on, a CPU's update takes effect in two steps; a failed store only
      sends it back to the load. */
  lemma Finishes(s: State, c: nat)
    requires Inv(s) && c in s.cpus && (s.cpus[c].pc.IncLoad? || s.cpus[c].pc.DecLoad?)
    ensures Enabled(s, c, Ldaxr) && Enabled(Step(s, c, Ldaxr), c, StlxrOk)
    ensures var inc, u := s.cpus[c].pc.IncLoad?, Step(Step(s, c, Ldaxr), c, StlxrOk);
            && u.cpus.Keys == s.cpus.Keys && u.cpus[c].pc == Idle
            && u.holders == (if inc then s.holders + multiset{c} else s.holders - multiset{c})
            && u.word == (if inc then |s.holders| + 1 else |s.holders| - 1) % WRAP
    ensures Enabled(Step(s, c, Ldaxr), c, StlxrFail) && Step(Step(s, c, Ldaxr), c, StlxrFail).cpus[c].pc == s.cpus[c].pc
  {
    assert CpuOk(s, c);
    Bump(|s.holders|);
  }

  datatype Move = Move(c: nat, a: Action)

  /** `ms` is a run from `s` to `t`. */
  ghost predicate Run(s: State, ms: seq<Move>, t: State)
    decreases |ms|
  {
    if ms == [] then t == s
    else Enabled(s, ms[0].c, ms[0].a) && Run(Step(s, ms[0].c, ms[0].a), ms[1..], t)
  }

  /** The state after the first `k` moves of a run. */
  ghost function After(s: State, ms: seq<Move>, t: State, k: nat): State
    requires Run(s, ms, t) && k <= |ms|
    decreases k
  {
    if k == 0 then s else After(Step(s, ms[0].c, ms[0].a), ms[1..], t, k - 1)
  }

  /** Fewer than 2^32 references ever exist at once. */
  ghost predicate Bounded(s: State, ms: seq<Move>, t: State)
    requires Run(s, ms, t)
  {
    forall k :: 0 <= k <= |ms| ==> |After(s, ms, t, k).holders| < WRAP
  }

  /** Move `k` is a drop that returns 1. */
  ghost predicate ReturnsOne(s: State, ms: seq<Move>, t: State, k: nat)
    requires Run(s, ms, t) && k < |ms|
  {
    After(s, ms, t, k + 1).lasts == After(s, ms, t, k).lasts + [ms[k].c]
  }

  /** Move `k` is a drop that gives up the only reference left. */
  ghost predicate Empties(s: State, ms: seq<Move>, t: State, k: nat)
    requires Run(s, ms, t) && k < |ms|
  {
    |After(s, ms, t, k).holders| == 1 && |After(s, ms, t, k + 1).holders| == 0
  }

  /** With references held and no last drop yet, or none held and exactly one last drop. */
  ghost predicate LastOk(s: State) {
    if |s.holders| > 0 then s.lasts == [] else |s.lasts| == 1
  }

  lemma StepLast(s: State, c: nat, a: Action)
    requires Inv(s) && LastOk(s) && Enabled(s, c, a) && |s.holders| < WRAP && |Step(s, c, a).holders| < WRAP
    ensures var s' := Step(s, c, a);
            && LastOk(s')
            && (s'.lasts == s.lasts + [c] <==> |s.holders| == 1 && |s'.holders| == 0)
            && (s'.lasts != s.lasts + [c] ==> s'.lasts == s.lasts)
  {
    assert CpuOk(s, c);
    Unwrapped(|s.holders|);
    Counts(s.holders, c);
    hide CpuOk, Disarmed;
  }

  /** Below the wrap the counter is the number itself. */
  lemma Unwrapped(n: nat)
    requires n < WRAP
    ensures n % WRAP == n && (n > 0 ==> (n + WRAP - 1) % WRAP == n - 1)
  {
    Bits.DivModUnique(n, WRAP, 0, n);
    if n > 0 { Bits.DivModUnique(n + WRAP - 1, WRAP, 1, n - 1); }
  }

  /** Unique last reference: along every run the counter equals the number of holders, a drop
      returns 1 exactly when it gives up the only reference left, and that happens exactly
      once, when the holder set empties. */
  lemma {:induction false} UniqueLastReference(s: State, ms: seq<Move>, t: State)
    requires Inv(s) && LastOk(s) && Run(s, ms, t) && Bounded(s, ms, t)
    ensures t.word == |t.holders| && LastOk(t)
    ensures forall k: nat :: k < |ms| ==> (ReturnsOne(s, ms, t, k) <==> Empties(s, ms, t, k))
    ensures |s.holders| > 0 && |t.holders| == 0 ==>
              exists k: nat :: k < |ms| && Empties(s, ms, t, k) && t.lasts == [ms[k].c]
    decreases |ms|
  {
    hide Enabled, Step, CpuOk;
    assert |After(s, ms, t, 0).holders| < WRAP;
    if ms != [] {
      var s', rest := Step(s, ms[0].c, ms[0].a), ms[1..];
      assert After(s, ms, t, 1) == After(s', rest, t, 0) == s';
      StepKeeps(s, ms[0].c, ms[0].a);
      StepLast(s, ms[0].c, ms[0].a);
      forall k: nat | k <= |rest| ensures After(s', rest, t, k) == After(s, ms, t, k + 1) {
      }
      UniqueLastReference(s', rest, t);
      forall k: nat | k < |ms| ensures ReturnsOne(s, ms, t, k) <==> Empties(s, ms, t, k) {
        if k > 0 { assert ReturnsOne(s', rest, t, k - 1) <==> Empties(s', rest, t, k - 1); }
      }
      if |s.holders| > 0 && |t.holders| == 0 {
        if |s'.holders| > 0 {
          var j: nat :| j < |rest| && Empties(s', rest, t, j) && t.lasts == [rest[j].c];
          assert Empties(s, ms, t, j + 1) && t.lasts == [ms[j + 1].c];
        } else {
          EmptyStays(s', rest, t);
          assert Empties(s, ms, t, 0);
        }
      }
    }
  }

  /** Without a holder nothing is counted any more. */
  lemma {:induction false} EmptyStays(s: State, ms: seq<Move>, t: State)
    requires Inv(s) && Run(s, ms, t) && |s.holders| == 0
    ensures t.lasts == s.lasts && |t.holders| == 0
    decreases |ms|
  {
    if ms != [] {
      var s' := Step(s, ms[0].c, ms[0].a);
      assert CpuOk(s, ms[0].c);
      assert ms[0].c !in s.holders;
      StepKeeps(s, ms[0].c, ms[0].a);
      EmptyStays(s', ms[1..], t);
    }
  }

  // ---- why the bound is needed ----

  /** A drop returns 1 exactly when the number of references left is a multiple of 2^32. */
  lemma WrapReturnsEarly(s: State, c: nat)
    requires Inv(s) && Enabled(s, c, StlxrOk) && s.cpus[c].pc.DecStore?
    ensures Step(s, c, StlxrOk).lasts == s.lasts + [c] <==> |Step(s, c, StlxrOk).holders| % WRAP == 0
  {
    assert CpuOk(s, c);
    Bump(|s.holders|);
    assert |s.holders - multiset{c}| == |s.holders| - 1;
  }

  /** CPU 0, alone and outside, with `n` references. */
  ghost function Alone(n: nat): State {
    State(n % WRAP, map[0 := Cpu(Idle, false)], multiset{}[0 := n], [])
  }

  /** One more reference, in three moves. */
  lemma IncOnce(n: nat)
    requires n > 0
    ensures Run(Alone(n), [Move(0, CallInc), Move(0, Ldaxr), Move(0, StlxrOk)], Alone(n + 1))
  {
    var s1 := Step(Alone(n), 0, CallInc);
    var s2 := Step(s1, 0, Ldaxr);
    var s3 := Step(s2, 0, StlxrOk);
    Bump(n);
    assert s3.holders == Alone(n + 1).holders;
    assert s3.cpus == Alone(n + 1).cpus;
    assert Run(s2, [Move(0, StlxrOk)], s3);
    assert [Move(0, Ldaxr), Move(0, StlxrOk)][1..] == [Move(0, StlxrOk)];
    assert Run(s1, [Move(0, Ldaxr), Move(0, StlxrOk)], s3);
    assert [Move(0, CallInc), Move(0, Ldaxr), Move(0, StlxrOk)][1..] == [Move(0, Ldaxr), Move(0, StlxrOk)];
  }

  lemma {:induction false} RunConcat(s: State, a: seq<Move>, t: State, b: seq<Move>, u: State)
    requires Run(s, a, t) && Run(t, b, u)
    ensures Run(s, a + b, u)
    decreases |a|
  {
    if a == [] {
      assert a + b == b;
    } else {
      assert (a + b)[1..] == a[1..] + b;
      RunConcat(Step(s, a[0].c, a[0].a), a[1..], t, b, u);
    }
  }

  lemma {:induction false} ManyReferences(n: nat) returns (ms: seq<Move>)
    requires n > 0
    ensures Run(Alone(1), ms, Alone(n))
  {
    if n == 1 {
      ms := [];
    } else {
      var first := ManyReferences(n - 1);
      IncOnce(n - 1);
      ms := first + [Move(0, CallInc), Move(0, Ldaxr), Move(0, StlxrOk)];
      RunConcat(Alone(1), first, Alone(n - 1), [Move(0, CallInc), Move(0, Ldaxr), Move(0, StlxrOk)], Alone(n));
    }
  }

  /** Such a run exists: from one reference to 2^32 + 1 of them, and then a drop that returns 1
      with 2^32 references left. */
  lemma WrapCase() returns (ms: seq<Move>, s: State)
    ensures Inv(Alone(1)) && LastOk(Alone(1)) && Run(Alone(1), ms, s)
    ensures Enabled(s, 0, StlxrOk) && s.cpus[0].pc.DecStore?
    ensures Step(s, 0, StlxrOk).lasts == [0] && |Step(s, 0, StlxrOk).holders| == WRAP
  {
    var n := WRAP + 1;
    var many := ManyReferences(n);
    var s1 := Step(Alone(n), 0, CallDec);
    s := Step(s1, 0, Ldaxr);
    assert [Move(0, CallDec), Move(0, Ldaxr)][1..] == [Move(0, Ldaxr)];
    assert Run(s1, [Move(0, Ldaxr)], s);
    assert Run(Alone(n), [Move(0, CallDec), Move(0, Ldaxr)], s);
    RunConcat(Alone(1), many, Alone(n), [Move(0, CallDec), Move(0, Ldaxr)], s);
    ms := many + [Move(0, CallDec), Move(0, Ldaxr)];
  }
}
