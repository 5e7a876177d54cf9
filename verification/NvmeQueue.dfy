/** The NVMe admin and I/O queue pairs: a driver and an asynchronous controller share two
    circular buffers of 32 entries; a phase tag in each completion says which pass wrote it.
    The pair is proved to refine an unbounded FIFO of commands and answers. */
module NvmeQueue {
  const DEPTH := 32
  const CID_SPACE := 0x1_0000

  datatype Sqe = Sqe(cid: nat, body: nat)
  /** `status` holds the phase tag in bit 0 and the status code above it. */
  datatype Cqe = Cqe(cid: nat, status: nat)

  /** Driver fields and ring memory, the doorbells, and the controller's private registers:
      next entry to fetch, commands fetched but not answered, next entry to fill, its tag. */
  datatype Queue = Queue(sq: seq<Sqe>, tail: nat, cq: seq<Cqe>, head: nat, phase: nat, waiting: bool,
                         sqBell: nat, cqBell: nat,
                         fetched: nat, held: seq<Sqe>, post: nat, tag: nat)

  /** Driver steps are `Submit` and `Poll`; `Fetch` and `Post` are the controller's. */
  datatype Step = Submit(sqe: Sqe) | Poll | Fetch | Post(which: nat, code: nat) | Stall

  datatype Taken = Nothing | Completion(cqe: Cqe)

  function Bump(i: nat): (j: nat)
    ensures j < DEPTH
  {
    (i + 1) % DEPTH
  }

  ghost predicate Started(q: Queue) {
    && |q.sq| == DEPTH && |q.cq| == DEPTH && (forall i :: 0 <= i < DEPTH ==> q.cq[i] == Cqe(0, 0))
    && q.tail == q.head == q.sqBell == q.cqBell == q.fetched == q.post == 0
    && q.phase == q.tag == 1 && !q.waiting && q.held == []
  }

  predicate Sized(q: Queue) {
    |q.sq| == DEPTH && |q.cq| == DEPTH && q.tail < DEPTH && q.head < DEPTH && q.fetched < DEPTH && q.post < DEPTH &&
    q.phase < 2 && q.tag < 2
  }

  /** A submit happens only outside a wait; the controller fetches what the doorbell shows
      and answers any held command, in any order, when the completion ring has room. */
  predicate Enabled(q: Queue, s: Step) {
    && Sized(q)
    && match s
       case Submit(_) => !q.waiting
       case Poll => q.waiting
       case Fetch => q.fetched != q.sqBell
       case Post(which, code) => which < |q.held| && Bump(q.post) != q.cqBell && code < 0x8000
       case Stall => true
  }

  predicate Match(q: Queue)
    requires Sized(q)
  {
    q.cq[q.head].status % 2 == q.phase
  }

  function Apply(q: Queue, s: Step): (q': Queue)
    requires Enabled(q, s)
    ensures Sized(q')
  {
    match s
    case Submit(sqe) =>
      q.(sq := q.sq[q.tail := sqe], tail := Bump(q.tail), sqBell := Bump(q.tail), waiting := true)
    case Poll =>
      if Match(q) then
        var h := Bump(q.head);
        q.(head := h, phase := if h == 0 then 1 - q.phase else q.phase, cqBell := h, waiting := false)
      else q
    case Fetch => q.(fetched := Bump(q.fetched), held := q.held + [q.sq[q.fetched]])
    case Post(which, code) =>
      var p := Bump(q.post);
      q.(cq := q.cq[q.post := Cqe(q.held[which].cid, code * 2 + q.tag)],
         held := q.held[..which] + q.held[which + 1..],
         post := p, tag := if p == 0 then 1 - q.tag else q.tag)
    case Stall => q
  }

  function Output(q: Queue, s: Step): Taken
    requires Enabled(q, s)
  {
    if s.Poll? && Match(q) then Completion(q.cq[q.head]) else Nothing
  }

  // ---- the FIFO ----

  datatype Answer = Answer(sqe: Sqe, code: nat)

  /** Everything ever sent, how many of it the controller has read, every answer ever
      given, and how many answers the driver has taken. */
  datatype Fifo = Fifo(sent: seq<Sqe>, read: nat, answers: seq<Answer>, taken: nat)

  const EMPTY := Fifo([], 0, [], 0)

  predicate FifoEnabled(f: Fifo, s: Step) {
    match s
    case Submit(_) => f.taken == |f.sent|
    case Poll => f.taken < |f.sent|
    case Fetch => f.read < |f.sent|
    case Post(_, code) => |f.answers| < f.read <= |f.sent|
    case Stall => true
  }

  function FifoApply(f: Fifo, s: Step): Fifo
    requires FifoEnabled(f, s)
  {
    match s
    case Submit(sqe) => f.(sent := f.sent + [sqe])
    case Poll => if f.taken < |f.answers| then f.(taken := f.taken + 1) else f
    case Fetch => f.(read := f.read + 1)
    case Post(_, code) => f.(answers := f.answers + [Answer(f.sent[|f.answers|], code)])
    case Stall => f
  }

  /** The phase tag of pass k / DEPTH: 1 on the first pass, then alternating. */
  function Tag(k: nat): (t: nat)
    ensures t < 2
  {
    1 - k / DEPTH % 2
  }

  /** The completion for answer number k. */
  function Entry(a: Answer, k: nat): Cqe {
    Cqe(a.sqe.cid, a.code * 2 + Tag(k))
  }

  ghost predicate Ordered(f: Fifo) {
    && f.taken <= |f.answers| <= f.read <= |f.sent| <= f.taken + 1
    && forall k :: 0 <= k < |f.answers| ==> f.answers[k].sqe == f.sent[k]
  }

  /** The completion ring holds the last DEPTH answers, each with its pass's tag; entries
      not yet written are still zero. */
  ghost predicate RingHolds(cq: seq<Cqe>, answers: seq<Answer>) {
    && |cq| == DEPTH
    && (forall k {:trigger answers[k]} :: 0 <= k < |answers| < k + DEPTH + 1 ==> cq[k % DEPTH] == Entry(answers[k], k))
    && forall i :: |answers| <= i < DEPTH ==> cq[i] == Cqe(0, 0)
  }

  ghost predicate Refines(q: Queue, f: Fifo) {
    && Ordered(f)
    && |q.sq| == DEPTH && RingHolds(q.cq, f.answers)
    && q.tail == q.sqBell == |f.sent| % DEPTH
    && q.head == q.cqBell == f.taken % DEPTH && q.phase == Tag(f.taken)
    && q.fetched == f.read % DEPTH
    && q.post == |f.answers| % DEPTH && q.tag == Tag(|f.answers|)
    && (q.waiting <==> |f.sent| == f.taken + 1)
    && (q.waiting ==> q.sq[f.taken % DEPTH] == f.sent[f.taken])
    && q.held == f.sent[|f.answers|..f.read]
  }

  lemma BumpMod(k: nat)
    ensures Bump(k % DEPTH) == (k + 1) % DEPTH
    ensures Tag(k + 1) == if (k + 1) % DEPTH == 0 then 1 - Tag(k) else Tag(k)
  {
  }

  lemma StartRefines(q: Queue)
    requires Started(q)
    ensures Refines(q, EMPTY)
  {
  }

  /** The head entry carries the expected tag exactly when the controller has answered the
      outstanding command; it is then that command's completion, never one of an earlier pass. */
  lemma MatchIffAnswered(q: Queue, f: Fifo)
    requires Refines(q, f)
    ensures Sized(q) && (Match(q) <==> f.taken < |f.answers|)
    ensures Match(q) ==> q.cq[q.head] == Entry(f.answers[f.taken], f.taken) && q.cq[q.head].cid == f.sent[f.taken].cid
  {
    hide RingHolds;
    var t := f.taken;
    RingAt(q.cq, f.answers, t);
    if t < |f.answers| {
      assert f.answers[t].sqe == f.sent[t];
    }
  }

  /** What entry t % DEPTH of the completion ring holds when answers up to t are in. */
  lemma RingAt(cq: seq<Cqe>, answers: seq<Answer>, t: nat)
    requires RingHolds(cq, answers) && t <= |answers| <= t + 1
    ensures |cq| == DEPTH
    ensures if t < |answers| then cq[t % DEPTH] == Entry(answers[t], t) else cq[t % DEPTH].status % 2 != Tag(t)
  {
    if t < |answers| {
      assert cq[t % DEPTH] == Entry(answers[t], t);
    } else if t >= DEPTH {
      PassBefore(t);
      hide Tag;
      var k := t - DEPTH;
      assert cq[k % DEPTH] == Entry(answers[k], k);
    }
  }

  /** One pass earlier: the same slot, the other tag. */
  lemma PassBefore(t: nat)
    requires t >= DEPTH
    ensures (t - DEPTH) % DEPTH == t % DEPTH && Tag(t) == 1 - Tag(t - DEPTH)
  {
  }

  lemma PostHolds(cq: seq<Cqe>, answers: seq<Answer>, a: Answer)
    requires RingHolds(cq, answers)
    ensures RingHolds(cq[|answers| % DEPTH := Entry(a, |answers|)], answers + [a])
  {
    var n := |answers|;
    var cq', answers' := cq[n % DEPTH := Entry(a, n)], answers + [a];
    forall k | 0 <= k < |answers'| < k + DEPTH + 1
      ensures cq'[k % DEPTH] == Entry(answers'[k], k)
    {
      if k < n {
        assert answers'[k] == answers[k] && k % DEPTH != n % DEPTH;
      }
    }
  }

  /** Every enabled step of the rings is a step of the FIFO. */
  lemma StepRefines(q: Queue, f: Fifo, s: Step)
    requires Refines(q, f) && Enabled(q, s)
    ensures FifoEnabled(f, s) && Refines(Apply(q, s), FifoApply(f, s))
    ensures s.Post? ==> q.held[s.which] == f.sent[|f.answers|]
    ensures Output(q, s) == if s.Poll? && f.taken < |f.answers| then Completion(Entry(f.answers[f.taken],
              f.taken)) else Nothing
  {
    hide RingHolds, Tag, Bump;
    MatchIffAnswered(q, f);
    BumpMod(|f.sent|);
    BumpMod(f.taken);
    BumpMod(f.read);
    BumpMod(|f.answers|);
    var a, r := |f.answers|, f.read;
    match s
    case Submit(sqe) =>
      assert (f.sent + [sqe])[a..r] == f.sent[a..r];
    case Fetch =>
      assert r == f.taken && q.sq[q.fetched] == f.sent[r];
      assert f.sent[a..r + 1] == f.sent[a..r] + [f.sent[r]];
    case Post(which, code) =>
      PostHolds(q.cq, f.answers, Answer(f.sent[a], code));
      assert q.held == [f.sent[a]] && f.sent[a + 1..r] == [];
    case Poll =>
    case Stall =>
  }

  /** While a command is held, the completion ring has room: the controller is never
      blocked by the driver. */
  lemma AlwaysRoom(q: Queue, f: Fifo, code: nat)
    requires Refines(q, f) && q.held != [] && code < 0x8000
    ensures Enabled(q, Post(0, code))
  {
    assert |f.answers| == f.taken;
  }

  // ---- whole runs ----

  ghost predicate Allowed(q: Queue, steps: seq<Step>)
    decreases |steps|
  {
    steps == [] || (Enabled(q, steps[0]) && Allowed(Apply(q, steps[0]), steps[1..]))
  }

  ghost function Run(q: Queue, steps: seq<Step>): Queue
    requires Allowed(q, steps)
    decreases |steps|
  {
    if steps == [] then q else Run(Apply(q, steps[0]), steps[1..])
  }

  /** The completions the driver takes during a run, in order. */
  ghost function Outputs(q: Queue, steps: seq<Step>): seq<Cqe>
    requires Allowed(q, steps)
    decreases |steps|
  {
    if steps == [] then [] else
    var rest := Outputs(Apply(q, steps[0]), steps[1..]);
    match Output(q, steps[0])
    case Nothing => rest
    case Completion(c) => [c] + rest
  }

  /** The commands submitted during a run, in order. */
  function Submitted(steps: seq<Step>): seq<Sqe> {
    if steps == [] then [] else
    (if steps[0].Submit? then [steps[0].sqe] else []) + Submitted(steps[1..])
  }

  /** The answers the controller posts during a run, in order. */
  ghost function Posted(q: Queue, steps: seq<Step>): seq<Answer>
    requires Allowed(q, steps)
    decreases |steps|
  {
    if steps == [] then [] else
    (if steps[0].Post? then [Answer(q.held[steps[0].which], steps[0].code)] else []) +
    Posted(Apply(q, steps[0]), steps[1..])
  }

  /** `out` is the completions of the answers from number `from` on. */
  ghost predicate Answered(out: seq<Cqe>, answers: seq<Answer>, from: nat) {
    && from + |out| <= |answers|
    && forall k :: 0 <= k < |out| ==> out[k] == Entry(answers[from + k], from + k)
  }

  /** A run of the rings is a run of the FIFO, with the same commands and completions. */
  lemma {:induction false} RunRefines(q: Queue, f: Fifo, steps: seq<Step>) returns (f': Fifo)
    requires Refines(q, f) && Allowed(q, steps)
    ensures Refines(Run(q, steps), f') && f'.sent == f.sent + Submitted(steps)
    ensures f'.answers == f.answers + Posted(q, steps)
    ensures f'.taken == f.taken + |Outputs(q, steps)| && Answered(Outputs(q, steps), f'.answers, f.taken)
    decreases |steps|
  {
    hide Refines, Answered, Apply, FifoApply, Output, Enabled, Outputs, Submitted, Posted;
    RefinesBounds(q, f);
    Unfold(q, steps);
    if steps == [] {
      NoneAnswered(f.answers, f.taken);
      return f;
    }
    StepRefines(q, f, steps[0]);
    var mid := FifoApply(f, steps[0]);
    FifoStep(f, steps[0]);
    f' := RunRefines(Apply(q, steps[0]), mid, steps[1..]);
    if Output(q, steps[0]).Completion? {
      Prepend(Outputs(Apply(q, steps[0]), steps[1..]), f'.answers, f.taken);
    }
  }

  lemma Unfold(q: Queue, steps: seq<Step>)
    requires Allowed(q, steps)
    ensures steps == [] ==> Outputs(q, steps) == [] && Submitted(steps) == [] && Posted(q, steps) == []
    ensures steps != [] ==>
              var rest := Outputs(Apply(q, steps[0]), steps[1..]);
              && Outputs(q, steps) == (match Output(q, steps[0]) case Nothing => rest case Completion(c) => [c] + rest)
              && Submitted(steps) == (if steps[0].Submit? then [steps[0].sqe] else []) + Submitted(steps[1..])
              && (steps[0].Post? ==> steps[0].which < |q.held|)
              && Posted(q, steps) == (if steps[0].Post? then [Answer(q.held[steps[0].which], steps[0].code)] else []) +
                                     Posted(Apply(q, steps[0]), steps[1..])
  {
  }

  lemma NoneAnswered(answers: seq<Answer>, from: nat)
    requires from <= |answers|
    ensures Answered([], answers, from)
  {
  }

  lemma Prepend(out: seq<Cqe>, answers: seq<Answer>, from: nat)
    requires Answered(out, answers, from + 1)
    ensures Answered([Entry(answers[from], from)] + out, answers, from)
  {
    hide Entry;
    var all := [Entry(answers[from], from)] + out;
    forall k | 0 <= k < |all| ensures all[k] == Entry(answers[from + k], from + k) {
      if k > 0 {
        assert out[k - 1] == Entry(answers[from + 1 + (k - 1)], from + 1 + (k - 1));
      }
    }
  }

  lemma RefinesBounds(q: Queue, f: Fifo)
    requires Refines(q, f)
    ensures Ordered(f) && f.taken <= |f.answers|
    ensures q.tail == |f.sent| % DEPTH && q.head == f.taken % DEPTH && q.phase == Tag(f.taken)
    ensures q.waiting <==> |f.sent| == f.taken + 1
  {
  }

  lemma FifoStep(f: Fifo, s: Step)
    requires FifoEnabled(f, s)
    ensures var f' := FifoApply(f, s);
            && f'.sent == f.sent + (if s.Submit? then [s.sqe] else [])
            && f'.answers == f.answers + (if s.Post? then [Answer(f.sent[|f.answers|], s.code)] else [])
            && f'.taken == f.taken + (if s.Poll? && f.taken < |f.answers| then 1 else 0)
  {
  }

  /** From start-up, for any number of commands and any controller delays: the k-th
      completion taken is the one the controller posted for the k-th command submitted, no
      wait takes a stale one, at most one command is outstanding, and head, tail and phase
      follow the counts. */
  lemma EveryWaitTakesItsOwn(q: Queue, steps: seq<Step>)
    requires Started(q) && Allowed(q, steps)
    ensures var taken, posted, sent := Outputs(q, steps), Posted(q, steps), Submitted(steps);
            && |taken| <= |posted| <= |sent| <= |taken| + 1
            && (forall k :: 0 <= k < |posted| ==> posted[k].sqe == sent[k])
            && forall k :: 0 <= k < |taken| ==>
                 taken[k] == Cqe(sent[k].cid, posted[k].code * 2 + Tag(k))
    ensures var taken, sent, q' := Outputs(q, steps), Submitted(steps), Run(q, steps);
            && (q'.waiting <==> |sent| == |taken| + 1)
            && q'.head == |taken| % DEPTH && q'.phase == Tag(|taken|) && q'.tail == |sent| % DEPTH
  {
    hide Refines, Run, Outputs, Submitted, Posted, Allowed, Started;
    StartRefines(q);
    var f := RunRefines(q, EMPTY, steps);
    assert f.sent == Submitted(steps) && f.answers == Posted(q, steps);
    RefinesBounds(Run(q, steps), f);
    TakenInOrder(f, Outputs(q, steps));
  }

  lemma TakenInOrder(f: Fifo, out: seq<Cqe>)
    requires Ordered(f) && Answered(out, f.answers, 0)
    ensures forall k :: 0 <= k < |out| ==> out[k] == Cqe(f.sent[k].cid, f.answers[k].code * 2 + Tag(k))
  {
    forall k | 0 <= k < |out| ensures out[k] == Cqe(f.sent[k].cid, f.answers[k].code * 2 + Tag(k)) {
      assert out[k] == Entry(f.answers[0 + k], 0 + k);
    }
  }

  // ---- the driver ----

  lemma BeforeSubmit(q: Queue, f: Fifo)
    requires Refines(q, f) && !q.waiting
    ensures f.taken == |f.answers| == f.read == |f.sent|
  {
  }

  /** With one command outstanding and unanswered, a first fetch reads it and a post after
      that answers it. */
  lemma OneOutstanding(q: Queue, f: Fifo, s: Step)
    requires Refines(q, f) && q.waiting && f.taken == |f.answers|
    ensures Sized(q) && |f.sent| == f.taken + 1
    ensures s.Fetch? && f.read < |f.sent| ==> Enabled(q, s)
    ensures s.Post? && s.which == 0 && s.code < 0x8000 && f.read == |f.sent| ==> Enabled(q, s)
  {
    if s.Fetch? && f.read < |f.sent| {
      assert f.read == f.taken;
    }
  }

  /** One queue pair: ring memory, the driver's indices, the doorbells, and the controller's
      registers. `waiting` marks a driver between submit and completion. */
  class QueuePair {
    var sq: seq<Sqe>
    var tail: nat
    var cq: seq<Cqe>
    var head: nat
    var phase: nat
    var waiting: bool
    var sqBell: nat
    var cqBell: nat
    var fetched: nat
    var held: seq<Sqe>
    var post: nat
    var tag: nat
    ghost var fifo: Fifo

    function View(): Queue
      reads this
    {
      Queue(sq, tail, cq, head, phase, waiting, sqBell, cqBell, fetched, held, post, tag)
    }

    ghost predicate Valid()
      reads this
    {
      Refines(View(), fifo)
    }

    constructor (slots: seq<Sqe>)
      requires |slots| == DEPTH
      ensures Valid() && fifo == EMPTY && Started(View())
    {
      sq, cq := slots, seq(DEPTH, _ => Cqe(0, 0));
      tail, head, phase, waiting := 0, 0, 1, false;
      sqBell, cqBell := 0, 0;
      fetched, held, post, tag := 0, [], 0, 1;
      fifo := EMPTY;
    }

    /** Write the entry, advance the tail, ring the doorbell. */
    method Submit(sqe: Sqe)
      requires Valid() && !waiting
      modifies this
      ensures Valid() && waiting && Enabled(old(View()), Step.Submit(sqe))
      ensures View() == Apply(old(View()), Step.Submit(sqe)) && fifo == old(fifo).(sent := old(fifo).sent + [sqe])
    {
      hide Refines;
      MatchIffAnswered(View(), fifo);
      StepRefines(View(), fifo, Step.Submit(sqe));
      fifo := fifo.(sent := fifo.sent + [sqe]);
      sq := sq[tail := sqe];
      tail := (tail + 1) % DEPTH;
      sqBell := tail;
      waiting := true;
    }

    /** Look at the head entry once; take it when its tag is the expected one. */
    method Poll() returns (done: bool, rc: int)
      requires Valid() && waiting
      modifies this
      ensures Valid() && Enabled(old(View()), Step.Poll) && View() == Apply(old(View()), Step.Poll)
      ensures done == (old(fifo).taken < |old(fifo).answers|) == !waiting
      ensures fifo == if done then old(fifo).(taken := old(fifo).taken + 1) else old(fifo)
      ensures done ==> rc == if old(fifo).answers[old(fifo).taken].code % 0x400 != 0 then -1 else 0
    {
      hide Refines;
      MatchIffAnswered(View(), fifo);
      StepRefines(View(), fifo, Step.Poll);
      var s := cq[head].status;
      if s % 2 == phase {
        var code := s / 2 % 0x400;
        fifo := fifo.(taken := fifo.taken + 1);
        head := (head + 1) % DEPTH;
        if head == 0 { phase := 1 - phase; }
        cqBell := head;
        waiting := false;
        return true, if code != 0 then -1 else 0;
      }
      return false, 0;
    }

    /** The controller takes a step if it can. */
    method Device(s: Step)
      requires Valid() && !s.Submit? && !s.Poll?
      modifies this
      ensures Valid() && waiting == old(waiting) && (Enabled(old(View()), s) ==> FifoEnabled(old(fifo), s))
      ensures View() == if Enabled(old(View()), s) then Apply(old(View()), s) else old(View())
      ensures fifo == if Enabled(old(View()), s) then FifoApply(old(fifo), s) else old(fifo)
    {
      hide Refines;
      if !Enabled(View(), s) {
        return;
      }
      StepRefines(View(), fifo, s);
      fifo := FifoApply(fifo, s);
      match s
      case Fetch =>
        held, fetched := held + [sq[fetched]], Bump(fetched);
      case Post(which, code) =>
        cq := cq[post := Cqe(held[which].cid, code * 2 + tag)];
        held := held[..which] + held[which + 1..];
        post := Bump(post);
        if post == 0 { tag := 1 - tag; }
      case _ =>
    }
  }

  class Driver {
    var nextCid: nat

    /** nvme_admin_submit_and_wait and nvme_io_submit_and_wait: one command on one pair. The
        controller takes the steps of `schedule`, one before each poll; without an answer by
        its end the wait is still spinning. */
    method SubmitAndWait(p: QueuePair, body: nat, schedule: seq<Step>) returns (done: bool, rc: int)
      requires p.Valid() && !p.waiting && nextCid < CID_SPACE
      requires forall s :: s in schedule ==> !s.Submit? && !s.Poll?
      modifies this, p
      ensures p.Valid() && nextCid == (old(nextCid) + 1) % CID_SPACE
      ensures p.fifo.sent == old(p.fifo.sent) + [Sqe(old(nextCid), body)]
      ensures p.waiting <==> !done
      ensures done ==> exists code: nat ::
                && p.fifo.answers == old(p.fifo.answers) + [Answer(Sqe(old(nextCid), body), code)]
                && p.fifo.taken == old(p.fifo.taken) + 1
                && rc == if code % 0x400 != 0 then -1 else 0
      ensures !done ==> p.fifo.taken == old(p.fifo.taken)
      ensures (exists i, j :: 0 <= i < j < |schedule| && schedule[i].Fetch? && schedule[j].Post? &&
                schedule[j].which == 0 && schedule[j].code < 0x8000) ==> done
    {
      hide Refines, Apply, Enabled;
      var sqe := Sqe(nextCid, body);
      nextCid := (nextCid + 1) % CID_SPACE;
      BeforeSubmit(p.View(), p.fifo);
      p.Submit(sqe);
      rc := 0;
      var n := 0;
      while n < |schedule|
        invariant n <= |schedule| && p.Valid() && p.waiting && nextCid == (old(nextCid) + 1) % CID_SPACE
        invariant p.fifo.sent == old(p.fifo.sent) + [sqe] && |p.fifo.sent| == p.fifo.taken + 1
        invariant p.fifo.taken <= p.fifo.read <= |p.fifo.sent| && p.fifo.taken == |p.fifo.answers|
        invariant p.fifo.answers == old(p.fifo.answers) && p.fifo.taken == old(p.fifo.taken)
        invariant (exists i :: 0 <= i < n && schedule[i].Fetch?) ==> p.fifo.read == |p.fifo.sent|
        invariant !exists i, j :: 0 <= i < j < n && schedule[i].Fetch? && schedule[j].Post? &&
                    schedule[j].which == 0 && schedule[j].code < 0x8000
      {
        OneOutstanding(p.View(), p.fifo, schedule[n]);
        assert schedule[n] in schedule;
        p.Device(schedule[n]);
        done, rc := p.Poll();
        if done {
          return;
        }
        n := n + 1;
      }
      done := false;
    }
  }
}
