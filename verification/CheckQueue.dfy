/**
  The parallel check queue (src/checkqueue.h): one master and any number of workers that
  share a stack of checks under one mutex, with a condition variable for either side.

  The protocol is a state machine.  A step is one critical section, the evaluation of one
  check outside the lock, a call of `Add`, or a spurious wakeup; the threads interleave
  arbitrarily.  Thread 0 is the master.  There is no stop request.
*/
module CheckQueue {

  import opened Arithmetic
  import opened Basics

  /** A verification, with the verdict its call operator gives. */
  datatype Check = Check(id: nat, ok: bool)

  datatype Pc =
    | Out                                             // not inside `Loop`
    | Asleep                                          // blocked on the condition variable
    | Woken                                           // notified, about to take the lock again
    | Working(batch: seq<Check>, done: nat, fOk: bool) // holds a batch, `done` checks of it gone through

  /**
    The guarded fields and the threads, together with three history variables: the checks
    added since the last `Wait` returned, those whose batch was cleaned up, and those evaluated.
  */
  datatype State = State(
    queue: seq<Check>, nIdle: int, nTotal: int, fAllOk: bool, nTodo: int, threads: seq<Pc>,
    added: seq<Check>, cleaned: seq<Check>, ran: seq<Check>)

  datatype Step =
    | Add(checks: seq<Check>, pick: nat)  // `pick` is the worker that `notify_one` chooses
    | Lock(i: nat)                        // thread i takes the mutex and runs its critical section
    | Run(i: nat)                         // thread i goes through the next check of its batch
    | Spurious(i: nat)                    // thread i wakes up unasked

  // ---------- Sums over checks and over the threads ----------

  /** How often `c` occurs. */
  function Occ(checks: seq<Check>, c: Check): nat {
    if checks == [] then 0 else (if checks[0] == c then 1 else 0) + Occ(checks[1..], c)
  }

  lemma {:induction false} OccConcat(a: seq<Check>, b: seq<Check>, c: Check)
    ensures Occ(a + b, c) == Occ(a, c) + Occ(b, c)
  {
    if a == [] {
      assert a + b == b;
    } else {
      assert (a + b)[1..] == a[1..] + b;
      OccConcat(a[1..], b, c);
    }
  }

  lemma {:induction false} OccMember(checks: seq<Check>, c: Check)
    ensures c in checks <==> Occ(checks, c) > 0
  {
    if checks != [] {
      OccMember(checks[1..], c);
    }
  }

  function Idle(pc: Pc): nat {
    if pc.Asleep? || pc.Woken? then 1 else 0
  }

  function Inside(pc: Pc): nat {
    if pc.Out? then 0 else 1
  }

  function Load(pc: Pc): nat {
    if pc.Working? then |pc.batch| else 0
  }

  function IdleCount(threads: seq<Pc>): nat {
    if threads == [] then 0 else Idle(threads[0]) + IdleCount(threads[1..])
  }

  function InsideCount(threads: seq<Pc>): nat {
    if threads == [] then 0 else Inside(threads[0]) + InsideCount(threads[1..])
  }

  /** The number of checks in batches. */
  function InFlight(threads: seq<Pc>): nat {
    if threads == [] then 0 else Load(threads[0]) + InFlight(threads[1..])
  }

  /** How often `c` is in the batch of a thread, and in the part it has not gone through. */
  function Held(pc: Pc, c: Check): nat {
    if pc.Working? then Occ(pc.batch, c) else 0
  }

  function Unrun(pc: Pc, c: Check): nat {
    if pc.Working? && pc.done <= |pc.batch| then Occ(pc.batch[pc.done..], c) else 0
  }

  function HeldBy(threads: seq<Pc>, c: Check): nat {
    if threads == [] then 0 else Held(threads[0], c) + HeldBy(threads[1..], c)
  }

  function UnrunBy(threads: seq<Pc>, c: Check): nat {
    if threads == [] then 0 else Unrun(threads[0], c) + UnrunBy(threads[1..], c)
  }

  lemma {:induction false} CountUpdate(threads: seq<Pc>, i: nat, pc: Pc)
    requires i < |threads|
    ensures IdleCount(threads[i := pc]) == IdleCount(threads) - Idle(threads[i]) + Idle(pc)
    ensures InsideCount(threads[i := pc]) == InsideCount(threads) - Inside(threads[i]) + Inside(pc)
    ensures InFlight(threads[i := pc]) == InFlight(threads) - Load(threads[i]) + Load(pc)
  {
    if i == 0 {
      assert threads[i := pc][1..] == threads[1..];
    } else {
      assert threads[i := pc][1..] == threads[1..][i - 1 := pc];
      CountUpdate(threads[1..], i - 1, pc);
    }
  }

  lemma {:induction false} HeldUpdate(threads: seq<Pc>, i: nat, pc: Pc, c: Check)
    requires i < |threads|
    ensures HeldBy(threads[i := pc], c) == HeldBy(threads, c) - Held(threads[i], c) + Held(pc, c)
    ensures UnrunBy(threads[i := pc], c) == UnrunBy(threads, c) - Unrun(threads[i], c) + Unrun(pc, c)
  {
    if i == 0 {
      assert threads[i := pc][1..] == threads[1..];
    } else {
      assert threads[i := pc][1..] == threads[1..][i - 1 := pc];
      HeldUpdate(threads[1..], i - 1, pc, c);
    }
  }

  // ---------- The steps ----------

  function Initial(threadCount: nat): State {
    State([], 0, 0, true, 0, seq(threadCount, _ => Out), [], [], [])
  }

  function Wake(pc: Pc): Pc {
    if pc.Asleep? then Woken else pc
  }

  /** `notify_all` on the workers' condition variable. */
  function WakeWorkers(threads: seq<Pc>): seq<Pc> {
    seq(|threads|, i requires 0 <= i < |threads| => if i == 0 then threads[0] else Wake(threads[i]))
  }

  function DoAdd(s: State, checks: seq<Check>, pick: nat): State {
    var threads :=
      if |checks| == 1 && 0 < pick < |s.threads| then s.threads[pick := Wake(s.threads[pick])]
      else if |checks| > 1 then WakeWorkers(s.threads)
      else s.threads;
    s.(queue := s.queue + checks, nTodo := s.nTodo + |checks|, threads := threads,
       added := s.added + checks)
  }

  /** `notify_one` reaches a sleeping worker if there is one. */
  ghost predicate GoodPick(threads: seq<Pc>, pick: nat) {
    (exists j :: 0 < j < |threads| && threads[j].Asleep?) ==> 0 < pick < |threads| && threads[pick].Asleep?
  }

  /**
    Entry of the critical section: clean up the last batch, or register, or stop being idle.
    While a thread is inside the critical section its program counter reads `Out`.
  */
  function Arrive(s: State, i: nat): State
    requires i < |s.threads|
  {
    var threads := s.threads[i := Out];
    match s.threads[i]
    case Out => s.(nTotal := s.nTotal + 1)
    case Working(batch, _, fOk) =>
      var nTodo := s.nTodo - |batch|;
      s.(fAllOk := s.fAllOk && fOk, nTodo := nTodo, cleaned := s.cleaned + batch,
         threads := if nTodo == 0 && i != 0 then threads[0 := Wake(threads[0])] else threads)
    case _ => s.(nIdle := s.nIdle - 1, threads := threads)
  }

  /** How many checks to take: an even share of the queue, within 1 and `nBatchSize`. */
  function BatchSize(nBatchSize: nat, queued: nat, nTotal: nat, nIdle: nat): (n: nat)
    requires queued > 0
    ensures 1 <= n <= queued
    ensures n <= nBatchSize || n == 1
  {
    var share := queued / (nTotal + nIdle + 1);
    var capped := if nBatchSize < share then nBatchSize else share;
    if capped < 1 then 1 else capped
  }

  /** The batch is the largest fair share: all threads could take as many, and one more would be too many. */
  lemma BatchIsShare(nBatchSize: nat, queued: nat, nTotal: nat, nIdle: nat)
    requires queued > 0
    ensures var n := BatchSize(nBatchSize, queued, nTotal, nIdle);
            && (n > 1 ==> n <= nBatchSize && n * (nTotal + nIdle + 1) <= queued)
            && (n < nBatchSize ==> queued < (n + 1) * (nTotal + nIdle + 1))
  {
    var d, n := nTotal + nIdle + 1, BatchSize(nBatchSize, queued, nTotal, nIdle);
    assert queued == queued / d * d + queued % d;
    if n > 1 {
      MulMonotone(n, queued / d, d);
    }
    if n < nBatchSize {
      MulMonotone(queued / d + 1, n + 1, d);
      MulDistributes(queued / d, 1, d);
    }
  }

  /** Popping from the back turns the order around. */
  function Reversed(checks: seq<Check>): (r: seq<Check>)
    ensures |r| == |checks|
  {
    if checks == [] then [] else Reversed(checks[1..]) + [checks[0]]
  }

  lemma {:induction false} OccReversed(checks: seq<Check>, c: Check)
    ensures Occ(Reversed(checks), c) == Occ(checks, c)
  {
    if checks != [] {
      OccConcat(Reversed(checks[1..]), [checks[0]], c);
      OccReversed(checks[1..], c);
    }
  }

  lemma {:induction false} ReversedAt(checks: seq<Check>, k: nat)
    requires k < |checks|
    ensures Reversed(checks)[k] == checks[|checks| - 1 - k]
  {
    if k < |checks| - 1 {
      ReversedAt(checks[1..], k);
    }
  }

  /** Rest of the critical section: return, go to sleep, or take a batch. */
  function Decide(nBatchSize: nat, s: State, i: nat): (State, Option<bool>)
    requires i < |s.threads| && s.nTotal >= 0 && s.nIdle >= 0
  {
    if s.queue == [] then
      if i == 0 && s.nTodo == 0 then
        (s.(nTotal := s.nTotal - 1, fAllOk := true,
            added := [], cleaned := [], ran := []),
         Some(s.fAllOk))
      else
        (s.(nIdle := s.nIdle + 1, threads := s.threads[i := Asleep]), None)
    else
      var n := BatchSize(nBatchSize, |s.queue|, s.nTotal, s.nIdle);
      var batch := Reversed(s.queue[|s.queue| - n..]);
      (s.(queue := s.queue[..|s.queue| - n], threads := s.threads[i := Working(batch, 0, s.fAllOk)]), None)
  }

  /** A batch is what was queued last, latest first, and the rest of the queue is untouched. */
  lemma BatchIsLatest(nBatchSize: nat, s: State, i: nat, k: nat)
    requires i < |s.threads| && s.nTotal >= 0 && s.nIdle >= 0 && s.queue != []
    ensures var t := Decide(nBatchSize, s, i).0;
            && t.threads[i].Working? && t.threads[i].done == 0
            && var batch := t.threads[i].batch;
               && t.queue == s.queue[..|s.queue| - |batch|]
               && (k < |batch| ==> batch[k] == s.queue[|s.queue| - 1 - k])
  {
    var n := BatchSize(nBatchSize, |s.queue|, s.nTotal, s.nIdle);
    if k < n {
      ReversedAt(s.queue[|s.queue| - n..], k);
    }
  }

  function DoRun(s: State, i: nat): State
    requires i < |s.threads| && s.threads[i].Working? && s.threads[i].done < |s.threads[i].batch|
  {
    var Working(batch, done, fOk) := s.threads[i];
    if fOk then
      s.(threads := s.threads[i := Working(batch, done + 1, batch[done].ok)], ran := s.ran + [batch[done]])
    else
      s.(threads := s.threads[i := Working(batch, done + 1, false)])
  }

  ghost predicate Enabled(s: State, step: Step) {
    match step
    case Add(checks, pick) => |s.threads| > 0 && s.threads[0].Out? && (|checks| == 1 ==> GoodPick(s.threads, pick))
    case Lock(i) =>
      && i < |s.threads|
      && !s.threads[i].Asleep?
      && (s.threads[i].Working? ==> s.threads[i].done == |s.threads[i].batch|)
    case Run(i) => i < |s.threads| && s.threads[i].Working? && s.threads[i].done < |s.threads[i].batch|
    case Spurious(i) => i < |s.threads| && s.threads[i].Asleep?
  }

  /** The state after a step, and what `Wait` returns if the step makes it return. */
  ghost function Next(nBatchSize: nat, s: State, step: Step): (State, Option<bool>)
    requires Inv(s) && Enabled(s, step)
  {
    match step
    case Add(checks, pick) => (DoAdd(s, checks, pick), None)
    case Lock(i) =>
      ArriveKeeps(s, i);
      Decide(nBatchSize, Arrive(s, i), i)
    case Run(i) => (DoRun(s, i), None)
    case Spurious(i) => (s.(threads := s.threads[i := Woken]), None)
  }

  // ---------- The invariant ----------

  ghost predicate AllOk(checks: seq<Check>) {
    forall c :: c in checks ==> c.ok
  }

  /** The counters mean what they say; `inside` threads are in the critical section. */
  ghost predicate Counted(s: State, inside: nat) {
    && s.nIdle == IdleCount(s.threads)
    && s.nTotal == InsideCount(s.threads) + inside
    && s.nTodo == |s.queue| + InFlight(s.threads)
  }

  /** Every check added is queued, held by one thread, or cleaned up. */
  ghost predicate Conserved(s: State) {
    forall c: Check :: Occ(s.added, c) == Occ(s.queue, c) + HeldBy(s.threads, c) + Occ(s.cleaned, c)
  }

  ghost predicate BatchSound(pc: Pc, added: seq<Check>) {
    pc.Working? ==>
      && 0 < |pc.batch| && pc.done <= |pc.batch|
      && (pc.fOk ==> AllOk(pc.batch[..pc.done]))
      && (!pc.fOk ==> !AllOk(added))
  }

  /** A flag that is up vouches for the checks gone through; one that is down has a culprit. */
  ghost predicate VerdictsSound(s: State) {
    && (s.fAllOk ==> AllOk(s.cleaned))
    && (!s.fAllOk ==> !AllOk(s.added))
    && (forall i :: 0 <= i < |s.threads| ==> BatchSound(s.threads[i], s.added))
  }

  /** No check is evaluated twice, and none is skipped unless some check fails. */
  ghost predicate RanOnce(s: State) {
    forall c: Check ::
      var pending := Occ(s.queue, c) + UnrunBy(s.threads, c);
      Occ(s.ran, c) + pending <= Occ(s.added, c) && (AllOk(s.added) ==> Occ(s.ran, c) + pending == Occ(s.added, c))
  }

  /** A sleeping master is owed a notification; queued work never leaves all workers asleep. */
  ghost predicate NoLostWakeup(s: State) {
    && |s.threads| > 0
    && (s.threads[0].Asleep? ==> s.queue == [] && s.nTodo > 0)
    && (s.queue != [] && |s.threads| > 1 ==> exists j :: 0 < j < |s.threads| && !s.threads[j].Asleep?)
  }

  ghost predicate InvInside(s: State, inside: nat) {
    Counted(s, inside) && Conserved(s) && VerdictsSound(s) && RanOnce(s) && NoLostWakeup(s)
  }

  ghost predicate Inv(s: State) {
    InvInside(s, 0)
  }

  // ---------- Waking threads ----------

  ghost predicate WokenOnly(a: seq<Pc>, b: seq<Pc>) {
    |a| == |b| && forall i :: 0 <= i < |a| ==> b[i] == a[i] || b[i] == Wake(a[i])
  }

  /** Waking threads moves none of the sums. */
  lemma {:induction false} WakingMovesNothing(a: seq<Pc>, b: seq<Pc>)
    requires WokenOnly(a, b)
    ensures IdleCount(a) == IdleCount(b) && InsideCount(a) == InsideCount(b)
    ensures InFlight(a) == InFlight(b)
    ensures forall c :: HeldBy(a, c) == HeldBy(b, c) && UnrunBy(a, c) == UnrunBy(b, c)
  {
    if a != [] {
      WakingMovesNothing(a[1..], b[1..]);
    }
  }

  lemma WakingKeeps(s: State, t: State, inside: nat)
    requires t == s.(threads := t.threads) && WokenOnly(s.threads, t.threads)
    requires Counted(s, inside) && Conserved(s) && VerdictsSound(s) && RanOnce(s)
    ensures Counted(t, inside) && Conserved(t) && VerdictsSound(t) && RanOnce(t)
  {
    WakingMovesNothing(s.threads, t.threads);
  }

  // ---------- Entering the critical section ----------

  /** `Arrive` without the notification. */
  ghost function Checked(s: State, i: nat): State
    requires i < |s.threads|
  {
    Arrive(s, i).(threads := s.threads[i := Out])
  }

  lemma CheckedCounted(s: State, i: nat)
    requires Counted(s, 0) && i < |s.threads| && !s.threads[i].Asleep?
    ensures Counted(Checked(s, i), 1)
  {
    CountUpdate(s.threads, i, Out);
  }

  lemma CheckedConserved(s: State, i: nat)
    requires Conserved(s) && i < |s.threads|
    ensures Conserved(Checked(s, i))
  {
    var t := Checked(s, i);
    forall c: Check
      ensures Occ(t.added, c) == Occ(t.queue, c) + HeldBy(t.threads, c) + Occ(t.cleaned, c)
    {
      HeldUpdate(s.threads, i, Out, c);
      if s.threads[i].Working? { OccConcat(s.cleaned, s.threads[i].batch, c); }
    }
  }

  lemma CheckedVerdicts(s: State, i: nat)
    requires VerdictsSound(s) && Enabled(s, Lock(i))
    ensures VerdictsSound(Checked(s, i))
  {
    var pc := s.threads[i];
    assert BatchSound(pc, s.added);
    if pc.Working? {
      assert pc.batch[..pc.done] == pc.batch;
    }
  }

  lemma CheckedRanOnce(s: State, i: nat)
    requires RanOnce(s) && Enabled(s, Lock(i))
    ensures RanOnce(Checked(s, i))
  {
    forall c: Check { HeldUpdate(s.threads, i, Out, c); }
  }

  lemma ArriveOnlyWakes(s: State, i: nat)
    requires i < |s.threads|
    ensures Arrive(s, i) == Checked(s, i).(threads := Arrive(s, i).threads)
    ensures WokenOnly(Checked(s, i).threads, Arrive(s, i).threads)
    ensures |Arrive(s, i).threads| == |s.threads| && Arrive(s, i).threads[i].Out?
  {
  }

  lemma ArriveKeeps(s: State, i: nat)
    requires Inv(s) && Enabled(s, Lock(i))
    ensures InvInside(Arrive(s, i), 1) && |Arrive(s, i).threads| == |s.threads|
    ensures Arrive(s, i).threads[i].Out?
  {
    ArriveOnlyWakes(s, i);
    CheckedCounted(s, i);
    CheckedConserved(s, i);
    CheckedVerdicts(s, i);
    CheckedRanOnce(s, i);
    WakingKeeps(Checked(s, i), Arrive(s, i), 1);
    ArriveNoLostWakeup(s, i);
  }

  lemma ArriveNoLostWakeup(s: State, i: nat)
    requires NoLostWakeup(s) && Counted(s, 0) && Enabled(s, Lock(i))
    ensures NoLostWakeup(Arrive(s, i))
  {
    var t := Arrive(s, i);
    CountUpdate(s.threads, i, Out);
    if t.queue != [] && |t.threads| > 1 {
      var j :| 0 < j < |s.threads| && !s.threads[j].Asleep?;
      assert !t.threads[j].Asleep?;
    }
  }

  // ---------- Leaving the critical section ----------

  lemma {:induction false} NothingInFlight(threads: seq<Pc>, added: seq<Check>)
    requires InFlight(threads) == 0
    requires forall i :: 0 <= i < |threads| ==> BatchSound(threads[i], added)
    ensures forall i :: 0 <= i < |threads| ==> !threads[i].Working?
    ensures forall c :: HeldBy(threads, c) == UnrunBy(threads, c) == 0
  {
    if threads != [] {
      assert BatchSound(threads[0], added);
      NothingInFlight(threads[1..], added);
      assert forall i :: 0 < i < |threads| ==> threads[i] == threads[1..][i - 1];
    }
  }

  lemma SplitConserves(queue: seq<Check>, m: nat, c: Check)
    requires m <= |queue|
    ensures Occ(queue, c) == Occ(queue[..m], c) + Occ(Reversed(queue[m..]), c)
  {
    assert queue == queue[..m] + queue[m..];
    OccConcat(queue[..m], queue[m..], c);
    OccReversed(queue[m..], c);
  }

  ghost predicate CanReturn(s: State, i: nat) {
    s.queue == [] && i == 0 && s.nTodo == 0
  }

  /** When the master may return, everything added has been cleaned up. */
  lemma AllCleaned(s: State, inside: nat)
    requires Counted(s, inside) && Conserved(s) && VerdictsSound(s) && s.queue == [] && s.nTodo == 0
    ensures forall c :: Occ(s.added, c) == Occ(s.cleaned, c)
    ensures forall i :: 0 <= i < |s.threads| ==> !s.threads[i].Working?
    ensures forall c :: HeldBy(s.threads, c) == UnrunBy(s.threads, c) == 0
  {
    NothingInFlight(s.threads, s.added);
  }

  lemma ReturnKeeps(nBatchSize: nat, s: State)
    requires InvInside(s, 1) && s.threads[0].Out? && CanReturn(s, 0)
    ensures s.nTotal >= 0 && s.nIdle >= 0
    ensures Inv(Decide(nBatchSize, s, 0).0)
  {
    AllCleaned(s, 1);
  }

  lemma SleepKeeps(nBatchSize: nat, s: State, i: nat)
    requires InvInside(s, 1) && i < |s.threads| && s.threads[i].Out? && s.queue == [] && !CanReturn(s, i)
    ensures s.nTotal >= 0 && s.nIdle >= 0
    ensures Inv(Decide(nBatchSize, s, i).0)
  {
    CountUpdate(s.threads, i, Asleep);
    forall c: Check { HeldUpdate(s.threads, i, Asleep, c); }
  }

  lemma TakeKeeps(nBatchSize: nat, s: State, i: nat)
    requires InvInside(s, 1) && i < |s.threads| && s.threads[i].Out? && s.queue != []
    ensures s.nTotal >= 0 && s.nIdle >= 0
    ensures Inv(Decide(nBatchSize, s, i).0)
  {
    var n := BatchSize(nBatchSize, |s.queue|, s.nTotal, s.nIdle);
    var t := Decide(nBatchSize, s, i).0;
    var pc := t.threads[i];
    CountUpdate(s.threads, i, pc);
    assert pc.batch[0..] == pc.batch;
    forall c: Check
      ensures Occ(s.queue, c) + HeldBy(s.threads, c) == Occ(t.queue, c) + HeldBy(t.threads, c)
      ensures Occ(s.queue, c) + UnrunBy(s.threads, c) == Occ(t.queue, c) + UnrunBy(t.threads, c)
    {
      SplitConserves(s.queue, |s.queue| - n, c);
      HeldUpdate(s.threads, i, pc, c);
    }
    if |s.threads| > 1 {
      var j :| 0 < j < |s.threads| && !s.threads[j].Asleep?;
      assert !t.threads[j].Asleep?;
    }
  }

  // ---------- Steps outside the lock ----------

  lemma AddOnlyWakes(s: State, checks: seq<Check>, pick: nat)
    requires Enabled(s, Add(checks, pick))
    ensures WokenOnly(s.threads, DoAdd(s, checks, pick).threads)
    ensures DoAdd(s, checks, pick).threads[0].Out?
    ensures checks != [] && |s.threads| > 1 ==>
              exists j :: 0 < j < |s.threads| && !DoAdd(s, checks, pick).threads[j].Asleep?
  {
    var t := DoAdd(s, checks, pick);
    if checks != [] && |s.threads| > 1 {
      var j := if |checks| > 1 || !(0 < pick < |s.threads|) then 1 else pick;
      assert !t.threads[j].Asleep?;
    }
  }

  lemma AddKeeps(s: State, checks: seq<Check>, pick: nat)
    requires Inv(s) && Enabled(s, Add(checks, pick))
    ensures Inv(DoAdd(s, checks, pick))
  {
    var t := DoAdd(s, checks, pick);
    AddOnlyWakes(s, checks, pick);
    WakingMovesNothing(s.threads, t.threads);
    forall c: Check
      ensures Occ(t.added, c) == Occ(s.added, c) + Occ(checks, c)
      ensures Occ(t.queue, c) == Occ(s.queue, c) + Occ(checks, c)
    {
      OccConcat(s.added, checks, c);
      OccConcat(s.queue, checks, c);
    }
    assert AllOk(t.added) ==> AllOk(s.added);
    forall i | 0 <= i < |t.threads|
      ensures BatchSound(t.threads[i], t.added)
    {
      assert BatchSound(s.threads[i], s.added);
    }
    if checks == [] {
      assert t.queue == s.queue;
      if t.queue != [] && |s.threads| > 1 {
        var j :| 0 < j < |s.threads| && !s.threads[j].Asleep?;
        assert !t.threads[j].Asleep?;
      }
    }
  }

  /** Going through the next check of a batch keeps its verdict sound. */
  lemma RunBatchSound(s: State, i: nat)
    requires Conserved(s) && VerdictsSound(s) && Enabled(s, Run(i))
    ensures BatchSound(DoRun(s, i).threads[i], s.added)
  {
    var pc := s.threads[i];
    assert BatchSound(pc, s.added);
    assert pc.batch[..pc.done + 1] == pc.batch[..pc.done] + [pc.batch[pc.done]];
    var c := pc.batch[pc.done];
    HeldUpdate(s.threads, i, Out, c);
    OccMember(pc.batch, c);
    OccMember(s.added, c);
  }

  lemma RunCounts(s: State, i: nat, c: Check)
    requires Enabled(s, Run(i))
    ensures var t, c0 := DoRun(s, i), s.threads[i].batch[s.threads[i].done];
            && HeldBy(t.threads, c) == HeldBy(s.threads, c)
            && UnrunBy(s.threads, c) == UnrunBy(t.threads, c) + Occ([c0], c)
            && Occ(t.ran, c) == Occ(s.ran, c) + (if s.threads[i].fOk then Occ([c0], c) else 0)
  {
    var t, pc := DoRun(s, i), s.threads[i];
    HeldUpdate(s.threads, i, t.threads[i], c);
    assert pc.batch[pc.done..] == [pc.batch[pc.done]] + pc.batch[pc.done + 1..];
    OccConcat(s.ran, [pc.batch[pc.done]], c);
  }

  lemma RunKeeps(s: State, i: nat)
    requires Inv(s) && Enabled(s, Run(i))
    ensures Inv(DoRun(s, i))
  {
    var t := DoRun(s, i);
    RunBatchSound(s, i);
    CountUpdate(s.threads, i, t.threads[i]);
    forall c: Check { RunCounts(s, i, c); }
    assert BatchSound(s.threads[i], s.added);
    assert VerdictsSound(t) && RanOnce(t);
    if t.queue != [] && |s.threads| > 1 {
      var j :| 0 < j < |s.threads| && !s.threads[j].Asleep?;
      assert !t.threads[j].Asleep?;
    }
  }

  lemma SpuriousKeeps(s: State, i: nat)
    requires Inv(s) && Enabled(s, Spurious(i))
    ensures Inv(s.(threads := s.threads[i := Woken]))
  {
    var t := s.(threads := s.threads[i := Woken]);
    WakingKeeps(s, t, 0);
    if t.queue != [] && |s.threads| > 1 {
      var j :| 0 < j < |s.threads| && !s.threads[j].Asleep?;
      assert !t.threads[j].Asleep?;
    }
  }

  // ---------- Every run ----------

  lemma {:induction false} InitialInv(threadCount: nat)
    requires threadCount > 0
    ensures Inv(Initial(threadCount))
  {
    OutThreads(seq(threadCount, _ => Out));
  }

  lemma {:induction false} OutThreads(threads: seq<Pc>)
    requires forall i :: 0 <= i < |threads| ==> threads[i].Out?
    ensures IdleCount(threads) == InsideCount(threads) == InFlight(threads) == 0
    ensures forall c :: HeldBy(threads, c) == UnrunBy(threads, c) == 0
  {
    if threads != [] {
      OutThreads(threads[1..]);
    }
  }

  /** Every step of every thread keeps the invariant. */
  lemma StepKeepsInv(nBatchSize: nat, s: State, step: Step)
    requires Inv(s) && Enabled(s, step)
    ensures Inv(Next(nBatchSize, s, step).0)
    ensures |Next(nBatchSize, s, step).0.threads| == |s.threads|
  {
    match step {
      case Add(checks, pick) => AddKeeps(s, checks, pick);
      case Run(i) => RunKeeps(s, i);
      case Spurious(i) => SpuriousKeeps(s, i);
      case Lock(i) =>
        var t := Arrive(s, i);
        ArriveKeeps(s, i);
        if t.queue != [] {
          TakeKeeps(nBatchSize, t, i);
        } else if CanReturn(t, i) {
          ReturnKeeps(nBatchSize, t);
        } else {
          SleepKeeps(nBatchSize, t, i);
        }
    }
  }

  /**
    Whenever `Wait` returns, it returns the conjunction of all checks added since the last one
    returned, with nothing left in the queue or in any batch; and a positive verdict means that
    each of those checks was evaluated exactly as often as it was added.
  */
  lemma WaitReturnsConjunction(nBatchSize: nat, s: State, step: Step)
    requires Inv(s) && Enabled(s, step)
    requires Next(nBatchSize, s, step).1.Some?
    ensures step == Lock(0)
    ensures Next(nBatchSize, s, step).1.value <==> AllOk(s.added)
    ensures Next(nBatchSize, s, step).0.queue == [] && InFlight(Next(nBatchSize, s, step).0.threads) == 0
    ensures AllOk(s.added) ==> forall c :: Occ(s.ran, c) == Occ(s.added, c)
  {
    var t := Arrive(s, step.i);
    ArriveKeeps(s, step.i);
    AllCleaned(t, 1);
    forall c: Check
      ensures c in t.added <==> c in t.cleaned
    {
      OccMember(t.added, c);
      OccMember(t.cleaned, c);
    }
  }

  /** A run: each step is enabled where it is taken. */
  ghost predicate IsRun(nBatchSize: nat, s: State, steps: seq<Step>)
    requires Inv(s)
    decreases |steps|
  {
    steps == [] ||
    (Enabled(s, steps[0]) &&
     (StepKeepsInv(nBatchSize, s, steps[0]); IsRun(nBatchSize, Next(nBatchSize, s, steps[0]).0, steps[1..])))
  }

  ghost function After(nBatchSize: nat, s: State, steps: seq<Step>): State
    requires Inv(s) && IsRun(nBatchSize, s, steps)
    decreases |steps|
  {
    if steps == [] then s
    else
      StepKeepsInv(nBatchSize, s, steps[0]);
      After(nBatchSize, Next(nBatchSize, s, steps[0]).0, steps[1..])
  }

  /** No step of the run makes `Wait` return. */
  ghost predicate NoReturn(nBatchSize: nat, s: State, steps: seq<Step>)
    requires Inv(s) && IsRun(nBatchSize, s, steps)
    decreases |steps|
  {
    steps == [] ||
    (Next(nBatchSize, s, steps[0]).1.None? &&
     (StepKeepsInv(nBatchSize, s, steps[0]); NoReturn(nBatchSize, Next(nBatchSize, s, steps[0]).0, steps[1..])))
  }

  function AddedByStep(step: Step): seq<Check> {
    if step.Add? then step.checks else []
  }

  function AddedBy(steps: seq<Step>): seq<Check> {
    if steps == [] then [] else AddedByStep(steps[0]) + AddedBy(steps[1..])
  }

  /** Under every interleaving from the start, the invariant holds. */
  lemma {:induction false} EveryRunKeepsInv(nBatchSize: nat, s: State, steps: seq<Step>)
    requires Inv(s) && IsRun(nBatchSize, s, steps)
    ensures Inv(After(nBatchSize, s, steps)) && |After(nBatchSize, s, steps).threads| == |s.threads|
    decreases |steps|
  {
    if steps != [] {
      StepKeepsInv(nBatchSize, s, steps[0]);
      EveryRunKeepsInv(nBatchSize, Next(nBatchSize, s, steps[0]).0, steps[1..]);
    }
  }

  lemma Associative(a: seq<Check>, b: seq<Check>, c: seq<Check>)
    ensures (a + b) + c == a + (b + c)
  {
  }

  lemma AddedStep(nBatchSize: nat, s: State, step: Step)
    requires Inv(s) && Enabled(s, step) && Next(nBatchSize, s, step).1.None?
    ensures Next(nBatchSize, s, step).0.added == s.added + AddedByStep(step)
  {
    if step.Lock? { ArriveKeeps(s, step.i); }
  }

  lemma {:induction false} AddedAlong(nBatchSize: nat, s: State, steps: seq<Step>)
    requires Inv(s) && IsRun(nBatchSize, s, steps) && NoReturn(nBatchSize, s, steps)
    ensures After(nBatchSize, s, steps).added == s.added + AddedBy(steps)
    decreases |steps|
  {
    if steps != [] {
      var t := Next(nBatchSize, s, steps[0]).0;
      StepKeepsInv(nBatchSize, s, steps[0]);
      AddedStep(nBatchSize, s, steps[0]);
      AddedAlong(nBatchSize, t, steps[1..]);
      Associative(s.added, AddedByStep(steps[0]), AddedBy(steps[1..]));
    }
  }

  /** One round, from the return of a `Wait` to the return of the next. */
  lemma RoundVerdict(nBatchSize: nat, s: State, steps: seq<Step>, last: Step)
    requires Inv(s) && s.added == []
    requires IsRun(nBatchSize, s, steps) && NoReturn(nBatchSize, s, steps)
    requires Inv(After(nBatchSize, s, steps)) && Enabled(After(nBatchSize, s, steps), last)
    requires Next(nBatchSize, After(nBatchSize, s, steps), last).1.Some?
    ensures Next(nBatchSize, After(nBatchSize, s, steps), last).1.value <==> AllOk(AddedBy(steps))
    ensures Next(nBatchSize, After(nBatchSize, s, steps), last).0.added == []
  {
    AddedAlong(nBatchSize, s, steps);
    WaitReturnsConjunction(nBatchSize, After(nBatchSize, s, steps), last);
  }

  // ---------- Progress ----------

  lemma {:induction false} SomeoneWorks(threads: seq<Pc>) returns (i: nat)
    requires InFlight(threads) > 0
    ensures i < |threads| && threads[i].Working?
  {
    if threads[0].Working? {
      i := 0;
    } else {
      var k := SomeoneWorks(threads[1..]);
      i := k + 1;
    }
  }

  /** A master that is blocked and not yet notified waits for a worker that holds a batch. */
  lemma BlockedMasterIsOwed(s: State) returns (worker: nat)
    requires Inv(s) && s.threads[0].Asleep?
    ensures s.queue == [] && s.nTodo > 0
    ensures 0 < worker < |s.threads| && s.threads[worker].Working?
  {
    worker := SomeoneWorks(s.threads);
  }

  /** While the master is inside `Wait`, some thread can move without any spurious wakeup. */
  lemma NoDeadlock(s: State) returns (step: Step)
    requires Inv(s) && !s.threads[0].Out?
    ensures (step.Lock? || step.Run?) && Enabled(s, step)
  {
    var i := 0;
    if s.threads[0].Asleep? {
      i := BlockedMasterIsOwed(s);
    }
    assert BatchSound(s.threads[i], s.added);
    step := if s.threads[i].Working? && s.threads[i].done < |s.threads[i].batch| then Run(i) else Lock(i);
  }

  function Weight(pc: Pc): nat {
    match pc
    case Asleep => 0
    case Working(batch, done, _) => if done <= |batch| then |batch| - done + 2 else 2
    case _ => 1
  }

  function WeightOf(threads: seq<Pc>): nat {
    if threads == [] then 0 else Weight(threads[0]) + WeightOf(threads[1..])
  }

  /** A bound on the steps left before `Wait` returns. */
  function Remaining(s: State): nat {
    3 * |s.queue| + WeightOf(s.threads)
  }

  lemma {:induction false} WeightUpdate(threads: seq<Pc>, i: nat, pc: Pc)
    requires i < |threads|
    ensures WeightOf(threads[i := pc]) == WeightOf(threads) - Weight(threads[i]) + Weight(pc)
  {
    if i == 0 {
      assert threads[i := pc][1..] == threads[1..];
    } else {
      assert threads[i := pc][1..] == threads[1..][i - 1 := pc];
      WeightUpdate(threads[1..], i - 1, pc);
    }
  }

  lemma ArriveWeight(s: State, i: nat)
    requires i < |s.threads| && !s.threads[i].Asleep?
    ensures Arrive(s, i).queue == s.queue && WeightOf(Arrive(s, i).threads) <= WeightOf(s.threads)
  {
    var threads := s.threads[i := Out];
    assert s.threads[i].Out? ==> threads == s.threads;
    WeightUpdate(s.threads, i, Out);
    WeightUpdate(threads, 0, Wake(threads[0]));
  }

  lemma DecideWeight(nBatchSize: nat, s: State, i: nat)
    requires i < |s.threads| && s.threads[i].Out? && s.nTotal >= 0 && s.nIdle >= 0
    requires Decide(nBatchSize, s, i).1.None?
    ensures Remaining(Decide(nBatchSize, s, i).0) < Remaining(s)
  {
    WeightUpdate(s.threads, i, Decide(nBatchSize, s, i).0.threads[i]);
  }

  /** Every step inside `Wait` brings its return closer; a spurious wakeup costs one step. */
  lemma StepMakesProgress(nBatchSize: nat, s: State, step: Step)
    requires Inv(s) && Enabled(s, step) && !step.Add?
    requires Next(nBatchSize, s, step).1.None?
    ensures Remaining(Next(nBatchSize, s, step).0) <= Remaining(s) + (if step.Spurious? then 1 else -1)
  {
    match step {
      case Lock(i) =>
        ArriveKeeps(s, i);
        ArriveWeight(s, i);
        DecideWeight(nBatchSize, Arrive(s, i), i);
      case Run(i) => WeightUpdate(s.threads, i, DoRun(s, i).threads[i]);
      case Spurious(i) => WeightUpdate(s.threads, i, Woken);
    }
  }

  function SpuriousCount(steps: seq<Step>): nat {
    if steps == [] then 0 else (if steps[0].Spurious? then 1 else 0) + SpuriousCount(steps[1..])
  }

  /**
    `Wait` returns in bounded time: once the master has stopped adding, no run goes on for more
    than `Remaining` steps, plus two for each spurious wakeup, without it returning.
  */
  lemma {:induction false} WaitIsBounded(nBatchSize: nat, s: State, steps: seq<Step>)
    requires Inv(s) && IsRun(nBatchSize, s, steps) && NoReturn(nBatchSize, s, steps)
    requires forall k :: 0 <= k < |steps| ==> !steps[k].Add?
    ensures |steps| + Remaining(After(nBatchSize, s, steps)) <= Remaining(s) + 2 * SpuriousCount(steps)
    decreases |steps|
  {
    if steps != [] {
      StepKeepsInv(nBatchSize, s, steps[0]);
      StepMakesProgress(nBatchSize, s, steps[0]);
      WaitIsBounded(nBatchSize, Next(nBatchSize, s, steps[0]).0, steps[1..]);
    }
  }
}
