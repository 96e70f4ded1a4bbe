/**
  The script-check queue of src/checkqueue.h as a step relation. The atomic steps are the
  critical sections of `Loop` and `Add`, and the execution of one check outside the mutex.
  Thread 0 is the master (there is one: it holds m_control_mutex), the others are workers.
  No stop is requested.
 */
module CheckQueue {

  /** A check, and what its operator() returns. */
  datatype Check = Check(name: nat, ok: bool)

  datatype Phase =
    | Outside                  // the master, between two calls of Wait
    | Locking(first: bool)     // about to take the mutex, at the top of the do loop
    | Waiting(notified: bool)  // in cond.wait
    | Working                  // executing its batch, the mutex released
    | Returned(result: bool, checks: multiset<Check>, executed: multiset<Check>)
                               // the master, back from Wait; what was added and what was run

  /** Local variables of Loop: vChecks (nNow is its size until the next cleanup), how many of
      them have been looked at, and fOk. */
  datatype Thread = Thread(phase: Phase, batch: seq<Check>, done: nat, fOk: bool)

  datatype State = State(
    queue: seq<Check>, nIdle: int, nTotal: int, fAllOk: bool, nTodo: int,
    threads: seq<Thread>,
    // history since the last Wait returned
    added: multiset<Check>, finished: multiset<Check>, executed: multiset<Check>)

  // ---------- The pieces of Loop ----------

  /** The most that is within the limit and leaves as much for each of the others, but at least one. */
  ghost predicate IsShare(n: nat, limit: nat, size: nat, divisor: int) {
    n >= 1 && (n == 1 || (n <= limit && n * divisor <= size)) && (n + 1 > limit || (n + 1) * divisor > size)
  }

  lemma ShareIs(limit: nat, size: nat, divisor: int)
    requires 0 < divisor
    ensures var q := size / divisor;
            var m := if limit < q then limit else q;
            q >= 0 && IsShare(if m < 1 then 1 else m, limit, size, divisor)
  {
    var q := size / divisor;
    assert q * divisor <= size < (q + 1) * divisor;
    if limit < q {
      AtMost(limit, q, divisor);
    }
  }

  lemma AtMost(a: nat, b: nat, d: nat)
    requires a <= b
    ensures a * d <= b * d
  {
  }

  /** src/checkqueue.h:114-116, on a non-empty queue. The divisor is positive in every state
      that can be reached (DecideInv). */
  function BatchSize(limit: nat, size: nat, divisor: int): (n: nat)
    requires 0 < size
    ensures 1 <= n <= size && (n <= limit || n == 1)
    ensures divisor > 0 ==> IsShare(n, limit, size, divisor)
  {
    if divisor <= 0 then 1
    else
      DivAtMost(size, divisor);
      ShareIs(limit, size, divisor);
      var m := if limit < size / divisor then limit else size / divisor;
      if m < 1 then 1 else m
  }

  lemma DivAtMost(a: nat, b: int)
    requires 0 < b
    ensures 0 <= a / b <= a
  {
    var q := a / b;
    assert a == b * q + a % b;
    assert 0 <= q by { if q < 0 { MulMonotone(b, q, -1); } }
    MulMonotone(q, 1, b);
  }

  lemma MulMonotone(a: int, x: int, y: int)
    requires 0 <= a && x <= y
    ensures a * x <= a * y
  {
  }

  function Reverse<T>(s: seq<T>): (r: seq<T>)
    ensures |r| == |s| && multiset(r) == multiset(s)
  {
    if s == [] then []
    else
      assert s == [s[0]] + s[1..];
      Reverse(s[1..]) + [s[0]]
  }

  /** src/checkqueue.h:117-124: swap jobs from the back of the queue to the batch. */
  method TakeBatch(queue: seq<Check>, n: nat) returns (rest: seq<Check>, batch: seq<Check>)
    requires n <= |queue|
    ensures rest == queue[..|queue| - n] && batch == Reverse(queue[|queue| - n..])
  {
    rest, batch := queue, [];
    for i := 0 to n
      invariant rest == queue[..|queue| - i] && batch == Reverse(queue[|queue| - i..])
    {
      ghost var k := |queue| - i;
      batch := batch + [rest[|rest| - 1]];
      rest := rest[..|rest| - 1];
      assert queue[k - 1..][0] == queue[k - 1] && queue[k - 1..][1..] == queue[k..];
    }
  }

  /** src/checkqueue.h:129-133: after the first failure the rest of the batch is skipped. */
  method Execute(batch: seq<Check>, fOkIn: bool) returns (fOk: bool, ghost ran: seq<Check>)
    ensures fOk <==> fOkIn && forall c | c in batch :: c.ok
    ensures ran <= batch && (fOk ==> ran == batch)
  {
    fOk, ran := fOkIn, [];
    for i := 0 to |batch|
      invariant fOk <==> fOkIn && forall c | c in batch[..i] :: c.ok
      invariant ran <= batch[..i] && (fOk ==> ran == batch[..i])
    {
      assert batch[..i + 1] == batch[..i] + [batch[i]];
      if fOk {
        fOk := batch[i].ok;
        ran := ran + [batch[i]];
      }
    }
    assert batch[..|batch|] == batch;
  }

  // ---------- Steps ----------

  datatype Step =
    | Add(checks: seq<Check>, wake: set<nat>)  // the master adds; the workers its notify reaches
    | Enter                                    // the master calls Wait
    | Lock(i: nat)                             // a thread gets the mutex at the top of the loop
    | Wake(i: nat)                             // a waiting thread gets the mutex back
    | Run(i: nat)                              // a thread looks at the next check of its batch
    | Leave                                    // the master's caller has taken the result

  ghost predicate Asleep(s: State, i: nat) {
    i < |s.threads| && s.threads[i].phase == Waiting(false)
  }

  /** The waiting workers that m_worker_cv.notify_one or notify_all reaches (src/checkqueue.h:176-180). */
  ghost predicate Reaches(s: State, n: nat, wake: set<nat>) {
    && (forall i | i in wake :: 0 < i && Asleep(s, i))
    && (n == 0 ==> wake == {})
    && (n == 1 ==> |wake| <= 1 && (wake == {} ==> forall i: nat | 0 < i :: !Asleep(s, i)))
    && (n > 1 ==> forall i: nat | 0 < i && Asleep(s, i) :: i in wake)
  }

  ghost predicate Enabled(s: State, step: Step) {
    match step
    case Add(checks, wake) => 0 < |s.threads| && s.threads[0].phase.Outside? && Reaches(s, |checks|, wake)
    case Enter => 0 < |s.threads| && s.threads[0].phase.Outside?
    case Lock(i) => i < |s.threads| && s.threads[i].phase.Locking?
    case Wake(i) => i < |s.threads| && s.threads[i].phase.Waiting?  // notified or spurious
    case Run(i) => i < |s.threads| && s.threads[i].phase.Working? && s.threads[i].done < |s.threads[i].batch|
    case Leave => 0 < |s.threads| && s.threads[0].phase.Returned?
  }

  ghost function Notified(ts: seq<Thread>, who: set<nat>): (r: seq<Thread>)
    ensures |r| == |ts|
    ensures forall i | 0 <= i < |ts| ::
              r[i] == if i in who && ts[i].phase.Waiting? then ts[i].(phase := Waiting(true)) else ts[i]
  {
    seq(|ts|, i requires 0 <= i < |ts| =>
      if i in who && ts[i].phase.Waiting? then ts[i].(phase := Waiting(true)) else ts[i])
  }

  /** src/checkqueue.h:76-87: account for the batch of the previous round. */
  ghost function Cleanup(s: State, i: nat): State
    requires i < |s.threads| && s.threads[i].phase.Locking?
  {
    var t := s.threads[i];
    if t.phase.first then s.(nTotal := s.nTotal + 1)
    else
      var s1 := s.(fAllOk := s.fAllOk && t.fOk, nTodo := s.nTodo - |t.batch|,
                   finished := s.finished + multiset(t.batch),
                   threads := s.threads[i := t.(phase := Locking(true), batch := [], done := 0)]);
      if s1.nTodo == 0 && i != 0 then s1.(threads := Notified(s1.threads, {0})) else s1
  }

  /** src/checkqueue.h:100: back from cond.wait, with the mutex. */
  ghost function Woken(s: State, i: nat): State
    requires i < |s.threads|
  {
    s.(nIdle := s.nIdle - 1, threads := s.threads[i := s.threads[i].(phase := Locking(true))])
  }

  /** src/checkqueue.h:89-126: return, wait, or take a batch. */
  ghost function Decide(limit: nat, s: State, i: nat): State
    requires i < |s.threads|
  {
    var t := s.threads[i];
    if s.queue == [] then
      if i == 0 && s.nTodo == 0 then
        s.(nTotal := s.nTotal - 1, fAllOk := true,
           threads := s.threads[i := t.(phase := Returned(s.fAllOk, s.added, s.executed))],
           added := multiset{}, finished := multiset{}, executed := multiset{})
      else
        s.(nIdle := s.nIdle + 1, threads := s.threads[i := t.(phase := Waiting(false))])
    else
      var n := BatchSize(limit, |s.queue|, s.nTotal + s.nIdle + 1);
      s.(queue := s.queue[..|s.queue| - n],
         threads := s.threads[i := Thread(Working, Reverse(s.queue[|s.queue| - n..]), 0, s.fAllOk)])
  }

  ghost function Apply(limit: nat, s: State, step: Step): State
    requires Enabled(s, step)
  {
    match step
    case Add(checks, wake) =>
      s.(queue := s.queue + checks, nTodo := s.nTodo + |checks|,
         added := s.added + multiset(checks), threads := Notified(s.threads, wake))
    case Enter =>
      s.(threads := s.threads[0 := Thread(Locking(true), [], 0, true)])
    case Lock(i) => Decide(limit, Cleanup(s, i), i)
    case Wake(i) => Decide(limit, Woken(s, i), i)
    case Run(i) =>
      var t := s.threads[i];
      var c := t.batch[t.done];
      var t' := t.(done := t.done + 1, fOk := t.fOk && c.ok,
                   phase := if t.done + 1 == |t.batch| then Locking(false) else Working);
      s.(threads := s.threads[i := t'], executed := if t.fOk then s.executed + multiset{c} else s.executed)
    case Leave =>
      s.(threads := s.threads[0 := s.threads[0].(phase := Outside)])
  }

  // ---------- The invariant ----------

  ghost function InFlight(ts: seq<Thread>): multiset<Check> {
    if ts == [] then multiset{} else multiset(ts[0].batch) + InFlight(ts[1..])
  }

  /** Checks of unfinished batches that a thread has passed. */
  ghost function Passed(ts: seq<Thread>): multiset<Check>
    requires forall i | 0 <= i < |ts| :: ts[i].done <= |ts[i].batch|
  {
    if ts == [] then multiset{} else multiset(ts[0].batch[..ts[0].done]) + Passed(ts[1..])
  }

  ghost function Idle(ts: seq<Thread>): nat {
    if ts == [] then 0 else (if ts[0].phase.Waiting? then 1 else 0) + Idle(ts[1..])
  }

  ghost predicate InLoop(t: Thread) {
    t.phase.Waiting? || t.phase.Working? || t.phase == Locking(false)
  }

  ghost function Total(ts: seq<Thread>): nat {
    if ts == [] then 0 else (if InLoop(ts[0]) then 1 else 0) + Total(ts[1..])
  }

  ghost predicate AllOk(m: multiset<Check>) {
    forall c | c in m :: c.ok
  }

  ghost predicate ThreadOk(i: nat, t: Thread) {
    && t.done <= |t.batch|
    && (t.phase.Outside? || t.phase.Returned? ==> i == 0)
    && (t.phase.Working? ==> t.done < |t.batch|)
    && (t.phase == Locking(false) ==> t.batch != [] && t.done == |t.batch|)
    && (!t.phase.Working? && t.phase != Locking(false) ==> t.batch == [])
    && (t.fOk ==> forall k | 0 <= k < t.done :: t.batch[k].ok)
  }

  ghost predicate ThreadsOk(ts: seq<Thread>) {
    0 < |ts| && forall i: nat | i < |ts| :: ThreadOk(i, ts[i])
  }

  /** The master's wait and result. */
  ghost predicate MasterOk(s: State)
    requires 0 < |s.threads|
  {
    match s.threads[0].phase
    case Waiting(notified) => s.queue == [] && (!notified ==> 0 < s.nTodo)
    case Returned(r, checks, ran) =>
      s.queue == [] && s.nTodo == 0 && s.added == multiset{} && (r <==> AllOk(checks)) && (r ==> ran == checks)
    case _ => true
  }

  /** The counters are exact. */
  ghost predicate Counted(s: State) {
    && s.nIdle == Idle(s.threads)
    && s.nTotal == Total(s.threads)
    && s.nTodo == |s.queue| + |InFlight(s.threads)|
  }

  /** No check is lost or doubled. */
  ghost predicate Conserved(s: State) {
    s.added == s.finished + multiset(s.queue) + InFlight(s.threads)
  }

  /** While all added checks are good, nothing is skipped. */
  ghost predicate Diligent(s: State)
    requires ThreadsOk(s.threads)
  {
    AllOk(s.added) ==>
      && s.fAllOk
      && (forall i | 0 <= i < |s.threads| :: s.threads[i].batch != [] ==> s.threads[i].fOk)
      && s.executed == s.finished + Passed(s.threads)
  }

  ghost predicate Inv(s: State) {
    && ThreadsOk(s.threads)
    && Counted(s)
    && Conserved(s)
    && (s.fAllOk ==> AllOk(s.finished))
    && Diligent(s)
    && MasterOk(s)
  }

  // ---------- Replacing one thread ----------

  lemma Shuffle<T>(a: multiset<T>, x: multiset<T>, b: multiset<T>, y: multiset<T>, c: multiset<T>)
    requires x + b == y + c
    ensures (a + x) + b == (a + y) + c
  {
    assert (a + x) + b == a + (x + b);
    assert (a + y) + c == a + (y + c);
  }

  lemma Swap3<T>(a: multiset<T>, b: multiset<T>, c: multiset<T>)
    ensures (a + b) + c == (c + b) + a
  {
  }

  lemma Cancel<T>(a: multiset<T>, b: multiset<T>, c: multiset<T>)
    requires a + c == b + c
    ensures a == b
  {
    assert a == (a + c) - c && b == (b + c) - c;
  }

  lemma {:induction false} ReplaceCounts(ts: seq<Thread>, i: nat, t: Thread)
    requires i < |ts|
    ensures Idle(ts[i := t]) + (if ts[i].phase.Waiting? then 1 else 0) == Idle(ts) + (if t.phase.Waiting? then 1 else 0)
    ensures Total(ts[i := t]) + (if InLoop(ts[i]) then 1 else 0) == Total(ts) + (if InLoop(t) then 1 else 0)
  {
    var us := ts[i := t];
    if i == 0 {
      assert us[1..] == ts[1..];
    } else {
      ReplaceCounts(ts[1..], i - 1, t);
      assert us[1..] == ts[1..][i - 1 := t];
    }
  }

  lemma {:induction false} ReplaceInFlight(ts: seq<Thread>, i: nat, t: Thread)
    requires i < |ts|
    ensures InFlight(ts[i := t]) + multiset(ts[i].batch) == InFlight(ts) + multiset(t.batch)
  {
    var us := ts[i := t];
    var x := multiset(ts[0].batch);
    if i == 0 {
      assert us[1..] == ts[1..];
      Swap3(multiset(t.batch), InFlight(ts[1..]), x);
    } else {
      ReplaceInFlight(ts[1..], i - 1, t);
      assert us[1..] == ts[1..][i - 1 := t];
      Shuffle(x, InFlight(us[1..]), multiset(ts[i].batch), InFlight(ts[1..]), multiset(t.batch));
    }
  }

  lemma Replace(ts: seq<Thread>, i: nat, t: Thread)
    requires i < |ts|
    ensures InFlight(ts[i := t]) + multiset(ts[i].batch) == InFlight(ts) + multiset(t.batch)
    ensures |InFlight(ts[i := t])| + |ts[i].batch| == |InFlight(ts)| + |t.batch|
    ensures t.batch == ts[i].batch ==> InFlight(ts[i := t]) == InFlight(ts)
    ensures Idle(ts[i := t]) + (if ts[i].phase.Waiting? then 1 else 0) == Idle(ts) + (if t.phase.Waiting? then 1 else 0)
    ensures Total(ts[i := t]) + (if InLoop(ts[i]) then 1 else 0) == Total(ts) + (if InLoop(t) then 1 else 0)
  {
    hide InFlight, Idle, Total, InLoop;
    ReplaceCounts(ts, i, t);
    ReplaceInFlight(ts, i, t);
    assert |InFlight(ts[i := t]) + multiset(ts[i].batch)| == |InFlight(ts) + multiset(t.batch)|;
    if t.batch == ts[i].batch {
      Cancel(InFlight(ts[i := t]), InFlight(ts), multiset(t.batch));
    }
  }

  lemma {:induction false} ReplacePassed(ts: seq<Thread>, i: nat, t: Thread)
    requires i < |ts| && t.done <= |t.batch| && forall k | 0 <= k < |ts| :: ts[k].done <= |ts[k].batch|
    ensures Passed(ts[i := t]) + multiset(ts[i].batch[..ts[i].done]) == Passed(ts) + multiset(t.batch[..t.done])
    ensures t.batch[..t.done] == ts[i].batch[..ts[i].done] ==> Passed(ts[i := t]) == Passed(ts)
  {
    var us := ts[i := t];
    var x := multiset(ts[0].batch[..ts[0].done]);
    if i == 0 {
      assert us[1..] == ts[1..];
      Swap3(multiset(t.batch[..t.done]), Passed(ts[1..]), x);
    } else {
      ReplacePassed(ts[1..], i - 1, t);
      assert us[1..] == ts[1..][i - 1 := t];
      Shuffle(x, Passed(us[1..]), multiset(ts[i].batch[..ts[i].done]), Passed(ts[1..]), multiset(t.batch[..t.done]));
    }
    if t.batch[..t.done] == ts[i].batch[..ts[i].done] {
      Cancel(Passed(us), Passed(ts), multiset(t.batch[..t.done]));
    }
  }

  /** Notifying changes no count and no batch. */
  lemma {:induction false} NotifiedKeeps(ts: seq<Thread>, us: seq<Thread>)
    requires |us| == |ts|
    requires forall i | 0 <= i < |ts| ::
               us[i] == ts[i] || (ts[i].phase.Waiting? && us[i] == ts[i].(phase := Waiting(true)))
    requires forall i | 0 <= i < |ts| :: ts[i].done <= |ts[i].batch|
    ensures InFlight(us) == InFlight(ts) && Passed(us) == Passed(ts)
    ensures Idle(us) == Idle(ts) && Total(us) == Total(ts)
  {
    if ts != [] {
      NotifiedKeeps(ts[1..], us[1..]);
    }
  }

  lemma {:induction false} BatchInFlight(ts: seq<Thread>, i: nat)
    requires i < |ts|
    ensures multiset(ts[i].batch) <= InFlight(ts)
  {
    if i > 0 {
      BatchInFlight(ts[1..], i - 1);
    }
  }

  // ---------- Every step keeps the invariant ----------

  /** src/checkqueue.h:138-162: the workers enter Loop, the master is elsewhere. */
  ghost predicate Init(s: State) {
    && 0 < |s.threads| && s.threads[0] == Thread(Outside, [], 0, true)
    && (forall i | 0 < i < |s.threads| :: s.threads[i] == Thread(Locking(true), [], 0, true))
    && s == State([], 0, 0, true, 0, s.threads, multiset{}, multiset{}, multiset{})
  }

  lemma {:induction false} NothingInFlight(ts: seq<Thread>)
    requires forall i | 0 <= i < |ts| :: ts[i].batch == [] && ts[i].done == 0 && !InLoop(ts[i])
    ensures InFlight(ts) == multiset{} && Passed(ts) == multiset{} && Idle(ts) == 0 && Total(ts) == 0
  {
    if ts != [] {
      NothingInFlight(ts[1..]);
    }
  }

  lemma InitInv(s: State)
    requires Init(s)
    ensures Inv(s)
  {
    NothingInFlight(s.threads);
  }

  lemma AddInv(limit: nat, s: State, checks: seq<Check>, wake: set<nat>)
    requires Inv(s) && Enabled(s, Add(checks, wake))
    ensures Inv(Apply(limit, s, Add(checks, wake)))
  {
    hide InFlight, Passed, Idle, Total, Reaches;
    var us := Notified(s.threads, wake);
    ThreadsBounded(s.threads);
    NotifiedKeeps(s.threads, us);
    assert multiset(s.queue + checks) == multiset(s.queue) + multiset(checks);
    assert ThreadsOk(us) by { NotifiedOk(s.threads, us); }
    assert forall c | c in s.added :: c in s.added + multiset(checks);
  }

  lemma ThreadsBounded(ts: seq<Thread>)
    requires ThreadsOk(ts)
    ensures forall i | 0 <= i < |ts| :: ts[i].done <= |ts[i].batch|
  {
    forall i | 0 <= i < |ts|
      ensures ts[i].done <= |ts[i].batch|
    {
      assert ThreadOk(i, ts[i]);
    }
  }

  lemma NotifiedOk(ts: seq<Thread>, us: seq<Thread>)
    requires ThreadsOk(ts) && |us| == |ts|
    requires forall i | 0 <= i < |ts| ::
               us[i] == ts[i] || (ts[i].phase.Waiting? && us[i] == ts[i].(phase := Waiting(true)))
    ensures ThreadsOk(us)
  {
    forall i: nat | i < |us|
      ensures ThreadOk(i, us[i])
    {
      assert ThreadOk(i, ts[i]);
    }
  }

  lemma EnterInv(limit: nat, s: State)
    requires Inv(s) && Enabled(s, Enter)
    ensures Inv(Apply(limit, s, Enter))
  {
    hide InFlight, Passed, Idle, Total;
    var t := Thread(Locking(true), [], 0, true);
    ThreadsBounded(s.threads);
    assert ThreadOk(0, s.threads[0]);
    Replace(s.threads, 0, t);
    ReplacePassed(s.threads, 0, t);
  }

  lemma LeaveInv(limit: nat, s: State)
    requires Inv(s) && Enabled(s, Leave)
    ensures Inv(Apply(limit, s, Leave))
  {
    hide InFlight, Passed, Idle, Total;
    var t := s.threads[0].(phase := Outside);
    ThreadsBounded(s.threads);
    assert ThreadOk(0, s.threads[0]);
    Replace(s.threads, 0, t);
    ReplacePassed(s.threads, 0, t);
  }

  lemma OkOf(m: multiset<Check>, c: Check)
    requires c in m
    ensures AllOk(m) ==> c.ok
  {
  }

  lemma RunThread(i: nat, t: Thread, t': Thread)
    requires ThreadOk(i, t) && t.phase.Working?
    requires t' == t.(done := t.done + 1, fOk := t.fOk && t.batch[t.done].ok,
                      phase := if t.done + 1 == |t.batch| then Locking(false) else Working)
    ensures ThreadOk(i, t')
  {
  }

  lemma RunPasses(ts: seq<Thread>, i: nat, t: Thread)
    requires i < |ts| && forall k | 0 <= k < |ts| :: ts[k].done <= |ts[k].batch|
    requires ts[i].done < |ts[i].batch| && t.batch == ts[i].batch && t.done == ts[i].done + 1
    ensures Passed(ts[i := t]) == Passed(ts) + multiset{ts[i].batch[ts[i].done]}
  {
    hide Passed;
    ReplacePassed(ts, i, t);
    var p, c := ts[i].batch[..ts[i].done], ts[i].batch[ts[i].done];
    assert t.batch[..t.done] == p + [c];
    assert Passed(ts[i := t]) + multiset(p) == (Passed(ts) + multiset{c}) + multiset(p);
    Cancel(Passed(ts[i := t]), Passed(ts) + multiset{c}, multiset(p));
  }

  lemma RunInv(limit: nat, s: State, i: nat)
    requires Inv(s) && Enabled(s, Run(i))
    ensures Inv(Apply(limit, s, Run(i)))
  {
    hide InFlight, Passed, Idle, Total, AllOk;
    var s' := Apply(limit, s, Run(i));
    var t, t' := s.threads[i], s'.threads[i];
    var c := t.batch[t.done];
    ThreadsBounded(s.threads);
    RunThread(i, t, t');
    Replace(s.threads, i, t');
    RunPasses(s.threads, i, t');
    BatchInFlight(s.threads, i);
    assert c in multiset(t.batch);
    OkOf(s.added, c);
    assert ThreadsOk(s'.threads);
    assert MasterOk(s');
    assert Diligent(s');
  }

  // ---------- The critical section of Loop ----------

  /** Thread i holds the mutex at the head of the inner loop: it counts as one of nTotal, and
      its last batch has been accounted for. */
  ghost predicate Ready(s: State, i: nat) {
    && i < |s.threads| && s.threads[i].phase == Locking(true)
    && ThreadsOk(s.threads)
    && s.nIdle == Idle(s.threads)
    && s.nTotal == Total(s.threads) + 1
    && s.nTodo == |s.queue| + |InFlight(s.threads)|
    && Conserved(s)
    && (s.fAllOk ==> AllOk(s.finished))
    && Diligent(s)
    && MasterOk(s)
  }

  lemma WokenReady(s: State, i: nat)
    requires Inv(s) && i < |s.threads| && s.threads[i].phase.Waiting?
    ensures Ready(Woken(s, i), i)
  {
    hide InFlight, Passed, Idle, Total, AllOk;
    var t := s.threads[i].(phase := Locking(true));
    ThreadsBounded(s.threads);
    assert ThreadOk(i, s.threads[i]) && ThreadOk(i, t);
    Replace(s.threads, i, t);
    ReplacePassed(s.threads, i, t);
    assert ThreadsOk(Woken(s, i).threads);
    assert Diligent(Woken(s, i));
  }

  /** The state after the cleanup, before a possible notification. */
  ghost function Settled(s: State, i: nat): State
    requires i < |s.threads|
  {
    var t := s.threads[i];
    s.(fAllOk := s.fAllOk && t.fOk, nTodo := s.nTodo - |t.batch|,
       finished := s.finished + multiset(t.batch),
       threads := s.threads[i := t.(phase := Locking(true), batch := [], done := 0)])
  }

  lemma FinishedOk(i: nat, t: Thread, m: multiset<Check>)
    requires ThreadOk(i, t) && t.phase == Locking(false) && t.fOk && AllOk(m)
    ensures AllOk(m + multiset(t.batch))
  {
    forall c | c in m + multiset(t.batch)
      ensures c.ok
    {
      if c !in m {
        assert c in t.batch;
      }
    }
  }

  lemma SettledThreads(ts: seq<Thread>, i: nat, t: Thread)
    requires ThreadsOk(ts) && i < |ts| && ThreadOk(i, t)
    ensures ThreadsOk(ts[i := t])
  {
    var us := ts[i := t];
    forall k: nat | k < |us|
      ensures ThreadOk(k, us[k])
    {
      assert ThreadOk(k, ts[k]);
    }
  }

  lemma SettledSums(s: State, i: nat)
    requires Inv(s) && i < |s.threads| && s.threads[i].phase == Locking(false)
    ensures ThreadsOk(Settled(s, i).threads)
    ensures var ts, b := s.threads, s.threads[i].batch;
            var us := Settled(s, i).threads;
            && InFlight(us) + multiset(b) == InFlight(ts)
            && |InFlight(us)| + |b| == |InFlight(ts)|
            && (forall k | 0 <= k < |ts| :: ts[k].done <= |ts[k].batch|)
            && Passed(us) + multiset(b) == Passed(ts)
            && Idle(us) == Idle(ts) && Total(us) + 1 == Total(ts)
  {
    hide InFlight, Passed, Idle, Total, AllOk, Conserved, Diligent, MasterOk, Counted;
    var t := s.threads[i].(phase := Locking(true), batch := [], done := 0);
    ThreadsBounded(s.threads);
    assert ThreadOk(i, s.threads[i]) && ThreadOk(i, t);
    SettledThreads(s.threads, i, t);
    Replace(s.threads, i, t);
    ReplacePassed(s.threads, i, t);
    assert s.threads[i].batch[..s.threads[i].done] == s.threads[i].batch;
  }

  lemma SettledReady(s: State, i: nat)
    requires Inv(s) && i < |s.threads| && s.threads[i].phase == Locking(false)
    ensures var s1 := Settled(s, i);
            && ThreadsOk(s1.threads) && s1.nIdle == Idle(s1.threads) && s1.nTotal == Total(s1.threads) + 1
            && s1.nTodo == |s1.queue| + |InFlight(s1.threads)| && Conserved(s1)
            && (s1.fAllOk ==> AllOk(s1.finished)) && Diligent(s1)
  {
    hide InFlight, Passed, Idle, Total, AllOk, ThreadOk;
    var s1 := Settled(s, i);
    var b := s.threads[i].batch;
    SettledSums(s, i);
    assert ThreadOk(i, s.threads[i]);
    if s1.fAllOk {
      FinishedOk(i, s.threads[i], s.finished);
    }
    assert s1.finished + multiset(s1.queue) + InFlight(s1.threads)
        == s.finished + multiset(s.queue) + (InFlight(s1.threads) + multiset(b));
    assert s.finished + Passed(s.threads) == s.finished + multiset(b) + Passed(s1.threads);
    NonEmptyBatch(i, s.threads[i]);
    assert Diligent(s1);
  }

  lemma NonEmptyBatch(i: nat, t: Thread)
    requires ThreadOk(i, t) && t.phase == Locking(false)
    ensures t.batch != []
  {
  }

  lemma CleanupReady(s: State, i: nat)
    requires Inv(s) && i < |s.threads| && s.threads[i].phase.Locking?
    ensures Ready(Cleanup(s, i), i)
    ensures i != 0 && !s.threads[i].phase.first && Cleanup(s, i).nTodo == 0 && s.threads[0].phase.Waiting? ==>
              Cleanup(s, i).threads[0].phase == Waiting(true)
  {
    hide InFlight, Passed, Idle, Total, AllOk, ThreadsOk, Conserved, Diligent;
    if !s.threads[i].phase.first {
      SettledReady(s, i);
      if Settled(s, i).nTodo == 0 && i != 0 {
        NotifyKeeps(Settled(s, i));
      }
    } else {
      FirstReady(s, i);
    }
  }

  lemma FirstReady(s: State, i: nat)
    requires Inv(s) && i < |s.threads| && s.threads[i].phase == Locking(true)
    ensures Ready(s.(nTotal := s.nTotal + 1), i)
  {
    hide InFlight, Passed, Idle, Total, AllOk;
  }

  lemma NotifyKeeps(s: State)
    requires ThreadsOk(s.threads) && Diligent(s)
    ensures var us := Notified(s.threads, {0});
            && ThreadsOk(us) && Diligent(s.(threads := us))
            && InFlight(us) == InFlight(s.threads) && Idle(us) == Idle(s.threads) && Total(us) == Total(s.threads)
            && (Conserved(s) ==> Conserved(s.(threads := us)))
  {
    hide InFlight, Passed, Idle, Total, AllOk;
    var us := Notified(s.threads, {0});
    ThreadsBounded(s.threads);
    NotifiedKeeps(s.threads, us);
    NotifiedOk(s.threads, us);
  }

  // ---------- Return, wait or take a batch ----------

  lemma NoneInFlight(s: State)
    requires s.queue == [] && s.nTodo == 0 && s.nTodo == |s.queue| + |InFlight(s.threads)|
    ensures InFlight(s.threads) == multiset{}
  {
  }

  lemma {:induction false} PassedWithin(ts: seq<Thread>)
    requires forall i | 0 <= i < |ts| :: ts[i].done <= |ts[i].batch|
    ensures Passed(ts) <= InFlight(ts)
  {
    if ts != [] {
      PassedWithin(ts[1..]);
      var b := ts[0].batch;
      assert b == b[..ts[0].done] + b[ts[0].done..];
    }
  }

  lemma ReturnInv(limit: nat, s: State)
    requires Ready(s, 0) && s.queue == [] && s.nTodo == 0
    ensures Inv(Decide(limit, s, 0))
  {
    hide InFlight, Passed, Idle, Total;
    var t := s.threads[0].(phase := Returned(s.fAllOk, s.added, s.executed));
    ThreadsBounded(s.threads);
    assert ThreadOk(0, s.threads[0]) && ThreadOk(0, t);
    SettledThreads(s.threads, 0, t);
    Replace(s.threads, 0, t);
    ReplacePassed(s.threads, 0, t);
    NoneInFlight(s);
    PassedWithin(s.threads);
    assert s.added == s.finished;
    assert s.finished + Passed(s.threads) == s.finished;
    NoBatches(s.threads);
  }

  lemma {:induction false} NoBatches(ts: seq<Thread>)
    requires InFlight(ts) == multiset{}
    ensures forall i | 0 <= i < |ts| :: ts[i].batch == []
  {
    forall i | 0 <= i < |ts|
      ensures ts[i].batch == []
    {
      BatchInFlight(ts, i);
      assert multiset(ts[i].batch) == multiset{};
      assert |multiset(ts[i].batch)| == |ts[i].batch|;
    }
  }

  lemma SleepInv(limit: nat, s: State, i: nat)
    requires Ready(s, i) && s.queue == [] && !(i == 0 && s.nTodo == 0)
    ensures Inv(Decide(limit, s, i))
  {
    hide InFlight, Passed, Idle, Total, AllOk;
    var t := s.threads[i].(phase := Waiting(false));
    ThreadsBounded(s.threads);
    assert ThreadOk(i, s.threads[i]) && ThreadOk(i, t);
    SettledThreads(s.threads, i, t);
    Replace(s.threads, i, t);
    ReplacePassed(s.threads, i, t);
    assert Diligent(Decide(limit, s, i));
  }

  lemma TakeInv(limit: nat, s: State, i: nat)
    requires Ready(s, i) && s.queue != []
    ensures Inv(Decide(limit, s, i))
  {
    hide InFlight, Passed, Idle, Total, AllOk, BatchSize, Reverse;
    var s' := Decide(limit, s, i);
    var t, t' := s.threads[i], s'.threads[i];
    ThreadsBounded(s.threads);
    assert ThreadOk(i, t) && ThreadOk(i, t');
    SettledThreads(s.threads, i, t');
    Replace(s.threads, i, t');
    ReplacePassed(s.threads, i, t');
    var k := |s'.queue|;
    assert s.queue == s.queue[..k] + s.queue[k..];
    assert multiset(s.queue) == multiset(s'.queue) + multiset(t'.batch);
    assert InFlight(s'.threads) == InFlight(s.threads) + multiset(t'.batch);
    assert t'.batch[..0] == [] && t.batch[..t.done] == [];
    assert Diligent(s');
  }

  lemma StepInv(limit: nat, s: State, step: Step)
    requires Inv(s) && Enabled(s, step)
    ensures Inv(Apply(limit, s, step))
  {
    hide Inv, Ready, Decide;
    match step {
      case Add(checks, wake) => AddInv(limit, s, checks, wake);
      case Enter => EnterInv(limit, s);
      case Lock(i) =>
        CleanupReady(s, i);
        DecideInv(limit, Cleanup(s, i), i);
      case Wake(i) =>
        WokenReady(s, i);
        DecideInv(limit, Woken(s, i), i);
      case Run(i) => RunInv(limit, s, i);
      case Leave => LeaveInv(limit, s);
    }
  }

  lemma DecideInv(limit: nat, s: State, i: nat)
    requires Ready(s, i)
    ensures i < |s.threads| && 0 < s.nTotal + s.nIdle  // the divisor, less one
    ensures Inv(Decide(limit, s, i))
  {
    hide Decide, Inv, ThreadsOk, Conserved, Diligent, MasterOk, InFlight;
    if s.queue != [] {
      TakeInv(limit, s, i);
    } else if i == 0 && s.nTodo == 0 {
      ReturnInv(limit, s);
    } else {
      SleepInv(limit, s, i);
    }
  }

  // ---------- Whole runs ----------

  ghost predicate Behaviour(limit: nat, states: seq<State>, steps: seq<Step>) {
    && |states| == |steps| + 1
    && Init(states[0])
    && forall k | 0 <= k < |steps| ::
         Enabled(states[k], steps[k]) && states[k + 1] == Apply(limit, states[k], steps[k])
  }

  lemma {:induction false} BehaviourInv(limit: nat, states: seq<State>, steps: seq<Step>, k: nat)
    requires Behaviour(limit, states, steps) && k < |states|
    ensures Inv(states[k])
  {
    hide Inv, Apply, Enabled, Init;
    if k == 0 {
      InitInv(states[0]);
    } else {
      BehaviourInv(limit, states, steps, k - 1);
      StepInv(limit, states[k - 1], steps[k - 1]);
    }
  }

  /** The checks added since the last result was taken. */
  ghost function Submitted(steps: seq<Step>): multiset<Check> {
    if steps == [] then multiset{}
    else
      var last := steps[|steps| - 1];
      if last.Leave? then multiset{}
      else if last.Add? then Submitted(steps[..|steps| - 1]) + multiset(last.checks)
      else Submitted(steps[..|steps| - 1])
  }

  ghost function Tally(s: State): multiset<Check>
    requires 0 < |s.threads|
  {
    match s.threads[0].phase case Returned(_, checks, _) => checks case _ => s.added
  }

  lemma DecideTally(limit: nat, s: State, i: nat)
    requires i < |s.threads| && s.threads[i].phase.Locking?
    ensures 0 < |Decide(limit, s, i).threads| && Tally(Decide(limit, s, i)) == Tally(s)
  {
    hide BatchSize, Reverse;
  }

  lemma CleanupTally(s: State, i: nat)
    requires i < |s.threads| && s.threads[i].phase.Locking?
    ensures 0 < |Cleanup(s, i).threads| && Tally(Cleanup(s, i)) == Tally(s)
    ensures |Cleanup(s, i).threads| == |s.threads| && Cleanup(s, i).threads[i].phase.Locking?
    ensures Cleanup(s, i).queue == s.queue
  {
  }

  lemma TallyStep(limit: nat, s: State, step: Step)
    requires Inv(s) && Enabled(s, step)
    ensures var s' := Apply(limit, s, step);
            && 0 < |s'.threads|
            && Tally(s') == if step.Leave? then multiset{}
                            else if step.Add? then Tally(s) + multiset(step.checks)
                            else Tally(s)
  {
    hide Inv, Apply, Tally;
    if step.Lock? || step.Wake? {
      LoopTally(limit, s, step);
    } else {
      OtherTally(limit, s, step);
    }
  }

  lemma LoopTally(limit: nat, s: State, step: Step)
    requires Enabled(s, step) && (step.Lock? || step.Wake?)
    ensures 0 < |Apply(limit, s, step).threads| && Tally(Apply(limit, s, step)) == Tally(s)
  {
    hide Decide, Cleanup;
    match step {
      case Lock(i) =>
        CleanupTally(s, i);
        DecideTally(limit, Cleanup(s, i), i);
      case Wake(i) =>
        DecideTally(limit, Woken(s, i), i);
    }
  }

  lemma OtherTally(limit: nat, s: State, step: Step)
    requires Inv(s) && Enabled(s, step) && !step.Lock? && !step.Wake?
    ensures var s' := Apply(limit, s, step);
            && 0 < |s'.threads|
            && Tally(s') == if step.Leave? then multiset{}
                            else if step.Add? then Tally(s) + multiset(step.checks)
                            else Tally(s)
  {
    hide ThreadsOk, Counted, AllOk, Conserved, Diligent, Decide, Cleanup;
  }

  lemma {:induction false} TallyIsSubmitted(limit: nat, states: seq<State>, steps: seq<Step>, k: nat)
    requires Behaviour(limit, states, steps) && k < |states|
    ensures 0 < |states[k].threads| && Tally(states[k]) == Submitted(steps[..k])
  {
    hide Inv, Apply, Enabled, Tally;
    if k == 0 {
      InitTally(states[0]);
    } else {
      TallyIsSubmitted(limit, states, steps, k - 1);
      BehaviourInv(limit, states, steps, k - 1);
      TallyStep(limit, states[k - 1], steps[k - 1]);
      assert steps[..k][..k - 1] == steps[..k - 1];
    }
  }

  lemma InitTally(s: State)
    requires Init(s)
    ensures 0 < |s.threads| && Tally(s) == multiset{}
  {
  }

  /** In every interleaving, Wait returns true exactly when every check submitted since the last
      Wait yields true; then each of them has been executed, once; and at that point no check is
      queued or in any thread's batch. */
  lemma WaitIsExact(limit: nat, states: seq<State>, steps: seq<Step>, k: nat)
    requires Behaviour(limit, states, steps) && k < |states|
    requires 0 < |states[k].threads| && states[k].threads[0].phase.Returned?
    ensures var p := states[k].threads[0].phase;
            && (p.result <==> AllOk(Submitted(steps[..k])))
            && (p.result ==> p.executed == Submitted(steps[..k]))
    ensures states[k].queue == [] && forall i | 0 <= i < |states[k].threads| :: states[k].threads[i].batch == []
  {
    hide InFlight, Passed, Idle, Total, AllOk, Conserved, Diligent, Submitted, Behaviour;
    TallyIsSubmitted(limit, states, steps, k);
    BehaviourInv(limit, states, steps, k);
    NoneInFlight(states[k]);
    NoBatches(states[k].threads);
  }

  /** No lost wake-up: when the master sleeps un-notified there is work in a worker's hands. */
  lemma NoLostWakeup(limit: nat, states: seq<State>, steps: seq<Step>, k: nat)
    requires Behaviour(limit, states, steps) && k < |states| && Asleep(states[k], 0)
    ensures states[k].queue == [] && 0 < states[k].nTodo
    ensures exists i :: 0 < i < |states[k].threads| && states[k].threads[i].batch != []
  {
    hide InFlight, Passed, Idle, Total, AllOk, Conserved, Diligent, Behaviour;
    BehaviourInv(limit, states, steps, k);
    var i := SomeBatch(states[k].threads);
    assert ThreadOk(0, states[k].threads[0]);
  }

  lemma {:induction false} SomeBatch(ts: seq<Thread>) returns (i: nat)
    requires 0 < |InFlight(ts)|
    ensures i < |ts| && ts[i].batch != []
  {
    if ts[0].batch != [] {
      i := 0;
    } else {
      assert |InFlight(ts)| == |multiset(ts[0].batch)| + |InFlight(ts[1..])|;
      i := SomeBatch(ts[1..]);
      i := i + 1;
    }
  }

  /** The step that finishes the last check notifies the master. */
  lemma LastStepNotifies(limit: nat, s: State, step: Step)
    requires Inv(s) && Enabled(s, step)
    requires 0 < s.nTodo && Apply(limit, s, step).nTodo == 0 && s.threads[0].phase.Waiting?
    ensures Apply(limit, s, step).threads[0].phase == Waiting(true)
    ensures step.Lock? && step.i != 0
  {
    hide InFlight, Passed, Idle, Total, AllOk, Conserved, Diligent, Inv, BatchSize, Reverse;
    if step.Lock? {
      CleanupReady(s, step.i);
    }
  }

  /** A batch holds between one check and the whole queue. */
  lemma BatchesAreFair(limit: nat, s: State, step: Step)
    requires Enabled(s, step) && (step.Lock? || step.Wake?)
    ensures var s' := Apply(limit, s, step);
            && step.i < |s'.threads|
            && (s'.threads[step.i].phase.Working? ==>
                  && 1 <= |s'.threads[step.i].batch| <= |s.queue|
                  && multiset(s'.queue) + multiset(s'.threads[step.i].batch) == multiset(s.queue)
                  && var others := s'.nTotal + s'.nIdle + 1;
                  (others > 0 ==> IsShare(|s'.threads[step.i].batch|, limit, |s.queue|, others)))
  {
    hide Decide, Cleanup, IsShare;
    match step {
      case Lock(i) =>
        CleanupTally(s, i);
        DecideBatch(limit, Cleanup(s, i), i);
      case Wake(i) =>
        DecideBatch(limit, Woken(s, i), i);
    }
  }

  lemma DecideBatch(limit: nat, s: State, i: nat)
    requires i < |s.threads| && s.threads[i].phase.Locking?
    ensures var s' := Decide(limit, s, i);
            && i < |s'.threads|
            && (s'.threads[i].phase.Working? ==>
                  && 1 <= |s'.threads[i].batch| <= |s.queue|
                  && multiset(s'.queue) + multiset(s'.threads[i].batch) == multiset(s.queue)
                  && var others := s'.nTotal + s'.nIdle + 1;
                  (others > 0 ==> IsShare(|s'.threads[i].batch|, limit, |s.queue|, others)))
  {
    hide BatchSize, Reverse, IsShare;
    if s.queue != [] {
      var n := BatchSize(limit, |s.queue|, s.nTotal + s.nIdle + 1);
      SplitQueue(s.queue, |s.queue| - n);
      var s' := Decide(limit, s, i);
      assert s'.threads[i] == Thread(Working, Reverse(s.queue[|s.queue| - n..]), 0, s.fAllOk);
      assert s'.queue == s.queue[..|s.queue| - n] && s'.nTotal == s.nTotal && s'.nIdle == s.nIdle;
      hide Decide;
    }
  }

  lemma SplitQueue(queue: seq<Check>, k: nat)
    requires k <= |queue|
    ensures multiset(queue[..k]) + multiset(Reverse(queue[k..])) == multiset(queue)
    ensures |Reverse(queue[k..])| == |queue| - k
  {
    hide Reverse;
    assert queue == queue[..k] + queue[k..];
  }

  // ---------- Wait comes back ----------

  /** Checks nobody has looked at yet. */
  ghost function Undone(ts: seq<Thread>): int {
    if ts == [] then 0 else (|ts[0].batch| - ts[0].done) + Undone(ts[1..])
  }

  /** Threads that want the mutex for a reason. */
  ghost predicate Willing(t: Thread) {
    t.phase.Locking? || t.phase == Waiting(true)
  }

  ghost function Waking(ts: seq<Thread>): nat {
    if ts == [] then 0 else (if Willing(ts[0]) then 1 else 0) + Waking(ts[1..])
  }

  ghost function Effort(s: State): int {
    2 * (|s.queue| + Undone(s.threads)) + Waking(s.threads) + (if 0 < s.nTodo then 2 else 0)
  }

  lemma {:induction false} ReplaceEffort(ts: seq<Thread>, i: nat, t: Thread)
    requires i < |ts|
    ensures Undone(ts[i := t]) + (|ts[i].batch| - ts[i].done) == Undone(ts) + (|t.batch| - t.done)
    ensures Waking(ts[i := t]) + (if Willing(ts[i]) then 1 else 0) == Waking(ts) + (if Willing(t) then 1 else 0)
  {
    var us := ts[i := t];
    if i == 0 {
      assert us[1..] == ts[1..];
    } else {
      ReplaceEffort(ts[1..], i - 1, t);
      assert us[1..] == ts[1..][i - 1 := t];
    }
  }

  lemma {:induction false} EffortBounded(ts: seq<Thread>)
    requires forall i | 0 <= i < |ts| :: ts[i].done <= |ts[i].batch|
    ensures 0 <= Undone(ts)
  {
    if ts != [] {
      EffortBounded(ts[1..]);
    }
  }

  /** A step that is neither the master's caller's nor a spurious wake-up. */
  ghost predicate Purposeful(s: State, step: Step)
    requires Enabled(s, step)
  {
    step.Lock? || step.Run? || (step.Wake? && s.threads[step.i].phase.notified)
  }

  lemma DecideEffort(limit: nat, s: State, i: nat)
    requires i < |s.threads| && s.threads[i].phase == Locking(true)
    requires s.threads[i].batch == [] && s.threads[i].done == 0
    ensures Effort(Decide(limit, s, i)) == Effort(s) - 1
  {
    hide BatchSize, Reverse, Undone, Waking;
    ReplaceEffort(s.threads, i, Decide(limit, s, i).threads[i]);
  }

  lemma NotifyEffort(ts: seq<Thread>)
    requires 0 < |ts|
    ensures Undone(Notified(ts, {0})) == Undone(ts) && Waking(ts) <= Waking(Notified(ts, {0})) <= Waking(ts) + 1
  {
    hide Undone, Waking;
    var us := Notified(ts, {0});
    ReplaceEffort(ts, 0, us[0]);
    assert us == ts[0 := us[0]];
  }

  lemma CleanupEffort(s: State, i: nat)
    requires Inv(s) && i < |s.threads| && s.threads[i].phase.Locking?
    ensures var s1 := Cleanup(s, i);
            && Effort(s1) <= Effort(s)
            && i < |s1.threads| && s1.threads[i].phase == Locking(true)
            && s1.threads[i].batch == [] && s1.threads[i].done == 0
  {
    hide Undone, Waking, InFlight, Passed, Idle, Total, AllOk, Conserved, Diligent, MasterOk;
    assert ThreadOk(i, s.threads[i]);
    if !s.threads[i].phase.first {
      var s1 := Settled(s, i);
      ReplaceEffort(s.threads, i, s1.threads[i]);
      NotifyEffort(s1.threads);
      BatchWithin(s, i);
    }
  }

  lemma BatchWithin(s: State, i: nat)
    requires Inv(s) && i < |s.threads|
    ensures |s.threads[i].batch| <= s.nTodo
  {
    hide InFlight, Passed, Idle, Total, AllOk, Conserved, Diligent, MasterOk;
    BatchInFlight(s.threads, i);
    assert InFlight(s.threads) == multiset(s.threads[i].batch) + (InFlight(s.threads) - multiset(s.threads[i].batch));
  }

  /** Every purposeful step lowers the effort, so only finitely many of them can follow one another. */
  lemma EffortDecreases(limit: nat, s: State, step: Step)
    requires Inv(s) && Enabled(s, step) && Purposeful(s, step)
    ensures 0 <= Effort(Apply(limit, s, step)) < Effort(s)
  {
    hide Undone, Waking, InFlight, Passed, Idle, Total, AllOk, Conserved, Diligent, MasterOk, Decide, Cleanup;
    StepInv(limit, s, step);
    var s' := Apply(limit, s, step);
    ThreadsBounded(s'.threads);
    EffortBounded(s'.threads);
    match step {
      case Lock(i) =>
        CleanupEffort(s, i);
        DecideEffort(limit, Cleanup(s, i), i);
      case Wake(i) =>
        assert ThreadOk(i, s.threads[i]);
        ReplaceEffort(s.threads, i, Woken(s, i).threads[i]);
        DecideEffort(limit, Woken(s, i), i);
      case Run(i) =>
        ReplaceEffort(s.threads, i, s'.threads[i]);
    }
  }

  ghost predicate InWait(s: State) {
    0 < |s.threads| && (var p := s.threads[0].phase; p.Locking? || p.Waiting? || p.Working?)
  }

  /** A spurious wake-up costs nothing: the thread goes back to sleep, or does useful work. */
  lemma SpuriousEffort(limit: nat, s: State, i: nat)
    requires Inv(s) && i < |s.threads| && s.threads[i].phase == Waiting(false)
    ensures Effort(Apply(limit, s, Wake(i))) == Effort(s)
  {
    hide Undone, Waking, InFlight, Passed, Idle, Total, AllOk, Conserved, Diligent, MasterOk, Decide;
    assert ThreadOk(i, s.threads[i]);
    ReplaceEffort(s.threads, i, Woken(s, i).threads[i]);
    DecideEffort(limit, Woken(s, i), i);
  }

  /** While the master is in Wait, no step raises the effort. */
  lemma EffortNeverRises(limit: nat, s: State, step: Step)
    requires Inv(s) && Enabled(s, step) && InWait(s)
    ensures 0 <= Effort(Apply(limit, s, step)) <= Effort(s) - (if Purposeful(s, step) then 1 else 0)
  {
    hide Inv, Effort, Apply;
    if Purposeful(s, step) {
      EffortDecreases(limit, s, step);
    } else {
      SpuriousEffort(limit, s, step.i);
      EffortNatural(s);
    }
  }

  lemma EffortNatural(s: State)
    requires Inv(s)
    ensures 0 <= Effort(s)
  {
    hide Undone, Waking, Counted, Conserved, Diligent, MasterOk;
    ThreadsBounded(s.threads);
    EffortBounded(s.threads);
  }

  /** How many of the steps a..b are purposeful. */
  ghost function Purposes(states: seq<State>, steps: seq<Step>, a: nat, b: nat): nat
    requires a <= b <= |steps| <= |states|
    decreases b - a
  {
    if a == b then 0
    else
      var one := if Enabled(states[a], steps[a]) && Purposeful(states[a], steps[a]) then 1 else 0;
      one + Purposes(states, steps, a + 1, b)
  }

  /** However the threads are scheduled and however often they wake up for nothing, a stretch of a
      behaviour in which the master stays in Wait has at most as many purposeful steps as the effort
      at its start. */
  lemma {:induction false} WaitIsBounded(limit: nat, states: seq<State>, steps: seq<Step>, a: nat, b: nat)
    requires Behaviour(limit, states, steps) && a <= b < |states|
    requires forall k | a <= k < b :: InWait(states[k])
    ensures b <= |steps| <= |states|
    ensures Purposes(states, steps, a, b) + Effort(states[b]) <= Effort(states[a]) && 0 <= Effort(states[b])
    decreases b - a
  {
    hide Inv, Effort, Apply, Enabled, InWait;
    BehaviourInv(limit, states, steps, b);
    EffortNatural(states[b]);
    if a < b {
      BehaviourInv(limit, states, steps, a);
      assert InWait(states[a]);
      EffortNeverRises(limit, states[a], steps[a]);
      WaitIsBounded(limit, states, steps, a + 1, b);
    }
  }

  /** And while the master is in Wait, one is always possible: Wait cannot hang. */
  lemma NeverStuck(s: State) returns (step: Step)
    requires Inv(s) && InWait(s)
    ensures Enabled(s, step) && Purposeful(s, step)
  {
    hide InFlight, Passed, Idle, Total, AllOk, Conserved, Diligent;
    var i: nat := 0;
    if s.threads[0].phase == Waiting(false) {
      i := SomeBatch(s.threads);
    }
    assert ThreadOk(i, s.threads[i]);
    step := if s.threads[i].phase.Locking? then Lock(i)
            else if s.threads[i].phase.Working? then Run(i)
            else Wake(i);
  }

  /** Once a failure is known, a batch is taken without being executed: it starts failed, stays failed, and
      none of its checks runs (src/checkqueue.h:125-133). */
  lemma FailureStopsWork(limit: nat, s: State, step: Step)
    requires Enabled(s, step)
    ensures (step.Lock? || step.Wake?) ==>
              var s' := Apply(limit, s, step);
              step.i < |s'.threads| && (s'.threads[step.i].phase.Working? ==> s'.threads[step.i].fOk == s'.fAllOk)
    ensures step.Run? && !s.threads[step.i].fOk ==>
              var s' := Apply(limit, s, step);
              s'.executed == s.executed && !s'.threads[step.i].fOk
  {
    hide Decide, Cleanup;
    match step {
      case Lock(i) =>
        CleanupTally(s, i);
        DecideStarts(limit, Cleanup(s, i), i);
      case Wake(i) =>
        DecideStarts(limit, Woken(s, i), i);
      case _ =>
    }
  }

  lemma DecideStarts(limit: nat, s: State, i: nat)
    requires i < |s.threads| && s.threads[i].phase.Locking?
    ensures var s' := Decide(limit, s, i);
            i < |s'.threads| && (s'.threads[i].phase.Working? ==> s'.threads[i].fOk == s'.fAllOk)
  {
    hide BatchSize, Reverse;
  }
}
