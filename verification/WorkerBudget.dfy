/** The process-wide worker budget and the pooled call that borrows from it
    (src/digest_executor.rs), as interleaved atomic steps of many threads. */
module WorkerBudget {
  import opened DigestTypes
  import opened DigestExecutor

  /** Where one thread is inside `execute_with_pool`. */
  datatype Call =
    | Idle
      // about to load the counter for `want` workers
    | Requesting(jobs: seq<DigestJob>, want: nat)
      // `observed` was read; the next step is a comparison or an exchange
    | Trying(jobs: seq<DigestJob>, want: nat, observed: nat)
      // the lease is held and the workers are running
    | Working(jobs: seq<DigestJob>, want: nat)
      // the workers are done, the lease is still held
    | Releasing(jobs: seq<DigestJob>, want: nat, result: ExecutionResult, panicked: bool)
    | Returned(jobs: seq<DigestJob>, result: ExecutionResult, panicked: bool)
  {
    function Held(): nat {
      if Working? || Releasing? then want else 0
    }
  }

  datatype System = System(capacity: nat, available: nat, calls: seq<Call>)

  /** One atomic step of thread `t`. A failed exchange may be spurious. */
  datatype Event =
    | Enter(t: nat, jobs: seq<DigestJob>, configured: nat)
    | Load(t: nat)
    | GiveUp(t: nat)
    | ExchangeSucceeds(t: nat)
    | ExchangeFails(t: nat)
    | WorkersReturn(t: nat)
    | WorkersPanic(t: nat)
    | DropLease(t: nat)
    | Leave(t: nat)

  predicate Enabled(s: System, e: Event) {
    && e.t < |s.calls|
    && match e
       case Enter(t, _, _) => s.calls[t].Idle?
       case Load(t) => s.calls[t].Requesting?
       case GiveUp(t) => s.calls[t].Trying? && s.calls[t].observed < s.calls[t].want
       case ExchangeSucceeds(t) =>
         && s.calls[t].Trying? && s.calls[t].observed >= s.calls[t].want
         && s.available == s.calls[t].observed
       case ExchangeFails(t) => s.calls[t].Trying? && s.calls[t].observed >= s.calls[t].want
       case WorkersReturn(t) => s.calls[t].Working?
       case WorkersPanic(t) => s.calls[t].Working?
       case DropLease(t) => s.calls[t].Releasing?
       case Leave(t) => s.calls[t].Returned?
  }

  function SetCall(s: System, t: nat, c: Call): System
    requires t < |s.calls|
  {
    s.(calls := s.calls[t := c])
  }

  /** The counter's subtraction goes below zero nowhere: an exchange succeeds
      only on the counter it read, which was at least `want`. */
  function Next(hash: Hash, s: System, e: Event): System
    requires Enabled(s, e)
  {
    var c := s.calls[e.t];
    match e
    case Enter(t, jobs, configured) =>
      var want := Min(Min(configured, s.capacity), |jobs|);
      // `try_acquire` refuses these without looking at the counter
      if want < 2 || want > s.capacity
      then SetCall(s, t, Returned(jobs, Success(SerialExecute(hash, jobs)), false))
      else SetCall(s, t, Requesting(jobs, want))
    case Load(t) => SetCall(s, t, Trying(c.jobs, c.want, s.available))
    case GiveUp(t) => SetCall(s, t, Returned(c.jobs, Success(SerialExecute(hash, c.jobs)), false))
    case ExchangeSucceeds(t) =>
      SetCall(s.(available := c.observed - c.want), t, Working(c.jobs, c.want))
    case ExchangeFails(t) => SetCall(s, t, Trying(c.jobs, c.want, s.available))
    case WorkersReturn(t) =>
      var results := if |c.jobs| > 0 && c.want > 0 then PooledExecute(hash, c.jobs, c.want) else [];
      SetCall(s, t, Releasing(c.jobs, c.want,
        if |results| == |c.jobs| then Success(results) else Failure(DigestExecutionError), false))
    case WorkersPanic(t) =>
      SetCall(s, t, Releasing(c.jobs, c.want, Failure(DigestExecutionError), true))
    case DropLease(t) =>
      SetCall(s.(available := s.available + c.want), t, Returned(c.jobs, c.result, c.panicked))
    case Leave(t) => SetCall(s, t, Idle)
  }

  /** The debug assertion of the lease's destructor. */
  predicate NoOverRelease(s: System, e: Event)
    requires Enabled(s, e)
  {
    e.DropLease? ==> s.available <= s.capacity - s.calls[e.t].want
  }

  /** The state after a run, `None` if the run takes a step that is not enabled. */
  function Run(hash: Hash, s: System, events: seq<Event>): Option<System>
    decreases |events|
  {
    if |events| == 0 then Some(s)
    else if Enabled(s, events[0]) then Run(hash, Next(hash, s, events[0]), events[1..])
    else None
  }

  function Initial(capacity: nat, threads: nat): System {
    System(capacity, capacity, seq(threads, _ => Idle))
  }

  // ---------- What a step does to calls ----------

  /** A call asks for workers exactly when it was configured for at least two,
      the budget has at least two and there are at least two jobs; it asks for
      as many as all three allow. Otherwise it has the serial results at once. */
  lemma EnteringAsks(hash: Hash, s: System, t: nat, jobs: seq<DigestJob>, configured: nat)
    requires Enabled(s, Enter(t, jobs, configured))
    ensures var c := Next(hash, s, Enter(t, jobs, configured)).calls[t];
      if configured >= 2 && s.capacity >= 2 && |jobs| >= 2 then
        && c.Requesting? && c.jobs == jobs
        && c.want <= configured && c.want <= s.capacity && c.want <= |jobs|
        && (c.want == configured || c.want == s.capacity || c.want == |jobs|)
      else c == Returned(jobs, Success(SerialExecute(hash, jobs)), false)
  {
    hide SerialExecute;
  }

  function JobsOf(c: Call): seq<DigestJob> {
    if c.Idle? then [] else c.jobs
  }

  /** A step touches its own call only, and once entered a call keeps its jobs
      until it leaves. */
  lemma StepsKeepJobs(hash: Hash, s: System, e: Event)
    requires Enabled(s, e)
    ensures var t := Next(hash, s, e);
      && t.capacity == s.capacity && |t.calls| == |s.calls|
      && (forall i :: 0 <= i < |s.calls| && i != e.t ==> t.calls[i] == s.calls[i])
      && (e.Leave? <==> t.calls[e.t].Idle?)
      && (!e.Enter? && !e.Leave? ==> JobsOf(t.calls[e.t]) == JobsOf(s.calls[e.t]))
  {
    hide SerialExecute, PooledExecute;
  }

  // ---------- Conservation ----------

  function TotalHeld(calls: seq<Call>): nat {
    if |calls| == 0 then 0 else calls[0].Held() + TotalHeld(calls[1..])
  }

  lemma {:induction false} TotalHeldUpdate(calls: seq<Call>, t: nat, c: Call)
    requires t < |calls|
    ensures TotalHeld(calls[t := c]) == TotalHeld(calls) - calls[t].Held() + c.Held()
  {
    if t == 0 {
      assert calls[0 := c][1..] == calls[1..];
    } else {
      assert calls[t := c][1..] == calls[1..][t - 1 := c];
      TotalHeldUpdate(calls[1..], t - 1, c);
    }
  }

  lemma {:induction false} OneIsPartOfTotal(calls: seq<Call>, t: nat)
    requires t < |calls|
    ensures calls[t].Held() <= TotalHeld(calls)
  {
    if t > 0 {
      OneIsPartOfTotal(calls[1..], t - 1);
    }
  }

  lemma {:induction false} NothingHeld(calls: seq<Call>)
    ensures TotalHeld(calls) == 0 <==> forall t :: 0 <= t < |calls| ==> calls[t].Held() == 0
  {
    if |calls| > 0 {
      NothingHeld(calls[1..]);
      forall t | 0 <= t < |calls|
        ensures TotalHeld(calls) == 0 ==> calls[t].Held() == 0
      {
        OneIsPartOfTotal(calls, t);
      }
      if forall t :: 0 <= t < |calls| ==> calls[t].Held() == 0 {
        forall t | 0 <= t < |calls[1..]|
          ensures calls[1..][t].Held() == 0
        {
          assert calls[1..][t] == calls[t + 1];
        }
      }
    }
  }

  /** A call's own data: sizes in range, and its result what the serial
      executor returns unless its workers panicked. */
  ghost predicate CallHolds(hash: Hash, capacity: nat, c: Call) {
    && (c.Requesting? || c.Trying? || c.Working? || c.Releasing? ==> 2 <= c.want <= capacity && c.want <= |c.jobs|)
    && (c.Releasing? || c.Returned? ==>
          c.result == if c.panicked then Failure(DigestExecutionError) else Success(SerialExecute(hash, c.jobs)))
  }

  ghost predicate Inv(hash: Hash, s: System) {
    && s.available + TotalHeld(s.calls) == s.capacity
    && forall t :: 0 <= t < |s.calls| ==> CallHolds(hash, s.capacity, s.calls[t])
  }

  lemma InvInitial(hash: Hash, capacity: nat, threads: nat)
    ensures Inv(hash, Initial(capacity, threads))
  {
    NothingHeld(Initial(capacity, threads).calls);
  }

  lemma InvStep(hash: Hash, s: System, e: Event)
    requires Inv(hash, s) && Enabled(s, e)
    ensures Inv(hash, Next(hash, s, e))
    ensures NoOverRelease(s, e)
  {
    hide CallHolds, TotalHeld, PooledExecute, SerialExecute;
    var c' := Next(hash, s, e).calls[e.t];
    OneIsPartOfTotal(s.calls, e.t);
    TotalHeldUpdate(s.calls, e.t, c');
    CallStep(hash, s, e);
  }

  lemma CallStep(hash: Hash, s: System, e: Event)
    requires Enabled(s, e) && CallHolds(hash, s.capacity, s.calls[e.t])
    ensures CallHolds(hash, s.capacity, Next(hash, s, e).calls[e.t])
  {
    var c := s.calls[e.t];
    if e.WorkersReturn? {
      PooledExecuteIsSerial(hash, c.jobs, c.want);
    }
    hide PooledExecute, SerialExecute;
  }

  ghost predicate NeverOverReleases(hash: Hash, s: System, events: seq<Event>)
    decreases |events|
  {
    |events| > 0 && Enabled(s, events[0]) ==>
      NoOverRelease(s, events[0]) && NeverOverReleases(hash, Next(hash, s, events[0]), events[1..])
  }

  lemma {:induction false} InvRun(hash: Hash, s: System, events: seq<Event>)
    requires Inv(hash, s)
    ensures NeverOverReleases(hash, s, events)
    ensures var end := Run(hash, s, events);
      end.Some? ==> Inv(hash, end.value) && end.value.capacity == s.capacity && |end.value.calls| == |s.calls|
    decreases |events|
  {
    if |events| > 0 && Enabled(s, events[0]) {
      InvStep(hash, s, events[0]);
      InvRun(hash, Next(hash, s, events[0]), events[1..]);
    }
  }

  // ---------- What every interleaving guarantees ----------

  /** In every run from a fresh budget, whatever the number of threads: the
      permits available and held add up to the capacity, admitted workers never
      exceed it, and the destructor's assertion never fires. */
  lemma {:induction false} BudgetConserved(hash: Hash, capacity: nat, threads: nat, events: seq<Event>)
    ensures NeverOverReleases(hash, Initial(capacity, threads), events)
    ensures var end := Run(hash, Initial(capacity, threads), events);
      end.Some? ==>
        && end.value.available + TotalHeld(end.value.calls) == capacity
        && TotalHeld(end.value.calls) <= capacity
  {
    InvInitial(hash, capacity, threads);
    InvRun(hash, Initial(capacity, threads), events);
  }

  /** Every call that returns gives the serial result, or the redacted error
      exactly when its workers panicked; it no longer holds permits. */
  lemma {:induction false} ReturnedCallsAreSerial(hash: Hash, capacity: nat, threads: nat, events: seq<Event>, t: nat)
    requires var end := Run(hash, Initial(capacity, threads), events);
      end.Some? && t < |end.value.calls| && end.value.calls[t].Returned?
    ensures var c := Run(hash, Initial(capacity, threads), events).value.calls[t];
      && c.Held() == 0
      && c.result == if c.panicked then Failure(DigestExecutionError) else Success(SerialExecute(hash, c.jobs))
  {
    InvInitial(hash, capacity, threads);
    InvRun(hash, Initial(capacity, threads), events);
    var end := Run(hash, Initial(capacity, threads), events).value;
    assert CallHolds(hash, end.capacity, end.calls[t]);
  }

  /** Once no call holds a lease the whole budget is back, and only then. */
  lemma {:induction false} BudgetRestored(hash: Hash, capacity: nat, threads: nat, events: seq<Event>)
    requires Run(hash, Initial(capacity, threads), events).Some?
    ensures var end := Run(hash, Initial(capacity, threads), events).value;
      end.available == capacity <==> forall t :: 0 <= t < |end.calls| ==> end.calls[t].Held() == 0
  {
    BudgetConserved(hash, capacity, threads, events);
    NothingHeld(Run(hash, Initial(capacity, threads), events).value.calls);
  }

  /** Reading a value that makes a call give up means the other calls really
      hold too much at that instant. */
  lemma GivingUpMeansContention(hash: Hash, s: System, e: Event)
    requires Inv(hash, s) && Enabled(s, e) && (e.Load? || e.ExchangeFails?)
    ensures var c := Next(hash, s, e).calls[e.t];
      c.observed < c.want <==> TotalHeld(s.calls) > s.capacity - c.want
  {
    assert CallHolds(hash, s.capacity, s.calls[e.t]);
  }
}
