/**
 Progress of the pipeline under a device that always succeeds: as long as a caller
 waits some internal step is enabled, and a weighted count of the remaining stages
 falls with every internal step.
 */
module PipelineLiveness {
  import opened NumberTheory
  import opened Pipeline
  import opened PipelineInvariant
  import opened PipelineSafety
  import opened Rings

  // ---- the measure --------------------------------------------------------------------

  function Waiting(chans: seq<Chan>): nat {
    if chans == [] then 0 else Waiting(chans[..|chans| - 1]) + chans[|chans| - 1].ring.count
  }

  lemma {:induction false} WaitingUpdate(chans: seq<Chan>, b: nat, c: Chan)
    requires b < |chans|
    ensures Waiting(chans[b := c]) + chans[b].ring.count == Waiting(chans) + c.ring.count
  {
    var n := |chans| - 1;
    if b < n {
      WaitingUpdate(chans[..n], b, c);
      assert chans[b := c][..n] == chans[..n][b := c];
    } else {
      assert chans[b := c][..n] == chans[..n];
    }
  }

  function SchedWeight(sched: Sched): nat {
    match sched
    case Idle => 1
    case Selected(_) => 0
    case Holding(list) => 1 + 8 * |list|
  }

  function DispWeight(disp: Disp): nat {
    match disp
    case Check => 1
    case Granted(_) => 0
    case Offloading(list) => 6 * |list|
    case Sent(list) => 2 + 6 * |list|
  }

  /** The remaining stages of all requests, weighted, and the phases of the two threads. */
  function Measure(s: State): nat {
    10 * Waiting(s.chans) + SchedWeight(s.sched) + 7 * s.internal.count + DispWeight(s.disp)
    + 3 * |s.inDevice| + 2 * |s.responding| + |s.ready| + s.table.busy
  }

  lemma AddOne<T>(a: set<T>, x: T)
    ensures |a + {x}| <= |a| + 1
    ensures x in a ==> |a - {x}| + 1 == |a|
  {
    if x in a {
      assert a + {x} == a;
    }
  }

  lemma ReleaseLowersBusy(s: State, t: nat)
    requires Inv(s) && IsReleasing(s, t)
    ensures TableShape(s.table) && s.callers[t].buffer < BUFFER_COUNT
    ensures Released(s.table, s.callers[t].buffer).busy < s.table.busy
  {
    assert TableShape(s.table);
    hide LogInv, SchedInv, SelectedInv, InternalInv, DispInv, CountInv, FlightInv, OutInv, Disjoint, TableInv,
         OwnerInv, ChansInv;
    OwnBuffer(s.table.free, s.chans, s.callers, t);
    ReleaseTable(s.table, s.callers[t].buffer);
  }

  lemma GrantedSome(s: State)
    requires Inv(s) && s.disp.Granted?
    ensures 0 < s.disp.max
  {
    hide TableInv, ChansInv, OwnerInv, LogInv, SchedInv, SelectedInv, InternalInv, CountInv, FlightInv, OutInv,
         Disjoint;
  }

  lemma DrainDecreases(s: State)
    requires Shaped(s) && Enabled(s, Drain)
    ensures Measure(After(s, Drain)) < Measure(s)
  {
    hide Waiting, Front, Window, From;
    WaitingUpdate(s.chans, s.sched.index, After(s, Drain).chans[s.sched.index]);
  }

  lemma CollectDecreases(s: State, t: nat)
    requires Shaped(s) && Enabled(s, Collect(t))
    ensures Measure(After(s, Collect(t))) < Measure(s)
  {
    hide Waiting;
    var b := s.callers[t].buffer;
    WaitingUpdate(s.chans, b, After(s, Collect(t)).chans[b]);
    AddOne(s.ready, s.chans[b].ring.data[s.callers[t].cursor].value);
  }

  lemma FinishDecreases(s: State, t: nat)
    requires Inv(s) && Shaped(s) && Enabled(s, FinishRelease(t))
    ensures Measure(After(s, FinishRelease(t))) < Measure(s)
  {
    hide Inv, Waiting;
    var b := s.callers[t].buffer;
    WaitingUpdate(s.chans, b, After(s, FinishRelease(t)).chans[b]);
    ReleaseLowersBusy(s, t);
  }

  lemma OffloadDecreases(s: State)
    requires Shaped(s) && Enabled(s, Offload)
    ensures Measure(After(s, Offload)) < Measure(s)
  {
    hide Waiting, Shaped;
    AddOne(s.inDevice, s.disp.list[0].value);
  }

  lemma DispatchDecreases(s: State, l: Label)
    requires Shaped(s) && Enabled(s, l) && (l.Throttle? || l.Read? || l.CountOffload?)
    requires s.disp.Granted? ==> s.disp.max > 0
    ensures Measure(After(s, l)) < Measure(s)
  {
    hide Waiting, Shaped, Front, Pending, Available;
  }

  lemma CountDecreases(s: State, r: Req)
    requires Shaped(s) && Enabled(s, CountResponse(r))
    ensures Measure(After(s, CountResponse(r))) < Measure(s)
  {
    hide Waiting, Shaped;
    AddOne(s.inDevice, r);
    AddOne(s.responding, r);
  }

  lemma CallbackDecreases(s: State, r: Req)
    requires Shaped(s) && Enabled(s, Callback(r))
    ensures Measure(After(s, Callback(r))) < Measure(s)
  {
    hide Waiting, Shaped, Work;
    AddOne(s.responding, r);
    AddOne(s.ready, r);
  }

  lemma ScheduleDecreases(s: State, l: Label)
    requires Shaped(s) && Enabled(s, l) && (l.Select? || l.Push?)
    ensures Measure(After(s, l)) < Measure(s)
  {
    hide Waiting, Shaped;
  }

  /** Every internal step brings some request closer to its collection, or a thread closer to moving one. */
  lemma StepDecreases(s: State, l: Label)
    requires Inv(s) && Shaped(s) && Enabled(s, l) && IsInternal(l)
    ensures Measure(After(s, l)) < Measure(s)
  {
    hide Inv, Measure, Shaped, Enabled;
    match l {
      case Select(_) => ScheduleDecreases(s, l);
      case Drain => DrainDecreases(s);
      case Push => ScheduleDecreases(s, l);
      case Offload => OffloadDecreases(s);
      case CountResponse(r) => CountDecreases(s, r);
      case Callback(r) => CallbackDecreases(s, r);
      case Collect(t) => CollectDecreases(s, t);
      case FinishRelease(t) => FinishDecreases(s, t);
      case _ =>
        if s.disp.Granted? {
          GrantedSome(s);
        }
        DispatchDecreases(s, l);
    }
  }

  // ---- progress --------------------------------------------------------------------------

  ghost predicate CanMove(s: State) {
    Shaped(s) && exists l :: IsInternal(l) && Enabled(s, l)
  }

  lemma Moves(s: State, l: Label)
    requires Shaped(s) && IsInternal(l) && Enabled(s, l)
    ensures CanMove(s)
  {
  }

  /** A dispatcher that is not waiting for requests, or has some to read, goes on, or the device answers. */
  lemma DispatcherMoves(s: State)
    requires Inv(s) && Shaped(s) && (s.disp.Granted? ==> s.internal.count > 0)
    ensures CanMove(s)
  {
    hide Inv, CanMove;
    match s.disp {
      case Granted(_) => Moves(s, Read);
      case Offloading(_) =>
        HeadIs(s);
        Moves(s, Offload);
      case Sent(_) => Moves(s, CountOffload);
      case Check =>
        if Available(Pending(s)) >= RESTART_THRESHOLD {
          Moves(s, Throttle);
        } else {
          CheckedPending(s);
          var r := Pick(s.inDevice);
          Moves(s, CountResponse(r));
        }
    }
  }

  /** The throttle holds the dispatcher back only while the device has work. */
  lemma CheckedPending(s: State)
    requires Inv(s) && s.disp.Check?
    ensures Pending(s) == |s.inDevice|
  {
    hide TableInv, ChansInv, OwnerInv, LogInv, SchedInv, SelectedInv, InternalInv, FlightInv, OutInv, Disjoint;
    PendingIsDevice(s);
  }

  /** A scheduler with something selected or in hand goes on, or waits for a dispatcher that does. */
  lemma SchedulerMoves(s: State)
    requires Inv(s) && Shaped(s) && !s.sched.Idle?
    ensures CanMove(s)
  {
    hide TableInv, ChansInv, OwnerInv, LogInv, InternalInv, DispInv, CountInv, FlightInv, OutInv, Disjoint, CanMove;
    if s.sched.Selected? {
      SelectedHas(s.sched, s.table, s.chans);
      Moves(s, Drain);
    } else if s.internal.count + |s.sched.list| <= BUFFER_SIZE {
      Moves(s, Push);
    } else {
      DispatcherMoves(s);
    }
  }

  lemma SelectMoves(s: State, b: nat)
    requires Shaped(s) && s.sched.Idle? && s.table.busy > 0
    requires b < BUFFER_COUNT && s.table.ready[b] && s.chans[b].ring.count > 0
    ensures CanMove(s)
  {
    hide CanMove;
    Moves(s, Select(b));
  }

  /** A buffer with waiting requests is found by the scan, unless the scheduler is busy. */
  lemma WaitingMoves(s: State, b: nat)
    requires Inv(s) && Shaped(s) && b < BUFFER_COUNT && s.chans[b].ring.count > 0
    ensures CanMove(s)
  {
    hide Inv, CanMove;
    if !s.sched.Idle? {
      SchedulerMoves(s);
    } else {
      BusyWithWaiting(s, b);
      SelectMoves(s, b);
    }
  }

  lemma BusyWithWaiting(s: State, b: nat)
    requires Inv(s) && b < BUFFER_COUNT && s.chans[b].ring.count > 0
    ensures s.table.ready[b] && s.table.busy > 0
  {
    hide LogInv, SchedInv, SelectedInv, InternalInv, DispInv, CountInv, FlightInv, OutInv, Disjoint;
    assert ChanInv(s.chans[b], b);
    BusyWhenLive(s.table.free, s.chans, s.callers, b);
    assert b in BusySet(s.table.free);
  }

  /** A request that is not completed can be moved on, or something in front of it can. */
  lemma PlaceMoves(s: State, r: Req, p: Place)
    requires Inv(s) && Shaped(s) && At(s, r, p) && !p.Completed?
    ensures CanMove(s)
  {
    hide Inv, CanMove, Shaped;
    match p {
      case Outstanding(b, _) => WaitingMoves(s, b);
      case Scheduler(_) => SchedulerMoves(s);
      case Internal(_) => DispatcherMoves(s);
      case Dispatcher(_) => DispatcherMoves(s);
      case Accelerator => Moves(s, CountResponse(r));
      case Answered => Moves(s, Callback(r));
    }
  }

  lemma RequestMoves(s: State, r: Req)
    requires Inv(s) && Shaped(s) && Uncollected(s, r) && r !in s.ready
    ensures CanMove(s)
  {
    hide Inv, CanMove, Shaped;
    WhereHolds(s, r);
    PlaceMoves(s, r, WhereIs(s, r));
  }

  /** While a caller waits in its release, some internal step is enabled. */
  lemma ReleaseMoves(s: State, t: nat)
    requires Inv(s) && Shaped(s) && IsReleasing(s, t)
    ensures CanMove(s)
  {
    hide TableInv, ChansInv, OwnerInv, LogInv, SchedInv, SelectedInv, InternalInv, DispInv, CountInv, FlightInv,
         OutInv, Disjoint, CanMove;
    OwnBuffer(s.table.free, s.chans, s.callers, t);
    var k := s.callers[t];
    var c := s.chans[k.buffer];
    if k.done >= |k.jobs| {
      Moves(s, FinishRelease(t));
    } else {
      CollectSlot(c, k);
      var r := c.sub[c.collected];
      if r in s.ready {
        Moves(s, Collect(t));
      } else {
        RequestMoves(s, r);
      }
    }
  }

  // ---- every release returns -----------------------------------------------------------------

  function InternalSteps(ls: seq<Label>): nat {
    if ls == [] then 0 else (if IsInternal(ls[0]) then 1 else 0) + InternalSteps(ls[1..])
  }

  function Submissions(ls: seq<Label>): nat {
    if ls == [] then 0 else (if ls[0].Submit? then 1 else 0) + Submissions(ls[1..])
  }

  function Acquisitions(ls: seq<Label>): nat {
    if ls == [] then 0 else (if ls[0].Acquire? then 1 else 0) + Acquisitions(ls[1..])
  }

  /** What a client adds to the work that remains. */
  lemma ClientRaises(s: State, l: Label)
    requires Inv(s) && Shaped(s) && Enabled(s, l) && !IsInternal(l)
    ensures Measure(After(s, l)) <= Measure(s) + if l.Submit? then 10 else if l.Acquire? then 1 else 0
  {
    hide Inv, Waiting;
    match l
    case Acquire(t) =>
      var b := AcquireId(s.table);
      WaitingUpdate(s.chans, b, After(s, l).chans[b]);
    case Submit(t, job) =>
      var b := s.callers[t].buffer;
      WaitingUpdate(s.chans, b, After(s, l).chans[b]);
    case BeginRelease(t) =>
  }

  /**
   In any run whatever the internal steps are paid for: by the work at its start, ten
   for each request that is submitted on the way, and one for each buffer acquired.
   */
  lemma {:induction false} StepsArePaid(s: State, ls: seq<Label>, s': State)
    requires Inv(s) && Run(s, ls, s')
    ensures Inv(s') && Shaped(s')
    ensures InternalSteps(ls) + Measure(s') <= Measure(s) + 10 * Submissions(ls) + Acquisitions(ls)
    decreases |ls|
  {
    hide Inv, Measure, Shaped, Enabled;
    InvShaped(s);
    if ls != [] {
      StepKeeps(s, ls[0]);
      if IsInternal(ls[0]) {
        StepDecreases(s, ls[0]);
      } else {
        ClientRaises(s, ls[0]);
      }
      StepsArePaid(After(s, ls[0]), ls[1..], s');
    }
  }

  predicate AllInternal(ls: seq<Label>) {
    forall i :: 0 <= i < |ls| ==> IsInternal(ls[i])
  }

  /** Steps can be taken until no internal step is left. */
  lemma {:induction false} Finishes(s: State) returns (ls: seq<Label>, s': State)
    requires Inv(s)
    ensures Run(s, ls, s') && AllInternal(ls) && !CanMove(s')
    decreases Measure(s)
  {
    hide Inv, Measure, Shaped, Enabled;
    InvShaped(s);
    if CanMove(s) {
      var l :| IsInternal(l) && Enabled(s, l);
      StepKeeps(s, l);
      StepDecreases(s, l);
      var rest;
      rest, s' := Finishes(After(s, l));
      ls := [l] + rest;
      assert ls[1..] == rest;
    } else {
      ls, s' := [], s;
    }
  }

  /** t is collecting these jobs, or has returned with all their answers. */
  ghost predicate Served(s: State, t: nat, jobs: seq<Job>) {
    if t in s.callers then s.callers[t].Releasing? && s.callers[t].jobs == jobs
    else Delivered(s.out, t, jobs)
  }

  lemma OwnerOf(s: State, r: Req)
    requires Inv(s) && Uncollected(s, r)
    ensures r.owner in s.callers && s.callers[r.owner].buffer == r.buffer
  {
    assert TableShape(s.table);
    hide TableInv, LogInv, SchedInv, SelectedInv, InternalInv, DispInv, CountInv, FlightInv, OutInv, Disjoint;
    assert ChanInv(s.chans[r.buffer], r.buffer);
    BusyWhenLive(s.table.free, s.chans, s.callers, r.buffer);
  }

  lemma FlightOwner(s: State, r: Req)
    requires Inv(s) && r in Flight(s)
    ensures r.owner in s.callers
  {
    hide Inv;
    FlightRequest(s, r);
    OwnerOf(s, r);
  }

  /** Nobody takes an answer back from a caller that does not come again. */
  lemma ServedStays(s: State, l: Label, t: nat, jobs: seq<Job>)
    requires Inv(s) && Shaped(s) && Enabled(s, l) && l != Acquire(t) && Served(s, t, jobs)
    ensures Served(After(s, l), t, jobs)
  {
    hide Inv, Shaped, Work;
    match l {
      case Callback(r) => FlightOwner(s, r);
      case FinishRelease(u) => FinishDelivers(s, u, s.callers[u]);
      case _ =>
    }
  }

  lemma {:induction false} ServedAlong(s: State, ls: seq<Label>, s': State, t: nat, jobs: seq<Job>)
    requires Inv(s) && Run(s, ls, s') && Acquire(t) !in ls && Served(s, t, jobs)
    ensures Served(s', t, jobs)
    decreases |ls|
  {
    hide Inv, Served, Shaped, Enabled;
    InvShaped(s);
    if ls != [] {
      StepKeeps(s, ls[0]);
      ServedStays(s, ls[0], t, jobs);
      ServedAlong(After(s, ls[0]), ls[1..], s', t, jobs);
    }
  }

  /** A release goes on with the same batch until its own last step. */
  lemma ReleaseContinues(s: State, l: Label, t: nat)
    requires Shaped(s) && Enabled(s, l) && IsReleasing(s, t) && l != FinishRelease(t)
    ensures IsReleasing(After(s, l), t) && After(s, l).callers[t].jobs == s.callers[t].jobs
  {
  }

  /** Step i of the run is the return of t, out of state mid, with every answer delivered. */
  ghost predicate ReturnsAt(s: State, ls: seq<Label>, i: nat, mid: State, t: nat, jobs: seq<Job>) {
    && i < |ls| && ls[i] == FinishRelease(t) && Run(s, ls[..i], mid)
    && Shaped(mid) && Enabled(mid, FinishRelease(t)) && mid.callers[t].jobs == jobs && Delivered(mid.out, t, jobs)
  }

  /** A release can only end by returning, and it returns with all its answers. */
  lemma {:induction false} ReturnFound(s: State, ls: seq<Label>, s': State, t: nat) returns (i: nat, mid: State)
    requires Inv(s) && Run(s, ls, s') && IsReleasing(s, t) && !IsReleasing(s', t)
    ensures ReturnsAt(s, ls, i, mid, t, s.callers[t].jobs)
    decreases |ls|
  {
    hide Inv, Shaped, Enabled, Delivered;
    InvShaped(s);
    var l := ls[0];
    if l == FinishRelease(t) {
      FinishReady(s, t);
      FinishDelivers(s, t, s.callers[t]);
      i, mid := 0, s;
    } else {
      StepKeeps(s, l);
      ReleaseContinues(s, l, t);
      i, mid := ReturnFound(After(s, l), ls[1..], s', t);
      i := i + 1;
      assert ls[..i][1..] == ls[1..][..i - 1];
    }
  }

  lemma FinishReady(s: State, t: nat)
    requires Shaped(s) && Enabled(s, FinishRelease(t))
    ensures IsReleasing(s, t) && s.callers[t].done >= |s.callers[t].jobs|
  {
  }

  /**
   Every release returns. Take any run, with any other clients acquiring, submitting and
   releasing meanwhile. It has no more internal steps than the work at its start and the
   submitted requests pay for; and once no internal step is left, the caller that was in
   its release has returned, at some step before which the answer of its k-th job was in
   its k-th area.
   */
  lemma EveryReleaseReturns(before: seq<Label>, s: State, ls: seq<Label>, s': State, t: nat)
    returns (i: nat, mid: State)
    requires Run(Init(), before, s) && Run(s, ls, s') && IsReleasing(s, t) && !CanMove(s')
    ensures ReturnsAt(s, ls, i, mid, t, s.callers[t].jobs)
    ensures InternalSteps(ls) <= Measure(s) + 10 * Submissions(ls) + Acquisitions(ls)
  {
    hide Init, Inv, Run, CanMove, Shaped, ReturnsAt, Measure;
    Reachable(before, s);
    StepsArePaid(s, ls, s');
    if IsReleasing(s', t) {
      ReleaseMoves(s', t);
    }
    i, mid := ReturnFound(s, ls, s', t);
  }

  /** The answers stay where they are until the caller comes again. */
  lemma AnswersStay(before: seq<Label>, s: State, ls: seq<Label>, s': State, t: nat)
    requires Run(Init(), before, s) && Run(s, ls, s') && IsReleasing(s, t) && Acquire(t) !in ls
    ensures IsReleasing(s', t) || (t !in s'.callers && Delivered(s'.out, t, s.callers[t].jobs))
  {
    hide Init, Inv, Run, Delivered;
    Reachable(before, s);
    ServedAlong(s, ls, s', t, s.callers[t].jobs);
  }

  /** A return lets every thread that waits for a buffer acquire one. */
  lemma ReturnFreesBuffer(ls: seq<Label>, s: State, u: nat, t: nat)
    requires Run(Init(), ls, s) && Shaped(s) && Enabled(s, FinishRelease(u)) && t !in s.callers
    ensures Shaped(After(s, FinishRelease(u))) && Enabled(After(s, FinishRelease(u)), Acquire(t))
  {
    hide Init, Inv, Run;
    Reachable(ls, s);
    StepKeeps(s, FinishRelease(u));
    InvShaped(After(s, FinishRelease(u)));
    BusyAtMost(s);
    ReleaseLowersBusy(s, u);
  }

  lemma BusyAtMost(s: State)
    requires Inv(s)
    ensures s.table.busy <= BUFFER_COUNT
    ensures s.table.busy == BUFFER_COUNT <==> forall b :: 0 <= b < |s.table.free| ==> !s.table.free[b]
    ensures |s.table.free| == BUFFER_COUNT
  {
    hide ChansInv, OwnerInv, LogInv, SchedInv, SelectedInv, InternalInv, DispInv, CountInv, FlightInv, OutInv, Disjoint;
    AllBuffers(s.table.free);
  }

  /** A client that has not called release owns b. */
  ghost predicate HeldByClient(s: State, b: nat) {
    exists u :: IsFilling(s, u) && s.callers[u].buffer == b
  }

  /** When nothing can move, a thread waits for a buffer only if clients that have not released hold all eight. */
  lemma AcquireWaitsForClients(ls: seq<Label>, s: State, t: nat)
    requires Run(Init(), ls, s) && !CanMove(s) && t !in s.callers
    ensures Shaped(s)
    ensures !Enabled(s, Acquire(t)) <==> forall b: nat :: b < BUFFER_COUNT ==> HeldByClient(s, b)
  {
    hide Init, Inv, Run, CanMove;
    Reachable(ls, s);
    BusyAtMost(s);
    hide HeldByClient;
    forall b: nat | b < BUFFER_COUNT ensures !s.table.free[b] <==> HeldByClient(s, b) {
      HeldWhenQuiet(s, b);
    }
    if !Enabled(s, Acquire(t)) {
      assert forall b: nat :: b < BUFFER_COUNT ==> HeldByClient(s, b);
    } else {
      var b: nat :| b < BUFFER_COUNT && s.table.free[b];
      assert !HeldByClient(s, b);
    }
  }

  lemma HeldWhenQuiet(s: State, b: nat)
    requires Inv(s) && Shaped(s) && !CanMove(s) && b < BUFFER_COUNT
    ensures !s.table.free[b] <==> HeldByClient(s, b)
  {
    HeldBy(s, b);
    hide Inv, CanMove;
    if !s.table.free[b] {
      var u := s.chans[b].owner;
      if IsReleasing(s, u) {
        ReleaseMoves(s, u);
      }
      assert IsFilling(s, u);
    }
  }

  lemma HeldBy(s: State, b: nat)
    requires Inv(s) && Shaped(s) && b < BUFFER_COUNT
    ensures !s.table.free[b] ==> s.chans[b].owner in s.callers && s.callers[s.chans[b].owner].buffer == b
    ensures forall u :: u in s.callers && s.callers[u].buffer == b ==> !s.table.free[b]
  {
    hide TableInv, ChansInv, LogInv, SchedInv, SelectedInv, InternalInv, DispInv, CountInv, FlightInv, OutInv, Disjoint;
  }

  /** When nothing can move, every request is completed and waits only for its owner to release. */
  lemma QuietMeansCompleted(ls: seq<Label>, s: State, r: Req)
    requires Run(Init(), ls, s) && !CanMove(s) && Uncollected(s, r)
    ensures r in s.ready && IsFilling(s, r.owner) && s.callers[r.owner].buffer == r.buffer
  {
    hide Init, Inv, Run, CanMove, Shaped;
    Reachable(ls, s);
    if r !in s.ready {
      RequestMoves(s, r);
    }
    OwnerOf(s, r);
    if IsReleasing(s, r.owner) {
      ReleaseMoves(s, r.owner);
    }
  }
}
