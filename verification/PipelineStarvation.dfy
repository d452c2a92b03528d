/**
 The scan for ready buffers starts from the lowest one every time. A client that keeps
 coming back to buffer 0 can therefore hold up a release of buffer 1 for ever.
 */
module PipelineStarvation {
  import opened Pipeline
  import opened PipelineInvariant
  import opened PipelineSafety
  import opened PipelineLiveness
  import opened Rings

  // ---- building runs ----------------------------------------------------------------------

  lemma {:induction false} RunExtended(s: State, ls: seq<Label>, mid: State, l: Label)
    requires Run(s, ls, mid) && Shaped(mid) && Enabled(mid, l)
    ensures Run(s, ls + [l], After(mid, l))
    decreases |ls|
  {
    hide Shaped, Enabled, After;
    if ls == [] {
      assert ls + [l] == [l] && [l][1..] == [];
    } else {
      RunExtended(After(s, ls[0]), ls[1..], mid, l);
      assert (ls + [l])[1..] == ls[1..] + [l];
    }
  }

  lemma {:induction false} InternalStepsExtended(ls: seq<Label>, l: Label)
    ensures InternalSteps(ls + [l]) == InternalSteps(ls) + if IsInternal(l) then 1 else 0
    decreases |ls|
  {
    if ls == [] {
      assert [] + [l] == [l];
    } else {
      InternalStepsExtended(ls[1..], l);
      assert (ls + [l])[1..] == ls[1..] + [l];
    }
  }

  /** The return of caller 1 is not in it, and every selection is the one the scan makes first. */
  predicate Unfair(ls: seq<Label>) {
    forall i :: 0 <= i < |ls| ==> ls[i] != FinishRelease(1) && (ls[i].Select? ==> ls[i].b == 0)
  }

  /** A run from s that does not let caller 1 return, and the state it leads to. */
  ghost predicate Leads(s: State, ls: seq<Label>, mid: State) {
    Run(s, ls, mid) && Inv(mid) && Shaped(mid) && Unfair(ls)
  }

  lemma Step(s: State, ls: seq<Label>, mid: State, l: Label)
    requires Leads(s, ls, mid) && Enabled(mid, l) && l != FinishRelease(1) && (l.Select? ==> l.b == 0)
    ensures Leads(s, ls + [l], After(mid, l))
    ensures InternalSteps(ls + [l]) >= InternalSteps(ls)
    ensures IsInternal(l) ==> InternalSteps(ls + [l]) == InternalSteps(ls) + 1
  {
    hide Run, Inv, Shaped, Enabled, After;
    RunExtended(s, ls, mid, l);
    StepKeeps(mid, l);
    InvShaped(After(mid, l));
    InternalStepsExtended(ls, l);
  }

  // ---- one round of the client of buffer 0 --------------------------------------------------

  /** Caller 0 fills buffer 0; caller 1 is in its release of buffer 1, which still has waiting requests. */
  ghost predicate HeldUp(s: State, jobs: nat) {
    && |s.chans| == BUFFER_COUNT && IsFilling(s, 0) && s.callers[0].buffer == 0 && |s.callers[0].jobs| == jobs
    && IsReleasing(s, 1) && s.callers[1].buffer == 1 && s.chans[1].ring.count > 0
    && s.sched.Idle? && s.disp.Check? && s.chans[0].ring.count == 0 && s.inDevice == {} && s.responding == {}
  }

  ghost predicate Starving(s: State) {
    Inv(s) && Shaped(s) && HeldUp(s, 0) && s.internal.count == 0 && s.ready == {}
  }

  /** Caller 0 submits, and the scheduler serves it. */
  lemma RoundBegins(s: State, ls: seq<Label>, mid: State, job: Job) returns (ls': seq<Label>, mid': State)
    requires Leads(s, ls, mid) && HeldUp(mid, 0) && mid.internal.count == 0 && mid.ready == {}
    ensures Leads(s, ls', mid') && HeldUp(mid', 1) && mid'.internal.count == 1 && mid'.ready == {}
    ensures InternalSteps(ls') > InternalSteps(ls)
  {
    hide Inv, Run, Unfair, InternalSteps;
    Step(s, ls, mid, Submit(0, job));
    var a := After(mid, Submit(0, job));
    ls' := ls + [Submit(0, job)];
    BusyWithWaiting(a, 0);
    Step(s, ls', a, Select(0));
    var b := After(a, Select(0));
    ls' := ls' + [Select(0)];
    Step(s, ls', b, Drain);
    var c := After(b, Drain);
    ls' := ls' + [Drain];
    Step(s, ls', c, Push);
    mid' := After(c, Push);
    ls' := ls' + [Push];
  }

  /** The dispatcher offloads the request, and the device answers it. */
  lemma RoundIsServed(s: State, ls: seq<Label>, mid: State) returns (ls': seq<Label>, mid': State, x: Req)
    requires Leads(s, ls, mid) && HeldUp(mid, 1) && mid.internal.count == 1 && mid.ready == {}
    ensures Leads(s, ls', mid') && HeldUp(mid', 1) && mid'.internal.count == 0 && mid'.ready == {x}
    ensures InternalSteps(ls') >= InternalSteps(ls)
  {
    hide Inv, Run, Unfair, InternalSteps;
    CheckedPending(mid);
    Step(s, ls, mid, Throttle);
    var a := After(mid, Throttle);
    ls' := ls + [Throttle];
    Step(s, ls', a, Read);
    var b := After(a, Read);
    ls' := ls' + [Read];
    HeadIs(b);
    x := b.disp.list[0].value;
    Step(s, ls', b, Offload);
    var c := After(b, Offload);
    ls' := ls' + [Offload];
    Step(s, ls', c, CountOffload);
    var d := After(c, CountOffload);
    ls' := ls' + [CountOffload];
    Step(s, ls', d, CountResponse(x));
    var e := After(d, CountResponse(x));
    ls' := ls' + [CountResponse(x)];
    Step(s, ls', e, Callback(x));
    mid' := After(e, Callback(x));
    ls' := ls' + [Callback(x)];
  }

  /** With everything else empty, the request under the cursor is the completed one. */
  lemma CollectReady(s: State, x: Req)
    requires Inv(s) && Shaped(s) && IsReleasing(s, 0) && s.callers[0].buffer == 0
    requires s.callers[0].done < |s.callers[0].jobs| && s.sched.Idle? && s.disp.Check? && s.internal.count == 0
    requires s.chans[0].ring.count == 0 && s.inDevice == {} && s.responding == {} && s.ready == {x}
    ensures s.chans[0].ring.data[s.callers[0].cursor] == Some(x) && Enabled(s, Collect(0))
  {
    hide TableInv, ChansInv, OwnerInv, LogInv, SchedInv, SelectedInv, InternalInv, DispInv, CountInv, FlightInv,
         OutInv, Disjoint;
    OwnBuffer(s.table.free, s.chans, s.callers, 0);
    var c := s.chans[0];
    CollectSlot(c, s.callers[0]);
    var r := c.sub[c.collected];
    hide Inv;
    WhereHolds(s, r);
  }

  /** Caller 0 releases, and acquires buffer 0 again. */
  lemma RoundEnds(s: State, ls: seq<Label>, mid: State, x: Req) returns (ls': seq<Label>, mid': State)
    requires Leads(s, ls, mid) && HeldUp(mid, 1) && mid.internal.count == 0 && mid.ready == {x}
    ensures Leads(s, ls', mid') && HeldUp(mid', 0) && mid'.internal.count == 0 && mid'.ready == {}
    ensures InternalSteps(ls') >= InternalSteps(ls)
  {
    hide Inv, Run, Unfair, InternalSteps, At;
    Step(s, ls, mid, BeginRelease(0));
    var a := After(mid, BeginRelease(0));
    ls' := ls + [BeginRelease(0)];
    CollectReady(a, x);
    Step(s, ls', a, Collect(0));
    var b := After(a, Collect(0));
    ls' := ls' + [Collect(0)];
    Step(s, ls', b, FinishRelease(0));
    var c := After(b, FinishRelease(0));
    ls' := ls' + [FinishRelease(0)];
    BusyAtMost(c);
    assert c.table.free[0] && c.table.nextFree == 0;
    Step(s, ls', c, Acquire(0));
    mid' := After(c, Acquire(0));
    ls' := ls' + [Acquire(0)];
  }

  lemma {:induction false} Rounds(s: State, k: nat, job: Job) returns (ls: seq<Label>, s': State)
    requires Starving(s)
    ensures Leads(s, ls, s') && Starving(s') && InternalSteps(ls) >= k
  {
    if k == 0 {
      ls, s' := [], s;
    } else {
      var x;
      ls, s' := Rounds(s, k - 1, job);
      hide Inv, Run, Unfair, InternalSteps, Leads, HeldUp, Shaped;
      ls, s' := RoundBegins(s, ls, s', job);
      ls, s', x := RoundIsServed(s, ls, s');
      ls, s' := RoundEnds(s, ls, s', x);
      LeadsTo(s, ls, s');
    }
  }

  lemma LeadsTo(s: State, ls: seq<Label>, s': State)
    requires Leads(s, ls, s')
    ensures Inv(s') && Shaped(s')
  {
  }

  lemma LeadsRun(s: State, ls: seq<Label>, s': State)
    requires Leads(s, ls, s')
    ensures Run(s, ls, s') && Unfair(ls)
  {
  }

  lemma ScanHere(t: Table)
    requires TableShape(t) && t.free[t.nextFree]
    ensures AcquireId(t) == t.nextFree
  {
  }

  ghost predicate Fresh(s: State) {
    && Shaped(s) && s.table.nextFree == 0 && s.table.busy == 0 && s.callers == map[]
    && (forall b :: 0 <= b < BUFFER_COUNT ==> s.table.free[b] && s.chans[b].ring.count == 0)
    && s.internal.count == 0 && s.sched.Idle? && s.disp.Check?
    && s.inDevice == s.responding == s.ready == {}
  }

  /** Both callers own their buffers and have submitted nothing; nothing is on its way. */
  ghost predicate BothFilling(s: State) {
    && |s.chans| == BUFFER_COUNT && IsFilling(s, 0) && s.callers[0] == Filling(0, [])
    && IsFilling(s, 1) && s.callers[1] == Filling(1, [])
    && s.chans[0].ring.count == 0 && s.chans[1].ring.count == 0 && s.internal.count == 0
    && s.sched.Idle? && s.disp.Check? && s.inDevice == s.responding == s.ready == {}
  }

  lemma BothAcquire(s: State) returns (ls: seq<Label>, mid: State)
    requires Leads(s, [], s) && Fresh(s)
    ensures Leads(s, ls, mid) && BothFilling(mid)
  {
    hide Inv, Run, Unfair, InternalSteps, AcquireId;
    ScanHere(s.table);
    Step(s, [], s, Acquire(0));
    var a := After(s, Acquire(0));
    ls := [] + [Acquire(0)];
    ScanHere(a.table);
    Step(s, ls, a, Acquire(1));
    mid := After(a, Acquire(1));
    ls := ls + [Acquire(1)];
  }

  /** Then the second one submits and begins its release. */
  lemma SecondReleases(s: State, ls: seq<Label>, mid: State, job: Job) returns (ls': seq<Label>, mid': State)
    requires Leads(s, ls, mid) && BothFilling(mid)
    ensures Leads(s, ls', mid') && Starving(mid')
  {
    hide Inv, Run, Unfair, InternalSteps;
    Step(s, ls, mid, Submit(1, job));
    var b := After(mid, Submit(1, job));
    ls' := ls + [Submit(1, job)];
    Step(s, ls', b, BeginRelease(1));
    mid' := After(b, BeginRelease(1));
    ls' := ls' + [BeginRelease(1)];
  }

  /**
   No bound on the steps of others limits a release: for every n there is a run in which
   caller 1 is in its release of buffer 1, more than n internal steps follow, the scan
   always ends on buffer 0, and caller 1 has still not returned.
   */
  lemma ReleaseStarves(n: nat, job: Job) returns (before: seq<Label>, s: State, ls: seq<Label>, s': State)
    ensures Run(Init(), before, s) && IsReleasing(s, 1) && s.callers[1].buffer == 1
    ensures Run(s, ls, s') && Unfair(ls) && InternalSteps(ls) > n && IsReleasing(s', 1)
  {
    InitHolds();
    InvShaped(Init());
    var both;
    before, both := BothAcquire(Init());
    hide Inv, Run, Unfair, InternalSteps, Shaped, Leads, BothFilling, Init;
    before, s := SecondReleases(Init(), before, both, job);
    LeadsRun(Init(), before, s);
    ls, s' := Rounds(s, n + 1, job);
    LeadsRun(s, ls, s');
  }
}
