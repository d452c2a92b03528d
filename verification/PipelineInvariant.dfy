/**
 What every step of the pipeline keeps. The invariant is a conjunction of groups,
 each about a few fields, and every step is shown to keep every group.
 */
module PipelineInvariant {
  import opened BigNum
  import opened Pipeline
  import opened Rings

  // ---- the groups -------------------------------------------------------------------

  ghost function BusySet(free: seq<bool>): set<nat> {
    set b: nat | b < |free| && !free[b]
  }

  /** The free and ready flags are complementary, and busy counts the owned buffers. */
  ghost predicate TableInv(table: Table) {
    && TableShape(table)
    && (forall b :: 0 <= b < BUFFER_COUNT ==> table.ready[b] == !table.free[b])
    && table.busy == |BusySet(table.free)|
  }

  /** An outstanding buffer is two adjacent FIFO segments among NULL slots, and remembers who submitted what. */
  ghost predicate ChanInv(c: Chan, b: nat) {
    && Segments(c.ring, c.sub, c.collected, |c.pos|, |c.sub|)
    && Cleared(c.ring, c.collected, |c.sub|)
    && c.start <= c.collected && |c.sub| - c.start <= BUFFER_SIZE
    && c.ring.dataOut == c.start % BUFFER_SIZE
    && (forall i :: 0 <= i < |c.sub| ==> c.sub[i].buffer == b && c.sub[i].seqNo == i)
    && (forall i :: c.start <= i < |c.sub| ==> c.sub[i].owner == c.owner && c.sub[i].area == i - c.start)
  }

  ghost predicate ChansInv(chans: seq<Chan>) {
    |chans| == BUFFER_COUNT && forall b :: 0 <= b < BUFFER_COUNT ==> ChanInv(chans[b], b)
  }

  ghost predicate Submitted(c: Chan, jobs: seq<Job>) {
    c.start + |jobs| == |c.sub| && forall i :: 0 <= i < |jobs| ==> c.sub[c.start + i].job == jobs[i]
  }

  ghost predicate CallerInv(c: Chan, k: Caller) {
    Submitted(c, k.jobs) && |k.jobs| <= BUFFER_SIZE
    && match k
       case Filling(_, _) => c.collected == c.start
       case Releasing(_, jobs, done, cursor) =>
         done <= |jobs| && c.collected == c.start + done && cursor == c.collected % BUFFER_SIZE
  }

  /** Callers and owned buffers correspond one to one; a free buffer holds nothing. */
  ghost predicate OwnerInv(free: seq<bool>, chans: seq<Chan>, callers: map<nat, Caller>)
    requires |free| == |chans| == BUFFER_COUNT
  {
    && (forall t :: t in callers ==>
          callers[t].buffer < BUFFER_COUNT && !free[callers[t].buffer] && chans[callers[t].buffer].owner == t)
    && (forall b :: 0 <= b < BUFFER_COUNT && !free[b] ==>
          chans[b].owner in callers && callers[chans[b].owner].buffer == b
          && CallerInv(chans[b], callers[chans[b].owner]))
    && (forall b :: 0 <= b < BUFFER_COUNT && free[b] ==> chans[b].start == |chans[b].sub|)
  }

  /** Drained requests sit in the log at increasing positions. */
  ghost predicate ChanLog(c: Chan, log: seq<Req>) {
    && |c.pos| <= |c.sub|
    && (forall i :: 0 <= i < |c.pos| ==> c.pos[i] < |log| && log[c.pos[i]] == c.sub[i])
    && (forall i, j :: 0 <= i < j < |c.pos| ==> c.pos[i] < c.pos[j])
  }

  ghost predicate EntryInv(chans: seq<Chan>, r: Req, k: nat) {
    r.buffer < |chans| && r.seqNo < |chans[r.buffer].pos| && chans[r.buffer].pos[r.seqNo] == k
  }

  ghost predicate LogInv(chans: seq<Chan>, log: seq<Req>) {
    && (forall b :: 0 <= b < |chans| ==> ChanLog(chans[b], log))
    && (forall k :: 0 <= k < |log| ==> EntryInv(chans, log[k], k))
  }

  /** The lists and the internal buffer hold consecutive parts of the log. */
  ghost predicate SchedInv(sched: Sched, log: seq<Req>, pushed: nat) {
    pushed <= |log|
    && if sched.Holding?
       then |sched.list| > 0 && |sched.list| <= BUFFER_SIZE && sched.list == Somes(log[pushed..])
       else pushed == |log|
  }

  /** The selected buffer is owned and has waiting requests. */
  ghost predicate SelectedInv(sched: Sched, table: Table, chans: seq<Chan>)
    requires TableShape(table) && |chans| == BUFFER_COUNT
  {
    sched.Selected? ==>
      sched.index < BUFFER_COUNT && table.ready[sched.index] && chans[sched.index].ring.count > 0
  }

  ghost predicate InternalInv(internal: Ring<Req>, log: seq<Req>, read: nat, pushed: nat) {
    Segments(internal, log, read, read, pushed)
  }

  ghost predicate DispInv(disp: Disp, log: seq<Req>, read: nat, off: nat) {
    off <= read <= |log|
    && match disp
       case Check => off == read
       case Granted(max) => off == read && RESTART_THRESHOLD <= max
       case Offloading(list) => |list| > 0 && list == Somes(log[off..read])
       case Sent(list) => off > 0 && list == Somes(log[off..read])
  }

  function SentOne(disp: Disp): nat {
    if disp.Sent? then 1 else 0
  }

  /** The two counters are the number offloaded and the number answered, up to wrap-around. */
  ghost predicate CountInv(requestCount: nat, responseCount: nat, disp: Disp, waiting: nat, read: nat, off: nat) {
    && requestCount == (off - SentOne(disp)) % COUNTER_BASE
    && responseCount == (off - waiting) % COUNTER_BASE
    && waiting + (read - off) <= MAX_PENDING
    && (disp.Granted? ==> waiting + disp.max <= MAX_PENDING)
  }

  /** r has been offloaded and not yet collected. */
  ghost predicate InFlight(chans: seq<Chan>, off: nat, r: Req) {
    r.buffer < |chans| && var c := chans[r.buffer];
    c.collected <= r.seqNo < |c.pos| <= |c.sub| && c.sub[r.seqNo] == r && c.pos[r.seqNo] < off
  }

  ghost predicate ChanFlight(c: Chan, off: nat, flight: set<Req>) {
    && c.collected <= |c.pos| <= |c.sub|
    && (forall i :: 0 <= i < c.collected ==> c.pos[i] < off)
    && (forall i :: c.collected <= i < |c.pos| && c.pos[i] < off ==> c.sub[i] in flight)
  }

  /** The device, the callbacks and the completed requests together hold what is in flight. */
  ghost predicate FlightInv(chans: seq<Chan>, off: nat, flight: set<Req>) {
    && (forall r :: r in flight ==> InFlight(chans, off, r))
    && (forall b :: 0 <= b < |chans| ==> ChanFlight(chans[b], off, flight))
  }

  ghost predicate Disjoint(a: set<Req>, b: set<Req>, c: set<Req>) {
    forall r :: !(r in a && r in b) && !(r in b && r in c) && !(r in a && r in c)
  }

  /** Completed and collected requests have their own answer in their own area. */
  ghost predicate ChanOut(c: Chan, ready: set<Req>, out: map<(nat, nat), seq<Octet>>) {
    forall i :: 0 <= i < |c.sub| && c.start <= i && (i < c.collected || c.sub[i] in ready) ==>
      (c.owner, c.sub[i].area) in out && out[(c.owner, c.sub[i].area)] == Work(c.sub[i].job)
  }

  ghost predicate OutInv(chans: seq<Chan>, ready: set<Req>, out: map<(nat, nat), seq<Octet>>) {
    forall b :: 0 <= b < |chans| ==> ChanOut(chans[b], ready, out)
  }

  ghost function Flight(s: State): set<Req> {
    s.inDevice + s.responding + s.ready
  }

  ghost predicate Inv(s: State) {
    && TableInv(s.table) && ChansInv(s.chans)
    && OwnerInv(s.table.free, s.chans, s.callers)
    && LogInv(s.chans, s.log)
    && SchedInv(s.sched, s.log, s.pushed) && SelectedInv(s.sched, s.table, s.chans)
    && InternalInv(s.internal, s.log, s.read, s.pushed)
    && DispInv(s.disp, s.log, s.read, s.off)
    && CountInv(s.requestCount, s.responseCount, s.disp, |s.inDevice|, s.read, s.off)
    && FlightInv(s.chans, s.off, Flight(s)) && Disjoint(s.inDevice, s.responding, s.ready)
    && OutInv(s.chans, s.ready, s.out)
  }

  // ---- the table ----------------------------------------------------------------------

  lemma AllBuffers(free: seq<bool>)
    requires |free| == BUFFER_COUNT
    ensures |BusySet(free)| <= BUFFER_COUNT
    ensures |BusySet(free)| == BUFFER_COUNT <==> forall b :: 0 <= b < BUFFER_COUNT ==> !free[b]
  {
    var all: set<nat> := {0, 1, 2, 3, 4, 5, 6, 7};
    assert |all| == BUFFER_COUNT;
    assert BusySet(free) <= all;
    if BusySet(free) == all {
      assert forall b: nat :: b < BUFFER_COUNT ==> b in all;
    } else {
      ProperSubset(BusySet(free), all);
    }
  }

  lemma ProperSubset(a: set<nat>, b: set<nat>)
    requires a <= b
    ensures |a| <= |b|
    ensures a != b ==> |a| < |b|
  {
    assert b == a + (b - a);
    assert |b| == |a| + |b - a|;
    if |b - a| == 0 {
      assert b - a == {};
    }
  }

  /** Past its wait, acquire always finds a free buffer. */
  lemma AcquireFindsFree(t: Table)
    requires TableInv(t) && t.busy < BUFFER_COUNT
    ensures t.free[AcquireId(t)]
  {
    AllBuffers(t.free);
    var b: nat :| b < BUFFER_COUNT && t.free[b];
    var distance := (b - t.nextFree) % BUFFER_COUNT;
    assert (t.nextFree + distance) % BUFFER_COUNT == b;
    ScanFinds(t.free, t.nextFree, BUFFER_COUNT, distance);
  }

  lemma AcquireTable(t: Table)
    requires TableInv(t) && t.busy < BUFFER_COUNT
    ensures TableInv(Acquired(t))
  {
    AcquireFindsFree(t);
    var b := AcquireId(t);
    assert BusySet(t.free[b := false]) == BusySet(t.free) + {b};
  }

  lemma ReleaseTable(t: Table, b: nat)
    requires TableInv(t) && b < BUFFER_COUNT && !t.free[b]
    ensures TableInv(Released(t, b)) && t.busy > 0 && Released(t, b).busy == t.busy - 1
  {
    assert b in BusySet(t.free);
    assert BusySet(t.free[b := true]) == BusySet(t.free) - {b};
  }

  // ---- what a change of one buffer leaves alone ---------------------------------------

  predicate Extends<T(==)>(xs: seq<T>, ys: seq<T>) {
    |xs| <= |ys| && forall i :: 0 <= i < |xs| ==> ys[i] == xs[i]
  }

  lemma LogKept(chans: seq<Chan>, b: nat, c: Chan, log: seq<Req>)
    requires LogInv(chans, log) && b < |chans|
    requires c.pos == chans[b].pos && Extends(chans[b].sub, c.sub)
    ensures LogInv(chans[b := c], log)
  {
    assert ChanLog(chans[b], log);
    forall k | 0 <= k < |log| ensures EntryInv(chans[b := c], log[k], k) {
      assert EntryInv(chans, log[k], k);
    }
  }

  lemma FlightKept(chans: seq<Chan>, b: nat, c: Chan, off: nat, flight: set<Req>)
    requires FlightInv(chans, off, flight) && b < |chans|
    requires c.pos == chans[b].pos && c.collected == chans[b].collected && Extends(chans[b].sub, c.sub)
    ensures FlightInv(chans[b := c], off, flight)
  {
    assert ChanFlight(chans[b], off, flight);
    forall r | r in flight ensures InFlight(chans[b := c], off, r) {
      assert InFlight(chans, off, r);
    }
  }

  lemma OutKept(chans: seq<Chan>, b: nat, c: Chan, ready: set<Req>, out: map<(nat, nat), seq<Octet>>)
    requires OutInv(chans, ready, out) && b < |chans|
    requires ChanOut(chans[b], ready, out) ==> ChanOut(c, ready, out)
    ensures OutInv(chans[b := c], ready, out)
  {
  }

  lemma ChansKept(chans: seq<Chan>, b: nat, c: Chan)
    requires ChansInv(chans) && b < BUFFER_COUNT && ChanInv(c, b)
    ensures ChansInv(chans[b := c])
  {
  }

  /** A caller changes together with its buffer. */
  lemma OwnerKept(free: seq<bool>, chans: seq<Chan>, callers: map<nat, Caller>, t: nat, c: Chan, k: Caller)
    requires |free| == |chans| == BUFFER_COUNT && OwnerInv(free, chans, callers)
    requires t in callers && k.buffer == callers[t].buffer && c.owner == t && CallerInv(c, k)
    ensures k.buffer < BUFFER_COUNT && OwnerInv(free, chans[k.buffer := c], callers[t := k])
  {
  }

  /** The buffer of a caller, and what is known about it. */
  lemma OwnBuffer(free: seq<bool>, chans: seq<Chan>, callers: map<nat, Caller>, t: nat)
    requires |free| == BUFFER_COUNT && ChansInv(chans) && OwnerInv(free, chans, callers) && t in callers
    ensures callers[t].buffer < BUFFER_COUNT && !free[callers[t].buffer]
    ensures var c := chans[callers[t].buffer];
      c.owner == t && ChanInv(c, callers[t].buffer) && CallerInv(c, callers[t])
  {
  }

  lemma ChansShaped(chans: seq<Chan>)
    requires ChansInv(chans)
    ensures forall b :: 0 <= b < BUFFER_COUNT ==> RingShape(chans[b].ring)
  {
    forall b | 0 <= b < BUFFER_COUNT ensures RingShape(chans[b].ring) {
      assert ChanInv(chans[b], b);
    }
  }

  lemma CallersShaped(free: seq<bool>, chans: seq<Chan>, callers: map<nat, Caller>)
    requires |free| == |chans| == BUFFER_COUNT && OwnerInv(free, chans, callers)
    ensures forall t :: t in callers ==> callers[t].buffer < BUFFER_COUNT
    ensures forall t :: t in callers && callers[t].Releasing? ==> callers[t].cursor < BUFFER_SIZE
  {
    forall t | t in callers && callers[t].Releasing? ensures callers[t].cursor < BUFFER_SIZE {
      assert CallerInv(chans[callers[t].buffer], callers[t]);
    }
  }

  lemma InvShaped(s: State)
    requires Inv(s)
    ensures Shaped(s)
  {
    ChansShaped(s.chans);
    CallersShaped(s.table.free, s.chans, s.callers);
  }

  // ---- Acquire ---------------------------------------------------------------------------

  lemma AcquireOwners(free: seq<bool>, chans: seq<Chan>, callers: map<nat, Caller>, t: nat, b: nat)
    requires |free| == |chans| == BUFFER_COUNT && OwnerInv(free, chans, callers)
    requires t !in callers && b < BUFFER_COUNT && free[b] && ChansInv(chans)
    ensures ChansInv(chans[b := chans[b].(owner := t)]) && chans[b].start == |chans[b].sub|
    ensures OwnerInv(free[b := false], chans[b := chans[b].(owner := t)], callers[t := Filling(b, [])])
  {
    assert ChanInv(chans[b], b);
    assert CallerInv(chans[b].(owner := t), Filling(b, []));
  }

  lemma AcquireKeeps(s: State, t: nat)
    requires Inv(s) && Shaped(s) && Enabled(s, Acquire(t))
    ensures Inv(After(s, Acquire(t)))
  {
    hide TableInv, ChansInv, OwnerInv, LogInv, SchedInv, InternalInv, DispInv, CountInv, FlightInv, OutInv;
    var b := AcquireId(s.table);
    AcquireFindsFree(s.table);
    AcquireTable(s.table);
    var c := s.chans[b].(owner := t);
    AcquireOwners(s.table.free, s.chans, s.callers, t, b);
    LogKept(s.chans, b, c, s.log);
    FlightKept(s.chans, b, c, s.off, Flight(s));
    OutKept(s.chans, b, c, s.ready, s.out);
  }

  // ---- Submit and BeginRelease -------------------------------------------------------------

  /** Under the client's contract the window never fills, so nothing uncollected is overwritten. */
  lemma SubmitChan(c: Chan, k: Caller, r: Req)
    requires ChanInv(c, k.buffer) && k.Filling? && CallerInv(c, k) && |k.jobs| < BUFFER_SIZE
    requires r == Req(k.buffer, |c.sub|, c.owner, |k.jobs|, r.job)
    ensures c.ring.count < BUFFER_SIZE
    ensures var c' := c.(ring := Rings.Push(c.ring, Some(r)), sub := c.sub + [r]);
      ChanInv(c', k.buffer) && CallerInv(c', Filling(k.buffer, k.jobs + [r.job]))
  {
    SubmitRoom(c, k);
    PushCleared(c.ring, Some(r), c.collected, |c.sub|);
    PushSegments(c.ring, c.sub, c.collected, |c.pos|, |c.sub|, c.sub + [r]);
    hide Segments, Cleared;
  }

  lemma SubmitRoom(c: Chan, k: Caller)
    requires ChanInv(c, k.buffer) && k.Filling? && CallerInv(c, k) && |k.jobs| < BUFFER_SIZE
    ensures RingShape(c.ring) && c.ring.count < BUFFER_SIZE && |c.sub| - c.collected < BUFFER_SIZE
  {
  }

  lemma SubmitOut(c: Chan, r: Req, ready: set<Req>, out: map<(nat, nat), seq<Octet>>, ring: Ring<Req>)
    requires r !in ready && c.collected <= |c.sub|
    ensures ChanOut(c, ready, out) ==> ChanOut(c.(ring := ring, sub := c.sub + [r]), ready, out)
  {
  }

  /** A request that is being submitted is not in flight. */
  lemma FreshRequest(chans: seq<Chan>, off: nat, flight: set<Req>, r: Req)
    requires FlightInv(chans, off, flight) && r.buffer < |chans| && r.seqNo >= |chans[r.buffer].sub|
    ensures r !in flight
  {
    assert r in flight ==> InFlight(chans, off, r);
  }

  lemma SubmitKeeps(s: State, t: nat, job: Job)
    requires Inv(s) && Shaped(s) && Enabled(s, Submit(t, job))
    ensures Inv(After(s, Submit(t, job)))
  {
    hide TableInv, ChansInv, OwnerInv, LogInv, SchedInv, InternalInv, DispInv, CountInv, FlightInv, OutInv;
    OwnBuffer(s.table.free, s.chans, s.callers, t);
    var k, r := s.callers[t], NewReq(s, t, job);
    var c := s.chans[k.buffer];
    SubmitChan(c, k, r);
    var c' := c.(ring := Rings.Push(c.ring, Some(r)), sub := c.sub + [r]);
    ChansKept(s.chans, k.buffer, c');
    OwnerKept(s.table.free, s.chans, s.callers, t, c', Filling(k.buffer, k.jobs + [job]));
    LogKept(s.chans, k.buffer, c', s.log);
    FlightKept(s.chans, k.buffer, c', s.off, Flight(s));
    FreshRequest(s.chans, s.off, Flight(s), r);
    SubmitOut(c, r, s.ready, s.out, c'.ring);
    OutKept(s.chans, k.buffer, c', s.ready, s.out);
  }

  lemma BeginReleaseKeeps(s: State, t: nat)
    requires Inv(s) && Shaped(s) && Enabled(s, BeginRelease(t))
    ensures Inv(After(s, BeginRelease(t)))
  {
    hide TableInv, ChansInv, OwnerInv, LogInv, SchedInv, InternalInv, DispInv, CountInv, FlightInv, OutInv;
    OwnBuffer(s.table.free, s.chans, s.callers, t);
    var k := s.callers[t];
    var c := s.chans[k.buffer];
    OwnerKept(s.table.free, s.chans, s.callers, t, c, Releasing(k.buffer, k.jobs, 0, c.ring.dataOut));
    assert s.chans[k.buffer := c] == s.chans;
  }

  // ---- the scheduler -------------------------------------------------------------------------

  lemma SelectKeeps(s: State, b: nat)
    requires Inv(s) && Shaped(s) && Enabled(s, Select(b))
    ensures Inv(After(s, Select(b)))
  {
    hide ChansInv, TableInv, OwnerInv, LogInv, InternalInv, DispInv, CountInv, FlightInv, OutInv, Disjoint;
  }

  function Drained(c: Chan, n: nat, base: nat): Chan
    requires RingShape(c.ring) && n <= c.ring.count
  {
    c.(ring := Drop(c.ring, n), pos := c.pos + From(base, n))
  }

  /** What is drained is the front of the waiting requests, in the order of submission. */
  lemma DrainChan(c: Chan, b: nat, n: nat, base: nat)
    requires ChanInv(c, b) && n <= c.ring.count
    ensures |c.pos| + n <= |c.sub| && Window(c.sub, |c.pos|, n) == c.sub[|c.pos|..|c.pos| + n]
    ensures Front(c.ring, n) == Somes(Window(c.sub, |c.pos|, n))
    ensures ChanInv(Drained(c, n, base), b)
  {
    FrontSegments(c.ring, c.sub, c.collected, |c.pos|, |c.sub|, n);
    DropSegments(c.ring, c.sub, c.collected, |c.pos|, |c.sub|, n);
  }

  lemma DrainOwners(free: seq<bool>, chans: seq<Chan>, callers: map<nat, Caller>, b: nat, c: Chan)
    requires |free| == |chans| == BUFFER_COUNT && OwnerInv(free, chans, callers) && b < BUFFER_COUNT
    requires c == chans[b].(ring := c.ring, pos := c.pos)
    ensures OwnerInv(free, chans[b := c], callers)
  {
    assert !free[b] ==> CallerInv(c, callers[c.owner]);
  }

  lemma DrainLog(chans: seq<Chan>, b: nat, c: Chan, log: seq<Req>, more: seq<Req>)
    requires LogInv(chans, log) && b < |chans|
    requires |chans[b].pos| + |more| <= |c.sub| && c.sub == chans[b].sub
    requires c.pos == chans[b].pos + From(|log|, |more|) && more == c.sub[|chans[b].pos|..|chans[b].pos| + |more|]
    requires forall i :: 0 <= i < |c.sub| ==> c.sub[i].buffer == b && c.sub[i].seqNo == i
    ensures LogInv(chans[b := c], log + more)
  {
    DrainChanLog(chans[b], c, log, more);
    forall k | 0 <= k < |log + more| ensures EntryInv(chans[b := c], (log + more)[k], k) {
      DrainEntry(chans, b, c, log, more, k);
    }
  }

  lemma DrainChanLog(c: Chan, c': Chan, log: seq<Req>, more: seq<Req>)
    requires ChanLog(c, log) && c'.sub == c.sub && |c.pos| + |more| <= |c.sub|
    requires c'.pos == c.pos + From(|log|, |more|) && more == c.sub[|c.pos|..|c.pos| + |more|]
    ensures ChanLog(c', log + more)
  {
  }

  lemma DrainEntry(chans: seq<Chan>, b: nat, c: Chan, log: seq<Req>, more: seq<Req>, k: nat)
    requires LogInv(chans, log) && b < |chans| && k < |log + more|
    requires |chans[b].pos| + |more| <= |c.sub| && more == c.sub[|chans[b].pos|..|chans[b].pos| + |more|]
    requires c.pos == chans[b].pos + From(|log|, |more|)
    requires forall i :: 0 <= i < |c.sub| ==> c.sub[i].buffer == b && c.sub[i].seqNo == i
    ensures EntryInv(chans[b := c], (log + more)[k], k)
  {
    hide ChanLog;
    if k < |log| {
      assert EntryInv(chans, log[k], k);
    } else {
      var i := |chans[b].pos| + (k - |log|);
      assert (log + more)[k] == c.sub[i] && c.pos[i] == k;
    }
  }

  lemma DrainFlight(chans: seq<Chan>, b: nat, c: Chan, off: nat, flight: set<Req>, base: nat, n: nat)
    requires FlightInv(chans, off, flight) && b < |chans| && off <= base
    requires c.sub == chans[b].sub && c.collected == chans[b].collected
    requires c.pos == chans[b].pos + From(base, n) && |c.pos| <= |c.sub|
    ensures FlightInv(chans[b := c], off, flight)
  {
    assert ChanFlight(chans[b], off, flight);
    forall r | r in flight ensures InFlight(chans[b := c], off, r) {
      assert InFlight(chans, off, r);
    }
  }

  lemma DrainLists(sched: Sched, disp: Disp, log: seq<Req>, pushed: nat, read: nat, off: nat, more: seq<Req>)
    requires SchedInv(sched, log, pushed) && !sched.Holding? && DispInv(disp, log, read, off)
    requires 0 < |more| <= BUFFER_SIZE
    ensures SchedInv(Holding(Somes(more)), log + more, pushed) && DispInv(disp, log + more, read, off)
    ensures off <= |log|
  {
    assert (log + more)[pushed..] == more;
    assert (log + more)[off..read] == log[off..read];
  }

  lemma DrainNumbers(c: Chan, b: nat)
    requires ChanInv(c, b)
    ensures RingShape(c.ring) && |c.pos| <= |c.sub|
    ensures forall i :: 0 <= i < |c.sub| ==> c.sub[i].buffer == b && c.sub[i].seqNo == i
  {
  }

  lemma OneChan(chans: seq<Chan>, b: nat)
    requires ChansInv(chans) && b < BUFFER_COUNT
    ensures ChanInv(chans[b], b)
  {
  }

  lemma DrainKeeps(s: State)
    requires Inv(s) && Shaped(s) && Enabled(s, Drain)
    ensures Inv(After(s, Drain))
  {
    hide ChanInv, TableInv, ChansInv, OwnerInv, LogInv, SchedInv, InternalInv, DispInv, CountInv, FlightInv, OutInv,
         From, Window, Front, Drop, ChanOut, Disjoint, RingShape;
    var b := s.sched.index;
    var c := s.chans[b];
    OneChan(s.chans, b);
    DrainNumbers(c, b);
    var n := Least(c.ring.count, BUFFER_SIZE);
    DrainChan(c, b, n, |s.log|);
    var c' := Drained(c, n, |s.log|);
    var more := Window(c.sub, |c.pos|, n);
    ChansKept(s.chans, b, c');
    DrainOwners(s.table.free, s.chans, s.callers, b, c');
    DrainLog(s.chans, b, c', s.log, more);
    DrainLists(s.sched, s.disp, s.log, s.pushed, s.read, s.off, more);
    DrainFlight(s.chans, b, c', s.off, Flight(s), |s.log|, n);
    InternalGrows(s.internal, s.log, s.read, s.pushed, more);
    SameOut(c, c', s.ready, s.out);
    OutKept(s.chans, b, c', s.ready, s.out);
  }

  lemma SameOut(c: Chan, c': Chan, ready: set<Req>, out: map<(nat, nat), seq<Octet>>)
    requires c' == c.(ring := c'.ring, pos := c'.pos)
    ensures ChanOut(c, ready, out) ==> ChanOut(c', ready, out)
  {
  }

  lemma InternalGrows(internal: Ring<Req>, log: seq<Req>, read: nat, pushed: nat, more: seq<Req>)
    requires InternalInv(internal, log, read, pushed)
    ensures InternalInv(internal, log + more, read, pushed)
  {
    LogGrows(internal, log, read, read, pushed, log + more);
  }

  lemma PushInternal(internal: Ring<Req>, sched: Sched, log: seq<Req>, read: nat, pushed: nat)
    requires InternalInv(internal, log, read, pushed) && SchedInv(sched, log, pushed) && sched.Holding?
    requires internal.count + |sched.list| <= BUFFER_SIZE
    ensures SchedInv(Idle, log, pushed + |sched.list|) && RingShape(internal)
    ensures InternalInv(PushAll(internal, sched.list), log, read, pushed + |sched.list|)
  {
    var n := |sched.list|;
    assert log[pushed..] == log[pushed..pushed + n];
    PushAllSegments(internal, log, read, read, pushed, n);
  }

  lemma PushKeeps(s: State)
    requires Inv(s) && Shaped(s) && Enabled(s, Push)
    ensures Inv(After(s, Push))
  {
    hide TableInv, ChansInv, OwnerInv, LogInv, SchedInv, InternalInv, DispInv, CountInv, FlightInv, OutInv;
    PushInternal(s.internal, s.sched, s.log, s.read, s.pushed);
  }

  // ---- the dispatcher ------------------------------------------------------------------------

  lemma ModDifference(a: int, b: int)
    requires 0 <= a - b < COUNTER_BASE
    ensures (a % COUNTER_BASE - b % COUNTER_BASE) % COUNTER_BASE == a - b
  {
  }

  lemma ModStep(a: int)
    ensures (a % COUNTER_BASE + 1) % COUNTER_BASE == (a + 1) % COUNTER_BASE
  {
  }

  /** At the throttle the unsigned difference is exactly the number in the device. */
  lemma PendingIsDevice(s: State)
    requires CountInv(s.requestCount, s.responseCount, s.disp, |s.inDevice|, s.read, s.off)
    requires DispInv(s.disp, s.log, s.read, s.off) && !s.disp.Sent?
    ensures Pending(s) == |s.inDevice| <= MAX_PENDING
  {
    ModDifference(s.off, s.off - |s.inDevice|);
  }

  lemma ThrottleKeeps(s: State)
    requires Inv(s) && Shaped(s) && Enabled(s, Throttle)
    ensures Inv(After(s, Throttle))
  {
    hide TableInv, ChansInv, OwnerInv, LogInv, SchedInv, InternalInv, FlightInv, OutInv;
    PendingIsDevice(s);
  }

  lemma ReadInternal(internal: Ring<Req>, log: seq<Req>, read: nat, pushed: nat, n: nat)
    requires InternalInv(internal, log, read, pushed) && n <= internal.count
    ensures read + n <= pushed <= |log| && RingShape(internal)
    ensures Front(internal, n) == Somes(log[read..read + n])
    ensures InternalInv(Drop(internal, n), log, read + n, pushed)
  {
    FrontSegments(internal, log, read, read, pushed, n);
    DropSegments(internal, log, read, read, pushed, n);
    ForgetSegments(Drop(internal, n), log, read, read + n, pushed, read + n);
  }

  lemma ReadDisp(disp: Disp, log: seq<Req>, read: nat, off: nat, n: nat)
    requires DispInv(disp, log, read, off) && disp.Granted? && 0 < n && read + n <= |log|
    ensures DispInv(Offloading(Somes(log[read..read + n])), log, read + n, off)
  {
  }

  lemma ReadCount(requestCount: nat, responseCount: nat, disp: Disp, waiting: nat, read: nat, off: nat,
                  list: seq<Slot<Req>>)
    requires CountInv(requestCount, responseCount, disp, waiting, read, off)
    requires disp.Granted? && read == off && |list| <= disp.max
    ensures CountInv(requestCount, responseCount, Offloading(list), waiting, read + |list|, off)
  {
  }

  lemma GrantedMeans(disp: Disp, log: seq<Req>, read: nat, off: nat)
    requires DispInv(disp, log, read, off) && disp.Granted?
    ensures read == off && 0 < disp.max
  {
  }

  lemma ReadKeeps(s: State)
    requires Inv(s) && Shaped(s) && Enabled(s, Read)
    ensures Inv(After(s, Read))
  {
    hide ChansInv, TableInv, OwnerInv, LogInv, SchedInv, InternalInv, DispInv, CountInv, FlightInv, OutInv, Disjoint;
    var n := Least(s.internal.count, s.disp.max);
    GrantedMeans(s.disp, s.log, s.read, s.off);
    ReadInternal(s.internal, s.log, s.read, s.pushed, n);
    ReadDisp(s.disp, s.log, s.read, s.off, n);
    ReadCount(s.requestCount, s.responseCount, s.disp, |s.inDevice|, s.read, s.off, Front(s.internal, n));
  }

  /** The head of the dispatcher's list is the next entry of the log. */
  lemma OffloadHead(disp: Disp, log: seq<Req>, read: nat, off: nat)
    requires DispInv(disp, log, read, off) && disp.Offloading?
    ensures off < read <= |log| && disp.list[0] == Some(log[off])
    ensures DispInv(Sent(disp.list[1..]), log, read, off + 1)
  {
    assert log[off..read][1..] == log[off + 1..read];
  }

  /** The next entry of the log is not in flight, and nothing else becomes so. */
  lemma OffloadFlight(chans: seq<Chan>, log: seq<Req>, off: nat, flight: set<Req>)
    requires LogInv(chans, log) && FlightInv(chans, off, flight) && off < |log|
    ensures log[off] !in flight && FlightInv(chans, off + 1, flight + {log[off]})
  {
    var r := log[off];
    assert EntryInv(chans, r, off);
    var c := chans[r.buffer];
    assert ChanLog(c, log) && ChanFlight(c, off, flight);
    assert c.pos[r.seqNo] == off && c.sub[r.seqNo] == r;
    assert InFlight(chans, off + 1, r);
    assert r in flight ==> InFlight(chans, off, r);
    forall x | x in flight ensures InFlight(chans, off + 1, x) {
      assert InFlight(chans, off, x);
    }
    forall b | 0 <= b < |chans| ensures ChanFlight(chans[b], off + 1, flight + {r}) {
      assert ChanLog(chans[b], log) && ChanFlight(chans[b], off, flight);
    }
  }

  lemma AddDisjoint(a: set<Req>, b: set<Req>, c: set<Req>, r: Req)
    requires Disjoint(a, b, c) && r !in a + b + c
    ensures Disjoint(a + {r}, b, c) && |a + {r}| == |a| + 1 && (a + {r}) + b + c == (a + b + c) + {r}
  {
  }

  lemma OffloadCount(requestCount: nat, responseCount: nat, disp: Disp, waiting: nat, read: nat, off: nat)
    requires CountInv(requestCount, responseCount, disp, waiting, read, off) && disp.Offloading? && off < read
    requires |disp.list| > 0
    ensures CountInv(requestCount, responseCount, Sent(disp.list[1..]), waiting + 1, read, off + 1)
  {
  }

  lemma OffloadKeeps(s: State)
    requires Inv(s) && Shaped(s) && Enabled(s, Offload)
    ensures Inv(After(s, Offload))
  {
    hide TableInv, ChansInv, OwnerInv, LogInv, SchedInv, InternalInv, DispInv, CountInv, FlightInv, OutInv, Disjoint;
    OffloadHead(s.disp, s.log, s.read, s.off);
    OffloadFlight(s.chans, s.log, s.off, Flight(s));
    var r := s.log[s.off];
    AddDisjoint(s.inDevice, s.responding, s.ready, r);
    OffloadCount(s.requestCount, s.responseCount, s.disp, |s.inDevice|, s.read, s.off);
  }

  lemma CountOffloadKeeps(s: State)
    requires Inv(s) && Shaped(s) && Enabled(s, CountOffload)
    ensures Inv(After(s, CountOffload))
  {
    hide TableInv, ChansInv, OwnerInv, LogInv, SchedInv, InternalInv, FlightInv, OutInv;
    ModStep(s.off - 1);
  }

  // ---- the callback --------------------------------------------------------------------------

  lemma AnswerCount(requestCount: nat, responseCount: nat, disp: Disp, waiting: nat, read: nat, off: nat)
    requires CountInv(requestCount, responseCount, disp, waiting, read, off) && waiting > 0
    ensures CountInv(requestCount, (responseCount + 1) % COUNTER_BASE, disp, waiting - 1, read, off)
  {
    ModStep(off - waiting);
  }

  lemma MoveDisjoint(a: set<Req>, b: set<Req>, c: set<Req>, r: Req)
    requires Disjoint(a, b, c) && r in a
    ensures Disjoint(a - {r}, b + {r}, c) && |a - {r}| == |a| - 1 && |a| > 0
    ensures (a - {r}) + (b + {r}) + c == a + b + c
  {
  }

  lemma CountResponseKeeps(s: State, r: Req)
    requires Inv(s) && Shaped(s) && Enabled(s, CountResponse(r))
    ensures Inv(After(s, CountResponse(r)))
  {
    hide TableInv, ChansInv, OwnerInv, LogInv, SchedInv, SelectedInv, InternalInv, DispInv, CountInv, FlightInv,
         OutInv, Disjoint;
    AnswerCount(s.requestCount, s.responseCount, s.disp, |s.inDevice|, s.read, s.off);
    MoveDisjoint(s.inDevice, s.responding, s.ready, r);
  }

  /** Requests of different owned buffers have different owners. */
  lemma OwnersApart(free: seq<bool>, chans: seq<Chan>, callers: map<nat, Caller>, a: nat, b: nat)
    requires |free| == |chans| == BUFFER_COUNT && OwnerInv(free, chans, callers)
    requires a < BUFFER_COUNT && b < BUFFER_COUNT && a != b && !free[a] && !free[b]
    ensures chans[a].owner != chans[b].owner
  {
  }

  /** The answer goes to an area that no other uncollected or collected request of a batch uses. */
  lemma CallbackChan(free: seq<bool>, chans: seq<Chan>, callers: map<nat, Caller>, b: nat, r: Req,
                     ready: set<Req>, out: map<(nat, nat), seq<Octet>>)
    requires |free| == BUFFER_COUNT && ChansInv(chans) && OwnerInv(free, chans, callers)
    requires b < BUFFER_COUNT && ChanOut(chans[b], ready, out)
    requires r.buffer < BUFFER_COUNT && chans[r.buffer].start <= r.seqNo < |chans[r.buffer].sub|
    requires chans[r.buffer].sub[r.seqNo] == r
    ensures ChanOut(chans[b], ready + {r}, out[(r.owner, r.area) := Work(r.job)])
  {
    var c := chans[b];
    assert ChanInv(c, b) && ChanInv(chans[r.buffer], r.buffer);
    hide ChansInv, OwnerInv, Segments, Work;
    forall i | 0 <= i < |c.sub| && c.start <= i && (i < c.collected || c.sub[i] in ready + {r})
      ensures (c.sub[i] != r ==> (c.owner, c.sub[i].area) != (r.owner, r.area))
    {
      if b != r.buffer {
        BusyWhenLive(free, chans, callers, b);
        BusyWhenLive(free, chans, callers, r.buffer);
        OwnersApart(free, chans, callers, b, r.buffer);
      }
    }
  }

  lemma BusyWhenLive(free: seq<bool>, chans: seq<Chan>, callers: map<nat, Caller>, b: nat)
    requires |free| == |chans| == BUFFER_COUNT && OwnerInv(free, chans, callers)
    requires b < BUFFER_COUNT && chans[b].start < |chans[b].sub|
    ensures !free[b]
  {
  }

  lemma CallbackOut(free: seq<bool>, chans: seq<Chan>, callers: map<nat, Caller>, r: Req,
                    off: nat, flight: set<Req>, ready: set<Req>, out: map<(nat, nat), seq<Octet>>)
    requires |free| == BUFFER_COUNT && ChansInv(chans) && OwnerInv(free, chans, callers)
    requires FlightInv(chans, off, flight) && r in flight && OutInv(chans, ready, out)
    ensures OutInv(chans, ready + {r}, out[(r.owner, r.area) := Work(r.job)])
  {
    assert InFlight(chans, off, r) && ChanInv(chans[r.buffer], r.buffer);
    hide OwnerInv, FlightInv, Segments, Work;
    forall b | 0 <= b < |chans|
      ensures ChanOut(chans[b], ready + {r}, out[(r.owner, r.area) := Work(r.job)])
    {
      CallbackChan(free, chans, callers, b, r, ready, out);
    }
  }

  lemma CallbackKeeps(s: State, r: Req)
    requires Inv(s) && Shaped(s) && Enabled(s, Callback(r))
    ensures Inv(After(s, Callback(r)))
  {
    hide ChansInv, TableInv, OwnerInv, LogInv, SchedInv, InternalInv, DispInv, CountInv, FlightInv, OutInv, Disjoint;
    CallbackOut(s.table.free, s.chans, s.callers, r, s.off, Flight(s), s.ready, s.out);
    FinishDisjoint(s.inDevice, s.responding, s.ready, r);
    assert Flight(After(s, Callback(r))) == Flight(s);
  }

  lemma FinishDisjoint(a: set<Req>, b: set<Req>, c: set<Req>, r: Req)
    requires Disjoint(a, b, c) && r in b
    ensures Disjoint(a, b - {r}, c + {r}) && a + (b - {r}) + (c + {r}) == a + b + c
  {
  }

  // ---- Collect and FinishRelease ----------------------------------------------------------------

  /** The slot under the cursor holds the oldest uncollected request. */
  lemma CollectSlot(c: Chan, k: Caller)
    requires ChanInv(c, k.buffer) && CallerInv(c, k) && k.Releasing? && k.done < |k.jobs|
    ensures c.collected < |c.sub| && c.ring.data[k.cursor] == Some(c.sub[c.collected])
  {
  }

  lemma CollectChan(c: Chan, k: Caller)
    requires ChanInv(c, k.buffer) && CallerInv(c, k) && k.Releasing? && k.done < |k.jobs|
    requires c.collected < |c.pos|
    ensures var c' := c.(ring := Erase(c.ring, k.cursor), collected := c.collected + 1);
      ChanInv(c', k.buffer)
      && CallerInv(c', Releasing(k.buffer, k.jobs, k.done + 1, (k.cursor + 1) % BUFFER_SIZE))
  {
    EraseSegments(c.ring, c.sub, c.collected, |c.pos|, |c.sub|);
    EraseCleared(c.ring, c.collected, |c.sub|);
    SlotFrom(c.collected, 1);
    hide Segments, Cleared;
  }

  lemma CollectFlight(chans: seq<Chan>, b: nat, c: Chan, off: nat, flight: set<Req>, r: Req)
    requires ChansInv(chans) && FlightInv(chans, off, flight) && b < |chans|
    requires c.sub == chans[b].sub && c.pos == chans[b].pos && c.collected == chans[b].collected + 1
    requires c.collected <= |c.sub| && r == c.sub[c.collected - 1] && r in flight
    ensures c.collected <= |c.pos| && FlightInv(chans[b := c], off, flight - {r})
  {
    var chans', flight' := chans[b := c], flight - {r};
    assert ChanInv(chans[b], b) && InFlight(chans, off, r);
    hide ChansInv, ChanInv, ChanFlight;
    forall x | x in flight' ensures InFlight(chans', off, x) {
      assert InFlight(chans, off, x);
    }
    forall a | 0 <= a < |chans'| ensures ChanFlight(chans'[a], off, flight') {
      assert ChanFlight(chans[a], off, flight);
      OthersStay(chans, a, b, r);
      CollectChanFlight(chans[a], chans'[a], off, flight, r);
    }
  }

  lemma CollectChanFlight(c: Chan, c': Chan, off: nat, flight: set<Req>, r: Req)
    requires ChanFlight(c, off, flight) && c'.sub == c.sub && c'.pos == c.pos
    requires c'.collected == c.collected || (c'.collected == c.collected + 1 <= |c.pos| && c.pos[c.collected] < off)
    requires forall i :: c'.collected <= i < |c.sub| ==> c.sub[i] != r
    ensures ChanFlight(c', off, flight - {r})
  {
  }

  lemma OthersStay(chans: seq<Chan>, a: nat, b: nat, r: Req)
    requires ChansInv(chans) && a < |chans| && b < |chans| && r.buffer == b
    ensures forall i :: 0 <= i < |chans[a].sub| && (a != b || i != r.seqNo) ==> chans[a].sub[i] != r
  {
    assert ChanInv(chans[a], a);
  }

  lemma CollectOut(chans: seq<Chan>, b: nat, c: Chan, ready: set<Req>, out: map<(nat, nat), seq<Octet>>, r: Req)
    requires OutInv(chans, ready, out) && b < |chans| && r in ready
    requires c == chans[b].(ring := c.ring, collected := chans[b].collected + 1)
    requires c.collected <= |c.sub| && r == c.sub[c.collected - 1]
    ensures OutInv(chans[b := c], ready - {r}, out)
  {
    var chans' := chans[b := c];
    forall a | 0 <= a < |chans'| ensures ChanOut(chans'[a], ready - {r}, out) {
      assert ChanOut(chans[a], ready, out);
    }
  }

  lemma CollectSelected(sched: Sched, table: Table, chans: seq<Chan>, b: nat, c: Chan)
    requires TableShape(table) && |chans| == BUFFER_COUNT && SelectedInv(sched, table, chans)
    requires b < BUFFER_COUNT && c.ring.count == chans[b].ring.count
    ensures SelectedInv(sched, table, chans[b := c])
  {
  }

  lemma CollectDisjoint(a: set<Req>, b: set<Req>, c: set<Req>, r: Req)
    requires Disjoint(a, b, c) && r in c
    ensures Disjoint(a, b, c - {r}) && a + b + (c - {r}) == (a + b + c) - {r}
  {
  }

  lemma CollectKeeps(s: State, t: nat)
    requires Inv(s) && Shaped(s) && Enabled(s, Collect(t))
    ensures Inv(After(s, Collect(t)))
  {
    hide SelectedInv, ChanOut, ChanInv, CallerInv, ChansInv, TableInv, OwnerInv, LogInv, SchedInv, InternalInv,
         DispInv, CountInv, FlightInv, OutInv, Disjoint;
    OwnBuffer(s.table.free, s.chans, s.callers, t);
    var k := s.callers[t];
    var c := s.chans[k.buffer];
    CollectSlot(c, k);
    var r := c.sub[c.collected];
    var c' := c.(ring := Erase(c.ring, k.cursor), collected := c.collected + 1);
    CollectFlight(s.chans, k.buffer, c', s.off, Flight(s), r);
    CollectChan(c, k);
    ChansKept(s.chans, k.buffer, c');
    OwnerKept(s.table.free, s.chans, s.callers, t, c',
              Releasing(k.buffer, k.jobs, k.done + 1, (k.cursor + 1) % BUFFER_SIZE));
    LogKept(s.chans, k.buffer, c', s.log);
    CollectSelected(s.sched, s.table, s.chans, k.buffer, c');
    CollectOut(s.chans, k.buffer, c', s.ready, s.out, r);
    CollectDisjoint(s.inDevice, s.responding, s.ready, r);
  }

  /** When everything is collected the buffer is empty and its three cursors coincide. */
  lemma FinishChan(c: Chan, k: Caller)
    requires ChanInv(c, k.buffer) && CallerInv(c, k) && k.Releasing? && k.done >= |k.jobs|
    ensures c.ring.count == 0 && c.ring.freeSlot == c.ring.dataSlot == k.cursor
    ensures ChanInv(c.(ring := c.ring.(dataOut := k.cursor), start := |c.sub|), k.buffer)
    ensures c.collected == |c.pos| == |c.sub| && forall j :: 0 <= j < 1024 ==> c.ring.data[j].Null?
  {
    ClearedAll(c.ring, c.collected);
  }

  lemma FinishOwners(free: seq<bool>, chans: seq<Chan>, callers: map<nat, Caller>, t: nat, c: Chan)
    requires |free| == |chans| == BUFFER_COUNT && OwnerInv(free, chans, callers) && t in callers
    requires c.start == |c.sub|
    ensures callers[t].buffer < BUFFER_COUNT
    ensures OwnerInv(free[callers[t].buffer := true], chans[callers[t].buffer := c], callers - {t})
  {
    var b := callers[t].buffer;
    var callers' := callers - {t};
    forall a | 0 <= a < BUFFER_COUNT && a != b && !free[a]
      ensures chans[a].owner in callers' && callers'[chans[a].owner] == callers[chans[a].owner]
    {
      OwnersApart(free, chans, callers, a, b);
    }
  }

  lemma FinishSelected(sched: Sched, table: Table, chans: seq<Chan>, b: nat, c: Chan)
    requires TableShape(table) && |chans| == BUFFER_COUNT && SelectedInv(sched, table, chans)
    requires b < BUFFER_COUNT && chans[b].ring.count == 0
    ensures SelectedInv(sched, Released(table, b), chans[b := c])
  {
  }

  lemma FinishReleaseKeeps(s: State, t: nat)
    requires Inv(s) && Shaped(s) && Enabled(s, FinishRelease(t))
    ensures Inv(After(s, FinishRelease(t)))
  {
    hide SelectedInv, ChansInv, TableInv, OwnerInv, LogInv, SchedInv, InternalInv, DispInv, CountInv, FlightInv,
         OutInv, Disjoint;
    OwnBuffer(s.table.free, s.chans, s.callers, t);
    var k := s.callers[t];
    var c := s.chans[k.buffer];
    FinishChan(c, k);
    var c' := c.(ring := c.ring.(dataOut := k.cursor), start := |c.sub|);
    ReleaseTable(s.table, k.buffer);
    ChansKept(s.chans, k.buffer, c');
    FinishOwners(s.table.free, s.chans, s.callers, t, c');
    FinishSelected(s.sched, s.table, s.chans, k.buffer, c');
    LogKept(s.chans, k.buffer, c', s.log);
    FlightKept(s.chans, k.buffer, c', s.off, Flight(s));
    OutKept(s.chans, k.buffer, c', s.ready, s.out);
  }

  // ---- every run ------------------------------------------------------------------------------

  lemma InitHolds()
    ensures Inv(Init())
  {
    var chans := Init().chans;
    assert ChanInv(EmptyChan(), 0);
    assert BusySet(Init().table.free) == {};
  }

  /** Every step keeps the invariant. */
  lemma StepKeeps(s: State, l: Label)
    requires Inv(s) && Shaped(s) && Enabled(s, l)
    ensures Inv(After(s, l))
  {
    hide Inv, Enabled;
    match l
    case Acquire(t) => AcquireKeeps(s, t);
    case Submit(t, job) => SubmitKeeps(s, t, job);
    case BeginRelease(t) => BeginReleaseKeeps(s, t);
    case Select(b) => SelectKeeps(s, b);
    case Drain => DrainKeeps(s);
    case Push => PushKeeps(s);
    case Throttle => ThrottleKeeps(s);
    case Read => ReadKeeps(s);
    case Offload => OffloadKeeps(s);
    case CountOffload => CountOffloadKeeps(s);
    case CountResponse(r) => CountResponseKeeps(s, r);
    case Callback(r) => CallbackKeeps(s, r);
    case Collect(t) => CollectKeeps(s, t);
    case FinishRelease(t) => FinishReleaseKeeps(s, t);
  }

  lemma {:induction false} RunKeeps(s: State, ls: seq<Label>, s': State)
    requires Inv(s) && Run(s, ls, s')
    ensures Inv(s') && Shaped(s')
    decreases |ls|
  {
    hide Inv, Shaped, Enabled;
    InvShaped(s);
    if ls != [] {
      StepKeeps(s, ls[0]);
      RunKeeps(After(s, ls[0]), ls[1..], s');
    }
  }

  /** The invariant holds in every state that any run reaches. */
  lemma Reachable(ls: seq<Label>, s: State)
    requires Run(Init(), ls, s)
    ensures Inv(s) && Shaped(s)
  {
    InitHolds();
    RunKeeps(Init(), ls, s);
  }
}
