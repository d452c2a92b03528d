/** What holds in every state that a run of the pipeline reaches. */
module PipelineSafety {
  import opened BigNum
  import opened ModExp
  import opened NumberTheory
  import opened Pipeline
  import opened PipelineInvariant
  import opened Rings

  // ---- the table of buffers -------------------------------------------------------------

  /** The count, the flags and the owners of the buffers agree, and owners never share one. */
  lemma TableConsistent(ls: seq<Label>, s: State)
    requires Run(Init(), ls, s)
    ensures Shaped(s) && s.table.busy == |BusySet(s.table.free)| <= 8
    ensures forall b :: 0 <= b < BUFFER_COUNT ==> s.table.ready[b] == !s.table.free[b]
    ensures forall b :: 0 <= b < BUFFER_COUNT ==>
      (!s.table.free[b] <==> exists t :: t in s.callers && s.callers[t].buffer == b)
    ensures forall t, u :: t in s.callers && u in s.callers && s.callers[t].buffer == s.callers[u].buffer ==> t == u
  {
    hide Run, Init;
    Reachable(ls, s);
    hide ChansInv, LogInv, SchedInv, InternalInv, DispInv, CountInv, FlightInv, OutInv, Disjoint;
    AllBuffers(s.table.free);
  }

  /** Past its wait, acquire takes a buffer that is free and holds nothing. */
  lemma AcquireTakesFree(ls: seq<Label>, s: State, t: nat)
    requires Run(Init(), ls, s) && Shaped(s) && Enabled(s, Acquire(t))
    ensures var b := AcquireId(s.table);
      s.table.free[b] && s.chans[b].ring.count == 0 && forall u :: u in s.callers ==> s.callers[u].buffer != b
  {
    hide Run, Init;
    Reachable(ls, s);
    assert TableShape(s.table);
    hide TableInv, ChansInv, OwnerInv, LogInv, SchedInv, SelectedInv, InternalInv, DispInv, CountInv, FlightInv, OutInv,
         Disjoint;
    AcquireFindsFree(s.table);
    FreeHolds(s.table.free, s.chans, s.callers, AcquireId(s.table));
  }

  lemma FreeHolds(free: seq<bool>, chans: seq<Chan>, callers: map<nat, Caller>, b: nat)
    requires |free| == BUFFER_COUNT && ChansInv(chans) && OwnerInv(free, chans, callers)
    requires b < BUFFER_COUNT && free[b]
    ensures chans[b].ring.count == 0 && forall u :: u in callers ==> callers[u].buffer != b
  {
    assert ChanInv(chans[b], b);
  }

  // ---- waits that never wait, and slots that are never empty ----------------------------

  /** A client that keeps to 1024 requests a batch never waits for a free slot. */
  lemma SubmitNeverWaits(ls: seq<Label>, s: State, t: nat, job: Job)
    requires Run(Init(), ls, s) && IsFilling(s, t) && |s.callers[t].jobs| < 1024
    ensures Shaped(s) && Enabled(s, Submit(t, job))
  {
    hide Run, Init;
    Reachable(ls, s);
    assert TableShape(s.table);
    hide TableInv, ChansInv, OwnerInv, LogInv, SchedInv, SelectedInv, InternalInv, DispInv, CountInv, FlightInv, OutInv,
         Disjoint, ChanInv, CallerInv;
    OwnBuffer(s.table.free, s.chans, s.callers, t);
    SubmitRoom(s.chans[s.callers[t].buffer], s.callers[t]);
  }

  lemma SelectedHas(sched: Sched, table: Table, chans: seq<Chan>)
    requires TableShape(table) && |chans| == BUFFER_COUNT && SelectedInv(sched, table, chans) && sched.Selected?
    ensures sched.index < BUFFER_COUNT && table.ready[sched.index] && chans[sched.index].ring.count > 0
  {
  }

  /** The selected buffer stays owned and non-empty, so draining never waits. */
  lemma DrainNeverWaits(ls: seq<Label>, s: State)
    requires Run(Init(), ls, s) && s.sched.Selected?
    ensures Shaped(s) && Enabled(s, Drain) && s.table.ready[s.sched.index]
  {
    hide Run, Init, TableInv, ChansInv, OwnerInv, LogInv, SchedInv, SelectedInv, InternalInv, DispInv, CountInv,
         FlightInv, OutInv, Disjoint;
    Reachable(ls, s);
    SelectedHas(s.sched, s.table, s.chans);
  }

  /**
   The scan finds something exactly when some buffer can be selected, and what a scan
   of unchanging counts finds can be selected.
   */
  lemma ScanSelects(s: State)
    requires Shaped(s) && s.sched.Idle? && s.table.busy > 0
    ensures var found := ScanReady(s.table.ready, Counts(s.chans), 0);
      (found.Some? ==> Enabled(s, Select(found.value))) && (found.Some? <==> exists b: nat :: Enabled(s, Select(b)))
  {
    var found := ScanReady(s.table.ready, Counts(s.chans), 0);
    ScanReadySpec(s.table.ready, Counts(s.chans), 0);
    forall b: nat | Enabled(s, Select(b)) ensures found.Some? {
      assert Counts(s.chans)[b] > 0;
    }
  }

  /** Neither the dispatcher nor a releasing caller ever meets a NULL request. */
  lemma NoNullRequest(ls: seq<Label>, s: State)
    requires Run(Init(), ls, s)
    ensures s.disp.Offloading? ==> |s.disp.list| > 0 && s.disp.list[0].Some?
    ensures s.sched.Holding? ==> forall i :: 0 <= i < |s.sched.list| ==> s.sched.list[i].Some?
    ensures Shaped(s) && forall t :: IsReleasing(s, t) && s.callers[t].done < |s.callers[t].jobs| ==>
      s.chans[s.callers[t].buffer].ring.data[s.callers[t].cursor].Some?
  {
    hide Run, Init;
    Reachable(ls, s);
    assert TableShape(s.table);
    hide TableInv, ChansInv, OwnerInv, LogInv, SchedInv, SelectedInv, InternalInv, DispInv, CountInv, FlightInv, OutInv,
         Disjoint, ChanInv, CallerInv;
    ListsHoldRequests(s.sched, s.disp, s.log, s.pushed, s.read, s.off);
    forall t | IsReleasing(s, t) && s.callers[t].done < |s.callers[t].jobs|
      ensures s.chans[s.callers[t].buffer].ring.data[s.callers[t].cursor].Some?
    {
      OwnBuffer(s.table.free, s.chans, s.callers, t);
      CollectSlot(s.chans[s.callers[t].buffer], s.callers[t]);
    }
  }

  lemma ListsHoldRequests(sched: Sched, disp: Disp, log: seq<Req>, pushed: nat, read: nat, off: nat)
    requires SchedInv(sched, log, pushed) && DispInv(disp, log, read, off)
    ensures disp.Offloading? ==> |disp.list| > 0 && disp.list[0].Some?
    ensures sched.Holding? ==> forall i :: 0 <= i < |sched.list| ==> sched.list[i].Some?
  {
  }

  // ---- throttling -----------------------------------------------------------------------------

  lemma PendingValue(off: int, sent: nat, waiting: nat, p: nat)
    requires sent <= 1 && waiting <= MAX_PENDING
    requires p == ((off - sent) % COUNTER_BASE - (off - waiting) % COUNTER_BASE) % COUNTER_BASE
    ensures p == if waiting >= sent then waiting - sent else COUNTER_BASE - 1
  {
    if waiting >= sent {
      ModDifference(off - sent, off - waiting);
    }
  }

  lemma ListOrder(disp: Disp, log: seq<Req>, read: nat, off: nat)
    requires DispInv(disp, log, read, off)
    ensures off <= read
  {
  }

  lemma PendingFacts(s: State)
    requires CountInv(s.requestCount, s.responseCount, s.disp, |s.inDevice|, s.read, s.off) && s.off <= s.read
    ensures |s.inDevice| <= MAX_PENDING && (s.disp.Granted? ==> |s.inDevice| + s.disp.max <= MAX_PENDING)
    ensures Pending(s) == if |s.inDevice| >= SentOne(s.disp) then |s.inDevice| - SentOne(s.disp) else COUNTER_BASE - 1
  {
    PendingValue(s.off, SentOne(s.disp), |s.inDevice|, Pending(s));
  }

  /**
   The device never holds more than 96 requests. The unsigned difference of
   the two counters is what the device holds, except between an offload and its being
   counted; it wraps exactly when a callback overtakes the count of the last request.
   */
  lemma DeviceBounded(ls: seq<Label>, s: State)
    requires Run(Init(), ls, s)
    ensures |s.inDevice| <= 96
    ensures !s.disp.Sent? ==> Pending(s) == |s.inDevice|
    ensures s.disp.Sent? ==> Pending(s) == if |s.inDevice| > 0 then |s.inDevice| - 1 else 18446744073709551615
    ensures s.disp.Granted? ==> |s.inDevice| + s.disp.max <= 96
  {
    hide Run, Init;
    Reachable(ls, s);
    hide TableInv, ChansInv, OwnerInv, LogInv, SchedInv, InternalInv, DispInv, CountInv, FlightInv, OutInv, Disjoint,
         Pending;
    ListOrder(s.disp, s.log, s.read, s.off);
    PendingFacts(s);
  }

  /** The throttle opens exactly when the device holds at most 48 requests, and grants what is missing to 96. */
  lemma ThrottleOpens(ls: seq<Label>, s: State)
    requires Run(Init(), ls, s) && s.disp.Check?
    ensures Shaped(s) && (Enabled(s, Throttle) <==> |s.inDevice| <= 48)
    ensures Enabled(s, Throttle) ==> After(s, Throttle) == s.(disp := Granted(96 - |s.inDevice|))
  {
    hide Run, Init, Inv, Shaped, Pending;
    Reachable(ls, s);
    DeviceBounded(ls, s);
  }

  // ---- what one step moves --------------------------------------------------------------------

  /** Draining takes everything the selected buffer has waiting, in order, and leaves it empty. */
  lemma DrainTakesAll(ls: seq<Label>, s: State)
    requires Run(Init(), ls, s) && s.sched.Selected?
    ensures Shaped(s) && Enabled(s, Drain) && s.sched.index < |s.chans| == 8
    ensures var ring, s' := s.chans[s.sched.index].ring, After(s, Drain);
      |ring.data| == 1024 && s'.sched.Holding? && |s'.sched.list| == ring.count && |s'.chans| == 8
      && s'.chans[s.sched.index].ring == ring.(count := 0, dataSlot := (ring.dataSlot + ring.count) % 1024)
      && (forall i :: ring.dataSlot <= i < ring.dataSlot + ring.count ==>
            s'.sched.list[i - ring.dataSlot] == ring.data[i % 1024])
      && forall b :: 0 <= b < 8 && b != s.sched.index ==> s'.chans[b] == s.chans[b]
  {
    hide Run, Init;
    DrainNeverWaits(ls, s);
    var ring := s.chans[s.sched.index].ring;
    assert RingShape(ring);
    TakenSlots(ring, ring.count);
    hide Drop, Front, Window, From;
  }

  /** The internal buffer takes a list exactly when all of it fits, and stores it in order. */
  lemma PushFits(s: State)
    requires Shaped(s) && s.sched.Holding? && |s.sched.list| > 0
    ensures Enabled(s, Push) <==> s.internal.count + |s.sched.list| <= 1024
    ensures Enabled(s, Push) ==> var r, r' := s.internal, After(s, Push).internal;
      After(s, Push).sched.Idle? && r'.count == r.count + |s.sched.list| && |r'.data| == 1024
      && forall i :: r.freeSlot <= i < r.freeSlot + |s.sched.list| ==>
        r'.data[i % 1024] == s.sched.list[i - r.freeSlot]
  {
    if s.internal.count + |s.sched.list| <= 1024 {
      PushAllSlots(s.internal, s.sched.list);
      hide PushAll;
    }
  }

  /** The dispatcher takes the oldest requests, as many as wait but no more than it was granted. */
  lemma ReadTakes(s: State)
    requires Shaped(s) && s.disp.Granted?
    ensures Enabled(s, Read) <==> s.internal.count > 0
    ensures Enabled(s, Read) ==> var r, s' := s.internal, After(s, Read);
      s'.disp.Offloading? && |r.data| == 1024
      && |s'.disp.list| == (if r.count <= s.disp.max then r.count else s.disp.max)
      && s'.internal.count == r.count - |s'.disp.list|
      && s'.internal.dataSlot == (r.dataSlot + |s'.disp.list|) % 1024
      && forall i :: r.dataSlot <= i < r.dataSlot + |s'.disp.list| ==>
        s'.disp.list[i - r.dataSlot] == r.data[i % 1024]
  {
    if s.internal.count > 0 {
      TakenSlots(s.internal, Least(s.internal.count, s.disp.max));
      hide Drop, Front;
    }
  }

  // ---- conservation ---------------------------------------------------------------------------

  datatype Place =
    | Outstanding(buffer: nat, k: nat)
    | Scheduler(k: nat)
    | Internal(k: nat)
    | Dispatcher(k: nat)
    | Accelerator
    | Answered
    | Completed

  /** The k-th waiting request of a ring. */
  predicate Waits(ring: Ring<Req>, k: nat, r: Req)
    requires RingShape(ring)
  {
    k < ring.count && ring.data[(ring.dataSlot + k) % BUFFER_SIZE] == Some(r)
  }

  predicate At(s: State, r: Req, p: Place)
    requires Shaped(s)
  {
    match p
    case Outstanding(b, k) => b < BUFFER_COUNT && Waits(s.chans[b].ring, k, r)
    case Scheduler(k) => s.sched.Holding? && k < |s.sched.list| && s.sched.list[k] == Some(r)
    case Internal(k) => Waits(s.internal, k, r)
    case Dispatcher(k) => (s.disp.Offloading? || s.disp.Sent?) && k < |s.disp.list| && s.disp.list[k] == Some(r)
    case Accelerator => r in s.inDevice
    case Answered => r in s.responding
    case Completed => r in s.ready
  }

  /** r was submitted and its owner has not collected it yet. */
  ghost predicate Uncollected(s: State, r: Req) {
    r.buffer < |s.chans| && var c := s.chans[r.buffer];
    c.collected <= r.seqNo < |c.sub| && c.sub[r.seqNo] == r
  }

  ghost function WhereIs(s: State, r: Req): Place
    requires Uncollected(s, r)
  {
    var c := s.chans[r.buffer];
    if r.seqNo >= |c.pos| then Outstanding(r.buffer, r.seqNo - |c.pos|)
    else
      var k := c.pos[r.seqNo];
      if k >= s.pushed then Scheduler(k - s.pushed)
      else if k >= s.read then Internal(k - s.read)
      else if k >= s.off then Dispatcher(k - s.off)
      else if r in s.inDevice then Accelerator
      else if r in s.responding then Answered
      else Completed
  }

  lemma WaitsMeans(ring: Ring<Req>, log: seq<Req>, out: nat, head: nat, tail: nat, k: nat, r: Req)
    requires Segments(ring, log, out, head, tail)
    ensures Waits(ring, k, r) <==> head + k < tail && r == log[head + k]
  {
    SlotFrom(head, k);
  }

  /** A log entry is a submitted request at the position its buffer remembers. */
  lemma LogEntry(s: State, k: nat)
    requires Inv(s) && k < |s.log|
    ensures var r := s.log[k];
      r.buffer < |s.chans| == BUFFER_COUNT && var c := s.chans[r.buffer];
      r.seqNo < |c.pos| <= |c.sub| && c.sub[r.seqNo] == r && c.pos[r.seqNo] == k
      && (k >= s.off ==> c.collected <= r.seqNo)
  {
    hide TableInv, OwnerInv, SchedInv, InternalInv, DispInv, CountInv, OutInv, Disjoint, ChanInv;
    var r := s.log[k];
    assert EntryInv(s.chans, r, k);
    assert ChanLog(s.chans[r.buffer], s.log);
    assert ChanFlight(s.chans[r.buffer], s.off, Flight(s));
  }

  /** A drained request is in the log, and once offloaded it is in flight until collected. */
  lemma DrainedRequest(s: State, r: Req)
    requires Inv(s) && Uncollected(s, r) && r.seqNo < |s.chans[r.buffer].pos|
    ensures var k := s.chans[r.buffer].pos[r.seqNo];
      k < |s.log| && s.log[k] == r && (k < s.off ==> r in Flight(s))
  {
    hide TableInv, OwnerInv, SchedInv, InternalInv, DispInv, CountInv, OutInv, Disjoint, ChanInv;
    assert ChanLog(s.chans[r.buffer], s.log);
    assert ChanFlight(s.chans[r.buffer], s.off, Flight(s));
  }

  lemma FlightRequest(s: State, r: Req)
    requires Inv(s) && r in Flight(s)
    ensures Uncollected(s, r) && r.seqNo < |s.chans[r.buffer].pos| && s.chans[r.buffer].pos[r.seqNo] < s.off
  {
    hide TableInv, OwnerInv, SchedInv, InternalInv, DispInv, CountInv, OutInv, Disjoint, ChanInv, LogInv;
    assert InFlight(s.chans, s.off, r);
  }

  /** The lists and the internal buffer, as parts of the log. */
  lemma ListsAre(s: State)
    requires Inv(s) && Shaped(s)
    ensures s.off <= s.read <= s.pushed <= |s.log|
    ensures forall k: nat, r :: At(s, r, Scheduler(k)) <==> s.pushed + k < |s.log| && r == s.log[s.pushed + k]
    ensures forall k: nat, r :: At(s, r, Internal(k)) <==> s.read + k < s.pushed && r == s.log[s.read + k]
    ensures forall k: nat, r :: At(s, r, Dispatcher(k)) <==> s.off + k < s.read && r == s.log[s.off + k]
  {
    hide TableInv, ChansInv, OwnerInv, LogInv, CountInv, FlightInv, OutInv, Disjoint;
    forall k: nat, r ensures At(s, r, Internal(k)) <==> s.read + k < s.pushed && r == s.log[s.read + k] {
      WaitsMeans(s.internal, s.log, s.read, s.read, s.pushed, k, r);
    }
  }

  /** The waiting requests of an outstanding buffer are the undrained ones. */
  lemma OutstandingAre(s: State, b: nat, k: nat, r: Req)
    requires Inv(s) && Shaped(s) && b < BUFFER_COUNT
    ensures var c := s.chans[b];
      At(s, r, Outstanding(b, k)) <==> |c.pos| + k < |c.sub| && r == c.sub[|c.pos| + k]
    ensures var c := s.chans[b];
      c.collected <= |c.pos| && forall i :: 0 <= i < |c.sub| ==> c.sub[i].buffer == b && c.sub[i].seqNo == i
    ensures |s.chans| == BUFFER_COUNT
  {
    hide TableInv, OwnerInv, LogInv, SchedInv, InternalInv, DispInv, CountInv, FlightInv, OutInv, Disjoint;
    var c := s.chans[b];
    assert ChanInv(c, b);
    WaitsMeans(c.ring, c.sub, c.collected, |c.pos|, |c.sub|, k, r);
  }

  lemma PlaceIsWhere(s: State, r: Req, p: Place)
    requires Inv(s) && Shaped(s) && At(s, r, p)
    ensures Uncollected(s, r) && p == WhereIs(s, r)
  {
    hide Inv, Waits, Shaped;
    match p {
      case Outstanding(b, k) => OutstandingAre(s, b, k, r);
      case Scheduler(k) =>
        ListsAre(s);
        assert s.pushed + k < |s.log| && r == s.log[s.pushed + k];
        LogEntry(s, s.pushed + k);
      case Internal(k) =>
        ListsAre(s);
        assert s.read + k < s.pushed && r == s.log[s.read + k];
        LogEntry(s, s.read + k);
      case Dispatcher(k) =>
        ListsAre(s);
        assert s.off + k < s.read && r == s.log[s.off + k];
        LogEntry(s, s.off + k);
      case _ =>
        ListsAre(s);
        FlightRequest(s, r);
        FlightPlace(s, r);
    }
  }

  /** The three sets of what is in flight share no request. */
  lemma FlightPlace(s: State, r: Req)
    requires Inv(s)
    ensures !(r in s.inDevice && r in s.responding) && !(r in s.responding && r in s.ready)
    ensures !(r in s.inDevice && r in s.ready)
  {
    hide TableInv, ChansInv, OwnerInv, LogInv, SchedInv, InternalInv, DispInv, CountInv, FlightInv, OutInv;
  }

  lemma WhereHolds(s: State, r: Req)
    requires Inv(s) && Shaped(s) && Uncollected(s, r)
    ensures At(s, r, WhereIs(s, r))
  {
    hide Inv, Waits;
    var c := s.chans[r.buffer];
    if r.seqNo >= |c.pos| {
      OutstandingAre(s, r.buffer, r.seqNo - |c.pos|, r);
    } else {
      ListsAre(s);
      DrainedRequest(s, r);
    }
  }

  /**
   Nothing is lost or duplicated: a request is at some place exactly when it was
   submitted and not yet collected, and it is never at two places.
   */
  lemma Conservation(ls: seq<Label>, s: State, r: Req)
    requires Run(Init(), ls, s)
    ensures Shaped(s) && (Uncollected(s, r) <==> exists p :: At(s, r, p))
    ensures forall p, q :: At(s, r, p) && At(s, r, q) ==> p == q
  {
    hide Run, Init;
    Reachable(ls, s);
    hide Inv;
    if Uncollected(s, r) {
      WhereHolds(s, r);
    }
    forall p | At(s, r, p) ensures Uncollected(s, r) && p == WhereIs(s, r) {
      PlaceIsWhere(s, r, p);
    }
  }

  // ---- order and delivery ---------------------------------------------------------------------

  /**
   Requests of one buffer reach the device in the order of submission: when one is
   offloaded, all earlier ones of its buffer were, and no later one was.
   */
  lemma OffloadInOrder(ls: seq<Label>, s: State)
    requires Run(Init(), ls, s) && Shaped(s) && Enabled(s, Offload)
    ensures var r := s.disp.list[0].value;
      Uncollected(s, r) && var c := s.chans[r.buffer];
      (forall i :: c.collected <= i < r.seqNo ==> c.sub[i] in Flight(s))
      && (forall i :: r.seqNo <= i < |c.sub| ==> c.sub[i] !in Flight(s))
  {
    hide Run, Init, Inv, Flight;
    Reachable(ls, s);
    HeadInOrder(s);
  }

  lemma HeadInOrder(s: State)
    requires Inv(s) && s.disp.Offloading?
    ensures |s.disp.list| > 0 && s.disp.list[0].Some?
    ensures var r := s.disp.list[0].value;
      Uncollected(s, r) && var c := s.chans[r.buffer];
      (forall i :: c.collected <= i < r.seqNo ==> c.sub[i] in Flight(s))
      && (forall i :: r.seqNo <= i < |c.sub| ==> c.sub[i] !in Flight(s))
  {
    hide Inv, Flight;
    HeadIs(s);
    LogEntry(s, s.off);
    OrderOf(s, s.log[s.off]);
  }

  lemma HeadIs(s: State)
    requires Inv(s) && s.disp.Offloading?
    ensures |s.disp.list| > 0 && s.off < |s.log| && s.disp.list[0] == Some(s.log[s.off])
  {
    hide TableInv, ChansInv, OwnerInv, LogInv, SchedInv, InternalInv, CountInv, FlightInv, OutInv, Disjoint;
    OffloadHead(s.disp, s.log, s.read, s.off);
  }

  lemma OrderOf(s: State, r: Req)
    requires Inv(s) && Uncollected(s, r) && r.seqNo < |s.chans[r.buffer].pos|
    requires s.chans[r.buffer].pos[r.seqNo] == s.off
    ensures var c := s.chans[r.buffer];
      (forall i :: c.collected <= i < r.seqNo ==> c.sub[i] in Flight(s))
      && (forall i :: r.seqNo <= i < |c.sub| ==> c.sub[i] !in Flight(s))
  {
    InvShaped(s);
    OutstandingAre(s, r.buffer, 0, r);
    hide TableInv, ChansInv, OwnerInv, SchedInv, InternalInv, DispInv, CountInv, OutInv, Disjoint, Shaped, At;
    ChanOrder(s.chans, r.buffer, s.log, s.off, Flight(s), r);
  }

  lemma ChanOrder(chans: seq<Chan>, b: nat, log: seq<Req>, off: nat, flight: set<Req>, r: Req)
    requires LogInv(chans, log) && FlightInv(chans, off, flight) && b < |chans|
    requires r.seqNo < |chans[b].pos| && chans[b].pos[r.seqNo] == off
    requires forall i :: 0 <= i < |chans[b].sub| ==> chans[b].sub[i].buffer == b && chans[b].sub[i].seqNo == i
    ensures var c := chans[b];
      (forall i :: c.collected <= i < r.seqNo ==> c.sub[i] in flight)
      && (forall i :: r.seqNo <= i < |c.sub| ==> c.sub[i] !in flight)
  {
    var c := chans[b];
    assert ChanLog(c, log) && ChanFlight(c, off, flight);
    forall i | r.seqNo <= i < |c.sub| ensures c.sub[i] !in flight {
      assert c.sub[i] in flight ==> InFlight(chans, off, c.sub[i]);
    }
  }

  /** The k-th area of t holds the answer of its k-th job. */
  ghost predicate Delivered(out: map<(nat, nat), seq<Octet>>, t: nat, jobs: seq<Job>) {
    forall k: nat :: k < |jobs| ==> (t, k) in out && out[(t, k)] == Work(jobs[k])
  }

  lemma FinishDelivers(s: State, t: nat, k: Caller)
    requires Inv(s) && t in s.callers && s.callers[t] == k && k.Releasing? && k.done >= |k.jobs|
    ensures k.buffer < |s.chans| && Delivered(s.out, t, k.jobs)
    ensures var c := s.chans[k.buffer];
      c.ring.count == 0 && c.ring.freeSlot == c.ring.dataSlot == k.cursor && c.collected == |c.sub|
      && |c.ring.data| == 1024 && forall j :: 0 <= j < 1024 ==> c.ring.data[j].Null?
  {
    hide LogInv, SchedInv, SelectedInv, InternalInv, DispInv, CountInv, FlightInv, Disjoint, TableInv, ChansInv,
         OwnerInv, ChanOut, ChanInv, CallerInv, Work;
    InvShaped(s);
    OwnBuffer(s.table.free, s.chans, s.callers, t);
    var c := s.chans[k.buffer];
    FinishChan(c, k);
    assert ChanOut(c, s.ready, s.out);
    DeliveredJobs(c, k, t, s.ready, s.out);
  }

  /**
   release_bnModExp_buffer returns only when every request of the batch is answered in
   its own area; the buffer is then empty, every slot of it is NULL, and its three
   cursors coincide.
   */
  lemma ReleaseDelivers(ls: seq<Label>, s: State, t: nat)
    requires Run(Init(), ls, s) && Shaped(s) && Enabled(s, FinishRelease(t))
    ensures forall k: nat :: k < |s.callers[t].jobs| ==>
      (t, k) in s.out && s.out[(t, k)] == Work(s.callers[t].jobs[k])
    ensures var ring := After(s, FinishRelease(t)).chans[s.callers[t].buffer].ring;
      ring.count == 0 && ring.freeSlot == ring.dataSlot == ring.dataOut
      && |ring.data| == 1024 && forall j :: 0 <= j < 1024 ==> ring.data[j].Null?
    ensures forall r :: Uncollected(s, r) ==> r.buffer != s.callers[t].buffer
  {
    hide Run, Init, Inv, Work;
    Reachable(ls, s);
    FinishDelivers(s, t, s.callers[t]);
  }

  lemma DeliveredJobs(c: Chan, k: Caller, t: nat, ready: set<Req>, out: map<(nat, nat), seq<Octet>>)
    requires ChanInv(c, k.buffer) && CallerInv(c, k) && c.owner == t && c.collected == |c.sub|
    requires ChanOut(c, ready, out)
    ensures Delivered(out, t, k.jobs)
  {
    hide Segments, Work;
    forall i: nat | i < |k.jobs| ensures (t, i) in out && out[(t, i)] == Work(k.jobs[i]) {
      assert c.sub[c.start + i].job == k.jobs[i];
    }
  }

  /** The jobs HE_QAT_bnModExp_MT is called with for one slice. */
  ghost predicate SliceJobs(jobs: seq<Job>, base: seq<int>, exp: seq<nat>, mod: seq<int>, offset: nat)
    requires FitsOctets(base, exp, mod) && offset + |jobs| <= |base|
  {
    var len := 4 * OctetWords(mod);
    forall i :: 0 <= i < |jobs| ==>
      jobs[i] == Job(I2osp(base[offset + i], len), I2osp(exp[offset + i], len), I2osp(mod[offset + i], len))
  }

  lemma {:induction false} AnswersAre(base: seq<int>, exp: seq<nat>, mod: seq<int>, offset: nat, n: nat, k: nat)
    requires FitsOctets(base, exp, mod) && offset + n <= |base| && k < n
    ensures Answers(base, exp, mod, offset, n)[k] == AnswerOf(base, exp, mod, offset + k)
  {
    if k < n - 1 {
      AnswersAre(base, exp, mod, offset, n - 1, k);
    }
  }

  /** A slice that goes through the pipeline finds in its areas what the batching layer reads. */
  lemma SliceThroughPipeline(ls: seq<Label>, s: State, t: nat, base: seq<int>, exp: seq<nat>, mod: seq<int>,
                             offset: nat)
    requires Run(Init(), ls, s) && Shaped(s) && Enabled(s, FinishRelease(t))
    requires FitsOctets(base, exp, mod) && offset + |s.callers[t].jobs| <= |base|
    requires SliceJobs(s.callers[t].jobs, base, exp, mod, offset)
    ensures var answers := Answers(base, exp, mod, offset, |s.callers[t].jobs|);
      forall k: nat :: k < |answers| ==> (t, k) in s.out && s.out[(t, k)] == answers[k]
  {
    var n := |s.callers[t].jobs|;
    ReleaseDelivers(ls, s, t);
    hide Run, Device;
    forall k: nat | k < n ensures (t, k) in s.out && s.out[(t, k)] == Answers(base, exp, mod, offset, n)[k] {
      AnswersAre(base, exp, mod, offset, n, k);
      SliceLane(base[offset + k], exp[offset + k], mod[offset + k], OctetWords(mod));
    }
  }

  lemma SliceLane(b: nat, e: nat, m: nat, words: nat)
    requires 0 < m < Pow(256, 4 * words)
    ensures Work(Job(I2osp(b, 4 * words), I2osp(e, 4 * words), I2osp(m, 4 * words))) == DeviceAnswer(b, e, m, words)
  {
    I2ospInverse(m, 4 * words);
  }
}
