/**
 The request pipeline as a labelled transition system. A label is one critical
 section or one unguarded action of a thread; a wait loop is the guard of the
 step behind it. Guards and effects on the program's own variables are written
 with the operations of module Rings; the fields of State and Chan marked as
 history are only ever written.
 */
module Pipeline {
  import opened BigNum
  import opened ModExp
  import opened Rings

  const PKE_SLICES := 6
  const RESTART_THRESHOLD := PKE_SLICES * BUFFER_COUNT
  const MAX_PENDING := 2 * PKE_SLICES * BUFFER_COUNT
  const COUNTER_BASE := 0x1_0000_0000_0000_0000

  /** The three operands of one modular exponentiation, as octet strings. */
  datatype Job = Job(base: seq<Octet>, exponent: seq<Octet>, modulus: seq<Octet>)

  /** What the accelerator answers; a zero modulus is outside its contract. */
  function Work(j: Job): seq<Octet> {
    if 0 < Os2ip(j.modulus) then Device(j.base, j.exponent, j.modulus) else []
  }

  /**
   A request object. The buffer and the number within the buffer name the object;
   owner and area name the memory its answer is copied to.
   */
  datatype Req = Req(buffer: nat, seqNo: nat, owner: nat, area: nat, job: Job)

  /**
   One outstanding buffer. History: everything ever submitted to it, the position
   each drained request got in the log, how many were collected, and where the
   requests of the present owner start.
   */
  datatype Chan = Chan(ring: Ring<Req>, sub: seq<Req>, pos: seq<nat>, collected: nat, start: nat, owner: nat)

  /** The scheduler thread: between rounds, after its scan, with a list in hand. */
  datatype Sched = Idle | Selected(index: nat) | Holding(list: seq<Slot<Req>>)

  /** The dispatcher thread: at the throttle, past it, offloading, about to count. */
  datatype Disp = Check | Granted(max: nat) | Offloading(list: seq<Slot<Req>>) | Sent(list: seq<Slot<Req>>)

  /** A thread that owns a buffer; jobs is what it submitted since it acquired it. */
  datatype Caller =
    | Filling(buffer: nat, jobs: seq<Job>)
    | Releasing(buffer: nat, jobs: seq<Job>, done: nat, cursor: nat)

  /** History: log, pushed, read and off count what left the outstanding buffers, in order. */
  datatype State = State(
    table: Table, chans: seq<Chan>, internal: Ring<Req>, sched: Sched, disp: Disp,
    requestCount: nat, responseCount: nat,
    inDevice: set<Req>, responding: set<Req>, ready: set<Req>,
    out: map<(nat, nat), seq<Octet>>, callers: map<nat, Caller>,
    log: seq<Req>, pushed: nat, read: nat, off: nat)

  datatype Label =
    | Acquire(t: nat)
    | Submit(t: nat, job: Job)
    | BeginRelease(t: nat)
    | Select(b: nat)
    | Drain
    | Push
    | Throttle
    | Read
    | Offload
    | CountOffload
    | CountResponse(r: Req)
    | Callback(r: Req)
    | Collect(t: nat)
    | FinishRelease(t: nat)

  /** Steps that do not depend on a caller deciding to start something. */
  predicate IsInternal(l: Label) {
    !l.Acquire? && !l.Submit? && !l.BeginRelease?
  }

  // ---- guards --------------------------------------------------------------------

  predicate Shaped(s: State) {
    && TableShape(s.table) && |s.chans| == BUFFER_COUNT && RingShape(s.internal)
    && (forall b :: 0 <= b < BUFFER_COUNT ==> RingShape(s.chans[b].ring))
    && (forall t :: t in s.callers ==> s.callers[t].buffer < BUFFER_COUNT)
    && (forall t :: t in s.callers && s.callers[t].Releasing? ==> s.callers[t].cursor < BUFFER_SIZE)
    && (s.sched.Selected? ==> s.sched.index < BUFFER_COUNT)
  }

  function Counts(chans: seq<Chan>): (r: seq<nat>)
    ensures |r| == |chans| && forall b :: 0 <= b < |chans| ==> r[b] == chans[b].ring.count
  {
    seq(|chans|, b requires 0 <= b < |chans| => chans[b].ring.count)
  }

  /** The two unsigned counters differ by this. */
  function Pending(s: State): (p: nat)
    ensures p < COUNTER_BASE
  {
    (s.requestCount - s.responseCount) % COUNTER_BASE
  }

  function Available(pending: nat): (a: nat)
    ensures a <= MAX_PENDING
  {
    MAX_PENDING - (if pending < MAX_PENDING then pending else MAX_PENDING)
  }

  function Least(a: nat, b: nat): nat {
    if a < b then a else b
  }

  predicate IsReleasing(s: State, t: nat) {
    t in s.callers && s.callers[t].Releasing?
  }

  predicate IsFilling(s: State, t: nat) {
    t in s.callers && s.callers[t].Filling?
  }

  predicate Enabled(s: State, l: Label)
    requires Shaped(s)
  {
    match l
    case Acquire(t) => t !in s.callers && s.table.busy < BUFFER_COUNT
    case Submit(t, job) =>
      IsFilling(s, t) && |s.callers[t].jobs| < BUFFER_SIZE
      && s.chans[s.callers[t].buffer].ring.count < BUFFER_SIZE
    case BeginRelease(t) => IsFilling(s, t)
    case Select(b) =>
      s.sched.Idle? && s.table.busy > 0 && b < BUFFER_COUNT && s.table.ready[b] && s.chans[b].ring.count > 0
    case Drain => s.sched.Selected? && s.chans[s.sched.index].ring.count > 0
    case Push =>
      s.sched.Holding? && |s.sched.list| > 0
      && !(s.internal.count >= BUFFER_SIZE || BUFFER_SIZE - s.internal.count < |s.sched.list|)
    case Throttle => s.disp.Check? && Available(Pending(s)) >= RESTART_THRESHOLD
    case Read => s.disp.Granted? && s.internal.count > 0
    case Offload => s.disp.Offloading? && |s.disp.list| > 0 && s.disp.list[0].Some?
    case CountOffload => s.disp.Sent?
    case CountResponse(r) => r in s.inDevice
    case Callback(r) => r in s.responding
    case Collect(t) =>
      IsReleasing(s, t) && s.callers[t].done < |s.callers[t].jobs|
      && var slot := s.chans[s.callers[t].buffer].ring.data[s.callers[t].cursor];
         slot.Some? && slot.value in s.ready
    case FinishRelease(t) => IsReleasing(s, t) && s.callers[t].done >= |s.callers[t].jobs|
  }

  // ---- effects -------------------------------------------------------------------

  /** acquire_bnModExp_buffer. */
  function AfterAcquire(s: State, t: nat): State
    requires Shaped(s) && Enabled(s, Acquire(t))
  {
    var b := AcquireId(s.table);
    s.(table := Acquired(s.table), chans := s.chans[b := s.chans[b].(owner := t)],
       callers := s.callers[t := Filling(b, [])])
  }

  function NewReq(s: State, t: nat, job: Job): Req
    requires Shaped(s) && IsFilling(s, t)
  {
    var k := s.callers[t];
    Req(k.buffer, |s.chans[k.buffer].sub|, t, |k.jobs|, job)
  }

  /** submit_request on the buffer the caller owns. */
  function AfterSubmit(s: State, t: nat, job: Job): State
    requires Shaped(s) && Enabled(s, Submit(t, job))
  {
    var k, r := s.callers[t], NewReq(s, t, job);
    var c := s.chans[k.buffer];
    s.(chans := s.chans[k.buffer := c.(ring := Rings.Push(c.ring, Some(r)), sub := c.sub + [r])],
       callers := s.callers[t := Filling(k.buffer, k.jobs + [job])])
  }

  /** release_bnModExp_buffer starts with the cursor that the buffer remembers. */
  function AfterBeginRelease(s: State, t: nat): State
    requires Shaped(s) && Enabled(s, BeginRelease(t))
  {
    var k := s.callers[t];
    s.(callers := s.callers[t := Releasing(k.buffer, k.jobs, 0, s.chans[k.buffer].ring.dataOut)])
  }

  /**
   The scan reads the counts while submissions go on, so it may end on any buffer that
   is ready and non-empty, not only on the lowest one.
   */
  function AfterSelect(s: State, b: nat): State
    requires Shaped(s) && Enabled(s, Select(b))
  {
    s.(sched := Selected(b))
  }

  /** n requests of a history from position i on. */
  function Window<T>(xs: seq<T>, i: nat, n: nat): seq<T> {
    if i + n <= |xs| then xs[i..i + n] else []
  }

  function From(n: nat, k: nat): (r: seq<nat>)
    ensures |r| == k && forall i :: 0 <= i < k ==> r[i] == n + i
  {
    seq(k, i requires 0 <= i < k => n + i)
  }

  /** The second half of pull_outstanding_requests. */
  function AfterDrain(s: State): State
    requires Shaped(s) && Enabled(s, Drain)
  {
    var b := s.sched.index;
    var c := s.chans[b];
    var n := Least(c.ring.count, BUFFER_SIZE);
    s.(sched := Holding(Front(c.ring, n)),
       chans := s.chans[b := c.(ring := Drop(c.ring, n), pos := c.pos + From(|s.log|, n))],
       log := s.log + Window(c.sub, |c.pos|, n))
  }

  /** submit_request_list on the internal buffer. */
  function AfterPush(s: State): State
    requires Shaped(s) && Enabled(s, Push)
  {
    s.(internal := PushAll(s.internal, s.sched.list), sched := Idle, pushed := s.pushed + |s.sched.list|)
  }

  function AfterThrottle(s: State): State
    requires Shaped(s) && Enabled(s, Throttle)
  {
    s.(disp := Granted(Available(Pending(s))))
  }

  /** read_request_list on the internal buffer. */
  function AfterRead(s: State): State
    requires Shaped(s) && Enabled(s, Read)
  {
    var n := Least(s.internal.count, s.disp.max);
    s.(disp := Offloading(Front(s.internal, n)), internal := Drop(s.internal, n), read := s.read + n)
  }

  /** cpaCyLnModExp accepts the next request. */
  function AfterOffload(s: State): State
    requires Shaped(s) && Enabled(s, Offload)
  {
    s.(inDevice := s.inDevice + {s.disp.list[0].value}, disp := Sent(s.disp.list[1..]), off := s.off + 1)
  }

  /** The dispatcher counts it, and goes on with its list or back to the throttle. */
  function AfterCountOffload(s: State): State
    requires Shaped(s) && Enabled(s, CountOffload)
  {
    s.(requestCount := (s.requestCount + 1) % COUNTER_BASE,
       disp := if s.disp.list == [] then Check else Offloading(s.disp.list))
  }

  /** The first critical section of HE_QAT_bnModExpCallback. */
  function AfterCountResponse(s: State, r: Req): State
    requires Shaped(s) && Enabled(s, CountResponse(r))
  {
    s.(inDevice := s.inDevice - {r}, responding := s.responding + {r},
       responseCount := (s.responseCount + 1) % COUNTER_BASE)
  }

  /** The second one: the request becomes READY and its answer is copied out. */
  function AfterCallback(s: State, r: Req): State
    requires Shaped(s) && Enabled(s, Callback(r))
  {
    s.(responding := s.responding - {r}, ready := s.ready + {r}, out := s.out[(r.owner, r.area) := Work(r.job)])
  }

  /** One round of release_bnModExp_buffer: the request object ceases to exist. */
  function AfterCollect(s: State, t: nat): State
    requires Shaped(s) && Enabled(s, Collect(t))
  {
    var k := s.callers[t];
    var c := s.chans[k.buffer];
    s.(chans := s.chans[k.buffer := c.(ring := Erase(c.ring, k.cursor), collected := c.collected + 1)],
       ready := s.ready - {c.ring.data[k.cursor].value},
       callers := s.callers[t := Releasing(k.buffer, k.jobs, k.done + 1, (k.cursor + 1) % BUFFER_SIZE)])
  }

  /** release_bnModExp_buffer stores its cursor and gives the buffer back. */
  function AfterFinishRelease(s: State, t: nat): State
    requires Shaped(s) && Enabled(s, FinishRelease(t))
  {
    var k := s.callers[t];
    var c := s.chans[k.buffer];
    s.(chans := s.chans[k.buffer := c.(ring := c.ring.(dataOut := k.cursor), start := |c.sub|)],
       table := Released(s.table, k.buffer), callers := s.callers - {t})
  }

  function After(s: State, l: Label): State
    requires Shaped(s) && Enabled(s, l)
  {
    match l
    case Acquire(t) => AfterAcquire(s, t)
    case Submit(t, job) => AfterSubmit(s, t, job)
    case BeginRelease(t) => AfterBeginRelease(s, t)
    case Select(b) => AfterSelect(s, b)
    case Drain => AfterDrain(s)
    case Push => AfterPush(s)
    case Throttle => AfterThrottle(s)
    case Read => AfterRead(s)
    case Offload => AfterOffload(s)
    case CountOffload => AfterCountOffload(s)
    case CountResponse(r) => AfterCountResponse(s, r)
    case Callback(r) => AfterCallback(s, r)
    case Collect(t) => AfterCollect(s, t)
    case FinishRelease(t) => AfterFinishRelease(s, t)
  }

  // ---- runs ----------------------------------------------------------------------

  function EmptyRing(): (r: Ring<Req>)
    ensures RingShape(r)
  {
    Ring(seq(BUFFER_SIZE, _ => Null), 0, 0, 0, 0)
  }

  function EmptyChan(): Chan {
    Chan(EmptyRing(), [], [], 0, 0, 0)
  }

  /** What acquire_qat_devices initialises. */
  function Init(): State {
    State(Table(seq(BUFFER_COUNT, _ => true), seq(BUFFER_COUNT, _ => false), 0, 0, 0),
          seq(BUFFER_COUNT, _ => EmptyChan()), EmptyRing(), Idle, Check, 0, 0, {}, {}, {}, map[], map[], [], 0, 0, 0)
  }

  ghost predicate Run(s: State, ls: seq<Label>, s': State)
    decreases |ls|
  {
    if ls == [] then s' == s
    else Shaped(s) && Enabled(s, ls[0]) && Run(After(s, ls[0]), ls[1..], s')
  }
}
