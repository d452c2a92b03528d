/**
 The request buffers and the table of outstanding buffers: every critical
 section as a function on snapshots, the classes that carry it out in place,
 and the FIFO segments a ring stands for.
 */
module Rings {

  const BUFFER_SIZE := 1024
  const BUFFER_COUNT := 8

  /** A slot holds a request or NULL. */
  datatype Slot<+T> = Null | Some(value: T)

  function Somes<T>(xs: seq<T>): (r: seq<Slot<T>>)
    ensures |r| == |xs| && forall i :: 0 <= i < |xs| ==> r[i] == Some(xs[i])
  {
    seq(|xs|, i requires 0 <= i < |xs| => Some(xs[i]))
  }

  // ---- snapshots of a request buffer ---------------------------------------------

  datatype Ring<T> = Ring(data: seq<Slot<T>>, count: nat, freeSlot: nat, dataSlot: nat, dataOut: nat)

  predicate RingShape<T>(r: Ring<T>) {
    |r.data| == BUFFER_SIZE && r.count <= BUFFER_SIZE
    && r.freeSlot < BUFFER_SIZE && r.dataSlot < BUFFER_SIZE && r.dataOut < BUFFER_SIZE
  }

  /** submit_request after its wait. */
  function Push<T>(r: Ring<T>, x: Slot<T>): (r': Ring<T>)
    requires RingShape(r) && r.count < BUFFER_SIZE
    ensures RingShape(r')
  {
    r.(data := r.data[r.freeSlot := x], freeSlot := (r.freeSlot + 1) % BUFFER_SIZE, count := r.count + 1)
  }

  /** submit_request_list after its wait. */
  function PushAll<T>(r: Ring<T>, xs: seq<Slot<T>>): (r': Ring<T>)
    requires RingShape(r) && r.count + |xs| <= BUFFER_SIZE
    ensures RingShape(r') && r'.count == r.count + |xs|
  {
    if xs == [] then r else Push(PushAll(r, xs[..|xs| - 1]), xs[|xs| - 1])
  }

  /** The k requests that are next to be consumed. */
  function Front<T>(r: Ring<T>, k: nat): (xs: seq<Slot<T>>)
    requires RingShape(r)
    ensures |xs| == k
  {
    seq(k, i requires 0 <= i < k => r.data[(r.dataSlot + i) % BUFFER_SIZE])
  }

  /** The ring once they are consumed. */
  function Drop<T>(r: Ring<T>, k: nat): (r': Ring<T>)
    requires RingShape(r) && k <= r.count
    ensures RingShape(r')
  {
    r.(count := r.count - k, dataSlot := (r.dataSlot + k) % BUFFER_SIZE)
  }

  function Erase<T>(r: Ring<T>, slot: nat): (r': Ring<T>)
    requires RingShape(r) && slot < BUFFER_SIZE
    ensures RingShape(r')
  {
    r.(data := r.data[slot := Null])
  }

  // ---- what a ring stands for ------------------------------------------------------

  /**
   Two adjacent segments of the log of everything ever stored: log[out..head] is
   consumed but not yet collected, log[head..tail] still waits. No slot is shared.
   */
  ghost predicate Segments<T>(r: Ring<T>, log: seq<T>, out: nat, head: nat, tail: nat) {
    && RingShape(r)
    && out <= head <= tail <= |log| && tail - out <= BUFFER_SIZE
    && r.count == tail - head
    && r.freeSlot == tail % BUFFER_SIZE && r.dataSlot == head % BUFFER_SIZE
    && forall i :: out <= i < tail ==> r.data[i % BUFFER_SIZE] == Some(log[i])
  }

  /** Different positions of a window no longer than the ring use different slots. */
  lemma SlotsApart(i: nat, j: nat)
    requires i < j < i + BUFFER_SIZE
    ensures i % BUFFER_SIZE != j % BUFFER_SIZE
  {
  }

  lemma NextLap(i: nat)
    ensures (i + BUFFER_SIZE) % BUFFER_SIZE == i % BUFFER_SIZE
  {
  }

  lemma SlotFrom(head: nat, i: nat)
    ensures (head % BUFFER_SIZE + i) % BUFFER_SIZE == (head + i) % BUFFER_SIZE
  {
  }

  /** A stored request extends the waiting segment, provided an uncollected slot is free. */
  lemma PushSegments<T>(r: Ring<T>, log: seq<T>, out: nat, head: nat, tail: nat, log': seq<T>)
    requires Segments(r, log, out, head, tail) && tail - out < BUFFER_SIZE
    requires tail < |log'| && forall i :: 0 <= i < tail ==> log'[i] == log[i]
    ensures Segments(Push(r, Some(log'[tail])), log', out, head, tail + 1)
  {
    var r' := Push(r, Some(log'[tail]));
    SlotFrom(tail, 1);
    forall i | out <= i < tail + 1 ensures r'.data[i % BUFFER_SIZE] == Some(log'[i]) {
      if i < tail {
        SlotsApart(i, tail);
      }
    }
  }

  /**
   Counting only the waiting requests, submit_request alone does not protect the
   uncollected ones: a request is overwritten exactly when the window is full.
   */
  lemma PushOverwrites<T>(r: Ring<T>, log: seq<T>, out: nat, head: nat, tail: nat, x: T)
    requires Segments(r, log, out, head, tail) && r.count < BUFFER_SIZE
    requires forall i :: out <= i < tail ==> log[i] != x
    ensures (forall i :: out <= i < tail ==> Push(r, Some(x)).data[i % BUFFER_SIZE] == Some(log[i]))
       <==> tail - out < BUFFER_SIZE
  {
    if tail - out < BUFFER_SIZE {
      forall i | out <= i < tail ensures Push(r, Some(x)).data[i % BUFFER_SIZE] == Some(log[i]) {
        SlotsApart(i, tail);
      }
    } else {
      NextLap(out);
      assert tail == out + BUFFER_SIZE;
      assert Push(r, Some(x)).data[out % BUFFER_SIZE] == Some(x);
    }
  }

  lemma SomesPrefix<T>(xs: seq<T>, i: nat)
    requires i <= |xs|
    ensures Somes(xs)[..i] == Somes(xs[..i])
  {
  }

  lemma {:induction false} PushAllSegments<T>(r: Ring<T>, log: seq<T>, out: nat, head: nat, tail: nat, n: nat)
    requires Segments(r, log, out, head, tail) && tail + n <= |log| && tail + n - out <= BUFFER_SIZE
    ensures Segments(PushAll(r, Somes(log[tail..tail + n])), log, out, head, tail + n)
  {
    if n > 0 {
      var xs := log[tail..tail + n];
      PushAllSegments(r, log, out, head, tail, n - 1);
      SomesPrefix(xs, n - 1);
      assert xs[..n - 1] == log[tail..tail + n - 1] && xs[n - 1] == log[tail + n - 1];
      PushSegments(PushAll(r, Somes(log[tail..tail + n - 1])), log, out, head, tail + n - 1, log);
    } else {
      assert Somes(log[tail..tail]) == [];
    }
  }

  /** Storing one more of a list. */
  lemma PushAllStep<T>(r: Ring<T>, xs: seq<Slot<T>>, i: nat)
    requires RingShape(r) && r.count + |xs| <= BUFFER_SIZE && i < |xs|
    ensures PushAll(r, xs[..i + 1]) == Push(PushAll(r, xs[..i]), xs[i])
  {
    assert xs[..i + 1][..i] == xs[..i];
  }

  lemma PushNone<T>(r: Ring<T>)
    requires RingShape(r)
    ensures PushAll(r, []) == r
  {
  }

  lemma FrontGrows<T>(r: Ring<T>, k: nat, x: Slot<T>)
    requires RingShape(r) && x == r.data[(r.dataSlot + k) % BUFFER_SIZE]
    ensures Front(r, k + 1) == Front(r, k) + [x]
  {
  }

  /** What is consumed is the front of the waiting segment, in order. */
  lemma FrontSegments<T>(r: Ring<T>, log: seq<T>, out: nat, head: nat, tail: nat, k: nat)
    requires Segments(r, log, out, head, tail) && k <= tail - head
    ensures Front(r, k) == Somes(log[head..head + k])
  {
    forall i | 0 <= i < k ensures Front(r, k)[i] == Some(log[head + i]) {
      SlotFrom(head, i);
      assert r.data[(head + i) % BUFFER_SIZE] == Some(log[head + i]);
    }
  }

  /** A consumer takes the slots from the data cursor on, and only the count and that cursor change. */
  lemma TakenSlots<T>(r: Ring<T>, k: nat)
    requires RingShape(r) && k <= r.count
    ensures |Front(r, k)| == k && |r.data| == 1024
    ensures forall i :: r.dataSlot <= i < r.dataSlot + k ==> Front(r, k)[i - r.dataSlot] == r.data[i % 1024]
    ensures Drop(r, k).count == r.count - k && Drop(r, k).dataSlot == (r.dataSlot + k) % 1024
    ensures Drop(r, k).data == r.data && Drop(r, k).freeSlot == r.freeSlot && Drop(r, k).dataOut == r.dataOut
  {
    forall i | r.dataSlot <= i < r.dataSlot + k ensures Front(r, k)[i - r.dataSlot] == r.data[i % 1024] {
      assert r.dataSlot + (i - r.dataSlot) == i;
    }
  }

  /** Consuming k requests moves the border between the two segments. */
  lemma DropSegments<T>(r: Ring<T>, log: seq<T>, out: nat, head: nat, tail: nat, k: nat)
    requires Segments(r, log, out, head, tail) && k <= tail - head
    ensures Segments(Drop(r, k), log, out, head + k, tail)
  {
    SlotFrom(head, k);
  }

  /** Consumed requests may be forgotten where nobody collects them. */
  lemma ForgetSegments<T>(r: Ring<T>, log: seq<T>, out: nat, head: nat, tail: nat, out': nat)
    requires Segments(r, log, out, head, tail) && out <= out' <= head
    ensures Segments(r, log, out', head, tail)
  {
  }

  /** Only the stored part of the log matters. */
  lemma LogGrows<T>(r: Ring<T>, log: seq<T>, out: nat, head: nat, tail: nat, log': seq<T>)
    requires Segments(r, log, out, head, tail) && log <= log'
    ensures Segments(r, log', out, head, tail)
  {
  }

  /** A list is stored slot by slot from the free cursor on, and nothing else changes. */
  lemma {:induction false} PushAllSlots<T>(r: Ring<T>, xs: seq<Slot<T>>)
    requires RingShape(r) && r.count + |xs| <= 1024
    ensures var r' := PushAll(r, xs);
      r'.count == r.count + |xs| && r'.freeSlot == (r.freeSlot + |xs|) % 1024
      && r'.dataSlot == r.dataSlot && r'.dataOut == r.dataOut && |r'.data| == 1024
      && (forall i :: r.freeSlot <= i < r.freeSlot + |xs| ==> r'.data[i % 1024] == xs[i - r.freeSlot])
      && (forall i :: r.freeSlot + |xs| <= i < r.freeSlot + 1024 ==> r'.data[i % 1024] == r.data[i % 1024])
  {
    if xs != [] {
      var n := |xs| - 1;
      PushAllSlots(r, xs[..n]);
      SlotFrom(r.freeSlot + n, 1);
      PushAllLast(r, xs);
    }
  }

  lemma PushAllLast<T>(r: Ring<T>, xs: seq<Slot<T>>)
    requires RingShape(r) && 0 < |xs| && r.count + |xs| <= 1024
    requires PushAll(r, xs[..|xs| - 1]).freeSlot == (r.freeSlot + |xs| - 1) % 1024
    ensures var at := r.freeSlot + |xs| - 1;
      PushAll(r, xs).data[at % 1024] == xs[|xs| - 1]
      && forall i :: r.freeSlot <= i < r.freeSlot + 1024 && i != at ==>
        PushAll(r, xs).data[i % 1024] == PushAll(r, xs[..|xs| - 1]).data[i % 1024]
  {
    var at := r.freeSlot + |xs| - 1;
    forall i | r.freeSlot <= i < r.freeSlot + 1024 && i != at
      ensures PushAll(r, xs).data[i % 1024] == PushAll(r, xs[..|xs| - 1]).data[i % 1024]
    {
      if i < at {
        SlotsApart(i, at);
      } else {
        SlotsApart(at, i);
      }
    }
  }

  /** Every slot outside the window of log positions out to tail is NULL. */
  ghost predicate Cleared<T>(r: Ring<T>, out: nat, tail: nat)
    requires RingShape(r)
  {
    forall i :: tail <= i < out + BUFFER_SIZE ==> r.data[i % BUFFER_SIZE].Null?
  }

  lemma PushCleared<T>(r: Ring<T>, x: Slot<T>, out: nat, tail: nat)
    requires RingShape(r) && r.count < BUFFER_SIZE && Cleared(r, out, tail)
    requires r.freeSlot == tail % BUFFER_SIZE && out <= tail < out + BUFFER_SIZE
    ensures Cleared(Push(r, x), out, tail + 1)
  {
    forall i | tail + 1 <= i < out + BUFFER_SIZE ensures Push(r, x).data[i % BUFFER_SIZE].Null? {
      SlotsApart(tail, i);
    }
  }

  lemma EraseCleared<T>(r: Ring<T>, out: nat, tail: nat)
    requires RingShape(r) && out < tail && Cleared(r, out, tail)
    ensures Cleared(Erase(r, out % BUFFER_SIZE), out + 1, tail)
  {
    forall i | tail <= i < out + 1 + BUFFER_SIZE
      ensures Erase(r, out % BUFFER_SIZE).data[i % BUFFER_SIZE].Null?
    {
      if i == out + BUFFER_SIZE {
        NextLap(out);
      } else {
        assert r.data[i % BUFFER_SIZE].Null?;
      }
    }
  }

  /** Once everything is collected, no slot holds a request. */
  lemma ClearedAll<T>(r: Ring<T>, out: nat)
    requires RingShape(r) && Cleared(r, out, out)
    ensures forall j :: 0 <= j < 1024 ==> r.data[j].Null?
  {
    forall j | 0 <= j < 1024 ensures r.data[j].Null? {
      assert r.data[(out + (j - out) % BUFFER_SIZE) % BUFFER_SIZE].Null?;
      assert (out + (j - out) % BUFFER_SIZE) % BUFFER_SIZE == j;
    }
  }

  /** Collecting frees the oldest consumed slot. */
  lemma EraseSegments<T>(r: Ring<T>, log: seq<T>, out: nat, head: nat, tail: nat)
    requires Segments(r, log, out, head, tail) && out < head
    ensures Segments(Erase(r, out % BUFFER_SIZE), log, out + 1, head, tail)
  {
    forall i | out + 1 <= i < tail
      ensures Erase(r, out % BUFFER_SIZE).data[i % BUFFER_SIZE] == Some(log[i])
    {
      SlotsApart(out, i);
    }
  }

  // ---- the buffer object -----------------------------------------------------------

  /** HE_QAT_TaskRequestList. */
  class TaskRequestList<T> {
    var request: array<Slot<T>>
    var count: nat

    ghost predicate Valid()
      reads this, request
    {
      request.Length == BUFFER_SIZE && count <= BUFFER_SIZE
    }

    ghost function Items(): seq<Slot<T>>
      reads this, request
      requires Valid()
    {
      request[..count]
    }
  }

  /** HE_QAT_RequestBuffer; a false result means that the caller would wait. */
  class RequestBuffer<T> {
    var data: array<Slot<T>>
    var count: nat
    var nextFreeSlot: nat
    var nextDataSlot: nat
    var nextDataOut: nat

    ghost predicate Valid()
      reads this, data
    {
      data.Length == BUFFER_SIZE && RingShape(Snapshot())
    }

    ghost function Snapshot(): Ring<T>
      reads this, data
    {
      Ring(data[..], count, nextFreeSlot, nextDataSlot, nextDataOut)
    }

    /** The state acquire_qat_devices leaves. */
    constructor ()
      ensures Valid() && fresh(data)
      ensures Snapshot() == Ring(seq(BUFFER_SIZE, _ => Null), 0, 0, 0, 0)
    {
      data := new Slot<T>[BUFFER_SIZE](_ => Null);
      count, nextFreeSlot, nextDataSlot, nextDataOut := 0, 0, 0, 0;
      new;
      assert data[..] == seq(BUFFER_SIZE, _ => Null);
    }

    method SubmitRequest(x: Slot<T>) returns (ok: bool)
      requires Valid()
      modifies this, data
      ensures Valid() && data == old(data) && ok == (old(count) < BUFFER_SIZE)
      ensures Snapshot() == if ok then Push(old(Snapshot()), x) else old(Snapshot())
      ensures ok <==> old(count) < 1024
      ensures ok ==> old(nextFreeSlot) < data.Length == 1024 && data[old(nextFreeSlot)] == x
      ensures forall j :: 0 <= j < data.Length && !(ok && j == old(nextFreeSlot)) ==> data[j] == old(data[j])
      ensures ok ==> count == old(count) + 1 && nextFreeSlot == (old(nextFreeSlot) + 1) % 1024
      ensures nextDataSlot == old(nextDataSlot) && nextDataOut == old(nextDataOut)
    {
      if count >= BUFFER_SIZE {
        return false;
      }
      data[nextFreeSlot] := x;
      nextFreeSlot := (nextFreeSlot + 1) % BUFFER_SIZE;
      count := count + 1;
      return true;
    }

    method SubmitRequestList(list: TaskRequestList<T>) returns (ok: bool)
      requires Valid() && list.Valid() && list.request != data
      modifies this, data, list, list.request
      ensures Valid() && data == old(data) && list.Valid() && list.request == old(list.request)
      ensures ok <==> old(list.count) == 0 || old(count) + old(list.count) <= 1024
      ensures !ok ==> Snapshot() == old(Snapshot()) && list.Items() == old(list.Items())
      ensures ok ==> Snapshot() == PushAll(old(Snapshot()), old(list.Items())) && list.Items() == []
    {
      if list.count == 0 {
        assert list.Items() == [];
        return true;
      }
      if count >= BUFFER_SIZE || BUFFER_SIZE - count < list.count {
        return false;
      }
      ghost var before, items := Snapshot(), list.Items();
      var i := 0;
      hide PushAll;
      PushNone(before);
      assert items[..0] == [];
      while i < list.count
        invariant 0 <= i <= list.count == |items| && data == old(data) && list.request == old(list.request)
        invariant list.request.Length == BUFFER_SIZE && data.Length == BUFFER_SIZE
        invariant count == before.count && nextDataSlot == before.dataSlot && nextDataOut == before.dataOut
        invariant data[..] == PushAll(before, items[..i]).data
        invariant nextFreeSlot == PushAll(before, items[..i]).freeSlot
        invariant PushAll(before, items[..i]).dataSlot == nextDataSlot
        invariant PushAll(before, items[..i]).dataOut == nextDataOut
        invariant forall j :: i <= j < list.count ==> list.request[j] == items[j]
      {
        PushAllStep(before, items, i);
        ghost var filled := data[..];
        assert list.request[i] == items[i];
        data[nextFreeSlot] := list.request[i];
        assert data[..] == filled[nextFreeSlot := items[i]];
        nextFreeSlot := (nextFreeSlot + 1) % BUFFER_SIZE;
        list.request[i] := Null;
        i := i + 1;
      }
      assert items[..|items|] == items;
      count := count + list.count;
      list.count := 0;
      return true;
    }

    method ReadRequestList(list: TaskRequestList<T>, maxRequests: nat) returns (ok: bool)
      requires Valid() && list.Valid() && list.request != data
      modifies this, list, list.request
      ensures Valid() && data == old(data) && list.Valid() && list.request == old(list.request)
      ensures ok == (old(count) > 0)
      ensures !ok ==> Snapshot() == old(Snapshot()) && list.Items() == old(list.Items())
      ensures ok ==> var k := if old(count) < maxRequests then old(count) else maxRequests;
                     Snapshot() == Drop(old(Snapshot()), k) && list.Items() == Front(old(Snapshot()), k)
    {
      if count <= 0 {
        return false;
      }
      ghost var before := Snapshot();
      var k := if count < maxRequests then count else maxRequests;
      var i := 0;
      while i < k
        invariant 0 <= i <= k && data == old(data) && list.request == old(list.request)
        invariant data[..] == before.data && count == before.count && list.count == old(list.count)
        invariant nextFreeSlot == before.freeSlot && nextDataOut == before.dataOut
        invariant nextDataSlot == (before.dataSlot + i) % BUFFER_SIZE
        invariant data.Length == list.request.Length == BUFFER_SIZE && list.request[..i] == Front(before, i)
      {
        var x := data[nextDataSlot];
        assert x == before.data[nextDataSlot];
        list.request[i] := x;
        FrontGrows(before, i, x);
        assert list.request[..i + 1] == list.request[..i] + [x];
        SlotFrom(before.dataSlot + i, 1);
        nextDataSlot := (nextDataSlot + 1) % BUFFER_SIZE;
        i := i + 1;
      }
      list.count := k;
      count := count - k;
      return true;
    }

    /** The second half of pull_outstanding_requests, which counts down as it goes. */
    method PullRequests(list: TaskRequestList<T>, maxRequests: nat) returns (ok: bool)
      requires Valid() && list.Valid() && list.request != data
      modifies this, list, list.request
      ensures Valid() && data == old(data) && list.Valid() && list.request == old(list.request)
      ensures ok == (old(count) > 0)
      ensures !ok ==> Snapshot() == old(Snapshot()) && list.Items() == old(list.Items())
      ensures ok ==> var k := if old(count) < maxRequests then old(count) else maxRequests;
                     Snapshot() == Drop(old(Snapshot()), k) && list.Items() == Front(old(Snapshot()), k)
    {
      if count <= 0 {
        return false;
      }
      ghost var before := Snapshot();
      var k := if count < maxRequests then count else maxRequests;
      var i := 0;
      while i < k
        invariant 0 <= i <= k <= before.count && data == old(data) && list.request == old(list.request)
        invariant data[..] == before.data && count == before.count - i && list.count == old(list.count)
        invariant nextFreeSlot == before.freeSlot && nextDataOut == before.dataOut
        invariant nextDataSlot == (before.dataSlot + i) % BUFFER_SIZE
        invariant data.Length == list.request.Length == BUFFER_SIZE && list.request[..i] == Front(before, i)
      {
        var x := data[nextDataSlot];
        assert x == before.data[nextDataSlot];
        list.request[i] := x;
        FrontGrows(before, i, x);
        assert list.request[..i + 1] == list.request[..i] + [x];
        SlotFrom(before.dataSlot + i, 1);
        count := count - 1;
        nextDataSlot := nextDataSlot + 1;
        nextDataSlot := nextDataSlot % BUFFER_SIZE;
        i := i + 1;
      }
      list.count := k;
      return true;
    }

    /** The tail of one round of release_bnModExp_buffer: forget the request, advance the cursor. */
    method CollectSlot(cursor: nat) returns (next: nat)
      requires Valid() && cursor < BUFFER_SIZE
      modifies data
      ensures Valid() && Snapshot() == Erase(old(Snapshot()), cursor)
      ensures data.Length == 1024 && data[cursor].Null?
      ensures forall j :: 0 <= j < 1024 && j != cursor ==> data[j] == old(data[j])
      ensures next == if cursor == 1023 then 0 else cursor + 1
    {
      data[cursor] := Null;
      next := (cursor + 1) % BUFFER_SIZE;
    }
  }

  // ---- the table of outstanding buffers ----------------------------------------------

  datatype Table = Table(free: seq<bool>, ready: seq<bool>, busy: nat, nextFree: nat, nextReady: nat)

  predicate TableShape(t: Table) {
    |t.free| == |t.ready| == BUFFER_COUNT && t.nextFree < BUFFER_COUNT && t.nextReady < BUFFER_COUNT
  }

  /** The first free buffer in circular order, looking at `steps` of them; 0 when none is found. */
  function ScanFree(free: seq<bool>, start: nat, steps: nat): (id: nat)
    requires |free| == BUFFER_COUNT && start < BUFFER_COUNT
    ensures id < BUFFER_COUNT
    decreases steps
  {
    if steps == 0 then 0
    else if free[start] then start
    else ScanFree(free, (start + 1) % BUFFER_COUNT, steps - 1)
  }

  /** The scan from place pos of the circle stops at the first free place; at == pos + steps when it sees none. */
  lemma {:induction false} ScanStops(free: seq<bool>, pos: nat, steps: nat) returns (at: nat)
    requires |free| == BUFFER_COUNT
    ensures pos <= at <= pos + steps && forall e :: pos <= e < at ==> !free[e % 8]
    ensures ScanFree(free, pos % 8, steps) == if at < pos + steps then at % 8 else 0
    ensures at < pos + steps ==> free[at % 8]
    decreases steps
  {
    at := pos;
    if steps > 0 && !free[pos % 8] {
      assert (pos % 8 + 1) % 8 == (pos + 1) % 8;
      at := ScanStops(free, pos + 1, steps - 1);
    }
  }

  /** A full round ends at the nearest free buffer at or after start, or at buffer 0 when none is free. */
  lemma ScanNearest(free: seq<bool>, start: nat)
    requires |free| == 8 && start < 8
    ensures var id := ScanFree(free, start, 8);
      && (!free[id] ==> id == 0 && forall j :: 0 <= j < 8 ==> !free[j])
      && (start <= id ==> forall j :: start <= j < id ==> !free[j])
      && (id < start ==> forall j :: 0 <= j < 8 && (j < id || start <= j) ==> !free[j])
  {
    hide ScanFree;
    var at := ScanStops(free, start, 8);
    PlacesOfEight(free, start, at);
    assert start % 8 == start;
  }

  /** Places from start on, read as buffer numbers. */
  lemma PlacesOfEight(free: seq<bool>, start: nat, at: nat)
    requires |free| == 8 && start < 8 && start <= at <= start + 8 && forall e :: start <= e < at ==> !free[e % 8]
    ensures forall j :: start <= j < at && j < 8 ==> !free[j]
    ensures forall j :: 0 <= j < at - 8 ==> !free[j]
  {
    forall j | start <= j < at && j < 8 ensures !free[j] {
      assert !free[j % 8];
    }
    forall j | 0 <= j < at - 8 ensures !free[j] {
      assert !free[(j + 8) % 8];
    }
  }

  /** A full round finds a free buffer whenever there is one. */
  lemma {:induction false} ScanFinds(free: seq<bool>, start: nat, steps: nat, distance: nat)
    requires |free| == BUFFER_COUNT && start < BUFFER_COUNT && distance < steps
    requires free[(start + distance) % BUFFER_COUNT]
    ensures free[ScanFree(free, start, steps)]
    decreases steps
  {
    assert distance == 0 ==> (start + distance) % BUFFER_COUNT == start;
    if !free[start] {
      var next := (start + 1) % BUFFER_COUNT;
      assert (next + (distance - 1)) % BUFFER_COUNT == (start + distance) % BUFFER_COUNT;
      ScanFinds(free, next, steps - 1, distance - 1);
    }
  }

  /** acquire_bnModExp_buffer after its wait. */
  function AcquireId(t: Table): (id: nat)
    requires TableShape(t)
    ensures id < BUFFER_COUNT
  {
    ScanFree(t.free, t.nextFree, BUFFER_COUNT)
  }

  function Acquired(t: Table): (t': Table)
    requires TableShape(t)
    ensures TableShape(t')
  {
    var id := AcquireId(t);
    Table(t.free[id := false], t.ready[id := true], t.busy + 1, (id + 1) % BUFFER_COUNT, id)
  }

  /** The acquired buffer is the nearest free one from next_free_buffer on. */
  lemma AcquireNearest(t: Table)
    requires TableShape(t)
    ensures var id := AcquireId(t);
      && |t.free| == 8 && t.nextFree < 8 && id < 8
      && (!t.free[id] ==> id == 0 && forall j :: 0 <= j < 8 ==> !t.free[j])
      && (t.nextFree <= id ==> forall j :: t.nextFree <= j < id ==> !t.free[j])
      && (id < t.nextFree ==> forall j :: 0 <= j < 8 && (j < id || t.nextFree <= j) ==> !t.free[j])
  {
    ScanNearest(t.free, t.nextFree);
    hide ScanFree;
  }

  /** What acquire_bnModExp_buffer changes, flag by flag. */
  lemma AcquiredFlags(t: Table)
    requires TableShape(t)
    ensures var id, t' := AcquireId(t), Acquired(t);
      && |t'.free| == |t'.ready| == 8 && id < 8 && !t'.free[id] && t'.ready[id]
      && (forall j :: 0 <= j < 8 && j != id ==> t'.free[j] == t.free[j] && t'.ready[j] == t.ready[j])
      && t'.busy == t.busy + 1 && t'.nextReady == id && t'.nextFree == if id == 7 then 0 else id + 1
  {
    hide ScanFree, AcquireId;
  }

  /** An unsigned 32-bit decrement. */
  function Decremented(n: nat): nat {
    if n == 0 then 0xFFFFFFFF else n - 1
  }

  /** The critical section that ends release_bnModExp_buffer. */
  function Released(t: Table, id: nat): (t': Table)
    requires TableShape(t) && id < BUFFER_COUNT
    ensures TableShape(t')
  {
    t.(free := t.free[id := true], ready := t.ready[id := false], busy := Decremented(t.busy), nextFree := id)
  }

  /** The scan of pull_outstanding_requests: the lowest ready buffer with waiting requests. */
  function ScanReady(ready: seq<bool>, counts: seq<nat>, from: nat): Slot<nat>
    requires |ready| == |counts| && from <= |ready|
    decreases |ready| - from
  {
    if from == |ready| then Null
    else if ready[from] && counts[from] > 0 then Some(from)
    else ScanReady(ready, counts, from + 1)
  }

  lemma {:induction false} ScanReadySpec(ready: seq<bool>, counts: seq<nat>, from: nat)
    requires |ready| == |counts| && from <= |ready|
    ensures var s := ScanReady(ready, counts, from);
      s.Some? ==> from <= s.value < |ready| && ready[s.value] && counts[s.value] > 0
                  && forall j :: from <= j < s.value ==> !(ready[j] && counts[j] > 0)
    ensures ScanReady(ready, counts, from).Null? <==> forall j :: from <= j < |ready| ==> !(ready[j] && counts[j] > 0)
    decreases |ready| - from
  {
    if from < |ready| && !(ready[from] && counts[from] > 0) {
      ScanReadySpec(ready, counts, from + 1);
    }
  }

  /** HE_QAT_OutstandingBuffer without the buffers themselves. */
  class OutstandingTable {
    var freeBuffer: array<bool>
    var readyBuffer: array<bool>
    var busyCount: nat
    var nextFreeBuffer: nat
    var nextReadyBuffer: nat

    ghost predicate Valid()
      reads this, freeBuffer, readyBuffer
    {
      freeBuffer.Length == readyBuffer.Length == BUFFER_COUNT && freeBuffer != readyBuffer && TableShape(View())
    }

    ghost function View(): Table
      reads this, freeBuffer, readyBuffer
    {
      Table(freeBuffer[..], readyBuffer[..], busyCount, nextFreeBuffer, nextReadyBuffer)
    }

    constructor ()
      ensures Valid() && fresh(freeBuffer) && fresh(readyBuffer)
      ensures View() == Table(seq(BUFFER_COUNT, _ => true), seq(BUFFER_COUNT, _ => false), 0, 0, 0)
    {
      freeBuffer := new bool[BUFFER_COUNT](_ => true);
      readyBuffer := new bool[BUFFER_COUNT](_ => false);
      busyCount, nextFreeBuffer, nextReadyBuffer := 0, 0, 0;
      new;
      assert freeBuffer[..] == seq(BUFFER_COUNT, _ => true);
      assert readyBuffer[..] == seq(BUFFER_COUNT, _ => false);
    }

    /** acquire_bnModExp_buffer; a false result means that the caller would wait. */
    method Acquire() returns (ok: bool, id: nat)
      requires Valid()
      modifies this, freeBuffer, readyBuffer
      ensures Valid() && freeBuffer == old(freeBuffer) && readyBuffer == old(readyBuffer)
      ensures ok == (old(busyCount) < BUFFER_COUNT)
      ensures !ok ==> View() == old(View())
      ensures ok ==> id == AcquireId(old(View())) && View() == Acquired(old(View()))
      ensures ok <==> old(busyCount) < 8
    {
      if busyCount >= BUFFER_COUNT {
        return false, 0;
      }
      id := 0;
      var next: nat := nextFreeBuffer;
      var i := 0;
      ghost var before := View();
      while i < BUFFER_COUNT
        invariant 0 <= i <= BUFFER_COUNT && next < BUFFER_COUNT && id == 0
        invariant freeBuffer == old(freeBuffer) && readyBuffer == old(readyBuffer)
        invariant freeBuffer.Length == readyBuffer.Length == BUFFER_COUNT && View() == before
        invariant AcquireId(before) == ScanFree(before.free, next, BUFFER_COUNT - i)
      {
        assert before.free[next] == freeBuffer[next];
        if freeBuffer[next] {
          id := next;
          break;
        }
        next := (next + 1) % BUFFER_COUNT;
        i := i + 1;
      }
      assert id == AcquireId(before);
      freeBuffer[id] := false;
      nextFreeBuffer := (id + 1) % BUFFER_COUNT;
      nextReadyBuffer := id;
      readyBuffer[id] := true;
      busyCount := busyCount + 1;
      return true, id;
    }

    method Release(id: nat)
      requires Valid() && id < BUFFER_COUNT
      modifies this, freeBuffer, readyBuffer
      ensures Valid() && freeBuffer == old(freeBuffer) && readyBuffer == old(readyBuffer)
      ensures View() == Released(old(View()), id)
      ensures freeBuffer.Length == readyBuffer.Length == 8 && freeBuffer[id] && !readyBuffer[id]
      ensures forall j :: 0 <= j < 8 && j != id ==>
        freeBuffer[j] == old(freeBuffer[j]) && readyBuffer[j] == old(readyBuffer[j])
      ensures nextFreeBuffer == id && nextReadyBuffer == old(nextReadyBuffer)
      ensures busyCount == if old(busyCount) == 0 then 4294967295 else old(busyCount) - 1
    {
      nextFreeBuffer := id;
      readyBuffer[id] := false;
      freeBuffer[id] := true;
      busyCount := if busyCount == 0 then 0xFFFFFFFF else busyCount - 1;
    }

    /** The selection half of pull_outstanding_requests, given the counts it reads. */
    method SelectReady(counts: seq<nat>) returns (s: Slot<nat>)
      requires Valid() && |counts| == BUFFER_COUNT
      ensures s == ScanReady(View().ready, counts, 0)
      ensures s.Some? ==> s.value < readyBuffer.Length == 8 && readyBuffer[s.value] && counts[s.value] > 0
      ensures s.Some? ==> forall j :: 0 <= j < s.value ==> !(readyBuffer[j] && counts[j] > 0)
      ensures s.Null? <==> forall j :: 0 <= j < readyBuffer.Length ==> !(readyBuffer[j] && counts[j] > 0)
    {
      ScanReadySpec(View().ready, counts, 0);
      var i := 0;
      while i < BUFFER_COUNT
        invariant 0 <= i <= BUFFER_COUNT
        invariant ScanReady(View().ready, counts, 0) == ScanReady(View().ready, counts, i)
      {
        if readyBuffer[i] && counts[i] > 0 {
          return Some(i);
        }
        i := i + 1;
      }
      return Null;
    }
  }
}
