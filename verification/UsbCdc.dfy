/** Back-pressure on the USB CDC OUT endpoint: the endpoint is armed only when the receive
    ring can take a whole transfer, so that no byte is lost and the host is never stalled. */
module UsbCdc {
  import opened Bytes
  import opened Wrappers
  import Ring

  // The receive ring and the staging buffer of one transfer have the same size.
  const CAPACITY := 4096
  const STAGING := 4096

  // ---- What a session is to its two ends ----

  datatype Event = Host(data: seq<Byte>) | Consumer

  /** What the host got rid of, what the consumer got, and what is in between. */
  datatype Outcome = Outcome(accepted: seq<Byte>, delivered: seq<Byte>, queue: seq<Byte>)

  /** A transfer is taken whole when everything before it was read, and refused otherwise; the
      consumer takes the oldest byte. */
  function Next(o: Outcome, e: Event): Outcome {
    match e
    case Host(data) => if o.queue == [] then Outcome(o.accepted + data, o.delivered, data) else o
    case Consumer =>
      if o.queue == [] then o else Outcome(o.accepted, o.delivered + [o.queue[0]], o.queue[1..])
  }

  function Course(queue: seq<Byte>, events: seq<Event>): Outcome {
    if events == [] then Outcome([], [], queue)
    else Next(Course(queue, events[..|events| - 1]), events[|events| - 1])
  }

  predicate Balanced(queue: seq<Byte>, o: Outcome) { queue + o.accepted == o.delivered + o.queue }

  lemma StaysBalanced(queue: seq<Byte>, o: Outcome, e: Event)
    requires Balanced(queue, o)
    ensures Balanced(queue, Next(o, e))
  {
    match e
    case Host(data) =>
      assert queue + (o.accepted + data) == (queue + o.accepted) + data;
    case Consumer =>
      if o.queue != [] { assert o.delivered + [o.queue[0]] + o.queue[1..] == o.delivered + o.queue; }
  }

  /** The consumer gets exactly what the host got rid of, in order, but for what is in between. */
  lemma {:induction false} NothingIsLost(queue: seq<Byte>, events: seq<Event>)
    ensures Balanced(queue, Course(queue, events))
  {
    hide Next;
    if events == [] {
      assert queue + [] == [] + queue;
    } else {
      NothingIsLost(queue, events[..|events| - 1]);
      StaysBalanced(queue, Course(queue, events[..|events| - 1]), events[|events| - 1]);
    }
  }

  function Reads(n: nat): (r: seq<Event>)
    ensures |r| == n && forall i :: 0 <= i < n ==> r[i] == Consumer
  {
    seq(n, _ => Consumer)
  }

  lemma CourseNext(queue: seq<Byte>, events: seq<Event>, e: Event)
    ensures Course(queue, events + [e]) == Next(Course(queue, events), e)
  {
    hide Next;
    assert (events + [e])[..|events|] == events;
  }

  lemma ReadOne(o: Outcome, n: nat)
    requires n < |o.queue|
    ensures Next(Outcome(o.accepted, o.delivered + o.queue[..n], o.queue[n..]), Consumer)
         == Outcome(o.accepted, o.delivered + o.queue[..n + 1], o.queue[n + 1..])
  {
    assert o.queue[..n + 1] == o.queue[..n] + [o.queue[n]];
    assert o.queue[n..][1..] == o.queue[n + 1..];
  }

  lemma {:induction false} Drained(queue: seq<Byte>, events: seq<Event>, n: nat)
    requires n <= |Course(queue, events).queue|
    ensures
      var o, r := Course(queue, events), Course(queue, events + Reads(n));
      r == Outcome(o.accepted, o.delivered + o.queue[..n], o.queue[n..])
    decreases n
  {
    hide Course, Next;
    var o := Course(queue, events);
    if n == 0 {
      assert events + Reads(n) == events && o.delivered + o.queue[..0] == o.delivered && o.queue[0..] == o.queue;
    } else {
      Drained(queue, events, n - 1);
      assert events + Reads(n) == (events + Reads(n - 1)) + [Consumer];
      CourseNext(queue, events + Reads(n - 1), Consumer);
      ReadOne(o, n - 1);
    }
  }

  /** The host is never stalled for good: once the consumer has read what there is, all of it
      has been delivered and the next transfer is taken whole. */
  lemma HostIsServed(queue: seq<Byte>, events: seq<Event>, data: seq<Byte>)
    ensures
      var o := Course(queue, events);
      Course(queue, events + Reads(|o.queue|) + [Host(data)])
      == Outcome(o.accepted + data, queue + o.accepted, data)
  {
    var o := Course(queue, events);
    var drained := events + Reads(|o.queue|);
    Drained(queue, events, |o.queue|);
    NothingIsLost(queue, events);
    CourseNext(queue, drained, Host(data));
    assert o.queue[..|o.queue|] == o.queue;
  }

  // ---- The endpoint ----

  class Cdc {
    var active: bool
    const buffer: array<Byte>
    var head: nat
    var tail: nat
    var count: nat
    var rearmPending: bool
    // reads handed to the controller and not completed
    var outstanding: nat

    ghost predicate Valid()
      reads this, buffer
    {
      buffer.Length == CAPACITY && tail < CAPACITY && count <= CAPACITY && head == Ring.Slot(tail, count, CAPACITY)
    }

    ghost function Queue(): seq<Byte>
      requires Valid()
      reads this, buffer
    {
      Ring.Content(buffer[..], tail, count)
    }

    /** In a configured session exactly one of two things holds: a read is outstanding and the
        ring is empty, or none is, there are bytes to read, and reading them re-arms. */
    ghost predicate Session()
      reads this, buffer
    {
      && Valid() && active
      && (if count == 0 then outstanding == 1 && !rearmPending else outstanding == 0 && rearmPending)
    }

    constructor ()
      ensures Valid() && Queue() == [] && !active && outstanding == 0 && !rearmPending
    {
      active, head, tail, count, rearmPending, outstanding := false, 0, 0, 0, false, 0;
      buffer := new Byte[CAPACITY];
    }

    function RxRoom(): int
      reads this
    {
      CAPACITY - count
    }

    method StartRead()
      modifies this`outstanding
      ensures outstanding == old(outstanding) + 1
    {
      outstanding := outstanding + 1;
    }

    method End()
      requires Valid()
      modifies this`active, this`head, this`tail, this`count
      ensures Valid() && !active && count == 0
    {
      active, head, tail, count := false, 0, 0, 0;
    }

    /** A bus reset ends the session, and the controller forgets its reads. */
    method Reset()
      requires Valid()
      modifies this`active, this`head, this`tail, this`count, this`outstanding
      ensures Valid() && !active && count == 0 && outstanding == 0
    {
      End();
      outstanding := 0;
    }

    /** Being configured starts a session exactly if nothing is left over from another one. */
    method Configured()
      requires Valid()
      modifies this`active, this`rearmPending, this`outstanding
      ensures Valid() && active && Queue() == old(Queue())
      ensures Session() <==> old(count) == 0 && old(outstanding) == 0
    {
      active := true;
      rearmPending := false;
      StartRead();
    }

    method Put(b: Byte, ghost n: nat)
      requires buffer.Length == CAPACITY && tail < CAPACITY && n < CAPACITY && head == Ring.Slot(tail, n, CAPACITY)
      modifies this`head, buffer
      ensures head == Ring.Slot(tail, n + 1, CAPACITY)
      ensures Ring.Content(buffer[..], tail, n + 1) == Ring.Content(old(buffer[..]), tail, n) + [b]
    {
      hide Ring.Content, Ring.Slot;
      ghost var before := buffer[..];
      Ring.PutLast(before, tail, n, b);
      buffer[head] := b;
      assert buffer[..] == before[Ring.Slot(tail, n, CAPACITY) := b];
      head := Ring.Slot(head, 1, CAPACITY);
    }

    /** Takes as many bytes as there is room for; the rest would be lost. */
    method OnOutData(data: seq<Byte>)
      requires Valid()
      modifies this`head, this`count, buffer
      ensures Valid()
      ensures
        var taken := if !active then 0 else if |data| <= CAPACITY - old(count) then |data| else CAPACITY - old(count);
        Queue() == old(Queue()) + data[..taken]
    {
      if |data| == 0 || !active {
        assert data[..0] == [];
        return;
      }
      hide Ring.Content, Ring.Slot;
      var size := if |data| > CAPACITY - count then CAPACITY - count else |data|;
      ghost var n := count;
      for i := 0 to size
        invariant n + size <= CAPACITY && buffer.Length == CAPACITY && count == n
        invariant head == Ring.Slot(tail, n + i, CAPACITY)
        invariant Ring.Content(buffer[..], tail, n + i) == old(Queue()) + data[..i]
      {
        Put(data[i], n + i);
        assert data[..i + 1] == data[..i] + [data[i]];
        assert old(Queue()) + data[..i] + [data[i]] == old(Queue()) + data[..i + 1];
      }
      count := count + size;
    }

    /** A transfer that the controller completes: what it brought is in the ring, all of it. */
    method Transfer(data: seq<Byte>)
      requires Session() && outstanding > 0 && |data| <= STAGING
      modifies this`head, this`count, this`rearmPending, this`outstanding, buffer
      ensures Session() && Queue() == old(Queue()) + data
    {
      outstanding := outstanding - 1;
      // cleared first, so that the consumer cannot re-arm meanwhile
      rearmPending := false;
      OnOutData(data);
      assert data[..|data|] == data;
      // a next transfer is accepted once nothing of it could be refused
      if RxRoom() >= STAGING {
        StartRead();
      } else {
        rearmPending := true;
      }
    }

    method Read() returns (r: Option<Byte>)
      requires Session()
      modifies this`tail, this`count, this`rearmPending, this`outstanding
      ensures Session()
      ensures if old(Queue()) == [] then r == None && Queue() == []
              else r == Some(old(Queue())[0]) && Queue() == old(Queue())[1..]
    {
      if count == 0 {
        return None;
      }
      Ring.TakeFirst(buffer[..], tail, count);
      r := Some(buffer[tail]);
      tail := Ring.Slot(tail, 1, CAPACITY);
      count := count - 1;
      if rearmPending && RxRoom() >= STAGING {
        rearmPending := false;
        StartRead();
      }
    }

    /** Reading what is there re-arms the endpoint. */
    method Drain() returns (data: seq<Byte>)
      requires Session()
      modifies this`tail, this`count, this`rearmPending, this`outstanding
      ensures Session() && outstanding == 1 && data == old(Queue()) && Queue() == []
    {
      data := [];
      while count > 0
        invariant Session() && data + Queue() == old(Queue())
      {
        var b := Read();
        data := data + [b.value];
      }
    }

    /** Runs a session through a course of events. The host sends when the endpoint is armed;
        otherwise its packets are refused, and it tries again later. */
    method Run(events: seq<Event>) returns (accepted: seq<Byte>, delivered: seq<Byte>)
      requires Session() && forall i :: 0 <= i < |events| && events[i].Host? ==> |events[i].data| <= STAGING
      modifies this`head, this`tail, this`count, this`rearmPending, this`outstanding, buffer
      ensures Session() && Outcome(accepted, delivered, Queue()) == Course(old(Queue()), events)
    {
      hide Ring.Content, Ring.Slot;
      accepted, delivered := [], [];
      assert events[..0] == [];
      for i := 0 to |events|
        invariant Session() && Outcome(accepted, delivered, Queue()) == Course(old(Queue()), events[..i])
      {
        assert events[..i + 1][..i] == events[..i];
        assert outstanding > 0 <==> Queue() == [];
        match events[i] {
          case Host(data) =>
            if outstanding > 0 {
              Transfer(data);
              assert [] + data == data;
              accepted := accepted + data;
            }
          case Consumer =>
            var b := Read();
            if b.Some? { delivered := delivered + [b.value]; }
        }
      }
      assert events[..|events|] == events;
    }
  }
}
