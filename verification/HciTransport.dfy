/** The virtual HCI transport: two byte queues, and the parser that cuts the H4 stream from the
    host into packets, however it is split into writes. */
module HciTransport {
  import opened Octets
  import opened Wrappers
  import Ring

  const CAPACITY := 2048
  const MAX_PAYLOAD := 255

  // ---- Queues ----

  /** How many bytes head and tail say there are; equal ones say none. */
  function Count(head: nat, tail: nat): (r: nat)
    requires head < CAPACITY && tail < CAPACITY
    ensures r < CAPACITY && Ring.Slot(head, r, CAPACITY) == tail
    ensures forall n :: 0 <= n < CAPACITY && Ring.Slot(head, n, CAPACITY) == tail ==> r == n
  {
    (tail - head + CAPACITY) % CAPACITY
  }

  function Flatten(chunks: seq<seq<Octet>>): seq<Octet> {
    if chunks == [] then [] else Flatten(chunks[..|chunks| - 1]) + chunks[|chunks| - 1]
  }

  /** What may happen to a queue. */
  datatype Event = Pushes(data: seq<Octet>) | Reads

  // ---- What a queue is to its two ends ----

  /** The packets that were taken, the bytes that were read, what is queued, and how often a
      push filled the queue to the brim. */
  datatype Outcome = Outcome(kept: seq<seq<Octet>>, read: seq<Octet>, queue: seq<Octet>, brims: nat)

  /** A push is queued whole below the capacity, lost with all that is queued at it, and
      turned away above it. */
  function Next(o: Outcome, e: Event): Outcome {
    match e
    case Pushes(data) =>
      if |o.queue| + |data| < CAPACITY then Outcome(o.kept + [data], o.read, o.queue + data, o.brims)
      else if |o.queue| + |data| == CAPACITY then Outcome(o.kept + [data], o.read, [], o.brims + 1)
      else o
    case Reads =>
      if o.queue == [] then o else Outcome(o.kept, o.read + [o.queue[0]], o.queue[1..], o.brims)
  }

  function Course(queue: seq<Octet>, events: seq<Event>): Outcome {
    if events == [] then Outcome([], [], queue, 0)
    else Next(Course(queue, events[..|events| - 1]), events[|events| - 1])
  }

  predicate Balanced(queue: seq<Octet>, o: Outcome) {
    && |queue| + |Flatten(o.kept)| == |o.read| + |o.queue| + CAPACITY * o.brims
    && (o.brims == 0 ==> queue + Flatten(o.kept) == o.read + o.queue)
  }

  lemma FlattenMore(chunks: seq<seq<Octet>>, data: seq<Octet>)
    ensures Flatten(chunks + [data]) == Flatten(chunks) + data
  {
    assert (chunks + [data])[..|chunks|] == chunks;
  }

  lemma StaysBalanced(queue: seq<Octet>, o: Outcome, e: Event)
    requires Balanced(queue, o)
    ensures Balanced(queue, Next(o, e))
  {
    hide Flatten;
    match e
    case Pushes(data) =>
      FlattenMore(o.kept, data);
      if o.brims == 0 { assert queue + (Flatten(o.kept) + data) == (queue + Flatten(o.kept)) + data; }
    case Reads =>
      if o.queue != [] { assert o.read + [o.queue[0]] + o.queue[1..] == o.read + o.queue; }
  }

  /** The bytes that are lost are those of the full queues; what is taken otherwise comes out in
      order, but for what is still queued. */
  lemma LostAtTheBrim(queue: seq<Octet>, events: seq<Event>)
    ensures
      var o := Course(queue, events);
      && |queue| + |Flatten(o.kept)| == |o.read| + |o.queue| + CAPACITY * o.brims
      && (queue + Flatten(o.kept) == o.read + o.queue <==> o.brims == 0)
  {
    hide Course, Next, Flatten;
    BalancedCourse(queue, events);
  }

  lemma {:induction false} BalancedCourse(queue: seq<Octet>, events: seq<Event>)
    ensures Balanced(queue, Course(queue, events))
  {
    if events == [] {
      assert queue + [] == [] + queue;
    } else {
      hide Next, Balanced;
      BalancedCourse(queue, events[..|events| - 1]);
      StaysBalanced(queue, Course(queue, events[..|events| - 1]), events[|events| - 1]);
    }
  }

  /** Every push leaves a place free. */
  predicate StaysBelow(queue: seq<Octet>, events: seq<Event>) {
    events != [] ==>
      var init, last := events[..|events| - 1], events[|events| - 1];
      StaysBelow(queue, init) && (last.Pushes? ==> |Course(queue, init).queue| + |last.data| < CAPACITY)
  }

  function Packets(events: seq<Event>): seq<seq<Octet>> {
    if events == [] then []
    else
      var last := events[|events| - 1];
      Packets(events[..|events| - 1]) + if last.Pushes? then [last.data] else []
  }

  /** Pushes that keep the queue below its capacity come out whole and in order: all of them. */
  lemma {:induction false} AllComeOut(queue: seq<Octet>, events: seq<Event>)
    requires StaysBelow(queue, events)
    ensures
      var o := Course(queue, events);
      o.kept == Packets(events) && queue + Flatten(Packets(events)) == o.read + o.queue
  {
    if events == [] {
    } else {
      AllComeOut(queue, events[..|events| - 1]);
    }
    NoBrim(queue, events);
    LostAtTheBrim(queue, events);
  }

  lemma {:induction false} NoBrim(queue: seq<Octet>, events: seq<Event>)
    requires StaysBelow(queue, events)
    ensures Course(queue, events).brims == 0
  {
    if events == [] {
    } else {
      NoBrim(queue, events[..|events| - 1]);
    }
  }

  lemma Counted(head: nat, tail: nat, n: nat)
    requires head < CAPACITY && tail == Ring.Slot(head, n, CAPACITY) && n <= CAPACITY
    ensures n < CAPACITY ==> Count(head, tail) == n
    ensures n == CAPACITY ==> tail == head && Count(head, tail) == 0
  {
  }

  lemma Emptied(buffer: seq<Octet>, head: nat)
    requires |buffer| == CAPACITY
    ensures Ring.Content(buffer, head, 0) == []
  {
  }

  // ---- Packets ----

  datatype Packet = Command(opcode: nat, payload: seq<Octet>) | Acl(hdlFlags: nat, payload: seq<Octet>)

  predicate Encodable(p: Packet) {
    match p
    case Command(opcode, payload) => opcode < 0x1_0000 && |payload| <= MAX_PAYLOAD
    case Acl(hdlFlags, payload) => hdlFlags < 0x1_0000 && |payload| < 0x1_0000
  }

  /** A packet on the wire: its type, its header with the length of the payload, the payload. */
  function Encode(p: Packet): seq<Octet>
    requires Encodable(p)
  {
    match p
    case Command(opcode, payload) => [1, opcode % 0x100, opcode / 0x100, |payload|] + payload
    case Acl(hdlFlags, payload) =>
      [2, hdlFlags % 0x100, hdlFlags / 0x100, |payload| % 0x100, |payload| / 0x100] + payload
  }

  predicate AllEncodable(ps: seq<Packet>) {
    forall i :: 0 <= i < |ps| ==> Encodable(ps[i]) && |ps[i].payload| <= MAX_PAYLOAD
  }

  function EncodeAll(ps: seq<Packet>): seq<Octet>
    requires AllEncodable(ps)
  {
    if ps == [] then [] else EncodeAll(ps[..|ps| - 1]) + Encode(ps[|ps| - 1])
  }

  // ---- What the parser is waiting for ----

  datatype Rx =
    | Hunt
    | CommandHeader(got: seq<Octet>)
    | CommandPayload(opcode: nat, len: nat, got: seq<Octet>)
    | AclHeader(got: seq<Octet>)
    | AclPayload(hdlFlags: nat, len: nat, got: seq<Octet>)
    | AclTooLong

  function Step(rx: Rx, b: Octet): (Rx, seq<Packet>) {
    match rx
    case Hunt => (if b == 1 then CommandHeader([]) else if b == 2 then AclHeader([]) else Hunt, [])
    case CommandHeader(got) =>
      var h := got + [b];
      if |h| < 3 then (CommandHeader(h), [])
      else
        var opcode := LE16(h[0], h[1]);
        if b == 0 then (Hunt, [Command(opcode, [])]) else (CommandPayload(opcode, b, []), [])
    case CommandPayload(opcode, len, got) =>
      var data := got + [b];
      if |data| == len then (Hunt, [Command(opcode, data)]) else (CommandPayload(opcode, len, data), [])
    case AclHeader(got) =>
      var h := got + [b];
      if |h| < 4 then (AclHeader(h), [])
      else
        var hdlFlags, len := LE16(h[0], h[1]), LE16(h[2], h[3]);
        if len == 0 then (Hunt, [Acl(hdlFlags, [])])
        else if len > MAX_PAYLOAD then (AclTooLong, [])
        else (AclPayload(hdlFlags, len, []), [])
    case AclPayload(hdlFlags, len, got) =>
      var data := got + [b];
      if |data| == len then (Hunt, [Acl(hdlFlags, data)]) else (AclPayload(hdlFlags, len, data), [])
    case AclTooLong => (AclTooLong, [])
  }

  function Parse(rx: Rx, bytes: seq<Octet>): (Rx, seq<Packet>) {
    if bytes == [] then (rx, [])
    else
      var (r, ps) := Parse(rx, bytes[..|bytes| - 1]);
      var (r', qs) := Step(r, bytes[|bytes| - 1]);
      (r', ps + qs)
  }

  lemma {:induction false} ParseConcat(rx: Rx, a: seq<Octet>, b: seq<Octet>)
    ensures Parse(rx, a + b) == (Parse(Parse(rx, a).0, b).0, Parse(rx, a).1 + Parse(Parse(rx, a).0, b).1)
  {
    hide Step;
    if b == [] {
      assert a + b == a;
      assert Parse(rx, a).1 + [] == Parse(rx, a).1;
    } else {
      var init := b[..|b| - 1];
      assert (a + b)[..|a + b| - 1] == a + init;
      ParseConcat(rx, a, init);
      var mid := Parse(Parse(rx, a).0, init);
      assert Parse(rx, a).1 + mid.1 + Step(mid.0, b[|b| - 1]).1
          == Parse(rx, a).1 + (mid.1 + Step(mid.0, b[|b| - 1]).1);
    }
  }

  lemma ParseOne(rx: Rx, b: Octet)
    ensures Parse(rx, [b]) == Step(rx, b)
  {
    hide Step;
    assert [b][..0] == [];
    assert [] + Step(rx, b).1 == Step(rx, b).1;
  }

  // ---- One packet ----

  lemma {:induction false} ParsePayload(rx: Rx, data: seq<Octet>)
    requires rx.CommandPayload? || rx.AclPayload?
    requires data != [] && |rx.got| + |data| == rx.len
    ensures Parse(rx, data) == (Hunt, [Whole(rx, data)])
    decreases |data|
  {
    hide Parse;
    assert data == [data[0]] + data[1..];
    ParseConcat(rx, [data[0]], data[1..]);
    ParseOne(rx, data[0]);
    if |data| > 1 {
      var next := Step(rx, data[0]).0;
      ParsePayload(next, data[1..]);
      assert rx.got + data == next.got + data[1..];
      assert [] + [Whole(next, data[1..])] == [Whole(rx, data)];
    } else {
      assert data == [data[0]];
    }
  }

  function Whole(rx: Rx, data: seq<Octet>): Packet
    requires rx.CommandPayload? || rx.AclPayload?
  {
    if rx.CommandPayload? then Command(rx.opcode, rx.got + data) else Acl(rx.hdlFlags, rx.got + data)
  }

  /** One more byte after bytes that completed no packet. */
  lemma ParseNext(rx: Rx, a: seq<Octet>, b: Octet)
    requires Parse(rx, a).1 == []
    ensures Parse(rx, a + [b]) == Step(Parse(rx, a).0, b)
  {
    hide Step;
    assert (a + [b])[..|a|] == a;
    var ps := Step(Parse(rx, a).0, b).1;
    assert [] + ps == ps;
  }

  /** The header brings the parser to the payload, or right to the end of the packet. */
  lemma ParseCommandHeader(opcode: nat, len: Octet)
    requires opcode < 0x1_0000
    ensures Parse(Hunt, [1, opcode % 0x100, opcode / 0x100, len]) ==
      if len == 0 then (Hunt, [Command(opcode, [])]) else (CommandPayload(opcode, len, []), [])
  {
    hide Parse;
    var lo: Octet, hi: Octet := opcode % 0x100, opcode / 0x100;
    assert [1, lo, hi, len] == [1, lo, hi] + [len] && [1, lo, hi] == [1, lo] + [hi] && [1, lo] == [1] + [lo];
    ParseOne(Hunt, 1);
    ParseNext(Hunt, [1], lo);
    assert [] + [lo] == [lo];
    ParseNext(Hunt, [1, lo], hi);
    assert [lo] + [hi] == [lo, hi];
    ParseNext(Hunt, [1, lo, hi], len);
    assert [lo, hi] + [len] == [lo, hi, len];
  }

  lemma ParseAclHeader(hdlFlags: nat, len: nat)
    requires hdlFlags < 0x1_0000 && len < 0x1_0000
    ensures Parse(Hunt, [2, hdlFlags % 0x100, hdlFlags / 0x100, len % 0x100, len / 0x100]) ==
      if len == 0 then (Hunt, [Acl(hdlFlags, [])])
      else if len > MAX_PAYLOAD then (AclTooLong, [])
      else (AclPayload(hdlFlags, len, []), [])
  {
    hide Parse;
    var lo: Octet, hi: Octet, l: Octet, h: Octet := hdlFlags % 0x100, hdlFlags / 0x100, len % 0x100, len / 0x100;
    assert [2, lo, hi, l, h] == [2, lo, hi, l] + [h] && [2, lo, hi, l] == [2, lo, hi] + [l]
        && [2, lo, hi] == [2, lo] + [hi] && [2, lo] == [2] + [lo];
    ParseOne(Hunt, 2);
    ParseNext(Hunt, [2], lo);
    assert [] + [lo] == [lo];
    ParseNext(Hunt, [2, lo], hi);
    assert [lo] + [hi] == [lo, hi];
    ParseNext(Hunt, [2, lo, hi], l);
    assert [lo, hi] + [l] == [lo, hi, l];
    ParseNext(Hunt, [2, lo, hi, l], h);
    assert [lo, hi, l] + [h] == [lo, hi, l, h];
  }

  lemma {:induction false} TooLongStays(bytes: seq<Octet>)
    ensures Parse(AclTooLong, bytes) == (AclTooLong, [])
  {
    if bytes == [] {
    } else {
      var init, last := bytes[..|bytes| - 1], bytes[|bytes| - 1];
      TooLongStays(init);
      assert init + [last] == bytes;
      ParseNext(AclTooLong, init, last);
    }
  }

  /** A packet is delivered exactly if its payload has at most 255 bytes; after a longer one,
      nothing is delivered any more. */
  lemma ParsePacket(p: Packet, more: seq<Octet>)
    requires Encodable(p)
    ensures |p.payload| <= MAX_PAYLOAD ==> Parse(Hunt, Encode(p)) == (Hunt, [p])
    ensures |p.payload| > MAX_PAYLOAD ==> Parse(Hunt, Encode(p) + more) == (AclTooLong, [])
  {
    hide Step, Parse;
    var payload, len := p.payload, |p.payload|;
    var header: seq<Octet> :=
      if p.Command? then [1, p.opcode % 0x100, p.opcode / 0x100, len]
      else [2, p.hdlFlags % 0x100, p.hdlFlags / 0x100, len % 0x100, len / 0x100];
    assert Encode(p) == header + payload;
    if p.Command? { ParseCommandHeader(p.opcode, len); } else { ParseAclHeader(p.hdlFlags, len); }
    if payload == [] {
      assert header + payload == header;
    } else if len <= MAX_PAYLOAD {
      var rx := if p.Command? then CommandPayload(p.opcode, len, []) else AclPayload(p.hdlFlags, len, []);
      ParseConcat(Hunt, header, payload);
      ParsePayload(rx, payload);
      assert [] + payload == payload && Whole(rx, payload) == p;
      assert [] + [p] == [p];
    } else {
      assert header + payload + more == header + (payload + more);
      ParseConcat(Hunt, header, payload + more);
      TooLongStays(payload + more);
      Nothing();
    }
  }

  lemma Nothing()
    ensures forall ps: seq<Packet> :: [] + ps == ps && ps + [] == ps
  {
  }

  lemma ParseNothing(rx: Rx)
    ensures Parse(rx, []) == (rx, [])
  {
  }

  /** Any sequence of packets comes out as it went in. */
  lemma {:induction false} ParsePackets(ps: seq<Packet>)
    requires AllEncodable(ps)
    ensures Parse(Hunt, EncodeAll(ps)) == (Hunt, ps)
    decreases |ps|
  {
    hide Step, Parse, Encode;
    if ps == [] {
      ParseNothing(Hunt);
    } else {
      var init, last := ps[..|ps| - 1], ps[|ps| - 1];
      ParsePackets(init);
      ParsePacket(last, []);
      ParseConcat(Hunt, EncodeAll(init), Encode(last));
      assert ps == init + [last];
    }
  }

  lemma MoveFirst(done: seq<Octet>, q: seq<Octet>, b: Octet, rest: seq<Octet>)
    requires q != [] && b == q[0] && rest == q[1..]
    ensures done + q == done + [b] + rest
  {
  }

  lemma NotEmpty(head: nat, tail: nat)
    requires head < CAPACITY && tail < CAPACITY && head != tail
    ensures Count(head, tail) > 0
  {
  }

  // ---- The queues as they run ----

  class Queue {
    const buffer: array<Octet>
    var head: nat
    var tail: nat

    ghost predicate Valid()
      reads this, buffer
    {
      buffer.Length == CAPACITY && head < CAPACITY && tail < CAPACITY
    }

    ghost function Content(): (r: seq<Octet>)
      requires Valid()
      reads this, buffer
    {
      Ring.Content(buffer[..], head, Count(head, tail))
    }

    constructor ()
      ensures Valid() && Content() == [] && fresh(buffer)
    {
      head, tail := 0, 0;
      buffer := new Octet[CAPACITY](_ => 0);
    }

    method Put(b: Octet, ghost n: nat)
      requires Valid() && n < CAPACITY && tail == Ring.Slot(head, n, CAPACITY)
      modifies this`tail, buffer
      ensures Valid() && tail == Ring.Slot(head, n + 1, CAPACITY)
      ensures Ring.Content(buffer[..], head, n + 1) == Ring.Content(old(buffer[..]), head, n) + [b]
    {
      hide Ring.Content, Ring.Slot;
      ghost var before := buffer[..];
      Ring.PutLast(before, head, n, b);
      buffer[tail] := b;
      assert buffer[..] == before[Ring.Slot(head, n, CAPACITY) := b];
      tail := Ring.Slot(tail, 1, CAPACITY);
    }

    /** Takes all bytes or none. Filling the queue to the brim makes it look empty: bytes pushed
        are kept exactly if one place stays free. */
    method Push(data: seq<Octet>) returns (accepted: nat)
      requires Valid()
      modifies this`tail, buffer
      ensures Valid()
      ensures accepted == if |old(Content())| + |data| <= CAPACITY then |data| else 0
      ensures Content() ==
        if |old(Content())| + |data| < CAPACITY then old(Content()) + data
        else if |old(Content())| + |data| == CAPACITY then []
        else old(Content())
    {
      var n := Count(head, tail);
      if n + |data| > CAPACITY {
        return 0;
      }
      hide Ring.Content, Ring.Slot, Count;
      for i := 0 to |data|
        invariant Valid() && n + |data| <= CAPACITY && tail == Ring.Slot(head, n + i, CAPACITY)
        invariant Ring.Content(buffer[..], head, n + i) == old(Content()) + data[..i]
      {
        Put(data[i], n + i);
        assert data[..i + 1] == data[..i] + [data[i]];
        assert old(Content()) + data[..i] + [data[i]] == old(Content()) + data[..i + 1];
      }
      assert data[..|data|] == data;
      Counted(head, tail, n + |data|);
      accepted := |data|;
      if n + |data| == CAPACITY { Emptied(buffer[..], head); }
    }

    method Pop() returns (b: Octet)
      requires Valid() && Content() != []
      modifies this`head
      ensures Valid() && b == old(Content())[0] && Content() == old(Content())[1..]
    {
      hide Ring.Slot;
      ghost var n := Count(head, tail);
      Ring.TakeFirst(buffer[..], head, n);
      b := buffer[head];
      head := Ring.Slot(head, 1, CAPACITY);
    }

    method Read() returns (b: Option<Octet>)
      requires Valid()
      modifies this`head
      ensures Valid()
      ensures if old(Content()) == [] then b == None && Content() == []
              else b == Some(old(Content())[0]) && Content() == old(Content())[1..]
    {
      b := None;
      if head != tail {
        NotEmpty(head, tail);
        var first := Pop();
        b := Some(first);
      }
    }

    /** Runs the queue through a course of pushes and reads. */
    method Run(events: seq<Event>) returns (kept: seq<seq<Octet>>, read: seq<Octet>, ghost brims: nat)
      requires Valid()
      modifies this, buffer
      ensures Valid() && Outcome(kept, read, Content(), brims) == Course(old(Content()), events)
    {
      hide Ring.Content, Ring.Slot;
      kept, read, brims := [], [], 0;
      assert events[..0] == [];
      for i := 0 to |events|
        invariant Valid() && Outcome(kept, read, Content(), brims) == Course(old(Content()), events[..i])
      {
        assert events[..i + 1][..i] == events[..i];
        match events[i] {
          case Pushes(data) =>
            ghost var room := CAPACITY - |Content()|;
            var accepted := Push(data);
            if accepted == |data| { kept := kept + [data]; }
            if |data| == room { brims := brims + 1; }
          case Reads =>
            var b := Read();
            if b.Some? { read := read + [b.value]; }
        }
      }
      assert events[..|events|] == events;
    }
  }

  // ---- The parser as it runs ----

  class Transport {
    const h2c: Queue
    const hdr: array<Octet>
    const payload: array<Octet>
    var state: nat
    var idx: nat
    var pktLen: nat
    var hdlFlags: nat
    // packets handed to the controller
    var delivered: seq<Packet>
    ghost var rx: Rx

    ghost predicate Valid()
      reads this, h2c, h2c.buffer, hdr, payload
    {
      && h2c.Valid() && hdr.Length == 4 && payload.Length == 0x100
      && hdr != payload && hdr != h2c.buffer && payload != h2c.buffer
      && idx < 0x100
      && match rx
         case Hunt => state == 0
         case CommandHeader(got) => state == 1 && idx == |got| < 3 && hdr[..idx] == got
         case CommandPayload(opcode, len, got) =>
           state == 2 && pktLen == len <= MAX_PAYLOAD && idx == |got| < len && payload[..idx] == got
           && opcode == LE16(hdr[0], hdr[1])
         case AclHeader(got) => state == 3 && idx == |got| < 4 && hdr[..idx] == got
         case AclPayload(h, len, got) =>
           state == 4 && pktLen == len <= MAX_PAYLOAD && idx == |got| < len && payload[..idx] == got && h == hdlFlags
         case AclTooLong => state == 4 && pktLen > MAX_PAYLOAD
    }

    constructor ()
      ensures Valid() && rx == Hunt && delivered == [] && h2c.Content() == []
    {
      h2c := new Queue();
      hdr := new Octet[4](_ => 0);
      payload := new Octet[0x100](_ => 0);
      state, idx, pktLen, hdlFlags, delivered, rx := 0, 0, 0, 0, [], Hunt;
    }

    method FeedType(b: Octet)
      requires Valid() && state == 0
      modifies this`state, this`idx, this`rx
      ensures Valid() && rx == Step(old(rx), b).0 && Step(old(rx), b).1 == []
    {
      rx := Step(rx, b).0;
      idx := 0;
      if b == 1 {
        state := 1;
      } else if b == 2 {
        state := 3;
      }
      // other bytes start no packet
      assert hdr[..0] == [];
    }

    // opcode, low byte first, and length
    method FeedCommandHeader(b: Octet)
      requires Valid() && state == 1
      modifies this`state, this`idx, this`pktLen, this`delivered, this`rx, hdr
      ensures Valid() && rx == Step(old(rx), b).0 && delivered == old(delivered) + Step(old(rx), b).1
    {
      hide LE16;
      ghost var got := hdr[..idx];
      rx := Step(rx, b).0;
      hdr[idx] := b;
      idx := (idx + 1) % 0x100;
      assert hdr[..idx] == got + [b];
      if idx == 3 {
        pktLen := hdr[2];
        idx := 0;
        assert payload[..0] == [];
        if pktLen == 0 {
          delivered := delivered + [Command(LE16(hdr[0], hdr[1]), [])];
          state := 0;
        } else {
          state := 2;
        }
      }
    }

    // bytes up to the length that the header gave
    method FeedCommandPayload(b: Octet)
      requires Valid() && state == 2
      modifies this`state, this`idx, this`delivered, this`rx, payload
      ensures Valid() && rx == Step(old(rx), b).0 && delivered == old(delivered) + Step(old(rx), b).1
    {
      hide LE16;
      ghost var got := payload[..idx];
      rx := Step(rx, b).0;
      payload[idx] := b;
      idx := (idx + 1) % 0x100;
      assert payload[..idx] == got + [b];
      if idx == pktLen {
        delivered := delivered + [Command(LE16(hdr[0], hdr[1]), payload[..pktLen])];
        state := 0;
      }
    }

    // handle with flags, and length, low bytes first
    method FeedAclHeader(b: Octet)
      requires Valid() && state == 3
      modifies this`state, this`idx, this`pktLen, this`hdlFlags, this`delivered, this`rx, hdr
      ensures Valid() && rx == Step(old(rx), b).0 && delivered == old(delivered) + Step(old(rx), b).1
    {
      hide LE16;
      ghost var got := hdr[..idx];
      rx := Step(rx, b).0;
      hdr[idx] := b;
      idx := (idx + 1) % 0x100;
      assert hdr[..idx] == got + [b];
      if idx == 4 {
        hdlFlags := LE16(hdr[0], hdr[1]);
        pktLen := LE16(hdr[2], hdr[3]);
        idx := 0;
        assert payload[..0] == [];
        if pktLen == 0 {
          delivered := delivered + [Acl(hdlFlags, [])];
          state := 0;
        } else {
          state := 4;
        }
      }
    }

    // the index counts in eight bits, so that a longer payload is never complete
    method FeedAclPayload(b: Octet)
      requires Valid() && state == 4
      modifies this`state, this`idx, this`delivered, this`rx, payload
      ensures Valid() && rx == Step(old(rx), b).0 && delivered == old(delivered) + Step(old(rx), b).1
    {
      ghost var got, n := payload[..idx], idx;
      rx := Step(rx, b).0;
      payload[idx] := b;
      idx := (idx + 1) % 0x100;
      assert payload[..n + 1] == got + [b];
      if idx == pktLen {
        delivered := delivered + [Acl(hdlFlags, payload[..pktLen])];
        state := 0;
      }
    }

    method Feed(b: Octet)
      requires Valid()
      modifies this, hdr, payload
      ensures Valid() && rx == Step(old(rx), b).0 && delivered == old(delivered) + Step(old(rx), b).1
      ensures h2c.Content() == old(h2c.Content())
    {
      hide Step;
      match state {
        case 0 => FeedType(b); assert delivered + [] == delivered;
        case 1 => FeedCommandHeader(b);
        case 2 => FeedCommandPayload(b);
        case 3 => FeedAclHeader(b);
        case _ => FeedAclPayload(b);
      }
    }

    /** Parses what is in the queue until it is empty. */
    method Pump()
      requires Valid()
      modifies this, hdr, payload, h2c`head
      ensures Valid() && h2c.Content() == []
      ensures rx == Parse(old(rx), old(h2c.Content())).0
      ensures delivered == old(delivered) + Parse(old(rx), old(h2c.Content())).1
    {
      hide Step, Parse, Ring.Content, Ring.Slot;
      ghost var all := h2c.Content();
      ghost var done: seq<Octet> := [];
      ParseNothing(rx);
      while h2c.head != h2c.tail
        invariant Valid() && done + h2c.Content() == all
        invariant rx == Parse(old(rx), done).0
        invariant delivered == old(delivered) + Parse(old(rx), done).1
        decreases |h2c.Content()|
      {
        NotEmpty(h2c.head, h2c.tail);
        ghost var q := h2c.Content();
        var b := h2c.Pop();
        MoveFirst(done, q, b, h2c.Content());
        Feed(b);
        ParseConcat(old(rx), done, [b]);
        ParseOne(Parse(old(rx), done).0, b);
        done := done + [b];
      }
      assert done + [] == done && done == all;
    }

    /** One write from the host. */
    method Write(data: seq<Octet>) returns (accepted: nat)
      requires Valid() && h2c.Content() == []
      modifies this, hdr, payload, h2c, h2c.buffer
      ensures Valid() && h2c.Content() == []
      ensures |data| < CAPACITY ==>
                && accepted == |data| && rx == Parse(old(rx), data).0
                && delivered == old(delivered) + Parse(old(rx), data).1
      ensures |data| >= CAPACITY ==>
                && accepted == (if |data| == CAPACITY then |data| else 0)
                && rx == old(rx) && delivered == old(delivered)
    {
      hide Step, Parse, Ring.Content, Ring.Slot;
      ParseNothing(rx);
      assert [] + data == data;
      accepted := h2c.Push(data);
      if accepted > 0 {
        Pump();
      }
    }

    /** However a sequence of packets is cut into writes, exactly those packets arrive. */
    method WriteAll(chunks: seq<seq<Octet>>, ghost ps: seq<Packet>)
      requires Valid() && rx == Hunt && h2c.Content() == [] && AllEncodable(ps)
      requires forall i :: 0 <= i < |chunks| ==> |chunks[i]| < CAPACITY
      requires Flatten(chunks) == EncodeAll(ps)
      modifies this, hdr, payload, h2c, h2c.buffer
      ensures Valid() && rx == Hunt && delivered == old(delivered) + ps
    {
      hide Step, Parse;
      ParseNothing(Hunt);
      assert chunks[..0] == [] && delivered + [] == delivered;
      for i := 0 to |chunks|
        invariant Valid() && h2c.Content() == []
        invariant rx == Parse(Hunt, Flatten(chunks[..i])).0
        invariant delivered == old(delivered) + Parse(Hunt, Flatten(chunks[..i])).1
      {
        assert chunks[..i + 1][..i] == chunks[..i];
        ParseConcat(Hunt, Flatten(chunks[..i]), chunks[i]);
        var _ := Write(chunks[i]);
      }
      assert chunks[..|chunks|] == chunks;
      ParsePackets(ps);
    }
  }
}
