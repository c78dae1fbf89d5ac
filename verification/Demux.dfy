/** Reading frames off a connection: bytes arrive in chunks, heartbeats are swallowed, and
    frames nobody asked for yet are queued (`amqp_socket.c`). */
module Demux {
  import opened Bytes
  import opened FieldTable
  import opened Statuses
  import opened FrameParser
  import opened InboundParser
  import opened FrameQueue

  /** The deadline that a timed-out receive is found to have reached. */
  datatype Deadline = CallersDeadline | ReceiveHeartbeat | SendHeartbeat

  /** What one `recv_with_timeout` meets. */
  datatype Event = Arrives(chunk: bytes) | TimesOut(deadline: Deadline) | Breaks(status: Status)

  function AllData(script: seq<Event>): bytes {
    if script == [] then []
    else (if script[0].Arrives? then script[0].chunk else []) + AllData(script[1..])
  }

  predicate AllArrive(script: seq<Event>) {
    forall e :: e in script ==> e.Arrives?
  }

  predicate IsHeartbeat(item: Item) {
    item.FrameItem? && item.frame.HeartbeatFrame?
  }

  /** The items that a reader gets to see. */
  function Relevant(items: seq<Item>): (r: seq<Item>)
    ensures forall i :: i in r ==> !IsHeartbeat(i)
  {
    if items == [] then []
    else if IsHeartbeat(items[0]) then Relevant(items[1..])
    else [items[0]] + Relevant(items[1..])
  }

  lemma {:induction false} RelevantConcat(a: seq<Item>, b: seq<Item>)
    ensures Relevant(a + b) == Relevant(a) + Relevant(b)
  {
    hide IsHeartbeat;
    if a == [] {
      assert a + b == b;
    } else {
      RelevantConcat(a[1..], b);
      assert (a + b)[0] == a[0] && (a + b)[1..] == a[1..] + b;
      ConcatAssoc([a[0]], Relevant(a[1..]), Relevant(b));
    }
  }

  lemma RelevantOne(item: Item)
    ensures Relevant([item]) == if IsHeartbeat(item) then [] else [item]
  {
    assert [item][1..] == [];
  }

  /** One call on the bytes at hand takes one step along the stream that begins with them. */
  lemma {:induction false} ConsumeStep(limits: Limits, st: PState, data: bytes, later: bytes)
    requires ValidState(limits, st)
    ensures var o := HandleInput(limits, st, data);
      Scan(limits, st, data + later) ==
        if Broken(o.result) then Run([], o.st, o.result, 0)
        else After(ItemsOf(o.result), 0, Scan(limits, o.st, data[o.consumed..] + later))
  {
    hide HandleInput, Scan, ValidState;
    var o := HandleInput(limits, st, data);
    CallRefinesBytes(limits, st, data);
    assert data + later == data[..o.consumed] + (data[o.consumed..] + later);
    ScanConcat(limits, st, data[..o.consumed], data[o.consumed..] + later);
  }

  /** What a wait comes to. */
  datatype Wait = Read(item: Item) | NoFrame(status: Status) | StreamBroken(result: Result)

  class Connection {
    const inbound: Inbound
    const queue: Queue
    var sockInbound: bytes
    var sockOffset: nat
    var script: seq<Event>

    ghost predicate Valid()
      reads this, inbound, inbound.inboundBuffer, queue, queue.links
    {
      inbound.Valid() && queue.Valid() && sockOffset <= |sockInbound|
    }

    /** The objects that reading may change. */
    ghost function Footprint(): set<object>
      reads this, inbound, queue
    {
      {this, inbound, inbound.inboundBuffer, inbound.headerBuffer, queue} + (set l | l in queue.links)
    }

    lemma InFootprint()
      ensures {this, inbound, inbound.inboundBuffer, inbound.headerBuffer, queue} <= Footprint()
      ensures forall l :: l in queue.links ==> l in Footprint()
    {
    }

    /** A step that keeps to its own buffers and links adds only new objects to the footprint. */
    twostate lemma FootprintGrows()
      requires SameBuffers(old(inbound.inboundBuffer))
      requires forall l :: l in queue.links ==> l in old(queue.links) || fresh(l)
      ensures forall o :: o in Footprint() ==> o in old(Footprint()) || fresh(o)
    {
    }

    lemma ArrayApart(a: array<byte>)
      requires a != inbound.inboundBuffer && a != inbound.headerBuffer
      ensures a !in Footprint()
    {
    }

    /** The whole stream still to come: bytes received but not parsed, then all that arrives. */
    ghost function Stream(): Run
      requires inbound.Valid() && sockOffset <= |sockInbound|
      reads this, inbound, inbound.inboundBuffer
    {
      Scan(inbound.limits, inbound.Memory(), sockInbound[sockOffset..] + AllData(script))
    }

    /** The items of that stream that a reader gets to see. */
    ghost function Upcoming(): seq<Item>
      requires inbound.Valid() && sockOffset <= |sockInbound|
      reads this, inbound, inbound.inboundBuffer
    {
      Relevant(Stream().items)
    }

    constructor (limits: Limits, script: seq<Event>)
      ensures Valid() && queue.Items() == [] && inbound.Memory() == INITIAL_STATE && inbound.limits == limits
      ensures this.script == script && sockInbound == []
      ensures fresh(inbound) && fresh(queue) && fresh(inbound.inboundBuffer) && queue.links == []
    {
      inbound := new Inbound(limits);
      queue := new Queue();
      sockInbound, sockOffset := [], 0;
      this.script := script;
    }

    /** `consume_one_frame`: one step along the stream. */
    method ConsumeOneFrame() returns (result: Result)
      requires Valid() && sockOffset < |sockInbound|
      modifies this`sockOffset, inbound, inbound.inboundBuffer
      ensures !Broken(result) ==> Valid() && old(Stream()) == After(ItemsOf(result), 0, Stream())
      ensures Broken(result) ==> old(Stream()).items == [] && old(Stream()).failure == result
      ensures Broken(result) ==> inbound.Failed() && sockOffset == old(sockOffset)
      ensures !Broken(result) ==> old(sockOffset) < sockOffset
      ensures SameBuffers(old(inbound.inboundBuffer))
    {
      hide HandleInput, Scan, ValidState;
      ghost var st, rest := inbound.Memory(), sockInbound[sockOffset..];
      ConsumeStep(inbound.limits, st, rest, AllData(script));
      StepTaken(inbound.limits, st, rest);
      var n;
      n, result := inbound.Handle(sockInbound[sockOffset..]);
      if !Broken(result) {
        assert rest[n..] == sockInbound[sockOffset + n..];
        sockOffset := sockOffset + n;
      }
    }

    /** The buffer that collects the frame is the one it was, the header buffer, or new. */
    twostate predicate SameBuffers(new was: array<byte>)
      reads this, inbound
    {
      inbound.inboundBuffer == was || inbound.inboundBuffer == inbound.headerBuffer || fresh(inbound.inboundBuffer)
    }

    lemma StepTaken(limits: Limits, st: PState, data: bytes)
      requires ValidState(limits, st) && data != []
      ensures 0 < HandleInput(limits, st, data).consumed <= |data|
    {
    }

    /** `recv_with_timeout`, once everything received before has been parsed. */
    method RecvWithTimeout() returns (event: Event)
      requires Valid() && sockOffset == |sockInbound|
      modifies this`sockInbound, this`sockOffset, this`script
      ensures Valid() && Stream() == old(Stream())
      ensures old(script) == [] ==> script == [] && event == Breaks(ConnectionClosed)
      ensures old(script) != [] ==> script == old(script)[1..] && event == old(script)[0]
      ensures event.Arrives? ==> sockInbound == event.chunk && sockOffset == 0
      ensures !event.Arrives? ==> sockOffset == |sockInbound|
    {
      hide Scan;
      ghost var before := sockInbound[sockOffset..] + AllData(script);
      if script == [] {
        return Breaks(ConnectionClosed);
      }
      event := script[0];
      if event.Arrives? {
        sockInbound, sockOffset := event.chunk, 0;
      }
      script := script[1..];
      assert sockInbound[sockOffset..] + AllData(script) == before;
    }

    /** `wait_frame_inner`: the next frame of the stream that is not a heartbeat, and no other
        frame lost; if everything arrives and there is such a frame, it is returned. */
    method WaitFrame() returns (w: Wait)
      requires Valid()
      modifies this, inbound, inbound.inboundBuffer, inbound.headerBuffer
      ensures SameBuffers(old(inbound.inboundBuffer))
      ensures !w.StreamBroken? ==> Valid() && Stream().failure == old(Stream()).failure
      ensures w.Read? ==> old(Upcoming()) == [w.item] + Upcoming()
      ensures w.NoFrame? ==> old(Upcoming()) == Upcoming()
      ensures w.StreamBroken? ==> old(Upcoming()) == [] && old(Stream()).failure == w.result
      ensures AllArrive(old(script)) ==> AllArrive(script) && (old(Upcoming()) != [] ==> w.Read?)
    {
      hide Scan, ValidState, Relevant;
      ghost var upcoming := Upcoming();
      while true
        invariant Valid() && SameBuffers(old(inbound.inboundBuffer))
        invariant Stream().failure == old(Stream()).failure && Upcoming() == upcoming
        invariant AllArrive(old(script)) ==> AllArrive(script)
        decreases |script|, |sockInbound| - sockOffset
      {
        if sockOffset < |sockInbound| {
          ghost var items := Stream().items;
          var result := ConsumeOneFrame();
          RelevantNone();
          if Broken(result) {
            return StreamBroken(result);
          }
          RelevantConcat(ItemsOf(result), Stream().items);
          if result.Got? {
            RelevantOne(result.item);
            if !IsHeartbeat(result.item) {
              return Read(result.item);
            }
            assert [] + Upcoming() == Upcoming();
          } else {
            assert [] + Upcoming() == Upcoming();
          }
        } else {
          if script == [] {
            NothingLeft();
          }
          var event := RecvWithTimeout();
          match event {
            case Arrives(_) =>
            case TimesOut(deadline) =>
              if deadline == ReceiveHeartbeat {
                return NoFrame(HeartbeatTimeout);
              } else if deadline == CallersDeadline {
                return NoFrame(Timeout);
              }
            case Breaks(status) =>
              return NoFrame(status);
          }
        }
      }
    }

    lemma RelevantNone()
      ensures Relevant([]) == []
    {
    }

    lemma NothingLeft()
      requires Valid() && sockOffset == |sockInbound| && script == []
      ensures Stream().items == [] && Upcoming() == []
    {
      assert sockInbound[sockOffset..] + AllData(script) == [];
    }

    /** `amqp_queue_frame` called by a reader of this connection. */
    method Stash(item: Item)
      requires Valid()
      modifies queue, queue.links
      ensures Valid() && queue.Items() == old(queue.Items()) + [item]
      ensures forall l :: l in queue.links ==> l in old(queue.links) || fresh(l)
    {
      hide ValidState, Scan, Connection.Upcoming;
      queue.Enqueue(item);
    }

    /** The append that `amqp_try_recv` and `simple_rpc_inner` write out. */
    method Enlist(item: Item)
      requires Valid()
      modifies queue, queue.links
      ensures Valid() && queue.Items() == old(queue.Items()) + [item] && Stream() == old(Stream())
      ensures forall l :: l in queue.links ==> l in old(queue.links) || fresh(l)
    {
      hide Scan, ValidState;
      queue.Append(item);
    }

    /** `amqp_put_back_frame` called by a reader of this connection. */
    method Return(item: Item)
      requires Valid()
      modifies queue
      ensures Valid() && queue.Items() == [item] + old(queue.Items()) && Stream() == old(Stream())
      ensures forall l :: l in queue.links ==> l in old(queue.links) || fresh(l)
    {
      hide Scan, ValidState;
      queue.PutBack(item);
    }

    /** One pass of a reader's loop: a frame is read, and queued if it is on another channel. */
    method ReadOrStash(channel: uint16) returns (w: Wait)
      requires Valid()
      modifies Footprint()
      ensures forall o :: o in Footprint() ==> o in old(Footprint()) || fresh(o)
      ensures !w.StreamBroken? ==> Valid() && Stream().failure == old(Stream()).failure
      ensures w.Read? ==> old(Upcoming()) == [w.item] + Upcoming()
      ensures queue.Valid() && queue.Items() ==
              if w.Read? && ItemChannel(w.item) != channel then old(queue.Items()) + [w.item] else old(queue.Items())
      ensures w.NoFrame? ==> old(Upcoming()) == Upcoming()
      ensures w.StreamBroken? ==> old(Upcoming()) == [] && old(Stream()).failure == w.result
      ensures AllArrive(old(script)) ==> AllArrive(script) && (old(Upcoming()) != [] ==> w.Read?)
    {
      hide Scan, ValidState, Relevant, Footprint;
      InFootprint();
      w := WaitFrame();
      if w.Read? && ItemChannel(w.item) != channel {
        Stash(w.item);
      }
      FootprintGrows();
    }

    /** The waiting loop of `amqp_simple_wait_frame_on_channel`: the first frame of the channel in
        the stream, with every frame read before it queued in order. */
    method ReadUntil(channel: uint16) returns (w: Wait)
      requires Valid()
      modifies Footprint()
      ensures forall o :: o in Footprint() ==> o in old(Footprint()) || fresh(o)
      ensures !w.StreamBroken? ==> Valid() && Stream().failure == old(Stream()).failure
      ensures w.Read? ==> Delivered(channel, w.item, old(queue.Items()), old(Upcoming()), queue.Items(), Upcoming())
      ensures w.NoFrame? ==> StillWaiting(channel, old(queue.Items()), old(Upcoming()), queue.Items(), Upcoming())
      ensures w.StreamBroken? ==> NoneOn(old(Upcoming()), channel) && w.result == old(Stream()).failure
      ensures w.StreamBroken? ==> queue.Valid() && queue.Items() == old(queue.Items()) + old(Upcoming())
      ensures AllArrive(old(script)) ==> AllArrive(script) && (!NoneOn(old(Upcoming()), channel) ==> w.Read?)
    {
      hide Scan, ValidState, Relevant, NoneOn, AllArrive, Footprint;
      ghost var q, up, read: seq<Item> := queue.Items(), Upcoming(), [];
      assert NoneOn([], channel) by { NoneOnNothing(channel); }
      while true
        invariant Valid() && forall o :: o in Footprint() ==> o in old(Footprint()) || fresh(o)
        invariant Stream().failure == old(Stream()).failure
        invariant NoneOn(read, channel) && queue.Items() == q + read && up == read + Upcoming()
        invariant AllArrive(old(script)) ==> AllArrive(script)
        decreases |Upcoming()|
      {
        ghost var next := Upcoming();
        w := ReadOrStash(channel);
        if !w.Read? {
          assert next == [] ==> up == read;
          return;
        }
        ReadOn(q, read, w.item, Upcoming());
        if ItemChannel(w.item) == channel {
          return;
        }
        NoneOnSnoc(read, w.item, channel);
        read := read + [w.item];
      }
    }

    /** `amqp_simple_wait_frame_on_channel`: a frame of the channel from the queue, with every
        frame queued ahead of it lost, or else from the stream, with none lost. */
    method WaitOnChannel(channel: uint16) returns (w: Wait)
      requires Valid()
      modifies Footprint()
      ensures forall o :: o in Footprint() ==> o in old(Footprint()) || fresh(o)
      ensures !w.StreamBroken? ==> Valid() && Stream().failure == old(Stream()).failure
      ensures var q, k := old(queue.Items()), FirstOn(old(queue.Items()), channel);
        k < |q| ==> w == Read(q[k]) && queue.Items() == q[k + 1..] && Upcoming() == old(Upcoming())
      ensures NoneOn(old(queue.Items()), channel) ==>
        && (w.Read? ==>
              Delivered(channel, w.item, old(queue.Items()), old(Upcoming()), queue.Items(), Upcoming()))
        && (w.NoFrame? ==> StillWaiting(channel, old(queue.Items()), old(Upcoming()), queue.Items(), Upcoming()))
        && (w.StreamBroken? ==> NoneOn(old(Upcoming()), channel) && w.result == old(Stream()).failure)
        && (w.StreamBroken? ==> queue.Valid() && queue.Items() == old(queue.Items()) + old(Upcoming()))
      ensures AllArrive(old(script)) ==> AllArrive(script) && (!NoneOn(old(Upcoming()), channel) ==> w.Read?)
      ensures w.Read? ==>
        ItemChannel(w.item) == channel && |queue.Items()| + |Upcoming()| < |old(queue.Items())| + |old(Upcoming())|
    {
      hide Scan, ValidState, Relevant, FirstOn, AllArrive;
      NoneOnMeans(queue.Items(), channel);
      var found, item := queue.TakeOn(channel);
      if found {
        w := Read(item);
      } else {
        w := ReadUntil(channel);
      }
    }

    /** `amqp_simple_wait_frame_noblock` */
    method SimpleWaitFrame() returns (w: Wait)
      requires Valid()
      modifies Footprint()
      ensures forall o :: o in Footprint() ==> o in old(Footprint()) || fresh(o)
      ensures !w.StreamBroken? ==> Valid() && Stream().failure == old(Stream()).failure
      ensures w.Read? ==> TakenFirst(w.item, old(queue.Items()), old(Upcoming()), queue.Items(), Upcoming())
      ensures w.NoFrame? ==> queue.Items() == old(queue.Items()) == [] && Upcoming() == old(Upcoming())
      ensures AllArrive(old(script)) ==> AllArrive(script)
      ensures AllArrive(old(script)) && old(queue.Items()) + old(Upcoming()) != [] ==> w.Read?
    {
      hide Scan, ValidState, Relevant, AllArrive;
      if queue.first != null {
        var item := queue.Dequeue();
        w := Read(item);
      } else {
        w := WaitFrame();
      }
    }
  }

  lemma ReadOn(q: seq<Item>, read: seq<Item>, item: Item, later: seq<Item>)
    ensures read + ([item] + later) == read + [item] + later
    ensures q + read + [item] == q + (read + [item])
  {
  }

  /** The first frame of the queue and the stream after it, in that order. */
  ghost predicate TakenFirst(item: Item, q: seq<Item>, up: seq<Item>, q': seq<Item>, up': seq<Item>) {
    if q != [] then q == [item] + q' && up' == up else q' == [] && up == [item] + up'
  }

  predicate NoneOn(items: seq<Item>, channel: uint16) {
    forall i :: i in items ==> ItemChannel(i) != channel
  }

  lemma NoneOnNothing(channel: uint16)
    ensures NoneOn([], channel)
  {
  }

  lemma NoneOnSnoc(items: seq<Item>, item: Item, channel: uint16)
    ensures NoneOn(items + [item], channel) <==> NoneOn(items, channel) && ItemChannel(item) != channel
  {
    assert item in items + [item];
  }

  lemma NoneOnMeans(items: seq<Item>, channel: uint16)
    ensures NoneOn(items, channel) <==> FirstOn(items, channel) == |items|
  {
    var k := FirstOn(items, channel);
    if k < |items| {
      assert items[k] in items;
    }
  }

  /** From a queue `q` and a stream `up`: `item` is the first of its channel in the stream, the
      frames read before it were appended to the queue in order, and the rest is still to come. */
  ghost predicate Delivered(channel: uint16, item: Item, q: seq<Item>, up: seq<Item>, q': seq<Item>, up': seq<Item>) {
    exists read ::
      up == read + ([item] + up') && q' == q + read && NoneOn(read, channel) && ItemChannel(item) == channel
  }

  /** No frame of the channel was read: the frames read were appended to the queue in order. */
  ghost predicate StillWaiting(channel: uint16, q: seq<Item>, up: seq<Item>, q': seq<Item>, up': seq<Item>) {
    exists read :: up == read + up' && q' == q + read && NoneOn(read, channel)
  }

  // ---------------------------------------------------------------- a channel's share

  /** The items on a channel, in order. */
  function On(items: seq<Item>, channel: uint16): seq<Item> {
    if items == [] then []
    else if ItemChannel(items[0]) == channel then [items[0]] + On(items[1..], channel)
    else On(items[1..], channel)
  }

  /** The items on other channels, in order. */
  function Off(items: seq<Item>, channel: uint16): seq<Item> {
    if items == [] then []
    else if ItemChannel(items[0]) == channel then Off(items[1..], channel)
    else [items[0]] + Off(items[1..], channel)
  }

  lemma OnFirst(item: Item, rest: seq<Item>, channel: uint16)
    ensures On([item] + rest, channel) == (if ItemChannel(item) == channel then [item] else []) + On(rest, channel)
  {
    assert ([item] + rest)[1..] == rest && [] + On(rest, channel) == On(rest, channel);
  }

  lemma {:induction false} OnConcat(a: seq<Item>, b: seq<Item>, channel: uint16)
    ensures On(a + b, channel) == On(a, channel) + On(b, channel)
  {
    hide ItemChannel, On;
    if a == [] {
      assert a + b == b && On(a, channel) == [] by { OnNothing(channel); }
      assert [] + On(b, channel) == On(b, channel);
    } else {
      var item, rest := a[0], a[1..];
      assert a == [item] + rest && a + b == [item] + (rest + b);
      OnFirst(item, rest, channel);
      OnFirst(item, rest + b, channel);
      OnConcat(rest, b, channel);
      ConcatAssoc(if ItemChannel(item) == channel then [item] else [], On(rest, channel), On(b, channel));
    }
  }

  lemma OnNothing(channel: uint16)
    ensures On([], channel) == []
  {
  }

  lemma {:induction false} OnNone(items: seq<Item>, channel: uint16)
    requires NoneOn(items, channel)
    ensures On(items, channel) == []
  {
    if items != [] {
      assert items[0] in items && forall i :: i in items[1..] ==> i in items;
      OnNone(items[1..], channel);
    }
  }

  lemma NoneOnConcat(a: seq<Item>, b: seq<Item>, channel: uint16)
    requires NoneOn(a, channel) && NoneOn(b, channel)
    ensures NoneOn(a + b, channel)
  {
  }

  lemma OffFirst(item: Item, rest: seq<Item>, channel: uint16)
    ensures Off([item] + rest, channel) == (if ItemChannel(item) != channel then [item] else []) + Off(rest, channel)
  {
    assert ([item] + rest)[1..] == rest && [] + Off(rest, channel) == Off(rest, channel);
  }

  lemma {:induction false} OffConcat(a: seq<Item>, b: seq<Item>, channel: uint16)
    ensures Off(a + b, channel) == Off(a, channel) + Off(b, channel)
  {
    hide ItemChannel, Off;
    if a == [] {
      assert a + b == b && Off(a, channel) == [] by { OffNothing(channel); }
      assert [] + Off(b, channel) == Off(b, channel);
    } else {
      var item, rest := a[0], a[1..];
      assert a == [item] + rest && a + b == [item] + (rest + b);
      OffFirst(item, rest, channel);
      OffFirst(item, rest + b, channel);
      OffConcat(rest, b, channel);
      ConcatAssoc(if ItemChannel(item) != channel then [item] else [], Off(rest, channel), Off(b, channel));
    }
  }

  lemma OffNothing(channel: uint16)
    ensures Off([], channel) == []
  {
  }

  lemma {:induction false} OffNone(items: seq<Item>, channel: uint16)
    requires NoneOn(items, channel)
    ensures Off(items, channel) == items
  {
    if items != [] {
      assert items[0] in items && forall i :: i in items[1..] ==> i in items;
      OffNone(items[1..], channel);
    }
  }

  lemma {:induction false} OffIsNone(items: seq<Item>, channel: uint16)
    ensures NoneOn(Off(items, channel), channel)
  {
    if items != [] {
      OffIsNone(items[1..], channel);
    }
  }

  /** The first `k` frames were taken off the queue, up to one of the channel; then, if the queue held no
      more of the channel, the frames `read` were read off the stream, and those of other channels
      among them went to the end of the queue, in order. */
  ghost predicate MovedBy(k: nat, read: seq<Item>, channel: uint16, q: seq<Item>, up: seq<Item>,
                          q': seq<Item>, up': seq<Item>) {
    && k <= |q| && (k == 0 || ItemChannel(q[k - 1]) == channel)
    && up == read + up' && q' == q[k..] + Off(read, channel)
    && (read == [] || NoneOn(q[k..], channel))
  }

  /** No frame was read behind the last one of the channel. */
  predicate EndsOn(read: seq<Item>, channel: uint16) {
    read == [] || ItemChannel(read[|read| - 1]) == channel
  }

  /** The same while a frame of the channel is still waited for: more of the others may have been read. */
  ghost predicate OthersWaiting(channel: uint16, q: seq<Item>, up: seq<Item>, q': seq<Item>, up': seq<Item>) {
    exists k, read :: MovedBy(k, read, channel, q, up, q', up')
  }

  /** Other channels lose only frames that were queued ahead of one of this channel that was taken; all
      others are still queued, in order, or still to come. */
  ghost predicate OthersQueued(channel: uint16, q: seq<Item>, up: seq<Item>, q': seq<Item>, up': seq<Item>) {
    exists k, read :: MovedBy(k, read, channel, q, up, q', up') && EndsOn(read, channel)
  }

  lemma QueuedIsWaiting(channel: uint16, q: seq<Item>, up: seq<Item>, q': seq<Item>, up': seq<Item>)
    requires OthersQueued(channel, q, up, q', up')
    ensures OthersWaiting(channel, q, up, q', up')
  {
    hide MovedBy;
  }

  /** So they lose none when the queue holds no frame of this channel. */
  lemma NoneLost(channel: uint16, q: seq<Item>, up: seq<Item>, q': seq<Item>, up': seq<Item>)
    requires OthersWaiting(channel, q, up, q', up') && NoneOn(q, channel)
    ensures Off(q' + up', channel) == Off(q + up, channel)
  {
    hide Off, NoneOn;
    var k, read :| MovedBy(k, read, channel, q, up, q', up');
    assert k == 0 by {
      NothingTaken(channel, q, k);
    }
    var rest := Off(read, channel);
    assert q' == q + rest;
    OffConcat(q', up', channel);
    OffConcat(q, rest, channel);
    OffIsNone(read, channel);
    OffNone(rest, channel);
    OffConcat(q, read + up', channel);
    OffConcat(read, up', channel);
    ConcatAssoc(Off(q, channel), rest, Off(up', channel));
  }

  lemma NothingTaken(channel: uint16, q: seq<Item>, k: nat)
    requires NoneOn(q, channel) && k <= |q| && (k == 0 || ItemChannel(q[k - 1]) == channel)
    ensures k == 0
  {
  }

  lemma NothingMoved(channel: uint16, q: seq<Item>, up: seq<Item>)
    ensures OthersQueued(channel, q, up, q, up)
  {
    assert MovedBy(0, [], channel, q, up, q, up) && EndsOn([], channel);
  }

  lemma MovedByTwice(k: nat, a: seq<Item>, l: nat, b: seq<Item>, channel: uint16, q: seq<Item>, up: seq<Item>,
                     q1: seq<Item>, up1: seq<Item>, q2: seq<Item>, up2: seq<Item>)
    requires MovedBy(k, a, channel, q, up, q1, up1) && MovedBy(l, b, channel, q1, up1, q2, up2)
    ensures MovedBy(if a == [] then k + l else k, a + b, channel, q, up, q2, up2)
  {
    hide MovedBy;
    if a == [] {
      assert a + b == b;
      MovedOffQueueFirst(k, l, b, channel, q, up, q1, up1, q2, up2);
    } else {
      MovedOffStreamFirst(k, a, l, b, channel, q, up, q1, up1, q2, up2);
    }
  }

  /** Two such steps are one. */
  lemma MovedTwice(channel: uint16, q: seq<Item>, up: seq<Item>, q1: seq<Item>, up1: seq<Item>, q2: seq<Item>,
                   up2: seq<Item>)
    requires OthersQueued(channel, q, up, q1, up1) && OthersWaiting(channel, q1, up1, q2, up2)
    ensures OthersWaiting(channel, q, up, q2, up2)
    ensures OthersQueued(channel, q1, up1, q2, up2) ==> OthersQueued(channel, q, up, q2, up2)
  {
    hide MovedBy;
    var k, a :| MovedBy(k, a, channel, q, up, q1, up1) && EndsOn(a, channel);
    var l, b :| MovedBy(l, b, channel, q1, up1, q2, up2);
    MovedByTwice(k, a, l, b, channel, q, up, q1, up1, q2, up2);
    if OthersQueued(channel, q1, up1, q2, up2) {
      var m, d :| MovedBy(m, d, channel, q1, up1, q2, up2) && EndsOn(d, channel);
      MovedByTwice(k, a, m, d, channel, q, up, q1, up1, q2, up2);
      assert EndsOn(a + d, channel) by { EndsOnTwice(a, d, channel); }
    }
  }

  lemma EndsOnTwice(a: seq<Item>, b: seq<Item>, channel: uint16)
    requires EndsOn(a, channel) && EndsOn(b, channel)
    ensures EndsOn(a + b, channel)
  {
    assert b == [] ==> a + b == a;
  }

  lemma MovedOffQueueFirst(k: nat, l: nat, b: seq<Item>, channel: uint16, q: seq<Item>, up: seq<Item>,
                           q1: seq<Item>, up1: seq<Item>, q2: seq<Item>, up2: seq<Item>)
    requires MovedBy(k, [], channel, q, up, q1, up1) && MovedBy(l, b, channel, q1, up1, q2, up2)
    ensures MovedBy(k + l, b, channel, q, up, q2, up2)
  {
    hide ItemChannel, NoneOn;
    OffNothing(channel);
    assert q1 == q[k..] && up1 == up;
    assert q1[l..] == q[k + l..];
  }

  lemma MovedOffStreamFirst(k: nat, a: seq<Item>, l: nat, b: seq<Item>, channel: uint16, q: seq<Item>, up: seq<Item>,
                            q1: seq<Item>, up1: seq<Item>, q2: seq<Item>, up2: seq<Item>)
    requires MovedBy(k, a, channel, q, up, q1, up1) && MovedBy(l, b, channel, q1, up1, q2, up2) && a != []
    ensures MovedBy(k, a + b, channel, q, up, q2, up2)
  {
    hide Off, ItemChannel, NoneOn;
    OffIsNone(a, channel);
    NoneOnConcat(q[k..], Off(a, channel), channel);
    NothingTaken(channel, q1, l);
    assert q1[0..] == q1;
    OffConcat(a, b, channel);
    ConcatAssoc(a, b, up2);
    ConcatAssoc(q[k..], Off(a, channel), Off(b, channel));
  }

  lemma DeliveredMoves(channel: uint16, item: Item, q: seq<Item>, up: seq<Item>, q': seq<Item>, up': seq<Item>)
    requires Delivered(channel, item, q, up, q', up') && NoneOn(q, channel)
    ensures OthersQueued(channel, q, up, q', up')
  {
    hide NoneOn, Off, ItemChannel;
    var read :| up == read + ([item] + up') && q' == q + read && NoneOn(read, channel) && ItemChannel(item) == channel;
    OffConcat(read, [item], channel);
    OffNone(read, channel);
    OffOne(item, channel);
    assert read + [] == read && q[0..] == q;
    ConcatAssoc(read, [item], up');
    assert MovedBy(0, read + [item], channel, q, up, q', up') && EndsOn(read + [item], channel);
  }

  /** Frames read in vain are queued too. */
  lemma StillMoves(channel: uint16, q: seq<Item>, up: seq<Item>, q': seq<Item>, up': seq<Item>)
    requires StillWaiting(channel, q, up, q', up') && NoneOn(q, channel)
    ensures OthersWaiting(channel, q, up, q', up')
  {
    hide NoneOn, Off;
    var read :| up == read + up' && q' == q + read && NoneOn(read, channel);
    OffNone(read, channel);
    assert q[0..] == q;
    assert MovedBy(0, read, channel, q, up, q', up');
  }

  /** A frame taken out of the queue moves no other. */
  lemma TakenMoves(channel: uint16, k: nat, q: seq<Item>, up: seq<Item>)
    requires k < |q| && ItemChannel(q[k]) == channel
    ensures OthersQueued(channel, q, up, q[k + 1..], up)
  {
    hide ItemChannel;
    OffNothing(channel);
    assert MovedBy(k + 1, [], channel, q, up, q[k + 1..], up) && EndsOn([], channel);
  }

  lemma OffOne(item: Item, channel: uint16)
    requires ItemChannel(item) == channel
    ensures Off([item], channel) == []
  {
    assert [item][1..] == [];
  }

  /** What one wait takes from the channel's share of queue and stream, in either way it answers. */
  lemma OneWait(channel: uint16, w: Wait, q: seq<Item>, up: seq<Item>, q': seq<Item>, up': seq<Item>)
    requires var k := FirstOn(q, channel);
      if k < |q| then w == Read(q[k]) && q' == q[k + 1..] && up' == up
      else if w.Read? then Delivered(channel, w.item, q, up, q', up')
      else if w.NoFrame? then StillWaiting(channel, q, up, q', up')
      else NoneOn(up, channel)
    ensures w.Read? ==> On(q + up, channel) == [w.item] + On(q' + up', channel)
    ensures w.NoFrame? ==> On(q + up, channel) == On(q' + up', channel)
    ensures w.StreamBroken? ==> On(q + up, channel) == []
  {
    hide FirstOn, NoneOn, On, Delivered, StillWaiting;
    var k := FirstOn(q, channel);
    OnConcat(q, up, channel);
    if k < |q| {
      OnConcat(q', up', channel);
      TakenFromQueue(q, k, channel);
      ConcatAssoc([q[k]], On(q', channel), On(up', channel));
    } else {
      NoneOnMeans(q, channel);
      OnNone(q, channel);
      if w.Read? {
        ShareDelivered(channel, w.item, q, up, q', up');
      } else if w.NoFrame? {
        ShareStays(channel, q, up, q', up');
      } else {
        OnNone(up, channel);
      }
    }
  }

  lemma ShareDelivered(channel: uint16, item: Item, q: seq<Item>, up: seq<Item>, q': seq<Item>, up': seq<Item>)
    requires NoneOn(q, channel) && Delivered(channel, item, q, up, q', up')
    ensures On(up, channel) == [item] + On(q' + up', channel)
  {
    hide NoneOn, On, ItemChannel;
    var read :| up == read + ([item] + up') && q' == q + read && NoneOn(read, channel) && ItemChannel(item) == channel;
    ShareWithout(channel, q, read, up');
    OnConcat(read, [item] + up', channel);
    OnConcat([item], up', channel);
    OnNone(read, channel);
    OnOne(item, channel);
  }

  lemma ShareStays(channel: uint16, q: seq<Item>, up: seq<Item>, q': seq<Item>, up': seq<Item>)
    requires NoneOn(q, channel) && StillWaiting(channel, q, up, q', up')
    ensures On(up, channel) == On(q' + up', channel)
  {
    hide NoneOn, On;
    var read :| up == read + up' && q' == q + read && NoneOn(read, channel);
    ShareWithout(channel, q, read, up');
    OnConcat(read, up', channel);
    OnNone(read, channel);
  }

  /** Frames of other channels are no part of the share. */
  lemma ShareWithout(channel: uint16, q: seq<Item>, read: seq<Item>, up: seq<Item>)
    requires NoneOn(q, channel) && NoneOn(read, channel)
    ensures On(q + read + up, channel) == On(up, channel)
  {
    hide NoneOn, On;
    NoneOnConcat(q, read, channel);
    OnConcat(q + read, up, channel);
    OnNone(q + read, channel);
  }

  lemma OnOne(item: Item, channel: uint16)
    requires ItemChannel(item) == channel
    ensures On([item], channel) == [item]
  {
    assert [item][1..] == [];
  }

  lemma {:induction false} TakenFromQueue(q: seq<Item>, k: nat, channel: uint16)
    requires k == FirstOn(q, channel) < |q|
    ensures On(q, channel) == [q[k]] + On(q[k + 1..], channel)
  {
    hide ItemChannel;
    if k > 0 {
      TakenFromQueue(q[1..], k - 1, channel);
      assert q[1..][k..] == q[k + 1..];
    }
  }

  /** The share of a channel in the queue and in what is still to come. */
  ghost function Waiting(c: Connection, channel: uint16): seq<Item>
    requires c.Valid()
    reads c, c.inbound, c.inbound.inboundBuffer, c.queue, c.queue.links
  {
    On(c.queue.Items() + c.Upcoming(), channel)
  }

  /** One wait delivers the first frame of the channel's share, if there is any to be had. */
  method WaitOnce(c: Connection, channel: uint16) returns (w: Wait)
    requires c.Valid()
    modifies c.Footprint()
    ensures forall o :: o in c.Footprint() ==> o in old(c.Footprint()) || fresh(o)
    ensures !w.StreamBroken? ==> c.Valid() && c.Stream().failure == old(c.Stream()).failure
    ensures w.Read? ==> old(Waiting(c, channel)) == [w.item] + Waiting(c, channel) && ItemChannel(w.item) == channel
    ensures w.Read? ==>
      OthersQueued(channel, old(c.queue.Items()), old(c.Upcoming()), c.queue.Items(), c.Upcoming())
      && |c.queue.Items()| + |c.Upcoming()| < |old(c.queue.Items())| + |old(c.Upcoming())|
    ensures w.NoFrame? ==>
      old(Waiting(c, channel)) == Waiting(c, channel)
      && OthersWaiting(channel, old(c.queue.Items()), old(c.Upcoming()), c.queue.Items(), c.Upcoming())
    ensures w.StreamBroken? ==> old(Waiting(c, channel)) == []
    ensures w.StreamBroken? ==>
      c.queue.Valid() && OthersWaiting(channel, old(c.queue.Items()), old(c.Upcoming()), c.queue.Items(), [])
    ensures AllArrive(old(c.script)) ==> AllArrive(c.script) && (old(Waiting(c, channel)) != [] ==> w.Read?)
  {
    hide Scan, ValidState, Relevant, FirstOn, AllArrive, On, Delivered, StillWaiting, NoneOn, OthersQueued,
      OthersWaiting, ItemChannel, Connection.Footprint;
    ghost var q, up := c.queue.Items(), c.Upcoming();
    FoundOrNone(q, channel);
    w := c.WaitOnChannel(channel);
    if w.StreamBroken? {
      OneWait(channel, w, q, up, [], []);
      AllQueuedMoves(channel, q, up);
    } else {
      OneWait(channel, w, q, up, c.queue.Items(), c.Upcoming());
      if FirstOn(q, channel) < |q| {
        FoundThere(q, channel);
        TakenMoves(channel, FirstOn(q, channel), q, up);
      } else if w.Read? {
        DeliveredMoves(channel, w.item, q, up, c.queue.Items(), c.Upcoming());
      } else {
        StillMoves(channel, q, up, c.queue.Items(), c.Upcoming());
      }
    }
    if NoneOn(q, channel) && NoneOn(up, channel) {
      NoneWaiting(q, up, channel);
    }
  }

  lemma AllQueuedMoves(channel: uint16, q: seq<Item>, up: seq<Item>)
    requires NoneOn(q, channel) && NoneOn(up, channel)
    ensures OthersWaiting(channel, q, up, q + up, [])
  {
    hide NoneOn, OthersWaiting;
    assert up == up + [];
    StillMoves(channel, q, up, q + up, []);
  }

  lemma FoundThere(q: seq<Item>, channel: uint16)
    requires FirstOn(q, channel) < |q|
    ensures ItemChannel(q[FirstOn(q, channel)]) == channel
  {
  }

  lemma FoundOrNone(q: seq<Item>, channel: uint16)
    ensures FirstOn(q, channel) < |q| || NoneOn(q, channel)
  {
    NoneOnMeans(q, channel);
  }

  lemma NoneWaiting(q: seq<Item>, up: seq<Item>, channel: uint16)
    requires NoneOn(q, channel) && NoneOn(up, channel)
    ensures On(q + up, channel) == []
  {
    OnConcat(q, up, channel);
    OnNone(q, channel);
    OnNone(up, channel);
  }
}
