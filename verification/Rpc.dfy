/** Synchronous calls: the request goes out, and frames are read and queued until one is the
    reply (`simple_rpc_inner`). */
module Rpc {
  import opened Bytes
  import opened FieldTable
  import opened Statuses
  import opened Generator
  import opened Frames
  import opened FrameParser
  import opened Demux
  import opened Sending

  const CONNECTION_CLOSE_METHOD: uint32 := 0x000A_0032
  const CHANNEL_CLOSE_METHOD: uint32 := 0x0014_0028

  /** A method frame that is an expected reply or a channel.close on the channel, or a
      connection.close on channel zero. */
  predicate IsReply(item: Item, channel: uint16, expected: seq<uint32>) {
    item.FrameItem? && item.frame.MethodFrame? &&
    var f := item.frame;
    (f.channel == channel && (f.id in expected || f.id == CHANNEL_CLOSE_METHOD))
    || (f.channel == 0 && f.id == CONNECTION_CLOSE_METHOD)
  }

  predicate NoReply(items: seq<Item>, channel: uint16, expected: seq<uint32>) {
    forall i :: i in items ==> !IsReply(i, channel, expected)
  }

  datatype Reply =
    | Normal(id: uint32, args: seq<FieldVal>)
    | ServerException(id: uint32, args: seq<FieldVal>)
    | LibraryException(status: Status)
    | StreamUnparsable(result: Result)

  predicate Answered(r: Reply) {
    r.Normal? || r.ServerException?
  }

  /** The reply a frame amounts to. */
  function ReplyOf(item: Item, expected: seq<uint32>): Reply
    requires item.FrameItem? && item.frame.MethodFrame?
  {
    if item.frame.id in expected then Normal(item.frame.id, item.frame.args)
    else ServerException(item.frame.id, item.frame.args)
  }

  /** From a queue `q` and a stream `up`, the first reply in the stream was taken: the frames
      read before it were appended to the queue in order, none lost and none duplicated. */
  ghost predicate Replied(r: Reply, channel: uint16, expected: seq<uint32>, q: seq<Item>, up: seq<Item>,
                          q': seq<Item>, up': seq<Item>) {
    exists read, item :: up == read + ([item] + up') && q' == q + read && NoReply(read, channel, expected)
                         && IsReply(item, channel, expected) && r == ReplyOf(item, expected)
  }

  /** No reply was read: the frames read were appended to the queue in order. */
  ghost predicate Unreplied(channel: uint16, expected: seq<uint32>, q: seq<Item>, up: seq<Item>,
                            q': seq<Item>, up': seq<Item>) {
    exists read :: up == read + up' && q' == q + read && NoReply(read, channel, expected)
  }

  /** The retry loop of `simple_rpc_inner`. */
  method AwaitReply(c: Connection, channel: uint16, expected: seq<uint32>) returns (r: Reply)
    requires c.Valid()
    modifies c.Footprint()
    ensures forall o :: o in c.Footprint() ==> o in old(c.Footprint()) || fresh(o)
    ensures !r.StreamUnparsable? ==> c.Valid() && c.Stream().failure == old(c.Stream()).failure
    ensures Answered(r) ==>
      Replied(r, channel, expected, old(c.queue.Items()), old(c.Upcoming()), c.queue.Items(), c.Upcoming())
    ensures r.LibraryException? ==>
      Unreplied(channel, expected, old(c.queue.Items()), old(c.Upcoming()), c.queue.Items(), c.Upcoming())
    ensures r.StreamUnparsable? ==>
      r.result == old(c.Stream()).failure && NoReply(old(c.Upcoming()), channel, expected)
      && c.queue.Valid() && c.queue.Items() == old(c.queue.Items()) + old(c.Upcoming())
  {
    hide Scan, ValidState, Relevant, NoReply, IsReply, Replied, Unreplied, Connection.Footprint,
      Connection.Upcoming, Connection.Stream;
    ghost var q, up := c.queue.Items(), c.Upcoming();
    NoneRead(channel, expected, q, up);
    while true
      invariant c.Valid() && forall o :: o in c.Footprint() ==> o in old(c.Footprint()) || fresh(o)
      invariant c.Stream().failure == old(c.Stream()).failure
      invariant Unreplied(channel, expected, q, up, c.queue.Items(), c.Upcoming())
      decreases |c.Upcoming()|
    {
      ghost var queued := c.queue.Items();
      var w := ReadReply(c, channel, expected);
      if w.NoFrame? {
        return LibraryException(w.status);
      } else if w.StreamBroken? {
        AllRead(channel, expected, q, up, queued);
        return StreamUnparsable(w.result);
      } else if IsReply(w.item, channel, expected) {
        ReplyIsMethod(w.item, channel, expected);
        ReplyRead(channel, expected, q, up, queued, w.item, c.Upcoming());
        return ReplyOf(w.item, expected);
      }
      OneMoreRead(channel, expected, q, up, queued, w.item, c.Upcoming());
    }
  }

  lemma NoneRead(channel: uint16, expected: seq<uint32>, q: seq<Item>, up: seq<Item>)
    ensures Unreplied(channel, expected, q, up, q, up)
  {
    assert up == [] + up && q == q + [];
  }

  lemma OneMoreRead(channel: uint16, expected: seq<uint32>, q: seq<Item>, up: seq<Item>, q': seq<Item>, item: Item,
                    later: seq<Item>)
    requires Unreplied(channel, expected, q, up, q', [item] + later) && !IsReply(item, channel, expected)
    ensures Unreplied(channel, expected, q, up, q' + [item], later)
  {
    hide IsReply;
    var read :| up == read + ([item] + later) && q' == q + read && NoReply(read, channel, expected);
    assert up == (read + [item]) + later && q' + [item] == q + (read + [item]);
  }

  lemma ReplyRead(channel: uint16, expected: seq<uint32>, q: seq<Item>, up: seq<Item>, q': seq<Item>, item: Item,
                  later: seq<Item>)
    requires Unreplied(channel, expected, q, up, q', [item] + later) && IsReply(item, channel, expected)
    ensures Replied(ReplyOf(item, expected), channel, expected, q, up, q', later)
  {
  }

  lemma AllRead(channel: uint16, expected: seq<uint32>, q: seq<Item>, up: seq<Item>, q': seq<Item>)
    requires Unreplied(channel, expected, q, up, q', [])
    ensures NoReply(up, channel, expected) && q' == q + up
  {
  }

  lemma ReplyIsMethod(item: Item, channel: uint16, expected: seq<uint32>)
    requires IsReply(item, channel, expected)
    ensures item.FrameItem? && item.frame.MethodFrame?
  {
  }

  /** One pass of the retry loop: a frame is read, and queued unless it is the reply. */
  method ReadReply(c: Connection, channel: uint16, expected: seq<uint32>) returns (w: Wait)
    requires c.Valid()
    modifies c.Footprint()
    ensures forall o :: o in c.Footprint() ==> o in old(c.Footprint()) || fresh(o)
    ensures !w.StreamBroken? ==> c.Valid() && c.Stream().failure == old(c.Stream()).failure
    ensures w.Read? ==> old(c.Upcoming()) == [w.item] + c.Upcoming()
    ensures c.queue.Valid() && c.queue.Items() ==
            if w.Read? && !IsReply(w.item, channel, expected) then old(c.queue.Items()) + [w.item]
            else old(c.queue.Items())
    ensures w.NoFrame? ==> old(c.Upcoming()) == c.Upcoming()
    ensures w.StreamBroken? ==> old(c.Upcoming()) == [] && old(c.Stream()).failure == w.result
  {
    hide Scan, ValidState, Relevant, IsReply, Connection.Footprint;
    c.InFootprint();
    w := c.WaitFrame();
    if w.Read? && !IsReply(w.item, channel, expected) {
      c.Enlist(w.item);
    }
    c.FootprintGrows();
  }

  /** Sending queued some of the stream's frames behind the queue `q0`, which left the queue `q` and the
      stream `items`; and from these the reply was taken. */
  ghost predicate RepliedFrom(r: Reply, channel: uint16, expected: seq<uint32>, q0: seq<Item>, all: seq<Item>,
                              q': seq<Item>, up': seq<Item>) {
    exists q, items ::
      q0 <= q && q + items == all && Replied(r, channel, expected, q, Relevant(items), q', up')
  }

  /** The same without a reply. */
  ghost predicate UnrepliedFrom(channel: uint16, expected: seq<uint32>, q0: seq<Item>, all: seq<Item>,
                                q': seq<Item>, up': seq<Item>) {
    exists q, items :: q0 <= q && q + items == all && Unreplied(channel, expected, q, Relevant(items), q', up')
  }

  /** The whole stream was read without a reply, up to where it breaks off. */
  ghost predicate AllQueued(channel: uint16, expected: seq<uint32>, q0: seq<Item>, all: seq<Item>, q': seq<Item>) {
    exists q, items ::
      q0 <= q && q + items == all && NoReply(Relevant(items), channel, expected) && q' == q + Relevant(items)
  }

  method AwaitReplyAfter(c: Connection, channel: uint16, expected: seq<uint32>, ghost ledger: Ledger)
    returns (r: Reply)
    requires Holds(c, ledger)
    modifies c.Footprint()
    ensures !r.StreamUnparsable? ==> c.Valid() && c.Stream().failure == ledger.failure
    ensures Answered(r) ==>
      RepliedFrom(r, channel, expected, ledger.front, ledger.all, c.queue.Items(), c.Upcoming())
    ensures r.LibraryException? ==>
      UnrepliedFrom(channel, expected, ledger.front, ledger.all, c.queue.Items(), c.Upcoming())
    ensures r.StreamUnparsable? ==>
      c.queue.Valid() && r.result == ledger.failure
      && AllQueued(channel, expected, ledger.front, ledger.all, c.queue.Items())
  {
    hide Scan, ValidState, Relevant, Replied, Unreplied, NoReply, Connection.Footprint;
    ghost var q, items := c.queue.Items(), c.Stream().items;
    r := AwaitReply(c, channel, expected);
    assert ledger.front <= q && q + items == ledger.all;
  }

  /** The send step stopped short, and nothing was read after it. */
  lemma NothingRead(c: Connection, channel: uint16, expected: seq<uint32>, ledger: Ledger)
    requires Holds(c, ledger)
    ensures c.Valid() && c.Stream().failure == ledger.failure
    ensures UnrepliedFrom(channel, expected, ledger.front, ledger.all, c.queue.Items(), c.Upcoming())
  {
    hide Scan, ValidState, Relevant, Unreplied;
    var q, items := c.queue.Items(), c.Stream().items;
    NoneRead(channel, expected, q, Relevant(items));
    assert Unreplied(channel, expected, q, Relevant(items), q, c.Upcoming());
  }

  /** `simple_rpc_inner`. The send step may itself queue frames that arrive while the socket
      is full; they go behind what was queued. A reply is the first one in the stream as the send
      step left it, and the queue is the one it left followed by exactly the frames read before the
      reply. Without a reply nothing is lost either: the frames read were all queued. */
  method SimpleRpc(c: Connection, s: Socket, request: Frame, expected: seq<uint32>, outbound: array<byte>)
    returns (r: Reply)
    requires c.Valid() && request.MethodFrame? && WellTyped(c.inbound.limits.schema, request)
    requires RoomForFixedParts(request, outbound.Length)
    requires outbound !in c.Footprint()
    modifies c.Footprint(), s, outbound
    ensures GivenPart(old(s.accepted), s.accepted, FrameWire(c.inbound.limits.schema, request))
    ensures Answered(r) ==>
      Encodable(c.inbound.limits.schema, request)
      && s.accepted == old(s.accepted) + FrameBytes(c.inbound.limits.schema, request)
    ensures !r.StreamUnparsable? ==> c.Valid() && c.Stream().failure == old(c.Stream()).failure
    ensures Answered(r) ==>
      RepliedFrom(r, request.channel, expected, old(c.queue.Items()), old(c.queue.Items() + c.Stream().items),
                  c.queue.Items(), c.Upcoming())
    ensures r.LibraryException? ==>
      UnrepliedFrom(request.channel, expected, old(c.queue.Items()), old(c.queue.Items() + c.Stream().items),
                    c.queue.Items(), c.Upcoming())
    ensures r.StreamUnparsable? ==>
      c.queue.Valid() && r.result == old(c.Stream()).failure
      && (c.queue.Items() == old(c.queue.Items() + c.Stream().items)
          || AllQueued(request.channel, expected, old(c.queue.Items()), old(c.queue.Items() + c.Stream().items),
                       c.queue.Items()))
  {
    hide RepliedFrom, UnrepliedFrom, AllQueued, FrameBytes, FrameWire, WellTyped, Encodable, RoomForFixedParts,
      GivenPart, Scan, ValidState, Connection.Footprint;
    SocketApart(c, s);
    ghost var ledger := Ledger(c.queue.Items(), c.queue.Items() + c.Stream().items, c.Stream().failure);
    var sent := SendFrame(c, s, request, outbound, ledger);
    match sent {
      case NotSent(status) =>
        NothingRead(c, request.channel, expected, ledger);
        r := LibraryException(status);
      case ReceiveBroke(result) => r := StreamUnparsable(result);
      case Sent => r := AwaitReplyAfter(c, request.channel, expected, ledger);
    }
  }
}
