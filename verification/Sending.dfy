/** Sending frames over a socket that takes part of what it is given, while frames that
    arrive meanwhile are queued (`amqp_try_send`, `amqp_try_recv`, `amqp_send_frame_inner`). */
module Sending {
  import opened Bytes
  import opened Statuses
  import opened Frames
  import opened FrameParser
  import opened Demux

  /** What one send or the poll after it meets. A timeout is found to be the caller's
      deadline or else the time to look for incoming frames. */
  datatype SendEvent = Accepts(count: nat) | Writable | SendTimesOut(callersDeadline: bool) | SendBreaks(status: Status)

  class Socket {
    /** Everything the peer was given, in order. */
    var accepted: bytes
    var script: seq<SendEvent>

    constructor (script: seq<SendEvent>)
      ensures accepted == [] && this.script == script
    {
      accepted, this.script := [], script;
    }

    /** `amqp_try_send`: how much of `buf` went out, and the event that stopped it short. */
    method TrySend(buf: bytes) returns (sent: nat, stop: SendEvent)
      modifies this
      ensures sent <= |buf| && accepted == old(accepted) + buf[..sent]
      ensures sent < |buf| ==> stop.SendTimesOut? || stop.SendBreaks?
      ensures |script| <= |old(script)| && (sent < |buf| && stop.SendTimesOut? ==> |script| < |old(script)|)
    {
      sent, stop := 0, Writable;
      while sent < |buf|
        invariant sent <= |buf| && accepted == old(accepted) + buf[..sent]
        invariant |script| <= |old(script)|
        decreases |script|
      {
        if script == [] {
          return sent, SendBreaks(SocketError);
        }
        var event := script[0];
        script := script[1..];
        match event {
          case Accepts(count) =>
            var n := if count < |buf| - sent then count else |buf| - sent;
            accepted := accepted + buf[sent..sent + n];
            assert buf[..sent] + buf[sent..sent + n] == buf[..sent + n];
            sent := sent + n;
          case Writable =>
          case SendTimesOut(_) => return sent, event;
          case SendBreaks(_) => return sent, event;
        }
      }
    }
  }

  /** What `amqp_try_recv` comes to. */
  datatype PollResult = Polled(status: Status) | Unparsable(result: Result)

  /** What sending leaves alone: the frames `front` that were queued, all frames of queue and stream
      together, and how the stream will end. */
  datatype Ledger = Ledger(front: seq<Item>, all: seq<Item>, failure: Result)

  /** The queue begins with the ledger's front, queue and stream together are all its items, and the
      stream will end with its failure. */
  ghost predicate Holds(c: Connection, ledger: Ledger)
    reads c, c.inbound, c.inbound.inboundBuffer, c.queue, c.queue.links
  {
    && c.Valid() && ledger.front <= c.queue.Items()
    && c.queue.Items() + c.Stream().items == ledger.all && c.Stream().failure == ledger.failure
  }

  /** The peer was given some first part of `frame`, and nothing else. */
  ghost predicate GivenPart(before: bytes, after: bytes, frame: bytes) {
    exists n :: 0 <= n <= |frame| && after == before + frame[..n]
  }

  lemma GivenNothing(before: bytes, frame: bytes)
    ensures GivenPart(before, before, frame)
  {
    assert before + frame[..0] == before;
  }

  lemma GivenAll(before: bytes, frame: bytes)
    ensures GivenPart(before, before + frame, frame)
  {
    assert frame[..|frame|] == frame;
  }

  lemma GivenMore(before: bytes, after: bytes, frame: bytes, rest: bytes)
    requires GivenPart(before, after, frame)
    ensures GivenPart(before, after, frame + rest)
  {
    var n :| 0 <= n <= |frame| && after == before + frame[..n];
    assert (frame + rest)[..n] == frame[..n];
  }

  /** A part of what follows `first` is, after `first`, a part of the whole. */
  lemma GivenAfter(before: bytes, first: bytes, after: bytes, next: bytes)
    requires GivenPart(before + first, after, next)
    ensures GivenPart(before, after, first + next)
  {
    var n :| 0 <= n <= |next| && after == before + first + next[..n];
    assert (first + next)[..|first| + n] == first + next[..n];
    assert before + first + next[..n] == before + (first + next[..n]);
  }

  /** The buffer is parsed to its end; or it was, and then a new chunk came in. */
  twostate predicate Drained(c: Connection)
    reads c
  {
    c.sockOffset == |c.sockInbound|
    || (old(c.script) != [] && old(c.script)[0].Arrives? && c.sockOffset == 0
        && c.sockInbound == old(c.script)[0].chunk && c.script == old(c.script)[1..])
  }

  /** `amqp_try_recv`: every frame in the buffer, heartbeats included, goes to the end of the
      queue in order, and then the socket is polled once. What was queued stays queued in front, and
      queue and stream together stay the same sequence of frames. */
  method TryRecv(c: Connection, ghost ledger: Ledger) returns (r: PollResult)
    requires Holds(c, ledger)
    modifies c.Footprint()
    ensures forall o :: o in c.Footprint() ==> o in old(c.Footprint()) || fresh(o)
    ensures r.Polled? ==> Holds(c, ledger) && Drained(c)
    ensures r.Unparsable? ==> c.queue.Valid() && c.queue.Items() == ledger.all && r.result == ledger.failure
  {
    hide Scan, ValidState;
    while c.sockOffset < |c.sockInbound|
      invariant Holds(c, ledger) && c.script == old(c.script)
      invariant forall o :: o in c.Footprint() ==> o in old(c.Footprint()) || fresh(o)
      decreases |c.sockInbound| - c.sockOffset
    {
      var result := TryRecvOne(c, ledger);
      if Broken(result) {
        return Unparsable(result);
      }
    }
    var event := c.RecvWithTimeout();
    match event {
      case Arrives(_) => r := Polled(Ok);
      case TimesOut(_) => r := Polled(Timeout);
      case Breaks(status) => r := Polled(status);
    }
  }

  /** One pass of the loop in `amqp_try_recv`. */
  method TryRecvOne(c: Connection, ghost ledger: Ledger) returns (result: Result)
    requires Holds(c, ledger) && c.sockOffset < |c.sockInbound|
    modifies c.Footprint()
    ensures forall o :: o in c.Footprint() ==> o in old(c.Footprint()) || fresh(o)
    ensures !Broken(result) ==>
              Holds(c, ledger) && c.sockInbound == old(c.sockInbound) && c.sockOffset > old(c.sockOffset)
    ensures !Broken(result) ==> c.queue.Items() == old(c.queue.Items()) + ItemsOf(result) && c.script == old(c.script)
    ensures Broken(result) ==> c.queue.Valid() && c.queue.Items() == ledger.all && result == ledger.failure
  {
    hide Scan, ValidState, Connection.Footprint;
    c.InFootprint();
    ghost var q := c.queue.Items();
    result := c.ConsumeOneFrame();
    if result.Got? {
      ghost var later := c.Stream().items;
      c.Enlist(result.item);
      ConcatAssoc(q, [result.item], later);
    } else if Broken(result) {
      assert q + [] == q;
    } else {
      assert [] + c.Stream().items == c.Stream().items;
    }
    c.FootprintGrows();
  }

  lemma SocketApart(c: Connection, s: Socket)
    ensures s !in c.Footprint()
  {
  }

  /** What sending a frame comes to. */
  datatype SendResult = Sent | NotSent(status: Status) | ReceiveBroke(result: Result)

  /** `amqp_send_frame_inner`, from the encoded frame on: whatever the pattern of short writes,
      retries and timeouts, the peer has been given a prefix of the frame, and exactly the frame
      when the send succeeds; and queue and stream together are the frames they were. */
  method SendEncoded(c: Connection, s: Socket, frame: bytes, ghost ledger: Ledger)
    returns (r: SendResult)
    requires Holds(c, ledger)
    modifies c.Footprint(), s
    ensures forall o :: o in c.Footprint() ==> o in old(c.Footprint()) || fresh(o)
    ensures GivenPart(old(s.accepted), s.accepted, frame)
    ensures r.Sent? ==> s.accepted == old(s.accepted) + frame
    ensures !r.ReceiveBroke? ==> Holds(c, ledger)
    ensures r.ReceiveBroke? ==> c.queue.Valid() && c.queue.Items() == ledger.all && r.result == ledger.failure
  {
    hide Holds, Connection.Footprint;
    SocketApart(c, s);
    var done := 0;
    assert frame[..0] == [];
    while true
      invariant Holds(c, ledger)
      invariant forall o :: o in c.Footprint() ==> o in old(c.Footprint()) || fresh(o)
      invariant done <= |frame| && s.accepted == old(s.accepted) + frame[..done]
      decreases |s.script|
    {
      var sent, stop := s.TrySend(frame[done..]);
      assert frame[..done] + frame[done..][..sent] == frame[..done + sent];
      done := done + sent;
      if done == |frame| {
        assert frame[..done] == frame;
        return Sent;
      }
      if stop.SendBreaks? {
        return NotSent(stop.status);
      }
      if stop.callersDeadline {
        return NotSent(Timeout);
      }
      var polled := TryRecv(c, ledger);
      match polled {
        case Unparsable(result) => return ReceiveBroke(result);
        case Polled(status) =>
          if status == Timeout {
            return NotSent(HeartbeatTimeout);
          } else if status != Ok {
            return NotSent(status);
          }
      }
    }
  }

  /** `amqp_send_frame_inner`: the frame is encoded into the outbound buffer first, and a frame that
      cannot be is not sent at all. */
  method SendFrame(c: Connection, s: Socket, f: Frame, outbound: array<byte>, ghost ledger: Ledger)
    returns (r: SendResult)
    requires Holds(c, ledger) && WellTyped(c.inbound.limits.schema, f) && RoomForFixedParts(f, outbound.Length)
    requires outbound !in c.Footprint()
    modifies c.Footprint(), s, outbound
    ensures forall o :: o in c.Footprint() ==> o in old(c.Footprint()) || fresh(o)
    ensures r.Sent? ==>
      FitsIn(c.inbound.limits.schema, f, outbound.Length)
      && s.accepted == old(s.accepted) + FrameBytes(c.inbound.limits.schema, f)
    ensures GivenPart(old(s.accepted), s.accepted, FrameWire(c.inbound.limits.schema, f))
    ensures var status := FrameStatus(c.inbound.limits.schema, f, outbound.Length);
      status != Ok ==> r == NotSent(status) && s.accepted == old(s.accepted)
    ensures !r.ReceiveBroke? ==> Holds(c, ledger)
    ensures r.ReceiveBroke? ==> c.queue.Valid() && c.queue.Items() == ledger.all && r.result == ledger.failure
  {
    hide FrameBytes, Encodable, FrameStatus, WellTyped, RoomForFixedParts, Scan, ValidState, GivenPart,
      Connection.Footprint;
    c.InFootprint();
    GivenNothing(s.accepted, FrameWire(c.inbound.limits.schema, f));
    var status, length := FrameToBytes(c.inbound.limits.schema, f, outbound);
    if status != Ok {
      return NotSent(status);
    }
    r := SendEncoded(c, s, outbound[..length], ledger);
  }
}
