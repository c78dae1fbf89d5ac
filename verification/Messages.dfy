/** Messages: a publisher cuts a body into frames (`amqp_basic_publish`), and a reader puts it
    together again from the frames of one channel (`amqp_read_message`, `amqp_consume_message`). */
module Messages {
  import opened Bytes
  import opened FieldTable
  import opened Statuses
  import opened TableCodec
  import opened Generator
  import opened ContentHeader
  import opened Frames
  import opened FrameParser
  import opened FrameQueue
  import opened Demux
  import opened Sending
  import opened Rpc
  import DeepCopy

  const BASIC_PUBLISH_METHOD: uint32 := 0x003C_0028
  const BASIC_DELIVER_METHOD: uint32 := 0x003C_003C

  // ---------------------------------------------------------------- publishing

  /** The body frames of a message: full fragments of `usable` bytes, and what is left. */
  function Fragments(channel: uint16, body: bytes, usable: nat): seq<Frame>
    requires usable > 0
    decreases |body|
  {
    if body == [] then []
    else
      var n := Min(usable, |body|);
      [BodyFrame(channel, body[..n])] + Fragments(channel, body[n..], usable)
  }

  /** The fragments joined again. */
  function Joined(frames: seq<Frame>): bytes {
    if frames == [] then []
    else (if frames[0].BodyFrame? then frames[0].fragment else []) + Joined(frames[1..])
  }

  /** Cutting loses nothing, and every fragment is nonempty and fits a frame. */
  lemma {:induction false} FragmentsJoin(channel: uint16, body: bytes, usable: nat)
    requires usable > 0
    ensures Joined(Fragments(channel, body, usable)) == body
    ensures forall f :: f in Fragments(channel, body, usable) ==>
              f.BodyFrame? && f.channel == channel && 0 < |f.fragment| <= usable
    decreases |body|
  {
    if body != [] {
      FragmentsJoin(channel, body[Min(usable, |body|)..], usable);
    }
  }

  /** A published message: its properties and its body. */
  datatype Content = Content(flags: uint32, props: seq<FieldVal>, body: bytes)

  predicate ProperContent(m: Content) {
    |m.body| < 0x1_0000_0000_0000_0000 && AllTyped(BASIC_PROPERTIES, m.props)
  }

  function HeaderOf(channel: uint16, m: Content): Frame
    requires ProperContent(m)
  {
    HeaderFrame(channel, BASIC_CLASS, |m.body|, m.flags, m.props)
  }

  /** The header and body frames of a message, for a negotiated frame size. */
  function ContentFrames(channel: uint16, m: Content, frameMax: nat): seq<Frame>
    requires ProperContent(m) && frameMax > HEADER_SIZE + FOOTER_SIZE
  {
    [HeaderOf(channel, m)] + Fragments(channel, m.body, frameMax - HEADER_SIZE - FOOTER_SIZE)
  }

  /** The frames laid out one after another; a frame that cannot be laid out is never sent. */
  function Wire(schema: Schema, frames: seq<Frame>): bytes {
    if frames == [] then []
    else FrameWire(schema, frames[0]) + Wire(schema, frames[1..])
  }

  lemma {:induction false} WireSnoc(schema: Schema, a: seq<Frame>, f: Frame)
    ensures Wire(schema, a + [f]) == Wire(schema, a) + FrameWire(schema, f)
  {
    hide FrameWire;
    if a == [] {
      assert (a + [f])[1..] == [] && FrameWire(schema, f) + [] == FrameWire(schema, f);
    } else {
      assert (a + [f])[1..] == a[1..] + [f];
      WireSnoc(schema, a[1..], f);
    }
  }

  /** The fragment loop of `amqp_basic_publish`: the peer has been given a first part of the body
      frames laid out in order, and exactly all of it on success. */
  method SendBody(c: Connection, s: Socket, channel: uint16, body: bytes, outbound: array<byte>,
                  ghost ledger: Ledger) returns (r: SendResult)
    requires Holds(c, ledger) && outbound.Length > HEADER_SIZE + FOOTER_SIZE
    requires outbound !in c.Footprint()
    modifies c.Footprint(), s, outbound
    ensures r.Sent? ==>
      AllFit(c.inbound.limits.schema, Fragments(channel, body, outbound.Length - 8), outbound.Length)
      && s.accepted == old(s.accepted) + Wire(c.inbound.limits.schema, Fragments(channel, body, outbound.Length - 8))
    ensures GivenPart(old(s.accepted), s.accepted,
                      Wire(c.inbound.limits.schema, Fragments(channel, body, outbound.Length - 8)))
    ensures !r.ReceiveBroke? ==> Holds(c, ledger)
  {
    hide Holds, FrameBytes, Encodable, WellTyped, FitsIn, RoomForFixedParts, Wire, Fragments, GivenPart,
      Connection.Footprint;
    SocketApart(c, s);
    ghost var schema, usable := c.inbound.limits.schema, outbound.Length - HEADER_SIZE - FOOTER_SIZE;
    ghost var frames := Fragments(channel, body, usable);
    ghost var done := [];
    var bodyOffset := 0;
    r := Sent;
    assert body[0..] == body && [] + frames == frames;
    WireNothing(schema);
    while bodyOffset < |body|
      invariant Holds(c, ledger) && r.Sent?
      invariant forall o :: o in c.Footprint() ==> o in old(c.Footprint()) || fresh(o)
      invariant bodyOffset <= |body| && frames == done + Fragments(channel, body[bodyOffset..], usable)
      invariant s.accepted == old(s.accepted) + Wire(schema, done)
    {
      var remaining := |body| - bodyOffset;
      var n := if remaining >= outbound.Length - HEADER_SIZE - FOOTER_SIZE
               then outbound.Length - HEADER_SIZE - FOOTER_SIZE else remaining;
      var f := BodyFrame(channel, body[bodyOffset..bodyOffset + n]);
      NextFragment(channel, body, bodyOffset, usable);
      assert done + ([f] + Fragments(channel, body[bodyOffset + n..], usable))
          == done + [f] + Fragments(channel, body[bodyOffset + n..], usable);
      bodyOffset := bodyOffset + n;
      BodyFrameFits(schema, f, outbound.Length);
      r := SendOne(c, s, f, outbound, ledger, done, old(s.accepted));
      if !r.Sent? {
        WirePrefix(schema, done + [f], Fragments(channel, body[bodyOffset..], usable));
        GivenMore(old(s.accepted), s.accepted, Wire(schema, done + [f]),
                  Wire(schema, Fragments(channel, body[bodyOffset..], usable)));
        return;
      }
      done := done + [f];
    }
    NoFragments(channel, usable);
    assert done + [] == done && body[bodyOffset..] == [];
    GivenAll(old(s.accepted), Wire(schema, frames));
    FragmentsFit(schema, channel, body, outbound.Length);
  }

  /** A body can always be sent, and delivered. */
  lemma FragmentsFit(schema: Schema, channel: uint16, body: bytes, frameMax: nat)
    requires frameMax > HEADER_SIZE + FOOTER_SIZE
    ensures forall f :: f in Fragments(channel, body, frameMax - HEADER_SIZE - FOOTER_SIZE) ==>
              FitsIn(schema, f, frameMax) && Survives(schema, f)
  {
    hide FitsIn, Survives, Fragments;
    FragmentsJoin(channel, body, frameMax - HEADER_SIZE - FOOTER_SIZE);
    forall f | f in Fragments(channel, body, frameMax - HEADER_SIZE - FOOTER_SIZE)
      ensures FitsIn(schema, f, frameMax) && Survives(schema, f)
    {
      BodyFrameFits(schema, f, frameMax);
    }
  }

  lemma NextFragment(channel: uint16, body: bytes, off: nat, usable: nat)
    requires usable > 0 && off < |body|
    ensures var n := Min(usable, |body| - off);
      Fragments(channel, body[off..], usable)
      == [BodyFrame(channel, body[off..off + n])] + Fragments(channel, body[off + n..], usable)
  {
    var n := Min(usable, |body| - off);
    assert body[off..][..n] == body[off..off + n] && body[off..][n..] == body[off + n..];
  }

  lemma NoFragments(channel: uint16, usable: nat)
    requires usable > 0
    ensures Fragments(channel, [], usable) == []
  {
  }

  lemma WireNothing(schema: Schema)
    ensures Wire(schema, []) == []
  {
  }

  lemma BodyFrameFits(schema: Schema, f: Frame, frameMax: nat)
    requires f.BodyFrame? && HEADER_SIZE + FOOTER_SIZE + |f.fragment| <= frameMax
    ensures WellTyped(schema, f) && RoomForFixedParts(f, frameMax)
    ensures FitsIn(schema, f, frameMax) && Survives(schema, f)
  {
  }

  /** One more frame after the frames `done`. */
  method SendOne(c: Connection, s: Socket, f: Frame, outbound: array<byte>, ghost ledger: Ledger,
                 ghost done: seq<Frame>, ghost start: bytes) returns (r: SendResult)
    requires Holds(c, ledger) && WellTyped(c.inbound.limits.schema, f) && RoomForFixedParts(f, outbound.Length)
    requires outbound !in c.Footprint()
    requires s.accepted == start + Wire(c.inbound.limits.schema, done)
    modifies c.Footprint(), s, outbound
    ensures forall o :: o in c.Footprint() ==> o in old(c.Footprint()) || fresh(o)
    ensures r.Sent? ==>
      FitsIn(c.inbound.limits.schema, f, outbound.Length)
      && s.accepted == start + Wire(c.inbound.limits.schema, done + [f])
    ensures GivenPart(start, s.accepted, Wire(c.inbound.limits.schema, done + [f]))
    ensures !r.ReceiveBroke? ==> Holds(c, ledger)
  {
    hide Holds, FrameBytes, Encodable, WellTyped, RoomForFixedParts, GivenPart, Wire, Connection.Footprint;
    ghost var schema := c.inbound.limits.schema;
    r := SendFrame(c, s, f, outbound, ledger);
    WireSnoc(schema, done, f);
    GivenAfter(start, Wire(schema, done), s.accepted, FrameWire(schema, f));
    assert start + Wire(schema, done) + FrameWire(schema, f) == start + (Wire(schema, done) + FrameWire(schema, f));
  }

  /** The frames of a whole publish: method, header, body. */
  function PublishFrames(channel: uint16, args: seq<FieldVal>, m: Content, frameMax: nat): seq<Frame>
    requires ProperContent(m) && frameMax > HEADER_SIZE + FOOTER_SIZE
  {
    [MethodFrame(channel, BASIC_PUBLISH_METHOD, args)] + ContentFrames(channel, m, frameMax)
  }

  /** `amqp_basic_publish`: the peer has been given a first part of the publish, header and body
      frames laid out in order, and exactly all of it on success, when each of them can be laid out
      and fits a frame. `heartbeatOverdue` is what the clock says at the start. */
  method BasicPublish(c: Connection, s: Socket, channel: uint16, args: seq<FieldVal>, m: Content,
                      outbound: array<byte>, heartbeatOverdue: bool, ghost ledger: Ledger)
    returns (r: SendResult)
    requires Holds(c, ledger) && ProperContent(m) && outbound !in c.Footprint()
    requires outbound.Length >= HEADER_SIZE + 12 + FOOTER_SIZE
    requires WellTyped(c.inbound.limits.schema, MethodFrame(channel, BASIC_PUBLISH_METHOD, args))
    modifies c.Footprint(), s, outbound
    ensures r.Sent? ==>
      AllFit(c.inbound.limits.schema, PublishFrames(channel, args, m, outbound.Length), outbound.Length)
      && s.accepted == old(s.accepted) + Wire(c.inbound.limits.schema, PublishFrames(channel, args, m, outbound.Length))
    ensures GivenPart(old(s.accepted), s.accepted,
                      Wire(c.inbound.limits.schema, PublishFrames(channel, args, m, outbound.Length)))
    ensures !r.ReceiveBroke? ==> Holds(c, ledger)
  {
    hide Holds, FrameBytes, Encodable, WellTyped, FitsIn, Wire, FrameWire, Fragments, GivenPart,
      Connection.Footprint;
    SocketApart(c, s);
    ghost var schema, start := c.inbound.limits.schema, s.accepted;
    ghost var all := Wire(schema, PublishFrames(channel, args, m, outbound.Length));
    GivenNothing(start, all);
    if heartbeatOverdue {
      var polled := TryRecv(c, ledger);
      match polled {
        case Unparsable(result) => return ReceiveBroke(result);
        case Polled(status) =>
          if status != Ok {
            return NotSent(if status == Timeout then HeartbeatTimeout else status);
          }
      }
    }
    var publish, header := MethodFrame(channel, BASIC_PUBLISH_METHOD, args), HeaderOf(channel, m);
    ghost var fragments := Fragments(channel, m.body, outbound.Length - HEADER_SIZE - FOOTER_SIZE);
    PublishOnWire(schema, publish, header, fragments);
    assert [publish, header] + fragments == PublishFrames(channel, args, m, outbound.Length);
    HeaderWellTyped(schema, channel, m);
    r := SendOne(c, s, publish, outbound, ledger, [], start);
    if !r.Sent? {
      GivenMore(start, s.accepted, Wire(schema, [] + [publish]), Wire(schema, [header] + fragments));
      return;
    }
    r := SendOne(c, s, header, outbound, ledger, [] + [publish], start);
    if !r.Sent? {
      GivenMore(start, s.accepted, Wire(schema, [] + [publish] + [header]), Wire(schema, fragments));
      return;
    }
    ghost var sofar := Wire(schema, [] + [publish] + [header]);
    r := SendBody(c, s, channel, m.body, outbound, ledger);
    GivenAfter(start, sofar, s.accepted, Wire(schema, fragments));
    assert start + sofar + Wire(schema, fragments) == start + (sofar + Wire(schema, fragments));
  }

  /** The parts in which a publish goes out, as parts of the whole. */
  lemma PublishOnWire(schema: Schema, publish: Frame, header: Frame, fragments: seq<Frame>)
    ensures Wire(schema, []) == []
    ensures var all := Wire(schema, [publish, header] + fragments);
      && all == Wire(schema, [] + [publish]) + Wire(schema, [header] + fragments)
      && all == Wire(schema, [] + [publish] + [header]) + Wire(schema, fragments)
  {
    hide FrameWire, Wire;
    WireNothing(schema);
    WirePrefix(schema, [publish, header], fragments);
    WirePrefix(schema, [publish], [header] + fragments);
    assert [publish, header] + fragments == [publish] + ([header] + fragments);
    assert [] + [publish] == [publish] && [] + [publish] + [header] == [publish, header];
  }

  lemma HeaderWellTyped(schema: Schema, channel: uint16, m: Content)
    requires ProperContent(m)
    ensures WellTyped(schema, HeaderOf(channel, m))
  {
  }

  lemma {:induction false} WirePrefix(schema: Schema, a: seq<Frame>, b: seq<Frame>)
    ensures Wire(schema, a + b) == Wire(schema, a) + Wire(schema, b)
  {
    hide FrameWire;
    if a == [] {
      assert a + b == b;
    } else {
      assert (a + b)[0] == a[0] && (a + b)[1..] == a[1..] + b;
      WirePrefix(schema, a[1..], b);
    }
  }

  // ---------------------------------------------------------------- reading

  datatype ReadResult =
    | Message(flags: uint32, props: seq<FieldVal>, body: bytes)
    | ClosedByServer(id: uint32, args: seq<FieldVal>)
    | Unexpected(item: Item)
    | ReadFailed(status: Status)
    | ReadWild
    | ReadBroke(result: Result)

  predicate IsClose(item: Item) {
    item.FrameItem? && item.frame.MethodFrame?
    && (item.frame.id == CHANNEL_CLOSE_METHOD || item.frame.id == CONNECTION_CLOSE_METHOD)
  }

  predicate IsHeader(item: Item) {
    item.FrameItem? && item.frame.HeaderFrame?
  }

  const BASIC_MEMBERS := 14

  /** What copying a header frame's properties comes to; the structure decoded for a class other
      than basic has none of the members that the flags may call for. */
  datatype Copying = Copied | NotCopied(status: Status) | BeyondStructure

  /** The flagged members from the `k`-th on, as `amqp_basic_properties_clone` goes through them. */
  function CopyFrom(f: Frame, k: nat): Copying
    requires f.HeaderFrame? && k <= BASIC_MEMBERS
    decreases BASIC_MEMBERS - k
  {
    if k == BASIC_MEMBERS then Copied
    else if !Has(f.flags, k) then CopyFrom(f, k + 1)
    else if k >= |f.props| then BeyondStructure
    else if f.props[k].TableVal? && !DeepCopy.CloneableEntries(f.props[k].entries) then NotCopied(InvalidParameter)
    else CopyFrom(f, k + 1)
  }

  /** The copy: flagged members, and zero for the others. */
  function CopiedProps(f: Frame): seq<FieldVal>
    requires f.HeaderFrame?
  {
    seq(BASIC_MEMBERS, k requires 0 <= k < BASIC_MEMBERS =>
      if Has(f.flags, k) && k < |f.props| then f.props[k] else IntVal(0))
  }

  /** A header frame whose properties can be copied. */
  predicate IsContent(item: Item) {
    IsHeader(item) && CopyFrom(item.frame, 0) == Copied
  }

  predicate IsBody(item: Item) {
    item.FrameItem? && item.frame.BodyFrame?
  }

  /** A body of `size` bytes made up by the first frames of a channel's share, of which `got` is there
      already, and the share after it; or nothing, if they do not make up such a body. */
  function TakeBody(share: seq<Item>, size: nat, got: bytes): Option<(bytes, seq<Item>)>
    decreases |share|
  {
    if |got| >= size then Some((got, share))
    else if share == [] || !IsBody(share[0]) || |got| + |share[0].frame.fragment| > size then None
    else TakeBody(share[1..], size, got + share[0].frame.fragment)
  }

  /** A whole message in the same sense. */
  function TakeMessage(share: seq<Item>): Option<(ReadResult, seq<Item>)> {
    if share == [] || !IsContent(share[0]) then None
    else
      var f := share[0].frame;
      match TakeBody(share[1..], f.bodySize, [])
      case None => None
      case Some((body, rest)) => Some((Message(f.flags, CopiedProps(f), body), rest))
  }

  lemma TakeBodyStep(item: Item, share: seq<Item>, size: nat, got: bytes)
    requires |got| < size
    ensures TakeBody([item] + share, size, got) ==
      if IsBody(item) && |got| + |item.frame.fragment| <= size
      then TakeBody(share, size, got + item.frame.fragment) else None
    ensures TakeBody([], size, got) == None
  {
    assert ([item] + share)[1..] == share;
  }

  lemma TakeBodyEnd(share: seq<Item>, size: nat, got: bytes)
    requires |got| >= size
    ensures TakeBody(share, size, got) == Some((got, share))
  {
  }

  lemma TakeMessageStep(item: Item, share: seq<Item>)
    ensures TakeMessage([item] + share) ==
      if !IsContent(item) then None
      else
        match TakeBody(share, item.frame.bodySize, [])
        case None => None
        case Some((body, rest)) => Some((Message(item.frame.flags, CopiedProps(item.frame), body), rest))
    ensures TakeMessage([]) == None
  {
    assert ([item] + share)[1..] == share;
  }

  datatype Piece = Fragment(data: bytes) | Failure(r: ReadResult)

  /** The next frame of the channel, when it is a fragment that the message has room for: then it
      leaves the rest of the body to be taken. */
  method AwaitFragment(c: Connection, channel: uint16, size: nat, read: nat, ghost got: bytes) returns (p: Piece)
    requires c.Valid() && read == |got| < size
    modifies c.Footprint()
    ensures forall o :: o in c.Footprint() ==> o in old(c.Footprint()) || fresh(o)
    ensures p.Fragment? || !p.r.ReadBroke? ==> c.Valid() && c.Stream().failure == old(c.Stream()).failure
    ensures p.Fragment? ==>
      && read + |p.data| <= size
      && |c.queue.Items()| + |c.Upcoming()| < |old(c.queue.Items())| + |old(c.Upcoming())|
      && TakeBody(old(Waiting(c, channel)), size, got) == TakeBody(Waiting(c, channel), size, got + p.data)
      && OthersQueued(channel, old(c.queue.Items()), old(c.Upcoming()), c.queue.Items(), c.Upcoming())
    ensures p.Failure? ==> !p.r.Message? && !p.r.Unexpected?
    ensures AllArrive(old(c.script)) ==>
      AllArrive(c.script) && (TakeBody(old(Waiting(c, channel)), size, got).Some? ==> p.Fragment?)
  {
    hide Waiting, TakeBody, AllArrive, OthersQueued, OthersWaiting, Scan, ValidState, Relevant, Connection.Footprint,
      Connection.Upcoming, Connection.Stream;
    var w := WaitOnce(c, channel);
    match w {
      case NoFrame(status) =>
        NeedsFrame(size, got);
        p := Failure(ReadFailed(status));
      case StreamBroken(result) =>
        NeedsFrame(size, got);
        p := Failure(ReadBroke(result));
      case Read(item) =>
        TakeBodyStep(item, Waiting(c, channel), size, got);
        if !IsBody(item) {
          p := Failure(if IsClose(item) then ClosedByServer(item.frame.id, item.frame.args)
                       else ReadFailed(BadAmqpData));
        } else if read + |item.frame.fragment| > size {
          p := Failure(ReadFailed(BadAmqpData));
        } else {
          p := Fragment(item.frame.fragment);
        }
    }
  }

  datatype Progress = Upto(read: nat) | Stop(r: ReadResult)

  /** One pass of the body loop of `amqp_read_message`: the next fragment of the channel is copied
      behind what was read, which leaves the rest of the body to be taken; or the message fails. */
  method ReadFragment(c: Connection, channel: uint16, body: array<byte>, read: nat) returns (p: Progress)
    requires c.Valid() && read < body.Length && body !in c.Footprint()
    modifies c.Footprint(), body
    ensures forall o :: o in c.Footprint() ==> o in old(c.Footprint()) || fresh(o)
    ensures p.Upto? || !p.r.ReadBroke? ==> c.Valid() && c.Stream().failure == old(c.Stream()).failure
    ensures p.Upto? ==>
      && p.read <= body.Length
      && |c.queue.Items()| + |c.Upcoming()| < |old(c.queue.Items())| + |old(c.Upcoming())|
      && TakeBody(old(Waiting(c, channel)), body.Length, old(body[..read]))
         == TakeBody(Waiting(c, channel), body.Length, body[..p.read])
      && OthersQueued(channel, old(c.queue.Items()), old(c.Upcoming()), c.queue.Items(), c.Upcoming())
    ensures p.Stop? ==> !p.r.Message? && !p.r.Unexpected?
    ensures AllArrive(old(c.script)) ==>
      AllArrive(c.script) && (TakeBody(old(Waiting(c, channel)), body.Length, old(body[..read])).Some? ==> p.Upto?)
  {
    hide Waiting, TakeBody, AllArrive, OthersQueued, OthersWaiting, Scan, ValidState, Relevant, Connection.Footprint,
      Connection.Upcoming, Connection.Stream;
    ghost var got := body[..read];
    var piece := AwaitFragment(c, channel, body.Length, read, got);
    match piece {
      case Failure(result) => p := Stop(result);
      case Fragment(data) =>
        assert body[..read] == got;
        c.InFootprint();
        CopyBehind(body, read, data);
        p := Upto(read + |data|);
    }
  }

  method CopyBehind(body: array<byte>, read: nat, data: bytes)
    requires read + |data| <= body.Length
    modifies body
    ensures body[..read + |data|] == old(body[..read]) + data
  {
    ghost var got := body[..read];
    Memcpy(body, read, data);
    assert body[..read] == got;
  }

  lemma NeedsFrame(size: nat, got: bytes)
    requires |got| < size
    ensures TakeBody([], size, got) == None
  {
  }

  /** The body loop of `amqp_read_message`, from any queue: a body is read exactly as the first
      frames of the channel's share make one up, the rest of the share is left, and reading fails
      only if it must or if nothing more arrives. Other channels lose only frames that were queued
      ahead of the body's. */
  method ReadBody(c: Connection, channel: uint16, size: nat) returns (r: ReadResult)
    requires c.Valid()
    modifies c.Footprint()
    ensures forall o :: o in c.Footprint() ==> o in old(c.Footprint()) || fresh(o)
    ensures !r.ReadBroke? ==> c.Valid() && c.Stream().failure == old(c.Stream()).failure
    ensures !r.Unexpected?
    ensures r.Message? ==>
      && TakeBody(old(Waiting(c, channel)), size, []) == Some((r.body, Waiting(c, channel)))
      && OthersQueued(channel, old(c.queue.Items()), old(c.Upcoming()), c.queue.Items(), c.Upcoming())
    ensures AllArrive(old(c.script)) && TakeBody(old(Waiting(c, channel)), size, []).Some? ==> r.Message?
  {
    hide Waiting, TakeBody, AllArrive, OthersQueued, OthersWaiting, Scan, ValidState, Relevant, Connection.Footprint,
      Connection.Upcoming, Connection.Stream;
    ghost var q, up, share := c.queue.Items(), c.Upcoming(), Waiting(c, channel);
    NothingMoved(channel, q, up);
    var body := new byte[size];
    c.ArrayApart(body);
    var read := 0;
    assert body[..0] == [];
    while read < size
      invariant c.Valid() && forall o :: o in c.Footprint() ==> o in old(c.Footprint()) || fresh(o)
      invariant c.Stream().failure == old(c.Stream()).failure
      invariant read <= size && fresh(body) && body !in c.Footprint()
      invariant TakeBody(share, size, []) == TakeBody(Waiting(c, channel), size, body[..read])
      invariant OthersQueued(channel, q, up, c.queue.Items(), c.Upcoming())
      invariant AllArrive(old(c.script)) ==> AllArrive(c.script)
      decreases |c.queue.Items()| + |c.Upcoming()|
    {
      ghost var q1, up1 := c.queue.Items(), c.Upcoming();
      var p := ReadFragment(c, channel, body, read);
      match p {
        case Stop(result) => return result;
        case Upto(next) =>
          QueuedIsWaiting(channel, q1, up1, c.queue.Items(), c.Upcoming());
          MovedTwice(channel, q, up, q1, up1, c.queue.Items(), c.Upcoming());
          read := next;
      }
    }
    assert body[..read] == body[..];
    TakeBodyEnd(Waiting(c, channel), size, body[..]);
    r := Message(0, [], body[..]);
  }

  /** `amqp_basic_properties_clone`; a table is copied, or refused, by `amqp_table_clone`. */
  method CopyProperties(f: Frame) returns (copying: Copying, props: seq<FieldVal>)
    requires f.HeaderFrame?
    ensures copying == CopyFrom(f, 0)
    ensures copying == Copied ==> props == CopiedProps(f)
  {
    hide Has;
    props := seq(BASIC_MEMBERS, _ => IntVal(0));
    var k := 0;
    while k < BASIC_MEMBERS
      invariant 0 <= k <= BASIC_MEMBERS == |props| && CopyFrom(f, 0) == CopyFrom(f, k)
      invariant forall j :: 0 <= j < k ==> props[j] == CopiedProps(f)[j]
      invariant forall j :: k <= j < BASIC_MEMBERS ==> props[j] == IntVal(0)
    {
      if Has(f.flags, k) {
        if k >= |f.props| {
          return BeyondStructure, props;
        }
        if f.props[k].TableVal? && !DeepCopy.CloneableEntries(f.props[k].entries) {
          return NotCopied(InvalidParameter), props;
        }
        props := props[k := f.props[k]];
      }
      k := k + 1;
    }
    copying := Copied;
    assert props == CopiedProps(f);
  }

  /** What the channel's first frame decides at once: a frame that is no header, or a header whose
      properties are refused. */
  function Verdict(item: Item): Option<ReadResult> {
    if !IsHeader(item) then
      Some(if IsClose(item) then ClosedByServer(item.frame.id, item.frame.args) else Unexpected(item))
    else
      match CopyFrom(item.frame, 0)
      case Copied => None
      case NotCopied(status) => Some(ReadFailed(status))
      case BeyondStructure => Some(ReadWild)
  }

  /** From the header frame on. */
  method ReadContent(c: Connection, channel: uint16, item: Item) returns (r: ReadResult)
    requires c.Valid() && IsHeader(item)
    modifies c.Footprint()
    ensures forall o :: o in c.Footprint() ==> o in old(c.Footprint()) || fresh(o)
    ensures !r.ReadBroke? ==> c.Valid() && c.Stream().failure == old(c.Stream()).failure
    ensures !r.Unexpected?
    ensures r.Message? ==>
      && TakeMessage([item] + old(Waiting(c, channel))) == Some((r, Waiting(c, channel)))
      && OthersQueued(channel, old(c.queue.Items()), old(c.Upcoming()), c.queue.Items(), c.Upcoming())
    ensures AllArrive(old(c.script)) && TakeMessage([item] + old(Waiting(c, channel))).Some? ==> r.Message?
    ensures Verdict(item).Some? ==> r == Verdict(item).value
  {
    hide Waiting, TakeBody, TakeMessage, AllArrive, OthersQueued, OthersWaiting, Scan, ValidState, Relevant, CopyFrom,
      CopiedProps, Connection.Footprint;
    TakeMessageStep(item, Waiting(c, channel));
    var copying, props := CopyProperties(item.frame);
    match copying {
      case NotCopied(status) => return ReadFailed(status);
      case BeyondStructure => return ReadWild;
      case Copied =>
    }
    r := ReadBody(c, channel, item.frame.bodySize);
    if r.Message? {
      r := Message(item.frame.flags, props, r.body);
    }
  }

  /** `amqp_read_message`, from any queue: the message is read exactly as the first frames of the
      channel's share make one up, and the rest of the share is left; reading fails only if it must
      or if nothing more arrives, and then with the status that the first frame calls for. Other
      channels lose only frames that were queued ahead of the message's. */
  method ReadMessage(c: Connection, channel: uint16) returns (r: ReadResult)
    requires c.Valid()
    modifies c.Footprint()
    ensures forall o :: o in c.Footprint() ==> o in old(c.Footprint()) || fresh(o)
    ensures !r.ReadBroke? ==> c.Valid() && c.Stream().failure == old(c.Stream()).failure
    ensures r.Message? ==>
      && TakeMessage(old(Waiting(c, channel))) == Some((r, Waiting(c, channel)))
      && OthersQueued(channel, old(c.queue.Items()), old(c.Upcoming()), c.queue.Items(), c.Upcoming())
    ensures AllArrive(old(c.script)) && TakeMessage(old(Waiting(c, channel))).Some? ==> r.Message?
    ensures var share := old(Waiting(c, channel));
      AllArrive(old(c.script)) && share != [] && Verdict(share[0]).Some? ==> r == Verdict(share[0]).value
    ensures r.Unexpected? ==> c.queue.Items() != [] && c.queue.Items()[0] == r.item
    ensures r.Unexpected? ==> Waiting(c, channel) == old(Waiting(c, channel))
  {
    hide Waiting, TakeMessage, AllArrive, OthersQueued, OthersWaiting, Scan, ValidState, Relevant, IsHeader, IsClose,
      CopyFrom;
    ghost var q, up, share := c.queue.Items(), c.Upcoming(), Waiting(c, channel);
    MessageNeedsFrame();
    var w := WaitOnce(c, channel);
    match w {
      case NoFrame(status) => r := ReadFailed(status);
      case StreamBroken(result) => r := ReadBroke(result);
      case Read(item) =>
        ghost var q1, up1 := c.queue.Items(), c.Upcoming();
        assert share == [item] + Waiting(c, channel);
        if IsHeader(item) {
          r := ReadContent(c, channel, item);
          if r.Message? {
            QueuedIsWaiting(channel, q1, up1, c.queue.Items(), c.Upcoming());
          MovedTwice(channel, q, up, q1, up1, c.queue.Items(), c.Upcoming());
          }
        } else {
          TakeMessageStep(item, Waiting(c, channel));
          r := RefuseFrame(c, channel, item);
        }
    }
  }

  lemma MessageNeedsFrame()
    ensures TakeMessage([]) == None
  {
  }

  /** A frame where a header was due: a close is reported, anything else is put back. */
  method RefuseFrame(c: Connection, channel: uint16, item: Item) returns (r: ReadResult)
    requires c.Valid() && ItemChannel(item) == channel
    modifies c.queue
    ensures c.Valid() && c.Stream() == old(c.Stream())
    ensures forall l :: l in c.queue.links ==> l in old(c.queue.links) || fresh(l)
    ensures r == if IsClose(item) then ClosedByServer(item.frame.id, item.frame.args) else Unexpected(item)
    ensures r.Unexpected? ==> c.queue.Items() == [item] + old(c.queue.Items())
    ensures r.Unexpected? ==> Waiting(c, channel) == [item] + old(Waiting(c, channel))
  {
    hide Scan, ValidState, On, Relevant;
    OnFirst(item, c.queue.Items() + c.Upcoming(), channel);
    ConcatAssoc([item], c.queue.Items(), c.Upcoming());
    if IsClose(item) {
      r := ClosedByServer(item.frame.id, item.frame.args);
    } else {
      c.Return(item);
      r := Unexpected(item);
    }
  }

  /** The envelope of a delivery: the channel and the arguments of its method. */
  datatype Envelope = NoEnvelope | Envelope(channel: uint16, args: seq<FieldVal>)

  predicate IsDelivery(item: Item) {
    item.FrameItem? && item.frame.MethodFrame? && item.frame.id == BASIC_DELIVER_METHOD
  }

  function EnvelopeOf(item: Item): Envelope
    requires IsDelivery(item)
  {
    Envelope(item.frame.channel, item.frame.args)
  }

  /** Queue and stream once their first frame is taken. */
  function FirstTaken(q: seq<Item>, up: seq<Item>): (seq<Item>, seq<Item>)
    requires q + up != []
  {
    if q != [] then (q[1..], up) else (q, up[1..])
  }

  /** A delivery and the message behind it are there to be read from queue and stream. */
  predicate Consumable(q: seq<Item>, up: seq<Item>) {
    var all := q + up;
    all != [] && IsDelivery(all[0]) && TakeMessage(On(all[1..], ItemChannel(all[0]))).Some?
  }

  /** The first frame is a delivery, and the first of its channel behind it decides at once that the
      message is not to be had. */
  function RefusalOf(q: seq<Item>, up: seq<Item>): Option<ReadResult> {
    var all := q + up;
    if all == [] || !IsDelivery(all[0]) then None
    else
      var share := On(all[1..], ItemChannel(all[0]));
      if share == [] then None else Verdict(share[0])
  }

  /** A delivery was taken, its arguments are in the envelope, and the message made up by the next
      frames of its channel was read; the rest of that channel's share is left. */
  ghost predicate Consumed(r: ReadResult, envelope: Envelope, q: seq<Item>, up: seq<Item>,
                           q': seq<Item>, up': seq<Item>) {
    var all := q + up;
    && all != [] && IsDelivery(all[0]) && envelope == EnvelopeOf(all[0])
    && TakeMessage(On(all[1..], envelope.channel)) == Some((r, On(q' + up', envelope.channel)))
    && OthersQueued(envelope.channel, FirstTaken(q, up).0, FirstTaken(q, up).1, q', up')
  }

  /** `amqp_consume_message`: the first frame must be a delivery; its arguments go to the envelope
      and the message is read from its channel, which succeeds whenever the message is there and
      everything arrives. Any other frame goes back ahead of everything, so that queue and stream
      together are what they were. */
  method ConsumeMessage(c: Connection) returns (r: ReadResult, envelope: Envelope)
    requires c.Valid()
    modifies c.Footprint()
    ensures !r.ReadBroke? ==> c.Valid() && c.Stream().failure == old(c.Stream()).failure
    ensures r.Message? ==>
      Consumed(r, envelope, old(c.queue.Items()), old(c.Upcoming()), c.queue.Items(), c.Upcoming())
    ensures AllArrive(old(c.script)) && Consumable(old(c.queue.Items()), old(c.Upcoming())) ==> r.Message?
    ensures var refusal := RefusalOf(old(c.queue.Items()), old(c.Upcoming()));
      AllArrive(old(c.script)) && refusal.Some? ==>
        r == refusal.value && envelope == EnvelopeOf(old(c.queue.Items() + c.Upcoming())[0])
    ensures var all := old(c.queue.Items() + c.Upcoming());
      all != [] && !IsDelivery(all[0]) ==>
        && (AllArrive(old(c.script)) ==> r.Unexpected?)
        && (!r.ReadBroke? && !r.ReadFailed? ==>
              r == Unexpected(all[0]) && c.queue.Items() + c.Upcoming() == all)
  {
    hide Scan, ValidState, Relevant, TakeMessage, AllArrive, OthersQueued, On;
    ghost var q, up := c.queue.Items(), c.Upcoming();
    envelope := NoEnvelope;
    var w := c.SimpleWaitFrame();
    match w {
      case NoFrame(status) => r := ReadFailed(status);
      case StreamBroken(result) => r := ReadBroke(result);
      case Read(item) =>
        TakenIsFirst(item, q, up, c.queue.Items(), c.Upcoming());
        if !IsDelivery(item) {
          c.Return(item);
          return Unexpected(item), envelope;
        }
        envelope := EnvelopeOf(item);
        assert Waiting(c, envelope.channel) == On((q + up)[1..], envelope.channel);
        r := ReadMessage(c, envelope.channel);
    }
  }

  lemma TakenIsFirst(item: Item, q: seq<Item>, up: seq<Item>, q': seq<Item>, up': seq<Item>)
    requires TakenFirst(item, q, up, q', up')
    ensures q + up == [item] + q' + up' && (q + up)[0] == item && (q + up)[1..] == q' + up'
    ensures FirstTaken(q, up) == (q', up')
  {
  }
}
