/** From a published message to the message read: the frames of a message, laid out, mixed
    with the frames of other channels, cut into any chunks and parsed, are read back whole. */
module EndToEnd {
  import opened Bytes
  import opened FieldTable
  import opened Statuses
  import opened TableCodec
  import opened Generator
  import opened ContentHeader
  import opened Frames
  import opened FrameParser
  import opened Demux
  import opened Sending
  import opened Messages
  import DeepCopy

  /** The frame fits the negotiated size and its tables survive the wire. */
  predicate Deliverable(limits: Limits, f: Frame) {
    FitsIn(limits.schema, f, limits.frameMax) && Survives(limits.schema, f)
  }

  predicate AllDeliverable(limits: Limits, frames: seq<Frame>) {
    forall f :: f in frames ==> Deliverable(limits, f)
  }

  /** The items that the frames come back as. */
  function Arrived(limits: Limits, frames: seq<Frame>): seq<Item> {
    if frames == [] then []
    else ArrivedOne(limits, frames[0]) + Arrived(limits, frames[1..])
  }

  function ArrivedOne(limits: Limits, f: Frame): seq<Item> {
    if Sendable(limits.schema, f) then [FrameItem(Received(limits.schema, f, limits.memory))] else []
  }

  /** Frames laid out one after another are parsed back in order, and leave the parser idle. */
  lemma {:induction false} WireParses(limits: Limits, frames: seq<Frame>)
    requires AllDeliverable(limits, frames) && limits.frameMax <= INT32_MAX
    ensures Scan(limits, IDLE_STATE, Wire(limits.schema, frames))
         == Run(Arrived(limits, frames), IDLE_STATE, Nothing, 0)
  {
    hide Scan, FrameBytes, Survives, Encodable, WellTyped, Received;
    if frames == [] {
      ScanNothing(limits, IDLE_STATE);
    } else {
      var f, rest := frames[0], frames[1..];
      assert Deliverable(limits, f);
      SentFrameParses(limits, f);
      ScanConcat(limits, IDLE_STATE, FrameBytes(limits.schema, f), Wire(limits.schema, rest));
      WireParses(limits, rest);
    }
  }

  // ---------------------------------------------------------------- putting a message together

  function BodyItems(channel: uint16, body: bytes, usable: nat): seq<Item>
    requires usable > 0
    decreases |body|
  {
    if body == [] then []
    else [FrameItem(BodyFrame(channel, body[..Min(usable, |body|)]))]
         + BodyItems(channel, body[Min(usable, |body|)..], usable)
  }

  /** The fragments of a body make up the body again, and what follows them is left. */
  lemma {:induction false} BodyReassembles(channel: uint16, body: bytes, usable: nat, got: bytes, later: seq<Item>)
    requires usable > 0
    ensures TakeBody(BodyItems(channel, body, usable) + later, |got| + |body|, got) == Some((got + body, later))
    decreases |body|
  {
    hide TakeBody;
    if body == [] {
      assert [] + later == later && got + [] == got;
      TakeBodyEnd(later, |got|, got);
    } else {
      var n := Min(usable, |body|);
      var front, back := body[..n], body[n..];
      var item, rest := FrameItem(BodyFrame(channel, front)), BodyItems(channel, back, usable);
      assert body == front + back;
      assert BodyItems(channel, body, usable) == [item] + rest;
      ConcatAssoc([item], rest, later);
      TakeBodyStep(item, rest + later, |got| + |body|, got);
      BodyReassembles(channel, back, usable, got + front, later);
      ConcatAssoc(got, front, back);
    }
  }

  /** A message's header frame as it comes back, when `unset` was in the memory of the structure. */
  function HeaderArrived(channel: uint16, m: Content, unset: seq<FieldVal>): Frame
    requires ProperContent(m) && |unset| == BASIC_MEMBERS
  {
    HeaderFrame(channel, BASIC_CLASS, |m.body|, Echoed(m.flags), PresentProps(m.props, m.flags, unset))
  }

  /** The frames of a message as items. */
  function ContentItems(channel: uint16, m: Content, usable: nat, unset: seq<FieldVal>): seq<Item>
    requires ProperContent(m) && usable > 0 && |unset| == BASIC_MEMBERS
  {
    [FrameItem(HeaderArrived(channel, m, unset))] + BodyItems(channel, m.body, usable)
  }

  /** The message as it is read: members that were not set are zero, whatever memory held. */
  function AsRead(m: Content): ReadResult
    requires ProperContent(m)
  {
    Message(Echoed(m.flags), PresentProps(m.props, m.flags, Zeroed(BASIC_MEMBERS)), m.body)
  }

  const HEADERS := 2

  /** The reader's copy of the properties takes no headers table with an empty key in it. */
  predicate Copyable(m: Content)
    requires ProperContent(m)
  {
    assert Typed(BASIC_PROPERTIES[HEADERS], m.props[HEADERS]);
    Has(m.flags, HEADERS) ==> DeepCopy.CloneableEntries(m.props[HEADERS].entries)
  }

  /** Members other than the headers table are always copied. */
  lemma {:induction false} CopyOnlyTables(f: Frame, k: nat)
    requires f.HeaderFrame? && k <= BASIC_MEMBERS == |f.props| && f.props[HEADERS].TableVal?
    requires forall j :: 0 <= j < BASIC_MEMBERS && j != HEADERS ==> !f.props[j].TableVal?
    ensures CopyFrom(f, k) ==
      if k <= HEADERS && Has(f.flags, HEADERS) && !DeepCopy.CloneableEntries(f.props[HEADERS].entries)
      then NotCopied(InvalidParameter) else Copied
    decreases BASIC_MEMBERS - k
  {
    hide Has, DeepCopy.CloneableEntries;
    if k < BASIC_MEMBERS {
      CopyOnlyTables(f, k + 1);
    }
  }

  /** The properties that arrived can be copied exactly when those published can, and the copy is
      equal to them. */
  lemma HeaderCopies(channel: uint16, m: Content, unset: seq<FieldVal>)
    requires ProperContent(m) && |unset| == BASIC_MEMBERS
    ensures CopyFrom(HeaderArrived(channel, m, unset), 0) == if Copyable(m) then Copied else NotCopied(InvalidParameter)
    ensures CopiedProps(HeaderArrived(channel, m, unset)) == PresentProps(m.props, m.flags, Zeroed(BASIC_MEMBERS))
  {
    hide Has, DeepCopy.CloneableEntries, Echoed, CopyFrom;
    var f := HeaderArrived(channel, m, unset);
    var g := f.(props := seq(BASIC_MEMBERS, j requires 0 <= j < BASIC_MEMBERS => NormalField(m.props[j])));
    forall j | 0 <= j < BASIC_MEMBERS
      ensures Has(f.flags, j) <==> Has(m.flags, j)
      ensures j != HEADERS ==> !g.props[j].TableVal?
    {
      EchoHas(m.flags, j);
      assert Typed(BASIC_PROPERTIES[j], m.props[j]);
    }
    DeepCopy.CloneableEntriesNormal(m.props[HEADERS].entries);
    CopyOnlyTables(g, 0);
    SameFlagged(f, g, 0);
    assert CopiedProps(f) == PresentProps(m.props, m.flags, Zeroed(BASIC_MEMBERS));
  }

  /** Only flagged members matter to the copy. */
  lemma {:induction false} SameFlagged(f: Frame, g: Frame, k: nat)
    requires f.HeaderFrame? && g.HeaderFrame? && f.flags == g.flags && |f.props| == |g.props| && k <= BASIC_MEMBERS
    requires forall j :: 0 <= j < |f.props| && Has(f.flags, j) ==> f.props[j] == g.props[j]
    ensures CopyFrom(f, k) == CopyFrom(g, k)
    decreases BASIC_MEMBERS - k
  {
    hide Has, DeepCopy.CloneableEntries;
    if k < BASIC_MEMBERS {
      SameFlagged(f, g, k + 1);
    }
  }

  /** The frames of a message make up that message, and what follows them is left; unless its
      properties cannot be copied: then its header decides that it is refused. */
  lemma MessageReassembles(channel: uint16, m: Content, usable: nat, unset: seq<FieldVal>, later: seq<Item>)
    requires ProperContent(m) && usable > 0 && |unset| == BASIC_MEMBERS
    ensures var share := ContentItems(channel, m, usable, unset) + later;
      && share != []
      && TakeMessage(share) == (if Copyable(m) then Some((AsRead(m), later)) else None)
      && Verdict(share[0]) == if Copyable(m) then None else Some(ReadFailed(InvalidParameter))
  {
    hide TakeBody, TakeMessage, BodyItems, Echoed, PresentProps, CopyFrom, CopiedProps, Copyable;
    HeaderCopies(channel, m, unset);
    var item, rest := FrameItem(HeaderArrived(channel, m, unset)), BodyItems(channel, m.body, usable);
    ConcatAssoc([item], rest, later);
    TakeMessageStep(item, rest + later);
    BodyReassembles(channel, m.body, usable, [], later);
    assert [] + m.body == m.body;
  }

  // ---------------------------------------------------------------- frames and items

  function FramesOn(frames: seq<Frame>, channel: uint16): seq<Frame> {
    if frames == [] then []
    else if frames[0].channel == channel then [frames[0]] + FramesOn(frames[1..], channel)
    else FramesOn(frames[1..], channel)
  }

  /** Arriving and being sorted by channel go together. */
  lemma {:induction false} ArrivedOn(limits: Limits, frames: seq<Frame>, channel: uint16)
    requires AllDeliverable(limits, frames)
    ensures On(Relevant(Arrived(limits, frames)), channel)
         == Relevant(Arrived(limits, FramesOn(frames, channel)))
  {
    hide FrameBytes, Survives, Encodable, WellTyped, Received, ArrivedOne;
    if frames != [] {
      var f, rest := frames[0], frames[1..];
      var schema := limits.schema;
      assert Deliverable(limits, f);
      ArrivedOn(limits, rest, channel);
      ArrivedHead(limits, f, Arrived(limits, rest));
      OnHead(f, FrameItem(Received(schema, f, limits.memory)), Relevant(Arrived(limits, rest)), channel, limits);
      if f.channel == channel {
        assert ([f] + FramesOn(rest, channel))[1..] == FramesOn(rest, channel);
        ArrivedHead(limits, f, Arrived(limits, FramesOn(rest, channel)));
      }
    }
  }

  lemma ArrivedHead(limits: Limits, f: Frame, rest: seq<Item>)
    requires Deliverable(limits, f)
    ensures Relevant(ArrivedOne(limits, f) + rest) ==
      if f.HeartbeatFrame? then Relevant(rest)
      else [FrameItem(Received(limits.schema, f, limits.memory))] + Relevant(rest)
  {
    var item := FrameItem(Received(limits.schema, f, limits.memory));
    RelevantConcat([item], rest);
    RelevantOne(item);
    assert [] + Relevant(rest) == Relevant(rest);
  }

  lemma OnHead(f: Frame, item: Item, rest: seq<Item>, channel: uint16, limits: Limits)
    requires Deliverable(limits, f) && item == FrameItem(Received(limits.schema, f, limits.memory))
    ensures On([item] + rest, channel) == if f.channel == channel then [item] + On(rest, channel) else On(rest, channel)
  {
    assert ([item] + rest)[1..] == rest;
  }

  /** The frames of a message arrive as its items. */
  lemma ContentArrives(limits: Limits, channel: uint16, m: Content, later: seq<Frame>) returns (unset: seq<FieldVal>)
    requires ProperContent(m) && limits.frameMax > HEADER_SIZE + FOOTER_SIZE
    requires AllDeliverable(limits, ContentFrames(channel, m, limits.frameMax) + later)
    ensures |unset| == BASIC_MEMBERS
    ensures Relevant(Arrived(limits, ContentFrames(channel, m, limits.frameMax) + later))
         == ContentItems(channel, m, limits.frameMax - HEADER_SIZE - FOOTER_SIZE, unset)
            + Relevant(Arrived(limits, later))
  {
    hide Deliverable, Arrived, ArrivedOne, Received, Relevant, HeaderArrived, Fragments, BodyItems;
    var usable := limits.frameMax - HEADER_SIZE - FOOTER_SIZE;
    var header, fragments := HeaderOf(channel, m), Fragments(channel, m.body, usable);
    var frames := ContentFrames(channel, m, limits.frameMax) + later;
    assert frames[0] == header && frames[1..] == fragments + later;
    assert Deliverable(limits, header);
    ArrivedCons(limits, frames);
    ArrivedHead(limits, header, Arrived(limits, fragments + later));
    unset := HeaderReceived(limits, channel, m);
    assert AllDeliverable(limits, fragments + later) by {
      assert forall f :: f in fragments + later ==> f in frames;
    }
    BodyArrives(limits, channel, m.body, usable, later);
    ConcatAssoc([FrameItem(HeaderArrived(channel, m, unset))], BodyItems(channel, m.body, usable),
                Relevant(Arrived(limits, later)));
  }

  lemma ArrivedCons(limits: Limits, frames: seq<Frame>)
    requires frames != []
    ensures Arrived(limits, frames) == ArrivedOne(limits, frames[0]) + Arrived(limits, frames[1..])
  {
  }

  lemma HeaderReceived(limits: Limits, channel: uint16, m: Content) returns (unset: seq<FieldVal>)
    requires ProperContent(m) && Deliverable(limits, HeaderOf(channel, m))
    ensures |unset| == BASIC_MEMBERS
    ensures Received(limits.schema, HeaderOf(channel, m), limits.memory) == HeaderArrived(channel, m, unset)
  {
    unset := Unset(BASIC_MEMBERS, PayloadBytes(limits.schema, HeaderOf(channel, m)), limits.memory);
  }

  /** One deliverable frame ahead of others arrives ahead of them. */
  lemma ArrivesFirst(limits: Limits, f: Frame, tail: seq<Frame>)
    requires Deliverable(limits, f) && !f.HeartbeatFrame?
    ensures Relevant(Arrived(limits, [f] + tail))
         == [FrameItem(Received(limits.schema, f, limits.memory))] + Relevant(Arrived(limits, tail))
  {
    hide Deliverable, Relevant, ArrivedOne, Received;
    assert ([f] + tail)[1..] == tail;
    ArrivedHead(limits, f, Arrived(limits, tail));
  }

  lemma {:induction false} BodyArrives(limits: Limits, channel: uint16, body: bytes, usable: nat, later: seq<Frame>)
    requires usable > 0 && AllDeliverable(limits, Fragments(channel, body, usable) + later)
    ensures Relevant(Arrived(limits, Fragments(channel, body, usable) + later))
         == BodyItems(channel, body, usable) + Relevant(Arrived(limits, later))
    decreases |body|
  {
    hide Deliverable, Arrived, Relevant;
    var tail := Relevant(Arrived(limits, later));
    if body == [] {
      assert [] + later == later && [] + tail == tail;
    } else {
      var n := Min(usable, |body|);
      var f, rest := BodyFrame(channel, body[..n]), Fragments(channel, body[n..], usable) + later;
      assert Fragments(channel, body, usable) + later == [f] + rest;
      BodyArrivesRest(limits, f, rest);
      BodyArrives(limits, channel, body[n..], usable, later);
      assert [FrameItem(f)] + (BodyItems(channel, body[n..], usable) + tail)
          == [FrameItem(f)] + BodyItems(channel, body[n..], usable) + tail;
    }
  }

  lemma BodyArrivesRest(limits: Limits, f: Frame, rest: seq<Frame>)
    requires f.BodyFrame? && AllDeliverable(limits, [f] + rest)
    ensures AllDeliverable(limits, rest)
    ensures Relevant(Arrived(limits, [f] + rest)) == [FrameItem(f)] + Relevant(Arrived(limits, rest))
  {
    hide Deliverable, Arrived, Relevant;
    assert f in [f] + rest;
    assert forall g :: g in rest ==> g in [f] + rest;
    BodyReceivedWhole(limits, f);
    ArrivesFirst(limits, f, rest);
  }

  lemma BodyReceivedWhole(limits: Limits, f: Frame)
    requires f.BodyFrame? && Deliverable(limits, f)
    ensures Received(limits.schema, f, limits.memory) == f
  {
  }

  lemma {:induction false} ArrivedConcat(limits: Limits, a: seq<Frame>, b: seq<Frame>)
    ensures Arrived(limits, a + b) == Arrived(limits, a) + Arrived(limits, b)
  {
    hide ArrivedOne;
    if a == [] {
      assert a + b == b;
    } else {
      assert (a + b)[0] == a[0] && (a + b)[1..] == a[1..] + b;
      ArrivedConcat(limits, a[1..], b);
      ConcatAssoc(ArrivedOne(limits, a[0]), Arrived(limits, a[1..]), Arrived(limits, b));
    }
  }

  // ---------------------------------------------------------------- the whole way

  /** A channel's share of a queue `q` and of what the laid-out frames `sent` are parsed into, when
      the queue holds what the frames `first` arrived as: if these and the channel's frames among
      `sent` begin with a message's frames, the share makes up that message, unless its properties
      are refused, and the channel's later frames are left. */
  lemma {:induction false} MessageArrives(limits: Limits, q: seq<Item>, first: seq<Frame>, sent: seq<Frame>,
                                          channel: uint16, m: Content, later: seq<Frame>)
    requires ProperContent(m) && HEADER_SIZE + FOOTER_SIZE < limits.frameMax <= INT32_MAX
    requires AllDeliverable(limits, first) && AllDeliverable(limits, sent)
    requires On(q, channel) == Relevant(Arrived(limits, first))
    requires first + FramesOn(sent, channel) == ContentFrames(channel, m, limits.frameMax) + later
    ensures var share := On(q + Relevant(Scan(limits, IDLE_STATE, Wire(limits.schema, sent)).items), channel);
      && share != []
      && TakeMessage(share) ==
         (if Copyable(m) then Some((AsRead(m), Relevant(Arrived(limits, later)))) else None)
      && Verdict(share[0]) == if Copyable(m) then None else Some(ReadFailed(InvalidParameter))
  {
    hide Copyable, Deliverable, Arrived, Relevant, Scan, ContentFrames, ContentItems, TakeMessage, On, AsRead, Wire,
      Verdict, FramesOn;
    var schema, mine := limits.schema, FramesOn(sent, channel);
    WireParses(limits, sent);
    OnConcat(q, Relevant(Arrived(limits, sent)), channel);
    ArrivedOn(limits, sent, channel);
    FramesOnSubset(limits, sent, channel);
    ArrivedConcat(limits, first, mine);
    RelevantConcat(Arrived(limits, first), Arrived(limits, mine));
    var unset := ContentArrives(limits, channel, m, later);
    MessageReassembles(channel, m, limits.frameMax - HEADER_SIZE - FOOTER_SIZE, unset,
                       Relevant(Arrived(limits, later)));
  }

  lemma {:induction false} FramesOnSubset(limits: Limits, frames: seq<Frame>, channel: uint16)
    requires AllDeliverable(limits, frames)
    ensures AllDeliverable(limits, FramesOn(frames, channel))
  {
    hide Deliverable;
    if frames != [] {
      assert frames[0] in frames;
      FramesOnSubset(limits, frames[1..], channel);
    }
  }

  /** An idle reader to which laid-out frames arrive in any chunks whatever, and to which any first
      part of the message's frames may have arrived before and be queued, reads exactly the message
      that was published, if and only if its headers table has no empty key; the channel's later
      frames are still to come, and other channels lose only frames that were queued ahead of the
      message's. */
  method ReadPublished(c: Connection, channel: uint16, ghost first: seq<Frame>, ghost sent: seq<Frame>,
                       ghost m: Content, ghost later: seq<Frame>)
    returns (r: ReadResult)
    requires c.Valid() && c.inbound.Memory() == IDLE_STATE && AllArrive(c.script)
    requires c.sockInbound[c.sockOffset..] + AllData(c.script) == Wire(c.inbound.limits.schema, sent)
    requires ProperContent(m) && HEADER_SIZE + FOOTER_SIZE < c.inbound.limits.frameMax <= INT32_MAX
    requires AllDeliverable(c.inbound.limits, first) && AllDeliverable(c.inbound.limits, sent)
    requires On(c.queue.Items(), channel) == Relevant(Arrived(c.inbound.limits, first))
    requires first + FramesOn(sent, channel) == ContentFrames(channel, m, c.inbound.limits.frameMax) + later
    modifies c.Footprint()
    ensures c.Valid() && r == if Copyable(m) then AsRead(m) else ReadFailed(InvalidParameter)
    ensures Copyable(m) ==>
      && Waiting(c, channel) == Relevant(Arrived(c.inbound.limits, later))
      && OthersQueued(channel, old(c.queue.Items()), old(c.Upcoming()), c.queue.Items(), c.Upcoming())
  {
    hide Scan, ValidState, Relevant, TakeMessage, AllArrive, AllDeliverable, AsRead, Wire, ContentFrames, FramesOn,
      ProperContent, Arrived, Copyable, Verdict, OthersQueued, On, Connection.Footprint;
    MessageArrives(c.inbound.limits, c.queue.Items(), first, sent, channel, m, later);
    r := ReadMessage(c, channel);
  }

  // ---------------------------------------------------------------- from the publisher on

  /** The frames of a successful publish can be delivered if and only if their tables survive the wire. */
  lemma PublishDeliverable(limits: Limits, channel: uint16, args: seq<FieldVal>, m: Content)
    requires ProperContent(m) && limits.frameMax > HEADER_SIZE + FOOTER_SIZE
    requires AllFit(limits.schema, PublishFrames(channel, args, m, limits.frameMax), limits.frameMax)
    ensures AllDeliverable(limits, PublishFrames(channel, args, m, limits.frameMax)) <==>
      AllCodable(args, 0) && FlaggedCodable(BASIC_PROPERTIES, m.props, m.flags, 0)
  {
    hide FitsIn, Fragments, AllCodable, FlaggedCodable;
    var frames := PublishFrames(channel, args, m, limits.frameMax);
    var publish, header := MethodFrame(channel, BASIC_PUBLISH_METHOD, args), HeaderOf(channel, m);
    var fragments := Fragments(channel, m.body, limits.frameMax - HEADER_SIZE - FOOTER_SIZE);
    FragmentsFit(limits.schema, channel, m.body, limits.frameMax);
    assert frames == [publish, header] + fragments;
    assert frames[0] == publish && frames[1] == header;
    assert FitsIn(limits.schema, publish, limits.frameMax) && FitsIn(limits.schema, header, limits.frameMax);
    TablesSurvive(limits, channel, args, m);
    assert forall f :: f in frames <==> f == publish || f == header || f in fragments;
  }

  lemma TablesSurvive(limits: Limits, channel: uint16, args: seq<FieldVal>, m: Content)
    requires ProperContent(m)
    ensures var f := MethodFrame(channel, BASIC_PUBLISH_METHOD, args);
      Sendable(limits.schema, f) ==> (Survives(limits.schema, f) <==> AllCodable(args, 0))
    ensures var f := HeaderOf(channel, m);
      Sendable(limits.schema, f) ==>
        (Survives(limits.schema, f) <==> FlaggedCodable(BASIC_PROPERTIES, m.props, m.flags, 0))
  {
  }

  /** Whoever received the frames of a publish can deliver the content on any channel. */
  lemma RelayDeliverable(limits: Limits, channel: uint16, to: uint16, args: seq<FieldVal>, m: Content)
    requires ProperContent(m) && limits.frameMax > HEADER_SIZE + FOOTER_SIZE
    requires AllFit(limits.schema, PublishFrames(channel, args, m, limits.frameMax), limits.frameMax)
    requires FlaggedCodable(BASIC_PROPERTIES, m.props, m.flags, 0)
    ensures AllDeliverable(limits, ContentFrames(to, m, limits.frameMax))
  {
    hide FitsIn, Fragments, FlaggedCodable;
    var frames := PublishFrames(channel, args, m, limits.frameMax);
    var header, relayed := HeaderOf(channel, m), HeaderOf(to, m);
    assert frames[1] == header && FitsIn(limits.schema, header, limits.frameMax);
    SameOnAnyChannel(limits, channel, to, m);
    TablesSurvive(limits, to, args, m);
    FragmentsFit(limits.schema, to, m.body, limits.frameMax);
    var fragments := Fragments(to, m.body, limits.frameMax - HEADER_SIZE - FOOTER_SIZE);
    assert ContentFrames(to, m, limits.frameMax) == [relayed] + fragments;
  }

  lemma SameOnAnyChannel(limits: Limits, channel: uint16, to: uint16, m: Content)
    requires ProperContent(m) && FitsIn(limits.schema, HeaderOf(channel, m), limits.frameMax)
    ensures FitsIn(limits.schema, HeaderOf(to, m), limits.frameMax)
  {
    hide HeaderBytes, FlaggedWritable;
    assert PayloadBytes(limits.schema, HeaderOf(to, m)) == PayloadBytes(limits.schema, HeaderOf(channel, m));
  }

  /** An idle reader is about to receive the frames `sent`, whose share on the channel `to`, of which it
      has nothing queued, begins with the message's content; the other frames can be delivered. */
  ghost predicate PassedOn(reader: Connection, schema: Schema, frameMax: nat, to: uint16, m: Content,
                           sent: seq<Frame>, later: seq<Frame>)
    requires ProperContent(m) && HEADER_SIZE + FOOTER_SIZE < frameMax
    reads reader, reader.inbound, reader.inbound.inboundBuffer, reader.queue, reader.queue.links
  {
    && reader.Valid() && reader.inbound.Memory() == IDLE_STATE && AllArrive(reader.script)
    && reader.inbound.limits.schema == schema && reader.inbound.limits.frameMax == frameMax
    && reader.sockInbound[reader.sockOffset..] + AllData(reader.script) == Wire(schema, sent)
    && On(reader.queue.Items(), to) == [] && FramesOn(sent, to) == ContentFrames(to, m, frameMax) + later
    && forall f :: f in sent ==> f in ContentFrames(to, m, frameMax) || Deliverable(reader.inbound.limits, f)
  }

  /** A message published with success, and passed on to a reader on any channel, among any frames of
      other channels: the reader reads that message, or refuses it for an empty header name, and
      nothing else can become of it when its headers table survives the wire. */
  method PublishAndRead(c: Connection, s: Socket, channel: uint16, args: seq<FieldVal>, m: Content,
                        outbound: array<byte>, heartbeatOverdue: bool, ghost ledger: Ledger,
                        reader: Connection, to: uint16, ghost sent: seq<Frame>, ghost later: seq<Frame>)
    returns (r: SendResult, got: ReadResult)
    requires Holds(c, ledger) && ProperContent(m) && outbound !in c.Footprint()
    requires HEADER_SIZE + 12 + FOOTER_SIZE <= outbound.Length <= INT32_MAX
    requires WellTyped(c.inbound.limits.schema, MethodFrame(channel, BASIC_PUBLISH_METHOD, args))
    requires FlaggedCodable(BASIC_PROPERTIES, m.props, m.flags, 0)
    requires PassedOn(reader, c.inbound.limits.schema, outbound.Length, to, m, sent, later)
    requires c.Footprint() !! reader.Footprint() && outbound !in reader.Footprint()
    modifies c.Footprint(), s, outbound, reader.Footprint()
    ensures r.Sent? ==>
      && s.accepted == old(s.accepted) + Wire(c.inbound.limits.schema, PublishFrames(channel, args, m, outbound.Length))
      && got == if Copyable(m) then AsRead(m) else ReadFailed(InvalidParameter)
  {
    hide Holds, Wire, PublishFrames, ProperContent, Copyable, AsRead, AllFit, FlaggedCodable, WellTyped, PassedOn,
      Connection.Footprint;
    got := ReadFailed(Ok);
    reader.InFootprint();
    SocketApart(reader, s);
    r := BasicPublish(c, s, channel, args, m, outbound, heartbeatOverdue, ledger);
    if r.Sent? {
      got := ReadPassedOn(reader, channel, args, to, m, outbound.Length, c.inbound.limits.schema, sent, later);
    }
  }

  /** The reader's half, once a publish has shown that the message's frames can be laid out. */
  method ReadPassedOn(reader: Connection, ghost channel: uint16, ghost args: seq<FieldVal>, to: uint16,
                      ghost m: Content, ghost frameMax: nat, ghost schema: Schema, ghost sent: seq<Frame>,
                      ghost later: seq<Frame>)
    returns (got: ReadResult)
    requires ProperContent(m) && HEADER_SIZE + FOOTER_SIZE < frameMax <= INT32_MAX
    requires AllFit(schema, PublishFrames(channel, args, m, frameMax), frameMax)
    requires FlaggedCodable(BASIC_PROPERTIES, m.props, m.flags, 0)
    requires PassedOn(reader, schema, frameMax, to, m, sent, later)
    modifies reader.Footprint()
    ensures got == if Copyable(m) then AsRead(m) else ReadFailed(InvalidParameter)
  {
    hide Scan, ValidState, Relevant, Wire, PublishFrames, ContentFrames, FramesOn, ProperContent, Copyable, AsRead,
      AllFit, Deliverable, On, AllArrive, OthersQueued, FlaggedCodable, Connection.Footprint;
    ghost var limits := reader.inbound.limits;
    RelayDeliverable(limits, channel, to, args, m);
    EmptyFirst(limits);
    assert [] + FramesOn(sent, to) == FramesOn(sent, to);
    got := ReadPublished(reader, to, [], sent, m, later);
  }

  lemma EmptyFirst(limits: Limits)
    ensures Relevant(Arrived(limits, [])) == []
  {
  }

  // ---------------------------------------------------------------- a delivery and its message

  /** A queue `q` that holds what the frames `first` arrived as, and what the laid-out frames `sent` are
      parsed into: if these together begin with a delivery, and its channel goes on with a message's
      frames, then the delivery is the first to be read, and its channel's share behind it makes up
      the message, unless its properties are refused. */
  lemma {:induction false} DeliveryArrives(limits: Limits, q: seq<Item>, first: seq<Frame>, sent: seq<Frame>,
                                           deliver: Frame, m: Content, rest: seq<Frame>, later: seq<Frame>)
    requires ProperContent(m) && HEADER_SIZE + FOOTER_SIZE < limits.frameMax <= INT32_MAX
    requires AllDeliverable(limits, first) && AllDeliverable(limits, sent)
    requires q == Relevant(Arrived(limits, first)) && first + sent == [deliver] + rest
    requires deliver.MethodFrame? && deliver.id == BASIC_DELIVER_METHOD
    requires FramesOn(rest, deliver.channel) == ContentFrames(deliver.channel, m, limits.frameMax) + later
    ensures q + Relevant(Scan(limits, IDLE_STATE, Wire(limits.schema, sent)).items) ==
      [FrameItem(deliver.(args := NormalFields(deliver.args)))] + Relevant(Arrived(limits, rest))
    ensures var share := On(Relevant(Arrived(limits, rest)), deliver.channel);
      && share != []
      && TakeMessage(share) == (if Copyable(m) then Some((AsRead(m), Relevant(Arrived(limits, later)))) else None)
      && Verdict(share[0]) == if Copyable(m) then None else Some(ReadFailed(InvalidParameter))
  {
    hide Copyable, Deliverable, Arrived, Relevant, Scan, ContentFrames, ContentItems, TakeMessage, On, AsRead, Wire,
      Verdict, FramesOn, NormalFields;
    var schema, channel := limits.schema, deliver.channel;
    WireParses(limits, sent);
    ArrivedConcat(limits, first, sent);
    RelevantConcat(Arrived(limits, first), Arrived(limits, sent));
    assert AllDeliverable(limits, [deliver] + rest);
    assert deliver in [deliver] + rest && forall f :: f in rest ==> f in [deliver] + rest;
    ArrivesFirst(limits, deliver, rest);
    DeliverReceived(limits, deliver);
    ArrivedOn(limits, rest, channel);
    FramesOnSubset(limits, rest, channel);
    var unset := ContentArrives(limits, channel, m, later);
    MessageReassembles(channel, m, limits.frameMax - HEADER_SIZE - FOOTER_SIZE, unset,
                       Relevant(Arrived(limits, later)));
  }

  lemma DeliverReceived(limits: Limits, deliver: Frame)
    requires deliver.MethodFrame? && Deliverable(limits, deliver)
    ensures Received(limits.schema, deliver, limits.memory) == deliver.(args := NormalFields(deliver.args))
  {
  }

  /** An idle reader with nothing queued but a first part of what was sent, to which a delivery and its
      message arrive, among frames of other channels and in any chunks: it gets the delivery's
      arguments, and the message, if and only if its headers table has no empty key. */
  method ConsumePublished(c: Connection, ghost first: seq<Frame>, ghost sent: seq<Frame>, ghost deliver: Frame,
                          ghost m: Content, ghost rest: seq<Frame>, ghost later: seq<Frame>)
    returns (r: ReadResult, envelope: Envelope)
    requires c.Valid() && c.inbound.Memory() == IDLE_STATE && AllArrive(c.script)
    requires c.sockInbound[c.sockOffset..] + AllData(c.script) == Wire(c.inbound.limits.schema, sent)
    requires ProperContent(m) && HEADER_SIZE + FOOTER_SIZE < c.inbound.limits.frameMax <= INT32_MAX
    requires AllDeliverable(c.inbound.limits, first) && AllDeliverable(c.inbound.limits, sent)
    requires c.queue.Items() == Relevant(Arrived(c.inbound.limits, first)) && first + sent == [deliver] + rest
    requires deliver.MethodFrame? && deliver.id == BASIC_DELIVER_METHOD
    requires FramesOn(rest, deliver.channel) == ContentFrames(deliver.channel, m, c.inbound.limits.frameMax) + later
    modifies c.Footprint()
    ensures c.Valid() && r == if Copyable(m) then AsRead(m) else ReadFailed(InvalidParameter)
    ensures envelope == Envelope(deliver.channel, NormalFields(deliver.args))
    ensures Copyable(m) ==> Waiting(c, deliver.channel) == Relevant(Arrived(c.inbound.limits, later))
  {
    hide Scan, ValidState, Relevant, TakeMessage, AllArrive, AllDeliverable, AsRead, Wire, ContentFrames, FramesOn,
      ProperContent, Arrived, Copyable, Verdict, OthersQueued, On, NormalFields, Connection.Footprint;
    DeliveryArrives(c.inbound.limits, c.queue.Items(), first, sent, deliver, m, rest, later);
    ghost var all := c.queue.Items() + c.Upcoming();
    ghost var tail := Relevant(Arrived(c.inbound.limits, rest));
    assert all[0] == FrameItem(deliver.(args := NormalFields(deliver.args))) && all[1..] == tail;
    r, envelope := ConsumeMessage(c);
  }

  // ---------------------------------------------------------------- a message that is refused

  const HEADERS_FLAG: uint32 := 0x2000

  /** An empty message with one header, whose name is empty. */
  function NamelessHeader(): (m: Content)
    ensures ProperContent(m)
  {
    NamelessHeaderBytes();
    Content(HEADERS_FLAG, NAMELESS_PROPS, [])
  }

  const NAMELESS_PROPS: seq<FieldVal> :=
    [StrVal([]), StrVal([]), TableVal([Entry([], Void)]), IntVal(0), IntVal(0), StrVal([]), StrVal([]), StrVal([]),
     StrVal([]), IntVal(0), StrVal([]), StrVal([]), StrVal([]), StrVal([])]

  lemma OnlyHeadersFlagged(k: nat)
    requires k < BASIC_MEMBERS
    ensures Has(HEADERS_FLAG, k) <==> k == HEADERS
  {
    hide FlagBit, BitOf, Pow2;
    FlagBitFromTop(k);
    PowerBit(13, FlagBit(k));
    HeadersFlagIsPower();
  }

  lemma FlagBitFromTop(k: nat)
    requires k < BASIC_MEMBERS
    ensures FlagBit(k) == 15 - k
  {
  }

  lemma HeadersFlagIsPower()
    ensures Pow2(13) == HEADERS_FLAG
  {
    assert Pow2(5) == 32 && Pow2(10) == 32 * Pow2(5);
  }

  lemma {:induction false} PowerBit(j: nat, n: nat)
    ensures BitOf(Pow2(j), n) <==> n == j
    decreases j + n
  {
    if j > 0 && n > 0 {
      PowerBit(j - 1, n - 1);
    } else if n > 0 {
      ZeroBit(n - 1);
    }
  }

  lemma {:induction false} ZeroBit(n: nat)
    ensures !BitOf(0, n)
  {
    if n > 0 {
      ZeroBit(n - 1);
    }
  }

  lemma {:induction false} NothingMoreFlagged(k: nat)
    requires HEADERS < k <= BASIC_MEMBERS && AllTyped(BASIC_PROPERTIES, NAMELESS_PROPS)
    ensures PropBytes(BASIC_PROPERTIES, NAMELESS_PROPS, HEADERS_FLAG, k) == []
    decreases BASIC_MEMBERS - k
  {
    hide Has;
    if k < BASIC_MEMBERS {
      OnlyHeadersFlagged(k);
      NothingMoreFlagged(k + 1);
    }
  }

  lemma NamelessHeaderBytes()
    ensures AllTyped(BASIC_PROPERTIES, NAMELESS_PROPS)
    ensures |HeaderBytes(BASIC_PROPERTIES, NAMELESS_PROPS, HEADERS_FLAG)| == 8
    ensures FlaggedWritable(BASIC_PROPERTIES, NAMELESS_PROPS, HEADERS_FLAG, 0)
    ensures FlaggedCodable(BASIC_PROPERTIES, NAMELESS_PROPS, HEADERS_FLAG, 0)
  {
    hide Has, EntriesBytes, EntriesSupported, EntriesCodable, PropBytes;
    NamelessTable();
    NamelessPropBytes();
    forall k | 0 <= k < BASIC_MEMBERS ensures Has(HEADERS_FLAG, k) <==> k == HEADERS {
      OnlyHeadersFlagged(k);
    }
  }

  lemma NamelessPropBytes()
    ensures AllTyped(BASIC_PROPERTIES, NAMELESS_PROPS)
    ensures |PropBytes(BASIC_PROPERTIES, NAMELESS_PROPS, HEADERS_FLAG, 0)| == 6
  {
    hide Has, EntriesBytes, PropBytes, FieldBytes;
    var types, vals := BASIC_PROPERTIES, NAMELESS_PROPS;
    NamelessTable();
    NothingMoreFlagged(3);
    NextProp(2);
    NextProp(1);
    NextProp(0);
    HeadersField();
  }

  lemma HeadersField()
    ensures AllTyped(BASIC_PROPERTIES, NAMELESS_PROPS)
    ensures |FieldBytes(BASIC_PROPERTIES[HEADERS], NAMELESS_PROPS[HEADERS])| == 6
  {
    NamelessTable();
  }

  lemma NextProp(k: nat)
    requires k < BASIC_MEMBERS
    ensures AllTyped(BASIC_PROPERTIES, NAMELESS_PROPS)
    ensures PropBytes(BASIC_PROPERTIES, NAMELESS_PROPS, HEADERS_FLAG, k) ==
      (if k == HEADERS then FieldBytes(BASIC_PROPERTIES[k], NAMELESS_PROPS[k]) else [])
      + PropBytes(BASIC_PROPERTIES, NAMELESS_PROPS, HEADERS_FLAG, k + 1)
  {
    hide Has, FieldBytes, EntriesBytes;
    OnlyHeadersFlagged(k);
  }

  lemma NamelessTable()
    ensures |EntriesBytes([Entry([], Void)])| == 2
    ensures EntriesSupported([Entry([], Void)]) && EntriesCodable([Entry([], Void)])
    ensures !DeepCopy.CloneableEntries([Entry([], Void)])
  {
    var e := Entry([], Void);
    assert [e][1..] == [] && e in [e];
  }

  lemma NamelessHeaderShape(limits: Limits, channel: uint16, m: Content)
    requires 28 <= limits.frameMax && m == NamelessHeader()
    ensures ProperContent(m) && !Copyable(m)
    ensures ContentFrames(channel, m, limits.frameMax) == [HeaderOf(channel, m)]
    ensures Deliverable(limits, HeaderOf(channel, m))
  {
    hide HeaderBytes, FlaggedWritable, FlaggedCodable, Has, DeepCopy.CloneableEntries;
    NamelessHeaderBytes();
    NamelessTable();
    OnlyHeadersFlagged(HEADERS);
  }

  /** A publisher can send this message, and every peer's parser accepts its frame; but no reader of
      the library can read it. */
  lemma {:induction false} NamelessHeaderRefused(limits: Limits, channel: uint16, m: Content)
    requires 28 <= limits.frameMax <= INT32_MAX && ProperContent(m) && m == NamelessHeader()
    ensures !Copyable(m) && AllDeliverable(limits, ContentFrames(channel, m, limits.frameMax))
    ensures var frames := ContentFrames(channel, m, limits.frameMax);
      var share := On(Relevant(Scan(limits, IDLE_STATE, Wire(limits.schema, frames)).items), channel);
      share != [] && TakeMessage(share) == None && Verdict(share[0]) == Some(ReadFailed(InvalidParameter))
  {
    hide NamelessHeader, ProperContent, ContentFrames, Deliverable, Copyable, Scan, On, Verdict, TakeMessage, Wire;
    NamelessHeaderShape(limits, channel, m);
    var header := HeaderOf(channel, m);
    assert [header][1..] == [] && FramesOn([header], channel) == [header];
    assert [] + [header] == [header] + [];
    var up := Relevant(Scan(limits, IDLE_STATE, Wire(limits.schema, [header])).items);
    assert [] + up == up;
    OnNothing(channel);
    MessageArrives(limits, [], [], [header], channel, m, []);
  }

  // ---------------------------------------------------------------- waiting again and again

  /** Waiting on one channel again and again delivers exactly that channel's frames, in the order
      of arrival, from any queue and any interleaving: what was delivered and what is still queued
      or to come make up the channel's share. Other channels lose only frames that were queued ahead
      of one delivered. */
  method WaitRepeatedly(c: Connection, channel: uint16, n: nat) returns (got: seq<Item>, last: Wait)
    requires c.Valid()
    modifies c.Footprint()
    ensures !last.StreamBroken? ==>
      c.Valid() && old(Waiting(c, channel)) == got + Waiting(c, channel)
    ensures last.StreamBroken? ==> old(Waiting(c, channel)) == got
    ensures AllArrive(old(c.script)) && n <= |old(Waiting(c, channel))| ==> |got| == n
    ensures |got| < n ==> !last.Read?
    ensures !last.StreamBroken? ==>
      OthersWaiting(channel, old(c.queue.Items()), old(c.Upcoming()), c.queue.Items(), c.Upcoming())
    ensures last.StreamBroken? ==>
      c.queue.Valid() && OthersWaiting(channel, old(c.queue.Items()), old(c.Upcoming()), c.queue.Items(), [])
    ensures !last.StreamBroken? && |got| == n ==>
      OthersQueued(channel, old(c.queue.Items()), old(c.Upcoming()), c.queue.Items(), c.Upcoming())
  {
    hide AllArrive, Waiting, OthersQueued, OthersWaiting, Scan, ValidState, Relevant, Connection.Footprint,
      Connection.Upcoming;
    got, last := [], NoFrame(Ok);
    ghost var all, q, up := Waiting(c, channel), c.queue.Items(), c.Upcoming();
    NothingMoved(channel, q, up);
    assert [] + all == all;
    while |got| < n
      invariant c.Valid() && forall o :: o in c.Footprint() ==> o in old(c.Footprint()) || fresh(o)
      invariant all == got + Waiting(c, channel) && |got| <= n && !last.StreamBroken?
      invariant OthersQueued(channel, q, up, c.queue.Items(), c.Upcoming())
      invariant AllArrive(old(c.script)) ==> AllArrive(c.script)
      decreases n - |got|
    {
      ghost var q1, up1 := c.queue.Items(), c.Upcoming();
      last := WaitOnce(c, channel);
      if !last.Read? {
        MovedTwice(channel, q, up, q1, up1, c.queue.Items(), if last.NoFrame? then c.Upcoming() else []);
        return;
      }
      QueuedIsWaiting(channel, q1, up1, c.queue.Items(), c.Upcoming());
      MovedTwice(channel, q, up, q1, up1, c.queue.Items(), c.Upcoming());
      ConcatAssoc(got, [last.item], Waiting(c, channel));
      got := got + [last.item];
    }
    QueuedIsWaiting(channel, q, up, c.queue.Items(), c.Upcoming());
  }
}
