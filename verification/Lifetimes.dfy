/** Memory over whole runs of a connection: which pool memory the queue, the parser and the
    caller point into, and why recycling a channel's pool never pulls it from under them. */
module Lifetimes {
  import opened Bytes
  import FieldTable
  import FrameParser
  import opened Pool

  type ChannelId = FieldTable.uint16

  /** A pool of the connection's table, with the regions it handed out since its last recycle. */
  datatype Channel = Channel(pool: PoolState, live: seq<Region>)

  /** A decoded frame owns its raw bytes and whatever decoding allocated. */
  datatype PooledFrame = PooledFrame(channel: ChannelId, payload: seq<Region>)

  datatype Queued = Queued(frame: PooledFrame, link: Region, copy: Region)

  /** `Collecting` covers INITIAL and HEADER, which fill the connection's own header buffer;
      `ReadingBody` fills a buffer from the pool of the announced channel; `Refused` is a header that
      announced more than `frame_max`, after which the header buffer has room for `room` bytes, and
      `owed` bytes are wanted. */
  datatype Parser =
    | Resting
    | Collecting(initial: bool)
    | ReadingBody(channel: ChannelId, raw: Region)
    | Refused(room: nat, owed: nat)

  /** `held` are frames returned to the caller whose channel was not released since. */
  datatype Conn = Conn(frameMax: nat, linkSize: nat, frameSize: nat, heap: BlockId, channels: map<ChannelId, Channel>,
                       parser: Parser, queue: seq<Queued>, held: seq<PooledFrame>)

  const OVERHEAD: nat := 8

  function NewConnection(frameMax: nat, linkSize: nat, frameSize: nat, heap: BlockId): Conn {
    Conn(frameMax, linkSize, frameSize, heap, map[], Collecting(true), [], [])
  }

  /** `amqp_get_or_create_channel_pool` */
  function ChannelOf(c: Conn, ch: ChannelId): Channel {
    if ch in c.channels then c.channels[ch] else Channel(Init(c.frameMax), [])
  }

  function AllocOn(c: Conn, ch: ChannelId, amount: nat): (Conn, Option<Region>) {
    var k := ChannelOf(c, ch);
    var (pool, heap, r) := Alloc(k.pool, c.heap, amount);
    var live := if r.Some? then k.live + [r.value] else k.live;
    (c.(heap := heap, channels := c.channels[ch := Channel(pool, live)]), r)
  }

  function AllocEach(c: Conn, ch: ChannelId, amounts: seq<nat>): (Conn, seq<Region>)
    decreases |amounts|
  {
    if amounts == [] then (c, [])
    else
      var (c', r) := AllocOn(c, ch, amounts[0]);
      var (c'', rest) := AllocEach(c', ch, amounts[1..]);
      (c'', if r.Some? then [r.value] + rest else rest)
  }

  /** One step of the library or its caller; any interleaving of them is a run. A swallowed
      heartbeat is FinishFrame, Drop and Release of channel 0. */
  datatype Step =
    | HeaderBytes                                  // part of a frame header, or one that announces INT32_MAX or more
    | ProtocolHeader
    | RefuseHeader(size: nat)                      // the header announces `size` bytes in all, more than `frame_max`
    | ReadOn(count: nat)                           // a call after that, with `count` bytes at hand
    | BeginBody(channel: ChannelId, size: nat)     // the header is complete and announces `size` bytes in all
    | FinishFrame(amounts: seq<nat>, known: bool)  // decoding allocates; a frame of unknown type is ignored
    | FailFrame(amounts: seq<nat>)                 // the frame is malformed and stays in the buffer
    | QueueFrame(i: nat)                           // `amqp_queue_frame`
    | AppendFrame(i: nat)                          // `amqp_try_recv`, `simple_rpc_inner`
    | PutBack(i: nat)                              // `amqp_put_back_frame`
    | Take(k: nat)                                 // queue entry k is returned, those ahead of it are lost
    | Drop(i: nat)                                 // the caller is done with a frame
    | Scratch(channel: ChannelId, amount: nat)     // other allocations from a channel's pool
    | Tune(frameMax: nat)                          // `amqp_tune_connection`, which aborts unless the parser rests
    | Release(channel: ChannelId)                  // `amqp_maybe_release_buffers_on_channel`

  function Without<T>(s: seq<T>, i: nat): seq<T>
    requires i < |s|
  {
    s[..i] + s[i + 1..]
  }

  function HeldElsewhere(held: seq<PooledFrame>, ch: ChannelId): seq<PooledFrame> {
    if held == [] then []
    else (if held[0].channel == ch then [] else [held[0]]) + HeldElsewhere(held[1..], ch)
  }

  /** The pool of `ch` is recycled, if there is one; frames returned from it are void. */
  function Recycled(c: Conn, ch: ChannelId): Conn {
    if ch in c.channels then
      c.(channels := c.channels[ch := Channel(Recycle(c.channels[ch].pool), [])], held := HeldElsewhere(c.held, ch))
    else c
  }

  predicate QueuedOn(queue: seq<Queued>, ch: ChannelId) {
    exists i :: 0 <= i < |queue| && queue[i].frame.channel == ch
  }

  /** The parser waits for a header. */
  predicate Headed(p: Parser) {
    p.Resting? || p.Collecting?
  }

  /** What a complete header leaves of the eight bytes of the header buffer. */
  function Room(p: Parser): nat {
    if p == Collecting(true) then 0 else 1
  }

  predicate Refuses(c: Conn, s: Step) {
    s.RefuseHeader? && Headed(c.parser) && c.frameMax < s.size && OVERHEAD <= s.size < FrameParser.INT32_MAX + OVERHEAD
  }

  /** The step writes behind the header buffer. */
  predicate Overruns(c: Conn, s: Step) {
    s.ReadOn? && c.parser.Refused? && FrameParser.Min(c.parser.owed, s.count) > c.parser.room
  }

  /** The run's next state; a step that cannot happen changes nothing. */
  function Next(c: Conn, s: Step): Conn
    requires !Overruns(c, s)
  {
    match s
    case HeaderBytes => if c.parser.Resting? then c.(parser := Collecting(false)) else c
    case ProtocolHeader =>
      if c.parser == Collecting(true) then c.(parser := Resting, held := c.held + [PooledFrame(0, [])]) else c
    case RefuseHeader(size) =>
      if Refuses(c, s) then c.(parser := Refused(Room(c.parser), size - OVERHEAD + Room(c.parser))) else c
    case ReadOn(count) =>
      if c.parser.Refused? then
        var k := FrameParser.Min(c.parser.owed, count);
        c.(parser := Refused(c.parser.room - k, c.parser.owed - k))
      else c
    case BeginBody(ch, size) =>
      if !Headed(c.parser) || size < OVERHEAD || size > c.frameMax then c
      else
        var (c', r) := AllocOn(c, ch, size);
        if r.Some? then c'.(parser := ReadingBody(ch, r.value)) else c'
    case FinishFrame(amounts, known) =>
      if !c.parser.ReadingBody? then c
      else
        var (c', rs) := AllocEach(c, c.parser.channel, amounts);
        var frame := PooledFrame(c.parser.channel, [c.parser.raw] + rs);
        c'.(parser := Resting, held := if known then c'.held + [frame] else c'.held)
    case FailFrame(amounts) =>
      if c.parser.ReadingBody? then AllocEach(c, c.parser.channel, amounts).0 else c
    case QueueFrame(i) => if i < |c.held| then LinkThenCopy(c, i, false) else c
    case AppendFrame(i) => if i < |c.held| then CopyThenLink(c, i) else c
    case PutBack(i) => if i < |c.held| then LinkThenCopy(c, i, true) else c
    case Take(k) =>
      if k < |c.queue| then c.(queue := c.queue[k + 1..], held := c.held + [c.queue[k].frame]) else c
    case Drop(i) => if i < |c.held| then c.(held := Without(c.held, i)) else c
    case Scratch(ch, amount) => AllocOn(c, ch, amount).0
    case Tune(frameMax) => if c.parser.Resting? then c.(frameMax := frameMax) else c
    case Release(ch) => if c.parser.Resting? && !QueuedOn(c.queue, ch) then Recycled(c, ch) else c
  }

  /** `amqp_create_link_for_frame`, then the link goes to the front or to the end. */
  function LinkThenCopy(c: Conn, i: nat, front: bool): Conn
    requires i < |c.held|
  {
    var f := c.held[i];
    var (c', link) := AllocOn(c, f.channel, c.linkSize);
    var (c'', copy) := AllocOn(c', f.channel, c.frameSize);
    if link.Some? && copy.Some? then Enlisted(c'', i, Queued(f, link.value, copy.value), front) else c''
  }

  function CopyThenLink(c: Conn, i: nat): Conn
    requires i < |c.held|
  {
    var f := c.held[i];
    var (c', copy) := AllocOn(c, f.channel, c.frameSize);
    var (c'', link) := AllocOn(c', f.channel, c.linkSize);
    if link.Some? && copy.Some? then Enlisted(c'', i, Queued(f, link.value, copy.value), false) else c''
  }

  /** The frame moves from the caller to the queue. */
  function Enlisted(c: Conn, i: nat, q: Queued, front: bool): Conn
    requires i < |c.held|
  {
    c.(queue := if front then [q] + c.queue else c.queue + [q], held := Without(c.held, i))
  }

  /** A run goes on, or it has written behind the header buffer, and nothing is known any more. */
  datatype Fate = Going(conn: Conn) | Overrun

  function Run(c: Conn, steps: seq<Step>): Fate
    decreases |steps|
  {
    if steps == [] then Going(c)
    else if Overruns(c, steps[0]) then Overrun
    else Run(Next(c, steps[0]), steps[1..])
  }

  // ---------------------------------------------------------------- who points into which pool

  function OfFrame(f: PooledFrame, ch: ChannelId): multiset<Region> {
    if f.channel == ch then multiset(f.payload) else multiset{}
  }

  function OfHeld(held: seq<PooledFrame>, ch: ChannelId): multiset<Region> {
    if held == [] then multiset{} else OfFrame(held[0], ch) + OfHeld(held[1..], ch)
  }

  function OfQueued(q: Queued, ch: ChannelId): multiset<Region> {
    OfFrame(q.frame, ch) + if q.frame.channel == ch then multiset{q.link, q.copy} else multiset{}
  }

  function OfQueue(queue: seq<Queued>, ch: ChannelId): multiset<Region> {
    if queue == [] then multiset{} else OfQueued(queue[0], ch) + OfQueue(queue[1..], ch)
  }

  function OfParser(p: Parser, ch: ChannelId): multiset<Region> {
    if p.ReadingBody? && p.channel == ch then multiset{p.raw} else multiset{}
  }

  /** Everything of channel `ch` that the connection or its caller still points to. */
  function Used(c: Conn, ch: ChannelId): multiset<Region> {
    OfHeld(c.held, ch) + OfQueue(c.queue, ch) + OfParser(c.parser, ch)
  }

  /** Every pool is sound, and no block belongs to two of them. */
  ghost predicate PoolsSound(c: Conn) {
    && (forall ch :: ch in c.channels ==> Sound(c.channels[ch].pool, c.heap, c.channels[ch].live))
    && (forall a, b, blk :: a in c.channels && b in c.channels && a != b && Owns(c.channels[a].pool, blk)
          ==> !Owns(c.channels[b].pool, blk))
  }

  /** What is in use on each channel, and `extra` on channel `on`, is live there, each region
      used at most once. */
  ghost predicate SafeWith(c: Conn, on: ChannelId, extra: multiset<Region>) {
    && PoolsSound(c) && c.linkSize > 0 && c.frameSize > 0
    && (forall ch: ChannelId :: Within(c, ch, Extra(ch, on, extra)))
  }

  function Extra(ch: ChannelId, on: ChannelId, extra: multiset<Region>): multiset<Region> {
    if ch == on then extra else multiset{}
  }

  ghost predicate Within(c: Conn, ch: ChannelId, extra: multiset<Region>) {
    Used(c, ch) + extra <= multiset(ChannelOf(c, ch).live)
  }

  ghost predicate Safe(c: Conn) {
    SafeWith(c, 0, multiset{})
  }

  // ---------------------------------------------------------------- allocation

  lemma AllocBlocks(p: PoolState, heap: BlockId, amount: nat, b: BlockId)
    requires WellFormed(p, heap)
    ensures var (p', heap', _) := Alloc(p, heap, amount); Owns(p', b) ==> Owns(p, b) || (b == heap && heap < heap')
    ensures Owns(p, b) ==> b < heap
  {
  }

  lemma SoundIsWellFormed(p: PoolState, heap: BlockId, live: seq<Region>)
    requires Sound(p, heap, live)
    ensures WellFormed(p, heap)
  {
  }

  lemma ChannelSound(c: Conn, ch: ChannelId)
    requires PoolsSound(c)
    ensures Sound(ChannelOf(c, ch).pool, c.heap, ChannelOf(c, ch).live)
    ensures WellFormed(ChannelOf(c, ch).pool, c.heap)
  {
    hide Sound, WellFormed;
    InitSound(c.frameMax, c.heap);
    SoundIsWellFormed(ChannelOf(c, ch).pool, c.heap, ChannelOf(c, ch).live);
  }

  /** Allocating for one channel leaves every pool sound and every block with its owner. */
  lemma {:induction false} AllocKeepsPools(c: Conn, on: ChannelId, amount: nat)
    requires PoolsSound(c)
    ensures PoolsSound(AllocOn(c, on, amount).0)
  {
    hide Sound, WellFormed, Alloc;
    var c' := AllocOn(c, on, amount).0;
    var k := ChannelOf(c, on);
    ChannelSound(c, on);
    AllocPlaces(k.pool, c.heap, k.live, amount);
    forall ch | ch in c'.channels && ch != on
      ensures Sound(c'.channels[ch].pool, c'.heap, c'.channels[ch].live)
    {
      SoundLater(c.channels[ch].pool, c.heap, c.channels[ch].live, c'.heap);
    }
    forall ch, blk | ch in c'.channels && ch != on && Owns(c'.channels[ch].pool, blk)
      ensures !Owns(c'.channels[on].pool, blk)
    {
      ChannelSound(c, ch);
      AllocBlocks(c.channels[ch].pool, c.heap, 0, blk);
      AllocBlocks(k.pool, c.heap, amount, blk);
    }
  }

  function AsMultiset(r: Option<Region>): multiset<Region> {
    if r.Some? then multiset{r.value} else multiset{}
  }

  /** A new region is live and nobody uses it yet. */
  lemma AllocSafe(c: Conn, on: ChannelId, extra: multiset<Region>, amount: nat)
    requires SafeWith(c, on, extra)
    ensures var (c', r) := AllocOn(c, on, amount);
      SafeWith(c', on, extra + AsMultiset(r)) && (amount > 0 ==> r.Some?)
  {
    hide PoolsSound, Alloc, Used;
    AllocKeepsPools(c, on, amount);
    AllocAnswers(c, on, amount);
    var (c', r) := AllocOn(c, on, amount);
    forall ch: ChannelId ensures Within(c', ch, Extra(ch, on, extra + AsMultiset(r))) {
      UsedSame(c, c', ch);
      assert Within(c, ch, Extra(ch, on, extra));
    }
  }

  lemma AllocAnswers(c: Conn, on: ChannelId, amount: nat)
    ensures AllocOn(c, on, amount).1.None? <==> amount == 0
  {
  }

  lemma UsedSame(c: Conn, c': Conn, ch: ChannelId)
    requires c'.held == c.held && c'.queue == c.queue && c'.parser == c.parser
    ensures Used(c', ch) == Used(c, ch)
  {
  }

  lemma {:induction false} AllocEachSafe(c: Conn, on: ChannelId, extra: multiset<Region>, amounts: seq<nat>)
    requires SafeWith(c, on, extra)
    ensures var (c', rs) := AllocEach(c, on, amounts);
      SafeWith(c', on, extra + multiset(rs)) && SameHolders(c, c')
    decreases |amounts|
  {
    hide SafeWith, Alloc;
    if amounts != [] {
      AllocSafe(c, on, extra, amounts[0]);
      var (c', r) := AllocOn(c, on, amounts[0]);
      AllocEachSafe(c', on, extra + AsMultiset(r), amounts[1..]);
      var rest := AllocEach(c', on, amounts[1..]).1;
      assert extra + AsMultiset(r) + multiset(rest) == extra + multiset(if r.Some? then [r.value] + rest else rest);
    } else {
      assert extra + multiset([]) == extra;
    }
  }

  /** The same frames in the same hands. */
  predicate SameHolders(c: Conn, c': Conn) {
    && c'.held == c.held && c'.queue == c.queue && c'.parser == c.parser
    && c'.frameMax == c.frameMax && c'.linkSize == c.linkSize && c'.frameSize == c.frameSize
  }

  // ---------------------------------------------------------------- frames change hands

  lemma {:induction false} HeldAt(held: seq<PooledFrame>, i: nat, ch: ChannelId)
    requires i < |held|
    ensures OfHeld(held, ch) == OfFrame(held[i], ch) + OfHeld(Without(held, i), ch)
  {
    hide OfFrame;
    if i == 0 {
      assert Without(held, 0) == held[1..];
    } else {
      HeldAt(held[1..], i - 1, ch);
      assert Without(held, i) == [held[0]] + Without(held[1..], i - 1);
      assert ([held[0]] + Without(held[1..], i - 1))[1..] == Without(held[1..], i - 1);
    }
  }

  lemma HeldSnoc(held: seq<PooledFrame>, f: PooledFrame, ch: ChannelId)
    ensures OfHeld(held + [f], ch) == OfHeld(held, ch) + OfFrame(f, ch)
  {
    hide OfFrame, OfHeld;
    HeldAt(held + [f], |held|, ch);
    assert Without(held + [f], |held|) == held;
  }

  lemma {:induction false} QueueAppended(a: seq<Queued>, b: seq<Queued>, ch: ChannelId)
    ensures OfQueue(a + b, ch) == OfQueue(a, ch) + OfQueue(b, ch)
  {
    hide OfQueued;
    if a == [] {
      assert a + b == b;
    } else {
      QueueAppended(a[1..], b, ch);
      assert (a + b)[1..] == a[1..] + b;
    }
  }

  lemma QueueOne(q: Queued, ch: ChannelId)
    ensures OfQueue([q], ch) == OfQueued(q, ch)
  {
    assert [q][1..] == [];
  }

  /** Splitting a queue at entry k. */
  lemma QueueAt(queue: seq<Queued>, k: nat, ch: ChannelId)
    requires k < |queue|
    ensures OfQueue(queue, ch) == OfQueue(queue[..k], ch) + OfQueued(queue[k], ch) + OfQueue(queue[k + 1..], ch)
  {
    hide OfQueued, OfQueue;
    QueueAppended(queue[..k], [queue[k]], ch);
    QueueAppended(queue[..k] + [queue[k]], queue[k + 1..], ch);
    QueueOne(queue[k], ch);
    assert queue == queue[..k] + [queue[k]] + queue[k + 1..];
  }

  lemma {:induction false} QueueWithout(queue: seq<Queued>, ch: ChannelId)
    ensures OfQueue(queue, ch) == multiset{} <==> !QueuedOn(queue, ch)
  {
    hide OfQueued, QueuedOn;
    QueuedOnFirst(queue, ch);
    if queue != [] {
      QueueWithout(queue[1..], ch);
      QueuedUses(queue[0], ch);
      assert OfQueued(queue[0], ch) <= OfQueue(queue, ch);
    }
  }

  lemma QueuedOnFirst(queue: seq<Queued>, ch: ChannelId)
    ensures QueuedOn(queue, ch) <==> queue != [] && (queue[0].frame.channel == ch || QueuedOn(queue[1..], ch))
  {
    if queue != [] && QueuedOn(queue[1..], ch) {
      var i :| 0 <= i < |queue[1..]| && queue[1..][i].frame.channel == ch;
      assert queue[i + 1].frame.channel == ch;
    }
    if QueuedOn(queue, ch) {
      var i :| 0 <= i < |queue| && queue[i].frame.channel == ch;
      assert i > 0 ==> queue[1..][i - 1].frame.channel == ch;
    }
  }

  lemma QueuedUses(q: Queued, ch: ChannelId)
    ensures OfQueued(q, ch) == multiset{} <==> q.frame.channel != ch
  {
    assert q.frame.channel == ch ==> q.link in OfQueued(q, ch);
  }

  lemma {:induction false} HeldAfterRelease(held: seq<PooledFrame>, gone: ChannelId, ch: ChannelId)
    ensures OfHeld(HeldElsewhere(held, gone), ch) == if ch == gone then multiset{} else OfHeld(held, ch)
  {
    if held != [] {
      HeldAfterRelease(held[1..], gone, ch);
      var rest := HeldElsewhere(held[1..], gone);
      HeldFirst(held[0], rest, ch);
      assert [] + rest == rest;
    }
  }

  lemma HeldFirst(f: PooledFrame, held: seq<PooledFrame>, ch: ChannelId)
    ensures OfHeld([f] + held, ch) == OfFrame(f, ch) + OfHeld(held, ch)
  {
    assert ([f] + held)[1..] == held;
  }

  // ---------------------------------------------------------------- every step is safe

  /** A frame goes into the queue together with a new link and copy. */
  lemma EnlistedSafe(c: Conn, i: nat, q: Queued, front: bool)
    requires i < |c.held| && q.frame == c.held[i]
    requires SafeWith(c, q.frame.channel, multiset{q.link, q.copy})
    ensures Safe(Enlisted(c, i, q, front))
  {
    hide PoolsSound, OfHeld, OfQueue;
    var c', on := Enlisted(c, i, q, front), q.frame.channel;
    PoolsSame(c, c');
    forall ch: ChannelId ensures Within(c', ch, multiset{}) {
      HeldAt(c.held, i, ch);
      QueueAppended(c.queue, [q], ch);
      QueueAppended([q], c.queue, ch);
      QueueOne(q, ch);
      assert Within(c, ch, Extra(ch, on, multiset{q.link, q.copy}));
    }
  }

  lemma PoolsSame(c: Conn, c': Conn)
    requires PoolsSound(c) && c'.channels == c.channels && c'.heap == c.heap
    ensures PoolsSound(c')
  {
  }

  lemma SafeAnywhere(c: Conn, on: ChannelId)
    ensures Safe(c) <==> SafeWith(c, on, multiset{})
  {
    hide PoolsSound, Within;
    assert forall ch: ChannelId :: Extra(ch, on, multiset{}) == Extra(ch, 0, multiset{});
  }

  /** Less in use is no less safe. */
  lemma SafeLess(c: Conn, on: ChannelId, extra: multiset<Region>)
    requires SafeWith(c, on, extra)
    ensures Safe(c)
  {
    hide PoolsSound, Used;
    forall ch: ChannelId ensures Within(c, ch, multiset{}) {
      assert Within(c, ch, Extra(ch, on, extra));
    }
  }

  lemma TwoAllocs(c: Conn, on: ChannelId, a: nat, b: nat)
    requires Safe(c) && a > 0 && b > 0
    ensures var (c', r) := AllocOn(c, on, a); var (c'', s) := AllocOn(c', on, b);
      r.Some? && s.Some? && SafeWith(c'', on, multiset{r.value, s.value}) && SameHolders(c, c'')
  {
    hide SafeWith, Alloc;
    SafeAnywhere(c, on);
    AllocSafe(c, on, multiset{}, a);
    var (c', r) := AllocOn(c, on, a);
    AllocSafe(c', on, multiset{} + AsMultiset(r), b);
    var s := AllocOn(c', on, b).1;
    assert multiset{} + AsMultiset(r) + AsMultiset(s) == multiset{r.value, s.value};
  }

  lemma QueueingSafe(c: Conn, i: nat, front: bool)
    requires Safe(c) && i < |c.held|
    ensures Safe(LinkThenCopy(c, i, front)) && Safe(CopyThenLink(c, i))
  {
    hide SafeWith, AllocOn;
    SizesPositive(c);
    var f := c.held[i];
    TwoAllocs(c, f.channel, c.linkSize, c.frameSize);
    var (c1, link) := AllocOn(c, f.channel, c.linkSize);
    var (c2, copy) := AllocOn(c1, f.channel, c.frameSize);
    EnlistedSafe(c2, i, Queued(f, link.value, copy.value), front);
    TwoAllocs(c, f.channel, c.frameSize, c.linkSize);
    var (d1, copy') := AllocOn(c, f.channel, c.frameSize);
    var (d2, link') := AllocOn(d1, f.channel, c.linkSize);
    assert multiset{link'.value, copy'.value} == multiset{copy'.value, link'.value};
    EnlistedSafe(d2, i, Queued(f, link'.value, copy'.value), false);
  }

  lemma SizesPositive(c: Conn)
    requires Safe(c)
    ensures c.linkSize > 0 && c.frameSize > 0
  {
  }

  lemma {:induction false} BeginSafe(c: Conn, ch: ChannelId, size: nat)
    requires Safe(c)
    ensures Safe(Next(c, BeginBody(ch, size)))
  {
    hide SafeWith, AllocOn;
    SafeAnywhere(c, ch);
    AllocSafe(c, ch, multiset{}, size);
    if Headed(c.parser) {
      var (c', r) := AllocOn(c, ch, size);
      SafeLess(c', ch, multiset{} + AsMultiset(r));
      AllocHolders(c, ch, size);
      if r.Some? {
        BufferInUse(c', ch, r.value);
      }
    }
  }

  lemma AllocHolders(c: Conn, ch: ChannelId, amount: nat)
    ensures SameHolders(c, AllocOn(c, ch, amount).0)
  {
  }

  lemma BufferInUse(c: Conn, on: ChannelId, r: Region)
    requires SafeWith(c, on, multiset{} + AsMultiset(Some(r))) && !c.parser.ReadingBody?
    ensures Safe(c.(parser := ReadingBody(on, r)))
  {
    hide PoolsSound, OfHeld, OfQueue;
    var c' := c.(parser := ReadingBody(on, r));
    PoolsSame(c, c');
    forall ch: ChannelId ensures Within(c', ch, multiset{}) {
      assert Within(c, ch, Extra(ch, on, multiset{} + AsMultiset(Some(r))));
    }
  }

  lemma {:induction false} FinishSafe(c: Conn, amounts: seq<nat>, known: bool)
    requires Safe(c)
    ensures Safe(Next(c, FinishFrame(amounts, known))) && Safe(Next(c, FailFrame(amounts)))
  {
    hide SafeWith, AllocEach;
    if c.parser.ReadingBody? {
      var on := c.parser.channel;
      SafeAnywhere(c, on);
      AllocEachSafe(c, on, multiset{}, amounts);
      var (c', rs) := AllocEach(c, on, amounts);
      SafeLess(c', on, multiset{} + multiset(rs));
      FrameComplete(c', rs, known);
    }
  }

  /** The buffer and what decoding allocated become the frame's payload. */
  lemma FrameComplete(c: Conn, rs: seq<Region>, known: bool)
    requires c.parser.ReadingBody? && SafeWith(c, c.parser.channel, multiset{} + multiset(rs))
    ensures var frame := PooledFrame(c.parser.channel, [c.parser.raw] + rs);
      Safe(c.(parser := Resting, held := if known then c.held + [frame] else c.held))
  {
    hide PoolsSound, OfHeld, OfQueue;
    var frame := PooledFrame(c.parser.channel, [c.parser.raw] + rs);
    var c' := c.(parser := Resting, held := if known then c.held + [frame] else c.held);
    PoolsSame(c, c');
    forall ch: ChannelId ensures Within(c', ch, multiset{}) {
      HeldSnoc(c.held, frame, ch);
      assert multiset([c.parser.raw] + rs) == multiset{c.parser.raw} + multiset(rs);
      assert Within(c, ch, Extra(ch, frame.channel, multiset{} + multiset(rs)));
    }
  }

  /** Frames change hands without a new use of memory. */
  lemma NoNewUse(c: Conn, c': Conn)
    requires Safe(c) && c'.channels == c.channels && c'.heap == c.heap && c'.linkSize == c.linkSize
    requires c'.frameSize == c.frameSize
    requires forall ch: ChannelId :: Used(c', ch) <= Used(c, ch)
    ensures Safe(c')
  {
    hide PoolsSound, Used;
    PoolsSame(c, c');
    SafeMeans(c);
    SafeMeans(c');
    forall ch: ChannelId ensures Within(c', ch, multiset{}) {
      assert Within(c, ch, multiset{});
      assert Used(c', ch) <= Used(c, ch);
    }
  }

  lemma TakeSafe(c: Conn, k: nat)
    requires Safe(c)
    ensures Safe(Next(c, Take(k)))
  {
    hide Safe, OfHeld, OfQueue;
    if k < |c.queue| {
      var c' := c.(queue := c.queue[k + 1..], held := c.held + [c.queue[k].frame]);
      forall ch: ChannelId ensures Used(c', ch) <= Used(c, ch) {
        QueueAt(c.queue, k, ch);
        HeldSnoc(c.held, c.queue[k].frame, ch);
      }
      NoNewUse(c, c');
    }
  }

  lemma DropSafe(c: Conn, i: nat)
    requires Safe(c)
    ensures Safe(Next(c, Drop(i)))
  {
    hide Safe, OfHeld, OfQueue, Without;
    if i < |c.held| {
      var c' := c.(held := Without(c.held, i));
      forall ch: ChannelId ensures Used(c', ch) <= Used(c, ch) {
        HeldAt(c.held, i, ch);
      }
      NoNewUse(c, c');
    }
  }

  /** A header uses the connection's own buffer, refused or not, and a protocol header none. */
  lemma HeaderSafe(c: Conn, s: Step)
    requires Safe(c) && (s.HeaderBytes? || s.ProtocolHeader? || s.RefuseHeader? || s.ReadOn?) && !Overruns(c, s)
    ensures Safe(Next(c, s))
  {
    hide Safe, Next, Used;
    HeaderKeeps(c, s);
    forall ch: ChannelId ensures Used(Next(c, s), ch) <= Used(c, ch) {
      HeaderUses(c, Next(c, s), ch);
    }
    NoNewUse(c, Next(c, s));
  }

  lemma HeaderKeeps(c: Conn, s: Step)
    requires (s.HeaderBytes? || s.ProtocolHeader? || s.RefuseHeader? || s.ReadOn?) && !Overruns(c, s)
    ensures var c' := Next(c, s);
      && c' == c.(parser := c'.parser, held := c'.held) && (c'.parser == c.parser || !c'.parser.ReadingBody?)
      && (c'.held == c.held || c'.held == c.held + [PooledFrame(0, [])])
  {
  }

  lemma HeaderUses(c: Conn, c': Conn, ch: ChannelId)
    requires c'.queue == c.queue && (c'.parser == c.parser || !c'.parser.ReadingBody?)
    requires c'.held == c.held || c'.held == c.held + [PooledFrame(0, [])]
    ensures Used(c', ch) <= Used(c, ch)
  {
    hide OfHeld, OfQueue;
    HeldSnoc(c.held, PooledFrame(0, []), ch);
  }

  /** Recycling the pool of a channel keeps memory safe exactly when no queued frame is of that
      channel and the parser is not filling a buffer of it. */
  lemma {:induction false} RecycleSafeIff(c: Conn, gone: ChannelId)
    requires Safe(c) && gone in c.channels
    ensures Safe(Recycled(c, gone)) <==>
      !QueuedOn(c.queue, gone) && !(c.parser.ReadingBody? && c.parser.channel == gone)
  {
    hide PoolsSound, OfHeld, OfQueue, QueuedOn, SafeWith;
    var c' := Recycled(c, gone);
    SafeMeans(c);
    RecycleKeepsPools(c, gone);
    QueueWithout(c.queue, gone);
    forall ch: ChannelId | ch != gone ensures Within(c', ch, multiset{}) {
      HeldAfterRelease(c.held, gone, ch);
      assert Within(c, ch, multiset{});
    }
    HeldAfterRelease(c.held, gone, gone);
    NothingWithin(Used(c', gone));
    assert Used(c', gone) == OfQueue(c.queue, gone) + OfParser(c.parser, gone);
    SumEmpty(OfQueue(c.queue, gone), OfParser(c.parser, gone));
    assert c.parser.ReadingBody? && c.parser.channel == gone ==> c.parser.raw in OfParser(c.parser, gone);
    SafeMeans(c');
    assert Within(c', gone, multiset{}) <==> Used(c', gone) == multiset{};
  }

  lemma SumEmpty(a: multiset<Region>, b: multiset<Region>)
    ensures a + b == multiset{} <==> a == multiset{} && b == multiset{}
  {
    assert forall r :: r in a ==> r in a + b;
    assert forall r :: r in b ==> r in a + b;
  }

  lemma NothingWithin(used: multiset<Region>)
    ensures used + multiset{} <= multiset([]) <==> used == multiset{}
  {
    assert used + multiset{} == used;
  }

  lemma SafeMeans(c: Conn)
    ensures Safe(c) <==> PoolsSound(c) && c.linkSize > 0 && c.frameSize > 0
                         && forall ch: ChannelId :: Within(c, ch, multiset{})
  {
    hide PoolsSound, Within;
    forall ch: ChannelId ensures Within(c, ch, Extra(ch, 0, multiset{})) == Within(c, ch, multiset{}) {
      assert Extra(ch, 0, multiset{}) == multiset{};
    }
  }

  lemma RecycleKeepsPools(c: Conn, gone: ChannelId)
    requires PoolsSound(c) && gone in c.channels
    ensures PoolsSound(Recycled(c, gone))
  {
    hide Sound;
    RecycleSound(c.channels[gone].pool, c.heap, c.channels[gone].live);
  }

  lemma {:induction false} NextSafe(c: Conn, s: Step)
    requires Safe(c) && !Overruns(c, s)
    ensures Safe(Next(c, s))
  {
    hide Safe, AllocOn, AllocEach, Recycled;
    match s
    case HeaderBytes => HeaderSafe(c, s);
    case ProtocolHeader => HeaderSafe(c, s);
    case RefuseHeader(_) => HeaderSafe(c, s);
    case ReadOn(_) => HeaderSafe(c, s);
    case BeginBody(ch, size) => BeginSafe(c, ch, size);
    case FinishFrame(amounts, known) => FinishSafe(c, amounts, known);
    case FailFrame(amounts) => FinishSafe(c, amounts, false);
    case QueueFrame(i) => if i < |c.held| { QueueingSafe(c, i, false); }
    case AppendFrame(i) => if i < |c.held| { QueueingSafe(c, i, false); }
    case PutBack(i) => if i < |c.held| { QueueingSafe(c, i, true); }
    case Take(k) => TakeSafe(c, k);
    case Drop(i) => DropSafe(c, i);
    case Scratch(ch, amount) => ScratchSafe(c, ch, amount);
    case Tune(_) => TuneSafe(c, s);
    case Release(ch) => ReleaseSafe(c, ch);
  }

  lemma TuneSafe(c: Conn, s: Step)
    requires Safe(c) && s.Tune?
    ensures Safe(Next(c, s))
  {
    hide Safe, OfHeld, OfQueue;
    NoNewUse(c, Next(c, s));
  }

  lemma {:induction false} ScratchSafe(c: Conn, ch: ChannelId, amount: nat)
    requires Safe(c)
    ensures Safe(AllocOn(c, ch, amount).0)
  {
    hide SafeWith, AllocOn;
    SafeAnywhere(c, ch);
    AllocSafe(c, ch, multiset{}, amount);
    var (c', r) := AllocOn(c, ch, amount);
    SafeLess(c', ch, multiset{} + AsMultiset(r));
  }

  lemma ReleaseSafe(c: Conn, ch: ChannelId)
    requires Safe(c)
    ensures Safe(Next(c, Release(ch)))
  {
    hide Safe;
    if ch in c.channels {
      RecycleSafeIff(c, ch);
    }
  }

  // ---------------------------------------------------------------- whole runs

  /** In every state that any run reaches, all memory in use is live. */
  lemma {:induction false} RunSafe(c: Conn, steps: seq<Step>)
    requires Safe(c)
    ensures Run(c, steps).Going? ==> Safe(Run(c, steps).conn)
    decreases |steps|
  {
    hide Safe, Next, Overruns;
    if steps != [] && !Overruns(c, steps[0]) {
      NextSafe(c, steps[0]);
      RunSafe(Next(c, steps[0]), steps[1..]);
    }
  }

  lemma NewConnectionSafe(frameMax: nat, linkSize: nat, frameSize: nat, heap: BlockId)
    requires linkSize > 0 && frameSize > 0
    ensures Safe(NewConnection(frameMax, linkSize, frameSize, heap))
  {
  }

  /** The region was handed out by the pool of `ch` since that pool was last recycled. */
  predicate Live(c: Conn, ch: ChannelId, r: Region) {
    ch in c.channels && r in c.channels[ch].live
  }

  lemma UsedIsLive(c: Conn, ch: ChannelId, r: Region)
    requires Safe(c) && r in Used(c, ch)
    ensures Live(c, ch, r)
  {
    hide PoolsSound, Used;
    SafeMeans(c);
    assert Within(c, ch, multiset{});
    assert r in Used(c, ch) + multiset{};
  }

  /** Every part of the frame is live in the pool of its channel. */
  predicate FrameLive(c: Conn, f: PooledFrame) {
    forall r :: r in f.payload ==> Live(c, f.channel, r)
  }

  /** So are a queued link and the copy of the frame it points to. */
  predicate QueuedLive(c: Conn, q: Queued) {
    Live(c, q.frame.channel, q.link) && Live(c, q.frame.channel, q.copy) && FrameLive(c, q.frame)
  }

  /** Everything that the queue, the caller and a half-filled buffer point to is live. */
  predicate AllLive(c: Conn) {
    && (forall i :: 0 <= i < |c.queue| ==> QueuedLive(c, c.queue[i]))
    && (c.parser.ReadingBody? ==> Live(c, c.parser.channel, c.parser.raw))
    && (forall i :: 0 <= i < |c.held| ==> FrameLive(c, c.held[i]))
  }

  /** No dangling memory: from the opening of a connection on, whatever is read, queued, put back,
      dropped and released, all memory pointed to is live, as long as no call has written behind the
      header buffer; and one does if and only if some header was refused that announced more than
      `frame_max`, and more bytes were read on than the header buffer had left. */
  lemma {:induction false} NoDanglingMemory(frameMax: nat, linkSize: nat, frameSize: nat, heap: BlockId,
                                            steps: seq<Step>)
    requires linkSize > 0 && frameSize > 0
    ensures var c := NewConnection(frameMax, linkSize, frameSize, heap);
      match Run(c, steps)
      case Going(c') => AllLive(c') && !ReadsTooFar(c, steps)
      case Overrun => ReadsTooFar(c, steps)
  {
    hide Run, Safe, AllLive, ReadsTooFar;
    var c := NewConnection(frameMax, linkSize, frameSize, heap);
    NewConnectionSafe(frameMax, linkSize, frameSize, heap);
    RunSafe(c, steps);
    OverrunExactly(c, steps);
    if Run(c, steps).Going? {
      SafeIsLive(Run(c, steps).conn);
    }
  }

  lemma SafeIsLive(c: Conn)
    requires Safe(c)
    ensures AllLive(c)
  {
    hide Safe, Live, QueuedLive, FrameLive, Used;
    forall i | 0 <= i < |c.queue| ensures QueuedLive(c, c.queue[i]) {
      QueuedIsLive(c, i);
    }
    if c.parser.ReadingBody? {
      BufferIsUsed(c);
      UsedIsLive(c, c.parser.channel, c.parser.raw);
    }
    forall i | 0 <= i < |c.held| ensures FrameLive(c, c.held[i]) {
      HeldIsLive(c, i);
    }
  }

  lemma BufferIsUsed(c: Conn)
    requires c.parser.ReadingBody?
    ensures c.parser.raw in Used(c, c.parser.channel)
  {
  }

  lemma HeldIsLive(c: Conn, i: nat)
    requires Safe(c) && i < |c.held|
    ensures FrameLive(c, c.held[i])
  {
    hide Safe, Live, OfHeld, OfQueue;
    var f := c.held[i];
    HeldAt(c.held, i, f.channel);
    forall r | r in f.payload ensures Live(c, f.channel, r) {
      UsedIsLive(c, f.channel, r);
    }
  }

  lemma QueuedIsLive(c: Conn, i: nat)
    requires Safe(c) && i < |c.queue|
    ensures QueuedLive(c, c.queue[i])
  {
    hide Safe, Live, OfQueue, OfHeld;
    var q := c.queue[i];
    QueueAt(c.queue, i, q.frame.channel);
    UsedIsLive(c, q.frame.channel, q.link);
    UsedIsLive(c, q.frame.channel, q.copy);
    forall r | r in q.frame.payload ensures Live(c, q.frame.channel, r) {
      UsedIsLive(c, q.frame.channel, r);
    }
  }

  lemma {:induction false} AtMostOnce(live: seq<Region>, r: Region)
    requires forall i, j :: 0 <= i < j < |live| ==> live[i] != live[j]
    ensures multiset(live)[r] <= 1
  {
    if live != [] {
      AtMostOnce(live[1..], r);
      assert live == [live[0]] + live[1..];
      assert live[0] !in live[1..];
    }
  }

  lemma DisjointInPool(p: PoolState, heap: BlockId, live: seq<Region>, r: Region, s: Region)
    requires Sound(p, heap, live) && multiset{r, s} <= multiset(live)
    ensures Disjoint(r, s)
  {
    assert r in multiset{r, s} && s in multiset{r, s};
    assert forall i, j :: 0 <= i < j < |live| ==> Disjoint(live[i], live[j]) && live[i].len > 0;
    AtMostOnce(live, r);
    assert r == s ==> multiset{r, s}[r] == 2;
  }

  /** Two uses of memory, on one channel or two, never share a byte. */
  lemma UsesDisjoint(c: Conn, a: ChannelId, b: ChannelId, r: Region, s: Region)
    requires Safe(c)
    requires if a == b then multiset{r, s} <= Used(c, a) else r in Used(c, a) && s in Used(c, b)
    ensures Disjoint(r, s)
  {
    hide Used, Sound, WellFormed, Owns;
    assert a == b ==> r in multiset{r, s} && s in multiset{r, s};
    UsedIsLive(c, a, r);
    UsedIsLive(c, b, s);
    SafeMeans(c);
    var x, y := c.channels[a], c.channels[b];
    if a == b {
      assert Within(c, a, multiset{});
      assert Used(c, a) <= Used(c, a) + multiset{};
      DisjointInPool(x.pool, c.heap, x.live, r, s);
    } else {
      LiveIsOwned(x.pool, c.heap, x.live, r);
      LiveIsOwned(y.pool, c.heap, y.live, s);
    }
  }

  /** A frame that was released since it was read must not be put back: whatever the pool hands
      out next, the queue then points to memory that is not live, or that serves twice. */
  lemma StalePutBackUnsafe(c: Conn, i: nat)
    requires Safe(c) && i < |c.held| && c.held[i].payload != [] && c.parser.Resting?
    requires c.held[i].channel in c.channels && !QueuedOn(c.queue, c.held[i].channel)
    ensures var f := c.held[i];
      var (c1, link) := AllocOn(Next(c, Release(f.channel)), f.channel, c.linkSize);
      var (c2, copy) := AllocOn(c1, f.channel, c.frameSize);
      link.Some? && copy.Some? && !Safe(c2.(queue := [Queued(f, link.value, copy.value)] + c2.queue))
  {
    hide SafeWith, Alloc, Used, QueuedOn, Recycle;
    var f := c.held[i];
    SizesPositive(c);
    ReleaseSafe(c, f.channel);
    TwoAllocs(Next(c, Release(f.channel)), f.channel, c.linkSize, c.frameSize);
    var (c1, link) := AllocOn(Next(c, Release(f.channel)), f.channel, c.linkSize);
    var (c2, copy) := AllocOn(c1, f.channel, c.frameSize);
    assert c2.channels[f.channel].live == [link.value, copy.value];
    TooMuchUsed(c2, Queued(f, link.value, copy.value));
  }

  lemma TooMuchUsed(c: Conn, q: Queued)
    requires q.frame.channel in c.channels && c.channels[q.frame.channel].live == [q.link, q.copy]
    requires q.frame.payload != []
    ensures !Safe(c.(queue := [q] + c.queue))
  {
    hide PoolsSound, OfQueue, OfHeld, OfParser;
    var c', ch := c.(queue := [q] + c.queue), q.frame.channel;
    SafeMeans(c');
    QueueAppended([q], c.queue, ch);
    QueueOne(q, ch);
    OneTooMany(q.frame.payload, q.link, q.copy);
    assert OfQueued(q, ch) <= Used(c', ch) + multiset{};
    assert !Within(c', ch, multiset{});
  }

  lemma OneTooMany(payload: seq<Region>, a: Region, b: Region)
    requires payload != []
    ensures !(multiset(payload) + multiset{a, b} <= multiset([a, b]))
  {
    assert multiset([a, b]) == multiset{a, b};
    assert payload[0] in multiset(payload);
    assert (multiset(payload) + multiset{a, b})[payload[0]] > multiset{a, b}[payload[0]];
  }

  // ---------------------------------------------------------------- reading on after a refusal

  /** All bytes at hand in the calls after a refusal. */
  function BytesRead(steps: seq<Step>): nat {
    if steps == [] then 0 else (if steps[0].ReadOn? then steps[0].count else 0) + BytesRead(steps[1..])
  }

  /** The run comes to its `k`-th step, which refuses a header that announced a payload, and the calls
      after it bring more bytes than the header buffer has left. */
  predicate TooFarAfter(c: Conn, steps: seq<Step>, k: nat)
    requires k < |steps|
  {
    var before := Run(c, steps[..k]);
    && before.Going? && Refuses(before.conn, steps[k]) && steps[k].size > OVERHEAD
    && BytesRead(steps[k + 1..]) > Room(before.conn.parser)
  }

  predicate ReadsTooFar(c: Conn, steps: seq<Step>) {
    exists k :: 0 <= k < |steps| && TooFarAfter(c, steps, k)
  }

  lemma RefusedStays(c: Conn, s: Step)
    requires c.parser.Refused? && !Overruns(c, s)
    ensures Next(c, s).parser ==
      if s.ReadOn? then
        var k := FrameParser.Min(c.parser.owed, s.count);
        Refused(c.parser.room - k, c.parser.owed - k)
      else c.parser
  {
    hide AllocOn, Recycled;
    match s
    case QueueFrame(i) => if i < |c.held| { QueueingHolders(c, i); }
    case AppendFrame(i) => if i < |c.held| { QueueingHolders(c, i); }
    case PutBack(i) => if i < |c.held| { QueueingHolders(c, i); }
    case Scratch(ch, amount) => AllocHolders(c, ch, amount);
    case _ =>
  }

  lemma QueueingHolders(c: Conn, i: nat)
    requires i < |c.held|
    ensures forall front :: LinkThenCopy(c, i, front).parser == c.parser
    ensures CopyThenLink(c, i).parser == c.parser
  {
    hide Alloc;
  }

  /** Once a header was refused, the run writes behind the buffer exactly when it brings more bytes than
      the buffer has left, and more are wanted. */
  lemma {:induction false} RefusedRun(c: Conn, steps: seq<Step>)
    requires c.parser.Refused?
    ensures Run(c, steps).Overrun? <==> c.parser.owed > c.parser.room && BytesRead(steps) > c.parser.room
    ensures Run(c, steps).Going? ==> Run(c, steps).conn.parser.Refused?
    decreases |steps|
  {
    hide Next;
    if steps != [] && !Overruns(c, steps[0]) {
      RefusedStays(c, steps[0]);
      RefusedRun(Next(c, steps[0]), steps[1..]);
    }
  }

  lemma OnlyRefusal(c: Conn, s: Step)
    requires !c.parser.Refused?
    ensures !Overruns(c, s) && (Next(c, s).parser.Refused? <==> Refuses(c, s))
  {
    hide AllocOn, AllocEach, Recycled;
    match s
    case QueueFrame(i) => if i < |c.held| { QueueingHolders(c, i); }
    case AppendFrame(i) => if i < |c.held| { QueueingHolders(c, i); }
    case PutBack(i) => if i < |c.held| { QueueingHolders(c, i); }
    case Scratch(ch, amount) => AllocHolders(c, ch, amount);
    case BeginBody(ch, size) => AllocHolders(c, ch, size);
    case FailFrame(amounts) => if c.parser.ReadingBody? { EachHolders(c, c.parser.channel, amounts); }
    case Release(ch) => RecycleHolders(c, ch);
    case _ =>
  }

  lemma RecycleHolders(c: Conn, ch: ChannelId)
    ensures Recycled(c, ch).parser == c.parser
  {
  }

  lemma {:induction false} EachHolders(c: Conn, ch: ChannelId, amounts: seq<nat>)
    ensures AllocEach(c, ch, amounts).0.parser == c.parser
    decreases |amounts|
  {
    hide AllocOn;
    if amounts != [] {
      AllocHolders(c, ch, amounts[0]);
      EachHolders(AllocOn(c, ch, amounts[0]).0, ch, amounts[1..]);
    }
  }

  lemma TooFarFirst(c: Conn, steps: seq<Step>)
    requires steps != []
    ensures TooFarAfter(c, steps, 0) <==>
      Refuses(c, steps[0]) && steps[0].size > OVERHEAD && BytesRead(steps[1..]) > Room(c.parser)
  {
    hide Refuses, BytesRead;
    assert steps[..0] == [] && Run(c, []) == Going(c);
  }

  lemma TooFarLater(c: Conn, steps: seq<Step>, k: nat)
    requires k + 1 < |steps| && !Overruns(c, steps[0])
    ensures TooFarAfter(c, steps, k + 1) <==> TooFarAfter(Next(c, steps[0]), steps[1..], k)
  {
    hide Next, Refuses, BytesRead, Overruns;
    assert steps[..k + 1][0] == steps[0] && steps[..k + 1][1..] == steps[1..][..k];
    assert steps[1..][k] == steps[k + 1] && steps[1..][k + 1..] == steps[k + 2..];
  }

  lemma TooFarSplit(c: Conn, steps: seq<Step>)
    requires steps != [] && !Overruns(c, steps[0])
    ensures ReadsTooFar(c, steps) <==> TooFarAfter(c, steps, 0) || ReadsTooFar(Next(c, steps[0]), steps[1..])
  {
    hide Next, TooFarAfter, Overruns;
    if k :| 0 <= k < |steps| && TooFarAfter(c, steps, k) && k > 0 {
      TooFarLater(c, steps, k - 1);
    }
    if k :| 0 <= k < |steps[1..]| && TooFarAfter(Next(c, steps[0]), steps[1..], k) {
      TooFarLater(c, steps, k);
    }
  }

  /** Once refused, no header is refused again. */
  lemma RefusedOnce(c: Conn, steps: seq<Step>)
    requires c.parser.Refused?
    ensures !ReadsTooFar(c, steps)
  {
    hide Run, BytesRead;
    forall k | 0 <= k < |steps| ensures !TooFarAfter(c, steps, k) {
      RefusedRun(c, steps[..k]);
    }
  }

  /** A run writes behind the header buffer if and only if it reads too far after a refusal. */
  lemma {:induction false} OverrunExactly(c: Conn, steps: seq<Step>)
    requires !c.parser.Refused?
    ensures Run(c, steps).Overrun? <==> ReadsTooFar(c, steps)
    decreases |steps|
  {
    hide Next, ReadsTooFar, TooFarAfter, BytesRead;
    if steps == [] {
      NothingTooFar(c);
    } else {
      var s, rest := steps[0], steps[1..];
      OnlyRefusal(c, s);
      TooFarFirst(c, steps);
      TooFarSplit(c, steps);
      var c' := Next(c, s);
      if Refuses(c, s) {
        RefusedAs(c, s);
        RefusedRun(c', rest);
        RefusedOnce(c', rest);
      } else {
        OverrunExactly(c', rest);
      }
    }
  }

  lemma NothingTooFar(c: Conn)
    ensures !ReadsTooFar(c, [])
  {
  }

  lemma RefusedAs(c: Conn, s: Step)
    requires Refuses(c, s)
    ensures Next(c, s).parser == Refused(Room(c.parser), s.size - OVERHEAD + Room(c.parser))
  {
  }

  /** The refused state is the parser's: it holds what a failed header leaves, and a call writes behind
      the buffer here exactly when it does there. */
  lemma RefusedIsTooLong(limits: FrameParser.Limits, st: FrameParser.PState, data: bytes, c: Conn)
    requires FrameParser.FailedState(limits, st) && FrameParser.TooLong(limits, st) && data != []
    requires |st.got| <= FrameParser.INITIAL_SIZE && |st.got| <= st.target
    requires c.parser == Refused(FrameParser.INITIAL_SIZE - |st.got|, st.target - |st.got|)
    ensures Overruns(c, ReadOn(|data|)) <==> FrameParser.CallAgain(limits, st, data) == FrameParser.Overrun
  {
    hide FrameParser.FailedState, FrameParser.TooLong, FrameParser.CallAgain, FromBE;
    FrameParser.FailedShape(limits, st);
    FrameParser.CallAgainExactly(limits, st, data);
  }

  /** On a new connection, and on one past its protocol header: after a header that announces 70000 bytes
      no byte can be read on with the first, and one with the second. */
  lemma LongFirstFrame(linkSize: nat, frameSize: nat, heap: BlockId)
    ensures var c := NewConnection(65536, linkSize, frameSize, heap);
      && Run(c, [RefuseHeader(70000), ReadOn(1)]) == Overrun
      && Run(c, [ProtocolHeader, RefuseHeader(70000), ReadOn(1)]).Going?
      && Run(c, [ProtocolHeader, RefuseHeader(70000), ReadOn(2)]) == Overrun
  {
    var c := NewConnection(65536, linkSize, frameSize, heap);
    var a, b, d := RefuseHeader(70000), ReadOn(1), ReadOn(2);
    assert [a, b][1..] == [b] && [b][1..] == [] && [d][1..] == [] && [a, d][1..] == [d];
    assert [ProtocolHeader, a, b][1..] == [a, b] && [ProtocolHeader, a, d][1..] == [a, d];
  }

  // ---------------------------------------------------------------- releasing, as it runs

  class Buffers {
    var state: Conn

    constructor (state: Conn)
      ensures this.state == state
    {
      this.state := state;
    }

    /** `amqp_maybe_release_buffers_on_channel` */
    method MaybeReleaseOnChannel(channel: ChannelId)
      modifies this
      ensures state == Next(old(state), Release(channel))
    {
      if !state.parser.Resting? {
        return;
      }
      var i := 0;
      while i < |state.queue|
        invariant 0 <= i <= |state.queue| && state == old(state)
        invariant forall j :: 0 <= j < i ==> state.queue[j].frame.channel != channel
      {
        if state.queue[i].frame.channel == channel {
          return;
        }
        i := i + 1;
      }
      state := Recycled(state, channel);
    }

    /** `amqp_release_buffers`, which aborts unless the parser rests: every channel without a
        queued frame is recycled, and every other pool stays as it was. */
    method ReleaseBuffers()
      requires state.parser.Resting?
      modifies this
      ensures state.queue == old(state.queue) && state.parser == old(state.parser)
      ensures state.channels.Keys == old(state.channels.Keys)
      ensures forall ch :: ch in old(state.channels) ==>
        state.channels[ch] == if QueuedOn(old(state.queue), ch) then old(state.channels[ch])
                              else Channel(Recycle(old(state.channels[ch].pool)), [])
      ensures Safe(old(state)) ==> Safe(state)
    {
      hide Safe, QueuedOn, Recycle;
      var todo := state.channels.Keys;
      while todo != {}
        invariant todo <= old(state.channels.Keys) == state.channels.Keys
        invariant state.queue == old(state.queue) && state.parser == old(state.parser)
        invariant forall ch :: ch in state.channels ==>
          state.channels[ch] == if ch in todo || QueuedOn(old(state.queue), ch) then old(state.channels[ch])
                                else Channel(Recycle(old(state.channels[ch].pool)), [])
        invariant Safe(old(state)) ==> Safe(state)
        decreases |todo|
      {
        var channel :| channel in todo;
        if Safe(state) {
          ReleaseSafe(state, channel);
        }
        MaybeReleaseOnChannel(channel);
        todo := todo - {channel};
      }
    }
  }
}
