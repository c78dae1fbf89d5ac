/** The incremental frame parser of `amqp_handle_input`: a machine of four states that takes
    chunks of any size and hands back at most one frame per call. */
module FrameParser {
  import opened Bytes
  import opened FieldTable
  import opened Statuses
  import opened Generator
  import opened ContentHeader
  import opened Frames

  const INT32_MAX := 0x7FFF_FFFF
  const INITIAL_SIZE := 8

  datatype Phase = Idle | Initial | Header | Body

  /** What the parser remembers between calls: the bytes collected towards `target`. */
  datatype PState = PState(phase: Phase, got: bytes, target: nat)

  const IDLE_STATE := PState(Idle, [], HEADER_SIZE)
  const INITIAL_STATE := PState(Initial, [], INITIAL_SIZE)

  /** What a connection's parser works with: the methods it knows, the negotiated frame size, and the
      memory its pools are made of. */
  datatype Limits = Limits(schema: Schema, frameMax: nat, memory: Memory)

  /** A frame, or the protocol header that a server sends when it rejects ours. */
  datatype Item =
    | FrameItem(frame: Frame)
    | ProtocolItem(transportHigh: byte, transportLow: byte, major: byte, minor: byte)

  /** How a call ends: with nothing (yet), an item, a status, or reads out of bounds. */
  datatype Result = Nothing | Got(item: Item) | Fail(status: Status) | Wild

  predicate Broken(r: Result) {
    r.Fail? || r.Wild?
  }

  predicate ValidState(limits: Limits, st: PState) {
    && |st.got| < st.target
    && match st.phase
       case Idle => st == IDLE_STATE
       case Initial => st.target == INITIAL_SIZE
       case Header => st.target == HEADER_SIZE
       case Body => HEADER_SIZE <= |st.got| && HEADER_SIZE + FOOTER_SIZE <= st.target <= limits.frameMax
  }

  /** The end of one call: new state, bytes consumed, result. */
  datatype Outcome = Outcome(st: PState, consumed: nat, result: Result)

  const AMQP: bytes := [65, 77, 81, 80]

  function Min(a: nat, b: nat): nat { if a < b then a else b }

  /** A complete raw frame is decoded; the parser goes back to idle unless that fails. */
  function Finish(limits: Limits, st: PState, consumed: nat): Outcome
    requires |st.got| >= HEADER_SIZE + FOOTER_SIZE
  {
    match DecodeRaw(limits.schema, st.got, limits.memory)
    case Decoded(f) => Outcome(IDLE_STATE, consumed, Got(FrameItem(f)))
    case Ignored => Outcome(IDLE_STATE, consumed, Nothing)
    case Bad(status) => Outcome(st, consumed, Fail(status))
    case OutOfBounds => Outcome(st, consumed, Wild)
  }

  /** Bytes of `data` move into the buffer, at most up to the target. */
  function Fill(st: PState, data: bytes): (st': PState)
    requires |st.got| <= st.target
  {
    st.(got := st.got + data[..Min(st.target - |st.got|, |data|)])
  }

  /** What a complete frame header leads to: a status when the announced size is out of
      range, or else the body state. Only seven bytes are carried over into the new buffer:
      in the initial state an eighth has been collected, and in its place the buffer holds
      the zero that a page new to the pool starts with. */
  function AfterHeader(limits: Limits, st: PState): (r: (PState, bool))
    requires HEADER_SIZE <= |st.got| <= INITIAL_SIZE
    ensures r.1 ==> |r.0.got| == |st.got| <= r.0.target <= limits.frameMax && r.0.phase == Body
    ensures r.1 ==> HEADER_SIZE + FOOTER_SIZE <= r.0.target
  {
    var size := FromBE(st.got[3..7]);
    if size >= INT32_MAX then (st, false)
    else
      var target := size + HEADER_SIZE + FOOTER_SIZE;
      if limits.frameMax < target then (st.(target := target), false)
      else
        var kept := if |st.got| == INITIAL_SIZE then st.got[HEADER_SIZE := 0] else st.got;
        (PState(Body, kept, target), true)
  }

  /** The switch of `amqp_handle_input`, once the target is reached with `n` bytes consumed
      and `rest` of the chunk left. */
  function AtTarget(limits: Limits, st1: PState, n: nat, rest: bytes): (o: Outcome)
    requires st1.phase in {Initial, Header, Body}
    requires |st1.got| == st1.target >= HEADER_SIZE
    requires st1.phase == Initial ==> st1.target == INITIAL_SIZE
    requires st1.phase == Header ==> st1.target <= INITIAL_SIZE
    requires st1.phase == Body ==> st1.target >= HEADER_SIZE + FOOTER_SIZE
    ensures n <= o.consumed <= n + |rest|
    ensures !Broken(o.result) ==> ValidState(limits, o.st)
  {
    if st1.phase == Body then Finish(limits, st1, n)
    else if st1.phase == Initial && st1.got[..4] == AMQP then
      Outcome(IDLE_STATE, n, Got(ProtocolItem(st1.got[4], st1.got[5], st1.got[6], st1.got[7])))
    else
      var (st2, ok) := AfterHeader(limits, st1);
      if !ok then Outcome(st2, n, Fail(BadAmqpData)) else IntoBody(limits, st2, n, rest)
  }

  /** The body state takes what it needs of the rest of the same chunk. */
  function IntoBody(limits: Limits, st2: PState, n: nat, rest: bytes): (o: Outcome)
    requires st2.phase == Body && HEADER_SIZE <= |st2.got| <= st2.target <= limits.frameMax
    requires HEADER_SIZE + FOOTER_SIZE <= st2.target
    ensures n <= o.consumed <= n + |rest|
    ensures !Broken(o.result) ==> ValidState(limits, o.st)
  {
    var st3 := Fill(st2, rest);
    var n' := n + |st3.got| - |st2.got|;
    if |st3.got| < st3.target then Outcome(st3, n', Nothing) else Finish(limits, st3, n')
  }

  /** `amqp_handle_input` as a function of the parser's state and the chunk. */
  function HandleInput(limits: Limits, st: PState, data: bytes): (o: Outcome)
    requires ValidState(limits, st)
    ensures o.consumed <= |data|
    ensures data != [] ==> o.consumed > 0
    ensures !Broken(o.result) ==> ValidState(limits, o.st)
  {
    if data == [] then Outcome(st, 0, Nothing)
    else
      var st0 := if st.phase == Idle then st.(phase := Header) else st;
      var st1 := Fill(st0, data);
      var n := |st1.got| - |st.got|;
      if |st1.got| < st1.target then Outcome(st1, n, Nothing) else AtTarget(limits, st1, n, data[n..])
  }

  // ---------------------------------------------------------------- the reader's loop

  /** All that comes of a stream of bytes: items in order, the parser's final state, the
      failure that ended it if one did, and the sum of the counts that the calls returned. */
  datatype Run = Run(items: seq<Item>, st: PState, failure: Result, count: nat)

  function ItemsOf(r: Result): seq<Item> {
    if r.Got? then [r.item] else []
  }

  function After(first: seq<Item>, count: nat, r: Run): Run {
    r.(items := first + r.items, count := count + r.count)
  }

  /** The loop over one chunk: each call takes up where the one before stopped, and a failing
      call returns no count. */
  function Feed(limits: Limits, st: PState, data: bytes): (r: Run)
    requires ValidState(limits, st)
    ensures !Broken(r.failure) ==> ValidState(limits, r.st)
    decreases |data|
  {
    if data == [] then Run([], st, Nothing, 0)
    else
      var o := HandleInput(limits, st, data);
      if Broken(o.result) then Run([], o.st, o.result, 0)
      else After(ItemsOf(o.result), o.consumed, Feed(limits, o.st, data[o.consumed..]))
  }

  /** The loop over chunk after chunk, until one fails. */
  function FeedAll(limits: Limits, st: PState, chunks: seq<bytes>): Run
    requires ValidState(limits, st)
    decreases |chunks|
  {
    if chunks == [] then Run([], st, Nothing, 0)
    else
      var r := Feed(limits, st, chunks[0]);
      if Broken(r.failure) then r else After(r.items, r.count, FeedAll(limits, r.st, chunks[1..]))
  }

  function Flatten(chunks: seq<bytes>): bytes {
    if chunks == [] then [] else chunks[0] + Flatten(chunks[1..])
  }

  // ---------------------------------------------------------------- one byte at a time

  /** The reference parser: one byte in, and the result it completes. */
  function ByteStep(limits: Limits, st: PState, b: byte): (o: (PState, Result))
    requires ValidState(limits, st)
    ensures !Broken(o.1) ==> ValidState(limits, o.0)
  {
    var st1 := PState(if st.phase == Idle then Header else st.phase, st.got + [b], st.target);
    if |st1.got| < st1.target then (st1, Nothing)
    else if st1.phase == Body then
      var o := Finish(limits, st1, 0); (o.st, o.result)
    else if st1.phase == Initial && st1.got[..4] == AMQP then
      (IDLE_STATE, Got(ProtocolItem(st1.got[4], st1.got[5], st1.got[6], st1.got[7])))
    else
      var (st2, ok) := AfterHeader(limits, st1);
      if !ok then (st2, Fail(BadAmqpData))
      else if |st2.got| < st2.target then (st2, Nothing)
      else var o := Finish(limits, st2, 0); (o.st, o.result)
  }

  /** The reference parser over a stream, up to the first failure; no counts. */
  function Scan(limits: Limits, st: PState, data: bytes): (r: Run)
    requires ValidState(limits, st)
    ensures !Broken(r.failure) ==> ValidState(limits, r.st)
    decreases |data|
  {
    if data == [] then Run([], st, Nothing, 0)
    else
      var (st', result) := ByteStep(limits, st, data[0]);
      if Broken(result) then Run([], st', result, 0)
      else After(ItemsOf(result), 0, Scan(limits, st', data[1..]))
  }

  /** `r` followed, unless it failed, by what the stream `b` gives from there. */
  function Then(limits: Limits, r: Run, b: bytes): Run
    requires !Broken(r.failure) ==> ValidState(limits, r.st)
  {
    if Broken(r.failure) then r else After(r.items, 0, Scan(limits, r.st, b))
  }

  lemma AfterTwice(a: seq<Item>, b: seq<Item>, m: nat, n: nat, r: Run)
    ensures After(a, m, After(b, n, r)) == After(a + b, m + n, r)
  {
    assert a + (b + r.items) == a + b + r.items;
  }

  lemma AfterNothing(r: Run)
    ensures After([], 0, r) == r
  {
    assert [] + r.items == r.items;
  }

  lemma {:induction false} ScanConcat(limits: Limits, st: PState, a: bytes, b: bytes)
    requires ValidState(limits, st)
    ensures Scan(limits, st, a + b) == Then(limits, Scan(limits, st, a), b)
    decreases |a|
  {
    hide ByteStep, ValidState;
    if a == [] {
      assert a + b == b;
      AfterNothing(Scan(limits, st, b));
    } else {
      var (st', result) := ByteStep(limits, st, a[0]);
      assert (a + b)[0] == a[0] && (a + b)[1..] == a[1..] + b;
      if !Broken(result) {
        ScanConcat(limits, st', a[1..], b);
        var r := Scan(limits, st', a[1..]);
        if !Broken(r.failure) {
          AfterTwice(ItemsOf(result), r.items, 0, 0, Scan(limits, r.st, b));
        }
      }
    }
  }

  // ---------------------------------------------------------------- chunking independence

  /** Bytes that do not reach the target only collect. */
  lemma {:induction false} ScanCollects(limits: Limits, st: PState, data: bytes)
    requires ValidState(limits, st) && st.phase != Idle && |st.got| + |data| < st.target
    ensures Scan(limits, st, data) == Run([], st.(got := st.got + data), Nothing, 0)
    decreases |data|
  {
    if data == [] {
      assert st.got + data == st.got;
    } else {
      hide ByteStep, ValidState, After;
      StepCollects(limits, st, data[0]);
      ScanCollects(limits, st.(got := st.got + [data[0]]), data[1..]);
      ConcatAssoc(st.got, [data[0]], data[1..]);
      assert data == [data[0]] + data[1..];
      AfterNothing(Run([], st.(got := st.got + data), Nothing, 0));
    }
  }

  lemma StepCollects(limits: Limits, st: PState, b: byte)
    requires ValidState(limits, st) && st.phase != Idle && |st.got| + 1 < st.target
    ensures ValidState(limits, st.(got := st.got + [b]))
    ensures ByteStep(limits, st, b) == (st.(got := st.got + [b]), Nothing)
  {
    hide AfterHeader, Finish;
  }

  /** Bytes that reach the target collect but for the last, which takes the step. */
  lemma ScanReaches(limits: Limits, st: PState, data: bytes)
    requires ValidState(limits, st) && st.phase != Idle && |st.got| + |data| == st.target
    ensures var before := st.(got := st.got + data[..|data| - 1]);
      ValidState(limits, before) && before.got + [data[|data| - 1]] == st.got + data
      && var (st', result) := ByteStep(limits, before, data[|data| - 1]);
         Scan(limits, st, data) == Run(ItemsOf(result), st', if Broken(result) then result else Nothing, 0)
  {
    hide ByteStep;
    var front, last := data[..|data| - 1], data[|data| - 1];
    var before := st.(got := st.got + front);
    assert data == front + [last];
    ScanCollects(limits, st, front);
    ScanConcat(limits, st, front, [last]);
    ScanOne(limits, before, last);
    AfterNothing(Scan(limits, before, [last]));
  }

  lemma ScanOne(limits: Limits, st: PState, b: byte)
    requires ValidState(limits, st)
    ensures var (st', result) := ByteStep(limits, st, b);
      Scan(limits, st, [b]) == Run(ItemsOf(result), st', if Broken(result) then result else Nothing, 0)
  {
    hide ByteStep;
    assert [b][1..] == [];
    var result := ByteStep(limits, st, b).1;
    assert ItemsOf(result) + [] == ItemsOf(result);
  }

  /** What one call does is what the bytes it consumed do one at a time. */
  ghost predicate Refines(limits: Limits, st: PState, data: bytes, o: Outcome)
    requires ValidState(limits, st)
  {
    && o.consumed <= |data|
    && Scan(limits, st, data[..o.consumed])
       == Run(ItemsOf(o.result), o.st, if Broken(o.result) then o.result else Nothing, 0)
  }

  /** Idle and the header state with nothing collected take the same next byte. */
  lemma IdleScansAsHeader(limits: Limits, data: bytes)
    requires data != []
    ensures Scan(limits, IDLE_STATE, data) == Scan(limits, PState(Header, [], HEADER_SIZE), data)
  {
    hide AfterHeader, Finish;
  }

  lemma CallRefinesBytes(limits: Limits, st: PState, data: bytes)
    requires ValidState(limits, st)
    ensures Refines(limits, st, data, HandleInput(limits, st, data))
  {
    hide AfterHeader, Finish, Scan, ByteStep;
    if data == [] {
      ScanNothing(limits, st);
    } else if st.phase == Idle {
      var st0 := PState(Header, [], HEADER_SIZE);
      CallRefinesFrom(limits, st0, data);
      IdleScansAsHeader(limits, data[..HandleInput(limits, st0, data).consumed]);
    } else {
      CallRefinesFrom(limits, st, data);
    }
  }

  lemma ScanNothing(limits: Limits, st: PState)
    requires ValidState(limits, st)
    ensures Scan(limits, st, []) == Run([], st, Nothing, 0)
  {
  }

  lemma CallRefinesFrom(limits: Limits, st: PState, data: bytes)
    requires ValidState(limits, st) && st.phase != Idle && data != []
    ensures Refines(limits, st, data, HandleInput(limits, st, data))
  {
    hide AfterHeader, Finish, Scan, ByteStep;
    var n := Min(st.target - |st.got|, |data|);
    var st1 := Fill(st, data);
    if |st1.got| < st1.target {
      ScanCollects(limits, st, data[..n]);
    } else {
      ScanReaches(limits, st, data[..n]);
      var before := st.(got := st.got + data[..n][..n - 1]);
      StepAtTarget(limits, before, data[n - 1]);
      if st1.phase == Body {
        FinishCount(limits, st1, n, 0);
      }
      if st1.phase != Body && !(st1.phase == Initial && st1.got[..4] == AMQP) && AfterHeader(limits, st1).1 {
        BodyInSameCall(limits, st, st1, data, n);
      }
    }
  }

  /** The reference parser's step at the byte that reaches the target. */
  lemma StepAtTarget(limits: Limits, before: PState, b: byte)
    requires ValidState(limits, before) && before.phase != Idle && |before.got| + 1 == before.target
    ensures var st1 := before.(got := before.got + [b]);
      ByteStep(limits, before, b) ==
        if st1.phase == Body then var o := Finish(limits, st1, 0); (o.st, o.result)
        else if st1.phase == Initial && st1.got[..4] == AMQP then
          (IDLE_STATE, Got(ProtocolItem(st1.got[4], st1.got[5], st1.got[6], st1.got[7])))
        else
          var (st2, ok) := AfterHeader(limits, st1);
          if !ok then (st2, Fail(BadAmqpData))
          else if |st2.got| < st2.target then (st2, Nothing)
          else var o := Finish(limits, st2, 0); (o.st, o.result)
  {
    hide AfterHeader, Finish;
  }

  lemma FinishCount(limits: Limits, st: PState, m: nat, n: nat)
    requires |st.got| >= HEADER_SIZE + FOOTER_SIZE
    ensures Finish(limits, st, m) == Finish(limits, st, n).(consumed := m)
  {
  }

  /** The bytes that complete a body. */
  lemma ScanFinishes(limits: Limits, st2: PState, data: bytes)
    requires st2.phase == Body && ValidState(limits, st2) && |st2.got| + |data| == st2.target
    ensures var o := Finish(limits, st2.(got := st2.got + data), 0);
      Scan(limits, st2, data)
      == Run(ItemsOf(o.result), o.st, if Broken(o.result) then o.result else Nothing, 0)
  {
    hide AfterHeader, Finish, Scan, ByteStep;
    ScanReaches(limits, st2, data);
    StepAtTarget(limits, st2.(got := st2.got + data[..|data| - 1]), data[|data| - 1]);
  }

  lemma FillTakes(st: PState, data: bytes)
    requires |st.got| <= st.target
    ensures var k := |Fill(st, data).got| - |st.got|;
      0 <= k <= |data| && Fill(st, data) == st.(got := st.got + data[..k]) && |st.got| + k <= st.target
  {
  }

  /** The body state's share of a call. */
  lemma IntoBodyRefines(limits: Limits, st2: PState, n: nat, rest: bytes)
    requires st2.phase == Body && ValidState(limits, st2)
    ensures var o := IntoBody(limits, st2, n, rest);
      Scan(limits, st2, rest[..o.consumed - n])
      == Run(ItemsOf(o.result), o.st, if Broken(o.result) then o.result else Nothing, 0)
  {
    hide AfterHeader, Finish, Scan, ByteStep, Fill;
    var st3 := Fill(st2, rest);
    var k := |st3.got| - |st2.got|;
    FillTakes(st2, rest);
    FinishCounts(limits, st3, n + k);
    if |st3.got| < st3.target {
      ScanCollects(limits, st2, rest[..k]);
    } else {
      ScanFinishes(limits, st2, rest[..k]);
      FinishCount(limits, st3, n + k, 0);
    }
  }

  lemma FinishCounts(limits: Limits, st: PState, n: nat)
    ensures |st.got| >= HEADER_SIZE + FOOTER_SIZE ==> Finish(limits, st, n).consumed == n
  {
  }

  lemma HandleReachesBody(limits: Limits, st: PState, st1: PState, data: bytes, n: nat)
    requires ValidState(limits, st) && st.phase != Idle && data != [] && n == Min(st.target - |st.got|, |data|)
    requires st1 == Fill(st, data) && |st1.got| == st1.target && st1.phase != Body
    requires !(st1.phase == Initial && st1.got[..4] == AMQP) && AfterHeader(limits, st1).1
    ensures HandleInput(limits, st, data) == IntoBody(limits, AfterHeader(limits, st1).0, n, data[n..])
  {
    hide AfterHeader, IntoBody;
  }

  /** A call that completes the header goes on into the body with what is left of the chunk. */
  lemma BodyInSameCall(limits: Limits, st: PState, st1: PState, data: bytes, n: nat)
    requires ValidState(limits, st) && st.phase != Idle && data != [] && n == Min(st.target - |st.got|, |data|)
    requires st1 == Fill(st, data) && |st1.got| == st1.target && st1.phase != Body
    requires !(st1.phase == Initial && st1.got[..4] == AMQP) && AfterHeader(limits, st1).1
    requires var st2 := AfterHeader(limits, st1).0;
      Scan(limits, st, data[..n]) ==
        if |st2.got| < st2.target then Run([], st2, Nothing, 0)
        else var o := Finish(limits, st2, 0);
             Run(ItemsOf(o.result), o.st, if Broken(o.result) then o.result else Nothing, 0)
    ensures Refines(limits, st, data, HandleInput(limits, st, data))
  {
    hide AfterHeader, Finish, Scan, ByteStep, HandleInput;
    var st2, rest := AfterHeader(limits, st1).0, data[n..];
    var o := IntoBody(limits, st2, n, rest);
    HandleReachesBody(limits, st, st1, data, n);
    if |st2.got| == st2.target {
      assert Fill(st2, rest) == st2 by { assert st2.got + rest[..0] == st2.got; }
      FinishCount(limits, st2, n, 0);
      FinishCounts(limits, st2, n);
    } else {
      hide IntoBody;
      IntoBodyRefines(limits, st2, n, rest);
      var share := rest[..o.consumed - n];
      assert data[..n] + share == data[..o.consumed];
      ScanConcat(limits, st, data[..n], share);
      AfterNothing(Scan(limits, st2, share));
    }
  }

  /** The chunked reader refines the reference parser: same items, same final state, same
      failure; and without a failure the counts add up to the chunk. */
  lemma {:induction false} FeedIsScan(limits: Limits, st: PState, data: bytes)
    requires ValidState(limits, st)
    ensures Feed(limits, st, data).(count := 0) == Scan(limits, st, data)
    ensures !Broken(Feed(limits, st, data).failure) ==> Feed(limits, st, data).count == |data|
    decreases |data|
  {
    hide HandleInput, Scan;
    if data == [] {
      ScanNothing(limits, st);
    } else {
      var o := HandleInput(limits, st, data);
      CallProgress(limits, st, data);
      CallRefinesBytes(limits, st, data);
      assert data == data[..o.consumed] + data[o.consumed..];
      ScanConcat(limits, st, data[..o.consumed], data[o.consumed..]);
      if !Broken(o.result) {
        FeedIsScan(limits, o.st, data[o.consumed..]);
      }
    }
  }

  lemma CallProgress(limits: Limits, st: PState, data: bytes)
    requires ValidState(limits, st) && data != []
    ensures 0 < HandleInput(limits, st, data).consumed <= |data|
  {
  }

  lemma {:induction false} FeedAllIsScan(limits: Limits, st: PState, chunks: seq<bytes>)
    requires ValidState(limits, st)
    ensures FeedAll(limits, st, chunks).(count := 0) == Scan(limits, st, Flatten(chunks))
    ensures var r := FeedAll(limits, st, chunks); !Broken(r.failure) ==> r.count == |Flatten(chunks)|
    decreases |chunks|
  {
    hide Feed, Scan;
    if chunks == [] {
      ScanNothing(limits, st);
    } else {
      FeedIsScan(limits, st, chunks[0]);
      ScanConcat(limits, st, chunks[0], Flatten(chunks[1..]));
      var r := Feed(limits, st, chunks[0]);
      if !Broken(r.failure) {
        FeedAllIsScan(limits, r.st, chunks[1..]);
      }
    }
  }

  /** Any two ways of cutting the same stream into calls give the same items, the same first
      failure, the same final state, and counts that add up to the stream when none fails. */
  lemma {:induction false} ChunkingIndependence(limits: Limits, st: PState, a: seq<bytes>, b: seq<bytes>)
    requires ValidState(limits, st) && Flatten(a) == Flatten(b)
    ensures var ra, rb := FeedAll(limits, st, a), FeedAll(limits, st, b);
      ra.items == rb.items && ra.st == rb.st && ra.failure == rb.failure
      && (!Broken(ra.failure) ==> ra.count == rb.count == |Flatten(a)|)
  {
    FeedAllIsScan(limits, st, a);
    FeedAllIsScan(limits, st, b);
  }

  // ---------------------------------------------------------------- the initial state

  /** Every frame parsed first on a new connection is parsed as though its eighth byte were
      zero: the initial state collects eight bytes and carries over seven. A frame whose first
      payload byte, or whose end marker if the payload is empty, is not zero is corrupted. */
  lemma InitialZeroesEighthByte(limits: Limits, s: bytes)
    requires |s| >= INITIAL_SIZE && s[..4] != AMQP
    ensures var first, second := Scan(limits, INITIAL_STATE, s), Scan(limits, IDLE_STATE, s[HEADER_SIZE := 0]);
      first.items == second.items && first.failure == second.failure
      && (!Broken(first.failure) ==> first.st == second.st)
  {
    hide Scan, ByteStep, AfterHeader, Finish;
    var h0, head, tail := PState(Header, [], HEADER_SIZE), s[..HEADER_SIZE], s[INITIAL_SIZE..];
    var eight := s[..INITIAL_SIZE];
    assert s == eight + tail && s[HEADER_SIZE := 0] == head + ([0] + tail);
    ScanConcat(limits, INITIAL_STATE, eight, tail);
    IdleScansAsHeader(limits, s[HEADER_SIZE := 0]);
    ScanConcat(limits, h0, head, [0] + tail);
    EightFromInitial(limits, eight);
    SevenFromHeader(limits, head);
    assert eight[3..7] == head[3..7];
    HeaderSizesAgree(limits, eight, head);
    var (st2, ok) := AfterHeader(limits, PState(Header, head, HEADER_SIZE));
    if ok {
      ScanConcat(limits, st2, [0], tail);
      ScanOne(limits, st2, 0);
      ZeroByteIntoBody(limits, st2);
      AfterNothing(Scan(limits, st2, [0] + tail));
    }
  }

  lemma EightFromInitial(limits: Limits, eight: bytes)
    requires |eight| == INITIAL_SIZE && eight[..4] != AMQP
    ensures var (st2, ok) := AfterHeader(limits, PState(Initial, eight, INITIAL_SIZE));
      Scan(limits, INITIAL_STATE, eight) ==
        if !ok then Run([], st2, Fail(BadAmqpData), 0)
        else if |st2.got| < st2.target then Run([], st2, Nothing, 0)
        else var o := Finish(limits, st2, 0);
             Run(ItemsOf(o.result), o.st, if Broken(o.result) then o.result else Nothing, 0)
  {
    hide Scan, ByteStep, AfterHeader, Finish;
    ScanReaches(limits, INITIAL_STATE, eight);
    assert [] + eight == eight;
    StepAtTarget(limits, INITIAL_STATE.(got := [] + eight[..HEADER_SIZE]), eight[HEADER_SIZE]);
  }

  lemma SevenFromHeader(limits: Limits, head: bytes)
    requires |head| == HEADER_SIZE
    ensures var (st2, ok) := AfterHeader(limits, PState(Header, head, HEADER_SIZE));
      Scan(limits, PState(Header, [], HEADER_SIZE), head)
      == if ok then Run([], st2, Nothing, 0) else Run([], st2, Fail(BadAmqpData), 0)
  {
    hide Scan, ByteStep, AfterHeader, Finish;
    var h0 := PState(Header, [], HEADER_SIZE);
    ScanReaches(limits, h0, head);
    assert [] + head == head;
    StepAtTarget(limits, h0.(got := [] + head[..HEADER_SIZE - 1]), head[HEADER_SIZE - 1]);
  }

  lemma HeaderSizesAgree(limits: Limits, eight: bytes, head: bytes)
    requires |eight| == INITIAL_SIZE && head == eight[..HEADER_SIZE] && eight[3..7] == head[3..7]
    ensures var first := AfterHeader(limits, PState(Initial, eight, INITIAL_SIZE));
      var second := AfterHeader(limits, PState(Header, head, HEADER_SIZE));
      first.1 == second.1 && (second.1 ==> first.0 == second.0.(got := head + [0]) && second.0.got == head)
  {
    assert eight[HEADER_SIZE := 0] == head + [0];
  }

  lemma ZeroByteIntoBody(limits: Limits, st2: PState)
    requires ValidState(limits, st2) && st2.phase == Body && |st2.got| == HEADER_SIZE
    ensures var st := st2.(got := st2.got + [0]);
      ByteStep(limits, st2, 0)
      == if |st.got| < st.target then (st, Nothing) else var o := Finish(limits, st, 0); (o.st, o.result)
  {
    hide AfterHeader, Finish;
  }

  // ---------------------------------------------------------------- calling on after a failure

  /** How many bytes the buffer holds: the header buffer eight, and any other the whole frame. */
  function Capacity(st: PState): nat {
    if st.phase == Body then st.target else INITIAL_SIZE
  }

  /** The collected header announces a frame longer than the negotiated maximum. */
  predicate TooLong(limits: Limits, st: PState) {
    && st.phase in {Initial, Header} && |st.got| >= HEADER_SIZE
    && FromBE(st.got[3..7]) < INT32_MAX && limits.frameMax < FromBE(st.got[3..7]) + HEADER_SIZE + FOOTER_SIZE
  }

  /** A complete header that announces too much, with the announced length already taken for the target
      if it is below INT32_MAX. */
  predicate RefusedHeader(limits: Limits, st: PState) {
    && st.phase in {Initial, Header} && HEADER_SIZE <= |st.got| <= INITIAL_SIZE
    && (st.phase == Initial ==> |st.got| == INITIAL_SIZE)
    && !(st.phase == Initial && st.got[..4] == AMQP)
    && if TooLong(limits, st) then st.target == FromBE(st.got[3..7]) + HEADER_SIZE + FOOTER_SIZE
       else FromBE(st.got[3..7]) >= INT32_MAX && st.target == |st.got|
  }

  /** The states that a failing call leaves: such a header, or a complete body that is not accepted. */
  predicate FailedState(limits: Limits, st: PState) {
    if st.phase == Body then
      |st.got| == st.target >= HEADER_SIZE + FOOTER_SIZE && Broken(Finish(limits, st, 0).result)
    else RefusedHeader(limits, st)
  }

  lemma FailureLeaves(limits: Limits, st: PState, data: bytes)
    requires ValidState(limits, st) && Broken(HandleInput(limits, st, data).result)
    ensures FailedState(limits, HandleInput(limits, st, data).st)
  {
    hide Finish, RefusedHeader, AfterHeader, IntoBody, FromBE;
    var st0 := if st.phase == Idle then st.(phase := Header) else st;
    var st1 := Fill(st0, data);
    var n := |st1.got| - |st.got|;
    if st1.phase == Body {
      FinishFails(limits, st1, n);
    } else if !(st1.phase == Initial && st1.got[..4] == AMQP) {
      var (st2, ok) := AfterHeader(limits, st1);
      if ok {
        IntoBodyFails(limits, st2, n, data[n..]);
      } else {
        HeaderRefused(limits, st1);
      }
    }
  }

  lemma FinishFails(limits: Limits, st: PState, n: nat)
    requires |st.got| >= HEADER_SIZE + FOOTER_SIZE && Broken(Finish(limits, st, n).result)
    ensures Finish(limits, st, n).st == st && Broken(Finish(limits, st, 0).result)
  {
    hide DecodeRaw;
  }

  lemma IntoBodyFails(limits: Limits, st: PState, n: nat, rest: bytes)
    requires st.phase == Body && HEADER_SIZE <= |st.got| <= st.target <= limits.frameMax
    requires HEADER_SIZE + FOOTER_SIZE <= st.target && Broken(IntoBody(limits, st, n, rest).result)
    ensures FailedState(limits, IntoBody(limits, st, n, rest).st)
  {
    hide Finish, RefusedHeader;
    var st3 := Fill(st, rest);
    FinishFails(limits, st3, n + |st3.got| - |st.got|);
  }

  lemma HeaderRefused(limits: Limits, st: PState)
    requires st.phase in {Initial, Header} && |st.got| == st.target
    requires st.target == if st.phase == Initial then INITIAL_SIZE else HEADER_SIZE
    requires !(st.phase == Initial && st.got[..4] == AMQP) && !AfterHeader(limits, st).1
    ensures RefusedHeader(limits, AfterHeader(limits, st).0) && AfterHeader(limits, st).0.phase != Body
  {
    hide FromBE;
  }

  /** What is collected and how much is wanted, after a failure. */
  lemma FailedShape(limits: Limits, st: PState)
    requires FailedState(limits, st)
    ensures st.phase != Idle && HEADER_SIZE <= |st.got| <= st.target && !ValidState(limits, st)
    ensures st.phase == Body ==> |st.got| == st.target >= HEADER_SIZE + FOOTER_SIZE && !TooLong(limits, st)
    ensures st.phase != Body ==>
      && |st.got| <= INITIAL_SIZE && (st.phase == Initial ==> |st.got| == INITIAL_SIZE)
      && if TooLong(limits, st) then st.target == FromBE(st.got[3..7]) + HEADER_SIZE + FOOTER_SIZE
         else st.target == |st.got|
  {
    hide Finish, FromBE;
  }

  /** A call after a failure: it writes behind the buffer, or it has an outcome. */
  datatype Again = Again(outcome: Outcome) | Overrun

  /** `amqp_handle_input` in a state that a failure left. */
  function CallAgain(limits: Limits, st: PState, data: bytes): Again
    requires FailedState(limits, st)
  {
    FailedShape(limits, st);
    if data == [] then Again(Outcome(st, 0, Nothing))
    else
      var st1 := Fill(st, data);
      var n := |st1.got| - |st.got|;
      if |st1.got| > Capacity(st) then Overrun
      else if |st1.got| < st1.target then Again(Outcome(st1, n, Nothing))
      else Again(AtTarget(limits, st1, n, data[n..]))
  }

  /** A call after a failure stays inside the buffer, unless the failure was a header that announced more
      than the negotiated maximum, and the call brings more than the header buffer has left: one byte
      after a header in HEADER, none in INITIAL. Any other failure is met again, with nothing
      consumed; and no call after a failure ever returns a frame. */
  lemma CallAgainExactly(limits: Limits, st: PState, data: bytes)
    requires FailedState(limits, st) && data != []
    ensures CallAgain(limits, st, data) == Overrun <==>
      TooLong(limits, st) && FromBE(st.got[3..7]) > 0 && |data| > INITIAL_SIZE - |st.got|
    ensures !TooLong(limits, st) ==>
      CallAgain(limits, st, data).Again?
      && var o := CallAgain(limits, st, data).outcome; o.st == st && o.consumed == 0 && Broken(o.result)
    ensures TooLong(limits, st) && CallAgain(limits, st, data).Again? ==>
      var o := CallAgain(limits, st, data).outcome;
      && FailedState(limits, o.st) && TooLong(limits, o.st) && o.result in {Nothing, Fail(BadAmqpData)}
      && o.consumed <= |data| && o.st == st.(got := st.got + data[..o.consumed])
  {
    hide FailedState, TooLong, CallAgain, FromBE;
    FailedShape(limits, st);
    if TooLong(limits, st) {
      LongAgain(limits, st, data);
    } else {
      SameAgain(limits, st, data);
    }
  }

  lemma SameAgain(limits: Limits, st: PState, data: bytes)
    requires FailedState(limits, st) && !TooLong(limits, st) && data != []
    ensures CallAgain(limits, st, data).Again?
    ensures var o := CallAgain(limits, st, data).outcome; o.st == st && o.consumed == 0 && Broken(o.result)
  {
    hide FailedState, TooLong, AtTarget, FromBE, Fill, ValidState, Finish;
    FailedShape(limits, st);
    NothingTaken(st, data);
    var rest := data[|Fill(st, data).got| - |st.got|..];
    SameFailure(limits, st, rest);
    assert CallAgain(limits, st, data) == Again(AtTarget(limits, st, 0, rest));
  }

  lemma LongAgain(limits: Limits, st: PState, data: bytes)
    requires FailedState(limits, st) && TooLong(limits, st) && data != []
    ensures CallAgain(limits, st, data) == Overrun <==>
      FromBE(st.got[3..7]) > 0 && |data| > INITIAL_SIZE - |st.got|
    ensures CallAgain(limits, st, data).Again? ==>
      var o := CallAgain(limits, st, data).outcome;
      && FailedState(limits, o.st) && TooLong(limits, o.st) && o.result in {Nothing, Fail(BadAmqpData)}
      && o.consumed <= |data| && o.st == st.(got := st.got + data[..o.consumed])
  {
    hide FailedState, TooLong, AtTarget, FromBE, Fill, ValidState, Finish;
    FailedShape(limits, st);
    var k := |Fill(st, data).got| - |st.got|;
    FillTakes(st, data);
    FillEnough(st, data);
    if |st.got| + k <= INITIAL_SIZE {
      LongStays(limits, st, data, k);
    }
  }

  lemma FillEnough(st: PState, data: bytes)
    requires |st.got| <= st.target
    ensures |Fill(st, data).got| == Min(st.target, |st.got| + |data|)
  {
  }

  lemma NothingTaken(st: PState, data: bytes)
    requires |st.got| == st.target
    ensures Fill(st, data) == st
  {
    assert data[..0] == [] && st.got + [] == st.got;
  }

  /** The switch is entered again with what made the call fail. */
  lemma SameFailure(limits: Limits, st: PState, rest: bytes)
    requires FailedState(limits, st) && !TooLong(limits, st)
    ensures st.phase in {Initial, Header, Body} && |st.got| == st.target >= HEADER_SIZE
    ensures st.phase == Initial ==> st.target == INITIAL_SIZE
    ensures st.phase == Header ==> st.target <= INITIAL_SIZE
    ensures st.phase == Body ==> st.target >= HEADER_SIZE + FOOTER_SIZE
    ensures var o := AtTarget(limits, st, 0, rest); o.st == st && o.consumed == 0 && Broken(o.result)
  {
    hide FromBE;
    if st.phase == Body {
      FinishFails(limits, st, 0);
    }
  }

  /** More bytes in the header buffer are no other header. */
  lemma LongStays(limits: Limits, st: PState, data: bytes, k: nat)
    requires FailedState(limits, st) && TooLong(limits, st) && k <= |data| && |st.got| + k <= INITIAL_SIZE
    requires |st.got| + k <= st.target
    ensures var st1 := st.(got := st.got + data[..k]);
      && FailedState(limits, st1) && TooLong(limits, st1)
      && (|st1.got| == st1.target ==>
            (st1.phase == Initial ==> st1.target == INITIAL_SIZE)
            && AtTarget(limits, st1, k, data[k..]) == Outcome(st1, k, Fail(BadAmqpData)))
  {
    hide FromBE, Finish, IntoBody;
    SameAnnounced(st, data, k);
  }

  lemma SameAnnounced(st: PState, data: bytes, n: nat)
    ensures |st.got| >= HEADER_SIZE && n <= |data| ==>
      (st.got + data[..n])[3..7] == st.got[3..7] && (st.got + data[..n])[..4] == st.got[..4]
  {
  }

  /** Over either kind of state: the same call. */
  predicate MayCall(limits: Limits, st: PState, data: bytes) {
    ValidState(limits, st) || (FailedState(limits, st) && CallAgain(limits, st, data).Again?)
  }

  function Call(limits: Limits, st: PState, data: bytes): Outcome
    requires MayCall(limits, st, data)
  {
    if ValidState(limits, st) then HandleInput(limits, st, data) else CallAgain(limits, st, data).outcome
  }

  /** Bytes that are taken stay inside the buffer; and if they reach the target, the switch is entered
      with a target that its case expects. */
  predicate Takes(st0: PState, data: bytes) {
    && st0.phase != Idle && |st0.got| <= st0.target && |Fill(st0, data).got| <= Capacity(st0)
    && (|Fill(st0, data).got| == st0.target ==>
          && st0.target >= HEADER_SIZE && (st0.phase == Initial ==> st0.target == INITIAL_SIZE)
          && (st0.phase == Header ==> st0.target <= INITIAL_SIZE)
          && (st0.phase == Body ==> st0.target >= HEADER_SIZE + FOOTER_SIZE))
  }

  function Started(st: PState): PState {
    if st.phase == Idle then st.(phase := Header) else st
  }

  /** A call that has bytes to take. */
  function Taken(limits: Limits, st0: PState, data: bytes): Outcome
    requires Takes(st0, data)
  {
    var st1 := Fill(st0, data);
    var n := |st1.got| - |st0.got|;
    if |st1.got| < st1.target then Outcome(st1, n, Nothing) else AtTarget(limits, st1, n, data[n..])
  }

  lemma ValidTakes(limits: Limits, st: PState, data: bytes)
    requires ValidState(limits, st) && data != []
    ensures Takes(Started(st), data) && HandleInput(limits, st, data) == Taken(limits, Started(st), data)
  {
    hide AtTarget;
  }

  lemma FailedTakes(limits: Limits, st: PState, data: bytes)
    requires FailedState(limits, st) && data != [] && CallAgain(limits, st, data).Again?
    ensures Started(st) == st && Takes(st, data) && CallAgain(limits, st, data).outcome == Taken(limits, st, data)
  {
    hide FailedState, TooLong, AtTarget, FromBE, ValidState;
    FailedShape(limits, st);
  }

  lemma CallTakes(limits: Limits, st: PState, data: bytes)
    requires MayCall(limits, st, data)
    ensures data == [] ==> Call(limits, st, data) == Outcome(st, 0, Nothing)
    ensures data != [] ==> Takes(Started(st), data) && Call(limits, st, data) == Taken(limits, Started(st), data)
  {
    hide FailedState, AtTarget, Takes, Taken, Started, Fill;
    if data != [] {
      if ValidState(limits, st) {
        ValidTakes(limits, st, data);
      } else {
        FailedTakes(limits, st, data);
      }
    }
  }

  /** And what it leaves behind. */
  lemma CallLeaves(limits: Limits, st: PState, data: bytes)
    requires MayCall(limits, st, data)
    ensures var o := Call(limits, st, data);
      if ValidState(limits, st) && !Broken(o.result) then ValidState(limits, o.st) else FailedState(limits, o.st)
  {
    hide HandleInput, FailedState, ValidState;
    if ValidState(limits, st) {
      if Broken(HandleInput(limits, st, data).result) {
        FailureLeaves(limits, st, data);
      }
    } else if data != [] {
      CallAgainExactly(limits, st, data);
    }
  }

  /** Where call after call leads, once one has failed. */
  datatype Fate = Stays(st: PState) | RunsOver

  function CallsAgain(limits: Limits, st: PState, calls: seq<bytes>): Fate
    requires FailedState(limits, st)
    decreases |calls|
  {
    if calls == [] then Stays(st)
    else if calls[0] == [] then CallsAgain(limits, st, calls[1..])
    else
      CallAgainExactly(limits, st, calls[0]);
      match CallAgain(limits, st, calls[0])
      case Overrun => RunsOver
      case Again(o) => CallsAgain(limits, o.st, calls[1..])
  }

  lemma LongHeader(limits: Limits, st: PState, data: bytes)
    requires FailedState(limits, st) && TooLong(limits, st) && FromBE(st.got[3..7]) > 0
    requires 0 < |data| <= INITIAL_SIZE - |st.got|
    ensures CallAgain(limits, st, data) == Again(Outcome(st.(got := st.got + data), |data|, Nothing))
    ensures (st.got + data)[3..7] == st.got[3..7]
  {
    hide FailedState, TooLong, AtTarget, FromBE;
    FailedShape(limits, st);
    assert data[..|data|] == data;
  }

  /** All calls after a failure stay inside the buffer, unless the failure was a header that announced
      too much, and together they bring more than the header buffer has left. */
  lemma {:induction false} CallsAgainExactly(limits: Limits, st: PState, calls: seq<bytes>)
    requires FailedState(limits, st)
    ensures CallsAgain(limits, st, calls) == RunsOver <==>
      TooLong(limits, st) && FromBE(st.got[3..7]) > 0 && |Flatten(calls)| > INITIAL_SIZE - |st.got|
    decreases |calls|
  {
    hide FailedState, TooLong, CallAgain, FromBE;
    FailedShape(limits, st);
    if calls == [] {
    } else if calls[0] == [] {
      CallsAgainExactly(limits, st, calls[1..]);
    } else {
      CallAgainExactly(limits, st, calls[0]);
      if CallAgain(limits, st, calls[0]).Again? {
        if TooLong(limits, st) && FromBE(st.got[3..7]) > 0 {
          LongHeader(limits, st, calls[0]);
        }
        var o := CallAgain(limits, st, calls[0]).outcome;
        SameAnnounced(st, calls[0], o.consumed);
        CallsAgainExactly(limits, o.st, calls[1..]);
      }
    }
  }

  /** A header that announces 65536 bytes. */
  const LONG_HEADER: bytes := [FRAME_METHOD, 0, 0, 0, 1, 0, 0]

  /** The reader's loop keeps its place when a call fails, and so calls again with the same bytes: after
      this header the second call does not stay inside the buffer. */
  lemma LongHeaderRunsOver(limits: Limits)
    requires HEADER_SIZE + FOOTER_SIZE <= limits.frameMax < 0x1_0008
    ensures var o := HandleInput(limits, IDLE_STATE, LONG_HEADER);
      && o.result == Fail(BadAmqpData) && FailedState(limits, o.st)
      && CallAgain(limits, o.st, LONG_HEADER) == Overrun
  {
    hide FailedState, CallAgain;
    var st1 := PState(Header, LONG_HEADER, HEADER_SIZE);
    assert [] + LONG_HEADER[..7] == LONG_HEADER && LONG_HEADER[3..7] == [0, 1, 0, 0];
    LongHeaderAnnounces();
    var o := HandleInput(limits, IDLE_STATE, LONG_HEADER);
    assert o.st.got == LONG_HEADER;
    FailureLeaves(limits, IDLE_STATE, LONG_HEADER);
    CallAgainExactly(limits, o.st, LONG_HEADER);
  }

  lemma LongHeaderAnnounces()
    ensures FromBE([0, 1, 0, 0]) == 0x1_0000
  {
    var s: bytes := [0, 1, 0, 0];
    assert s[..3] == [0, 1, 0] && s[..3][..2] == [0, 1] && s[..3][..2][..1] == [0];
    assert FromBE([0]) == 0 && FromBE([0, 1]) == 1;
    assert FromBE([0, 1, 0]) == 0x100;
  }

  // ---------------------------------------------------------------- whole frames

  /** Bytes that announce their own length, within the negotiated maximum, are consumed exactly, from
      idle, and come to what they decode to. */
  lemma AnnouncedFrameScans(limits: Limits, raw: bytes)
    requires HEADER_SIZE + FOOTER_SIZE <= |raw| <= limits.frameMax
    requires FromBE(raw[3..7]) == |raw| - HEADER_SIZE - FOOTER_SIZE < INT32_MAX
    ensures var o := Finish(limits, PState(Body, raw, |raw|), 0);
      Scan(limits, IDLE_STATE, raw) == Run(ItemsOf(o.result), o.st, if Broken(o.result) then o.result else Nothing, 0)
  {
    hide Scan, ByteStep, AfterHeader, Finish;
    var head, tail := raw[..HEADER_SIZE], raw[HEADER_SIZE..];
    assert raw == head + tail;
    assert head[3..7] == raw[3..7];
    IdleScansAsHeader(limits, raw);
    ScanConcat(limits, PState(Header, [], HEADER_SIZE), head, tail);
    SevenFromHeader(limits, head);
    HeaderAnnounces(limits, head, |raw| - HEADER_SIZE - FOOTER_SIZE);
    var st2 := PState(Body, head, |raw|);
    ScanFinishes(limits, st2, tail);
    AfterNothing(Scan(limits, st2, tail));
  }

  /** An enveloped payload that fits the negotiated maximum is consumed exactly, from idle,
      and comes to what its raw bytes decode to. */
  lemma RawFrameScans(limits: Limits, frameType: byte, channel: uint16, payload: bytes)
    requires |payload| < INT32_MAX && |Envelope(frameType, channel, payload)| <= limits.frameMax
    ensures var raw := Envelope(frameType, channel, payload);
      var o := Finish(limits, PState(Body, raw, |raw|), 0);
      Scan(limits, IDLE_STATE, raw) == Run(ItemsOf(o.result), o.st, if Broken(o.result) then o.result else Nothing, 0)
  {
    hide Scan, Finish, Envelope;
    EnvelopeParts(frameType, channel, payload);
    AnnouncedFrameScans(limits, Envelope(frameType, channel, payload));
  }

  lemma HeaderAnnounces(limits: Limits, head: bytes, size: nat)
    requires |head| == HEADER_SIZE && FromBE(head[3..7]) == size < INT32_MAX
    requires size + HEADER_SIZE + FOOTER_SIZE <= limits.frameMax
    ensures AfterHeader(limits, PState(Header, head, HEADER_SIZE))
         == (PState(Body, head, size + HEADER_SIZE + FOOTER_SIZE), true)
  {
  }

  /** A frame header is accepted exactly when the frame it announces fits the negotiated maximum,
      and a length of INT32_MAX or more never does. */
  lemma HeaderVerdict(limits: Limits, head: bytes)
    requires |head| == HEADER_SIZE
    ensures var size, r := FromBE(head[3..7]), Scan(limits, IDLE_STATE, head);
      r.items == [] &&
      if size < INT32_MAX && size + HEADER_SIZE + FOOTER_SIZE <= limits.frameMax
      then r.failure == Nothing && r.st == PState(Body, head, size + HEADER_SIZE + FOOTER_SIZE)
      else r.failure == Fail(BadAmqpData)
  {
    hide Scan;
    IdleScansAsHeader(limits, head);
    SevenFromHeader(limits, head);
  }

  /** Every frame that `amqp_frame_to_bytes` accepts is parsed back from idle, whatever the
      chunks, to the same frame, with exactly its bytes consumed, if and only if its tables
      survive the wire. */
  lemma {:induction false} SentFrameParses(limits: Limits, f: Frame)
    requires WellTyped(limits.schema, f) && Encodable(limits.schema, f)
    requires |FrameBytes(limits.schema, f)| <= limits.frameMax <= INT32_MAX
    ensures Survives(limits.schema, f)
       <==> Scan(limits, IDLE_STATE, FrameBytes(limits.schema, f))
            == Run([FrameItem(Received(limits.schema, f, limits.memory))], IDLE_STATE, Nothing, 0)
  {
    hide Scan, PayloadBytes, Envelope, DecodeRaw;
    RawFrameScans(limits, TypeOf(f), f.channel, PayloadBytes(limits.schema, f));
    FrameRoundTrip(limits.schema, f, limits.memory);
  }

  /** The frames that a new connection can take first: what stands at the eighth byte, the top byte
      of a method or class id or the first byte of a body, is zero anyway. */
  predicate SafeFirst(f: Frame) {
    match f
    case MethodFrame(_, id, _) => id < 0x100_0000
    case HeaderFrame(_, classId, _, _, _) => classId < 0x100
    case BodyFrame(_, fragment) => fragment != [] && fragment[0] == 0
    case _ => false
  }

  /** A frame that would be parsed from idle is parsed as the first frame of a new connection, if and
      only if it is a safe first frame. */
  lemma {:induction false} FirstFrameExactly(limits: Limits, f: Frame)
    requires Sendable(limits.schema, f) && Survives(limits.schema, f)
    requires |FrameBytes(limits.schema, f)| <= limits.frameMax <= INT32_MAX
    ensures var r := Scan(limits, INITIAL_STATE, FrameBytes(limits.schema, f));
      && (SafeFirst(f) <==> r.items == [FrameItem(Received(limits.schema, f, limits.memory))])
      && (SafeFirst(f) ==> r.failure == Nothing && r.st == IDLE_STATE)
  {
    hide Scan, PayloadBytes, Survives, Encodable, WellTyped, Received, BE, FromBE, SafeFirst;
    var schema, raw := limits.schema, FrameBytes(limits.schema, f);
    EighthByte(schema, f);
    NotAmqp(schema, f);
    InitialZeroesEighthByte(limits, raw);
    if SafeFirst(f) {
      assert raw[HEADER_SIZE := 0] == raw;
      SentFrameParses(limits, f);
    } else {
      ZeroedFrameDiffers(limits, f);
    }
  }

  lemma NotAmqp(schema: Schema, f: Frame)
    requires Sendable(schema, f)
    ensures FrameBytes(schema, f)[..4] != AMQP
  {
    assert FrameBytes(schema, f)[..4][0] == TypeOf(f);
  }

  lemma EighthByte(schema: Schema, f: Frame)
    requires Sendable(schema, f)
    ensures FrameBytes(schema, f)[HEADER_SIZE] == 0 <==> SafeFirst(f)
  {
    hide BE, Packed, HeaderBytes;
    var payload := PayloadBytes(schema, f);
    assert FrameBytes(schema, f)[HEADER_SIZE] == if payload == [] then FRAME_END else payload[0];
    match f
    case MethodFrame(_, id, _) => TopByte(4, id);
    case HeaderFrame(_, classId, _, _, _) => TopByte(2, classId);
    case _ =>
  }

  lemma {:induction false} TopByte(width: nat, v: nat)
    requires width > 0 && v < Pow256(width)
    ensures BE(width, v)[0] == 0 <==> v < Pow256(width - 1)
  {
    if width > 1 {
      TopByte(width - 1, v / 256);
    }
  }

  /** With another byte than was sent in the eighth place, another frame arrives, or none. */
  lemma ZeroedFrameDiffers(limits: Limits, f: Frame)
    requires Sendable(limits.schema, f) && FrameBytes(limits.schema, f)[HEADER_SIZE] != 0
    requires |FrameBytes(limits.schema, f)| <= limits.frameMax <= INT32_MAX
    ensures Scan(limits, IDLE_STATE, FrameBytes(limits.schema, f)[HEADER_SIZE := 0]).items
         != [FrameItem(Received(limits.schema, f, limits.memory))]
  {
    hide Scan, BE, FromBE, DecodeRaw, Received, PayloadBytes;
    var schema, payload := limits.schema, PayloadBytes(limits.schema, f);
    var raw := FrameBytes(schema, f);
    var zeroed := raw[HEADER_SIZE := 0];
    EnvelopeParts(TypeOf(f), f.channel, payload);
    assert zeroed[3..7] == raw[3..7];
    AnnouncedFrameScans(limits, zeroed);
    ZeroedDecodes(schema, f, zeroed, limits.memory);
  }

  lemma ZeroedDecodes(schema: Schema, f: Frame, zeroed: bytes, memory: Memory)
    requires Sendable(schema, f) && FrameBytes(schema, f)[HEADER_SIZE] != 0
    requires |PayloadBytes(schema, f)| < 0x1_0000_0000 && zeroed == FrameBytes(schema, f)[HEADER_SIZE := 0]
    ensures DecodeRaw(schema, zeroed, memory) != Decoded(Received(schema, f, memory))
  {
    hide BE, FromBE, Received, DecodeMethod, DecodeHeader;
    var payload := PayloadBytes(schema, f);
    if payload == [] {
      assert zeroed[|zeroed| - 1] == 0;
    } else {
      var other := payload[0 := 0];
      assert zeroed == Envelope(TypeOf(f), f.channel, other);
      EnvelopeParts(TypeOf(f), f.channel, other);
      PayloadDecodesOtherwise(schema, f, other, memory);
    }
  }

  lemma PayloadDecodesOtherwise(schema: Schema, f: Frame, other: bytes, memory: Memory)
    requires Sendable(schema, f) && PayloadBytes(schema, f) != [] && PayloadBytes(schema, f)[0] != 0
    requires other == PayloadBytes(schema, f)[0 := 0]
    ensures DecodePayload(schema, TypeOf(f), f.channel, other, memory) != Decoded(Received(schema, f, memory))
  {
    hide BE, FromBE, Packed, HeaderBytes, DecodeFields, ReadFlags, ReadHeader, NormalFields, PresentProps, Echoed;
    match f
    case MethodFrame(_, id, _) => OtherNumber(PayloadBytes(schema, f), 4, id);
    case HeaderFrame(_, classId, _, _, _) => OtherNumber(PayloadBytes(schema, f), 2, classId);
    case _ =>
  }

  /** A payload that begins with a number whose top byte is not zero, and the same with that byte
      zero: it begins with another number. */
  lemma OtherNumber(payload: bytes, width: nat, v: nat)
    requires 0 < width <= |payload| && payload[..width] == BE(width, v) && payload[0] != 0
    ensures FromBE(payload[0 := 0][..width]) != v
  {
    hide BE, FromBE;
    var other := payload[0 := 0][..width];
    BEInvertsFromBE(other);
    assert payload[..width][0] != other[0];
  }

  /** A heartbeat cannot be the first frame on a new connection. */
  lemma FirstHeartbeatFails(limits: Limits)
    requires limits.frameMax >= HEADER_SIZE + FOOTER_SIZE
    ensures Scan(limits, INITIAL_STATE, Envelope(FRAME_HEARTBEAT, 0, [])).failure == Fail(BadAmqpData)
    ensures Scan(limits, IDLE_STATE, Envelope(FRAME_HEARTBEAT, 0, [])).items == [FrameItem(HeartbeatFrame(0))]
  {
    hide Scan, ByteStep, AfterHeader, Envelope, BE;
    var raw := Envelope(FRAME_HEARTBEAT, 0, []);
    EnvelopeParts(FRAME_HEARTBEAT, 0, []);
    assert raw[..4][0] == raw[0];
    EightFromInitial(limits, raw);
    EightBytesZeroed(limits, raw);
    RawFrameScans(limits, FRAME_HEARTBEAT, 0, []);
  }

  lemma EightBytesZeroed(limits: Limits, raw: bytes)
    requires |raw| == INITIAL_SIZE <= limits.frameMax && FromBE(raw[3..7]) == 0
    ensures AfterHeader(limits, PState(Initial, raw, INITIAL_SIZE))
         == (PState(Body, raw[HEADER_SIZE := 0], INITIAL_SIZE), true)
  {
  }
}
