/** `amqp_handle_input` over the connection's own fields and buffers. */
module InboundParser {
  import opened Bytes
  import opened FieldTable
  import opened Statuses
  import opened TableCodec
  import opened Generator
  import opened ContentHeader
  import opened Frames
  import opened FrameParser

  /** The fields of the connection state that the parser owns. */
  class Inbound {
    const limits: Limits
    var state: Phase
    const headerBuffer: array<byte>
    var inboundBuffer: array<byte>
    var inboundOffset: nat
    var targetSize: nat

    /** What the parser remembers, as a value. */
    function Memory(): PState
      requires inboundOffset <= inboundBuffer.Length
      reads this, inboundBuffer
    {
      PState(state, inboundBuffer[..inboundOffset], targetSize)
    }

    /** The header buffer is used outside the body state, and a buffer of the frame's size inside it. */
    predicate Shaped()
      reads this
    {
      && headerBuffer.Length == INITIAL_SIZE
      && (state == Body <==> inboundBuffer != headerBuffer) && (state == Body ==> inboundBuffer.Length == targetSize)
      && inboundOffset <= targetSize && inboundOffset <= inboundBuffer.Length
    }

    predicate Buffers()
      reads this
    {
      Shaped() && targetSize <= inboundBuffer.Length
    }

    ghost predicate Valid()
      reads this, inboundBuffer
    {
      Buffers() && ValidState(limits, Memory())
    }

    lemma ShapedValid()
      requires Shaped()
      ensures Valid() <==> ValidState(limits, Memory())
    {
    }

    /** A call has failed. */
    ghost predicate Failed()
      reads this, inboundBuffer
    {
      Shaped() && FailedState(limits, Memory())
    }

    /** `amqp_new_connection` */
    constructor (limits: Limits)
      ensures Valid() && Memory() == INITIAL_STATE && this.limits == limits && fresh(inboundBuffer)
    {
      this.limits := limits;
      headerBuffer := new byte[INITIAL_SIZE];
      state := Initial;
      inboundOffset, targetSize := 0, INITIAL_SIZE;
      new;
      inboundBuffer := headerBuffer;
    }

    method ReturnToIdle()
      requires headerBuffer.Length == INITIAL_SIZE
      modifies this
      ensures Valid() && Memory() == IDLE_STATE && inboundBuffer == headerBuffer
    {
      inboundBuffer := headerBuffer;
      inboundOffset, targetSize := 0, HEADER_SIZE;
      state := Idle;
    }

    /** `consume_data`, which must not be given more than the buffer has room for. */
    method ConsumeData(receivedData: bytes) returns (bytesConsumed: nat)
      requires Shaped() && |Fill(Memory(), receivedData).got| <= inboundBuffer.Length
      modifies this`inboundOffset, inboundBuffer
      ensures Shaped() && Memory() == Fill(old(Memory()), receivedData)
      ensures bytesConsumed == inboundOffset - old(inboundOffset) <= |receivedData|
      ensures inboundOffset < targetSize ==> bytesConsumed == |receivedData|
    {
      bytesConsumed := targetSize - inboundOffset;
      if |receivedData| < bytesConsumed {
        bytesConsumed := |receivedData|;
      }
      ghost var before := inboundBuffer[..];
      Memcpy(inboundBuffer, inboundOffset, receivedData[..bytesConsumed]);
      assert inboundBuffer[..inboundOffset] == before[..inboundOffset];
      inboundOffset := inboundOffset + bytesConsumed;
    }

    /** `amqp_handle_input`: consumed bytes and an item, or how the call fails. After a failure it may be
        called again, with no more than the buffer has room for. */
    method Handle(receivedData: bytes) returns (bytesConsumed: nat, result: Result)
      requires Shaped() && MayCall(limits, Memory(), receivedData)
      modifies this, inboundBuffer
      ensures inboundOffset <= inboundBuffer.Length
      ensures Call(limits, old(Memory()), receivedData) == Outcome(Memory(), bytesConsumed, result)
      ensures if old(Valid()) && !Broken(result) then Valid() else Failed()
      ensures inboundBuffer == old(inboundBuffer) || inboundBuffer == headerBuffer || fresh(inboundBuffer)
    {
      hide Takes, Taken, FailedState, ValidState, MayCall, Call;
      ShapedValid();
      CallTakes(limits, Memory(), receivedData);
      CallLeaves(limits, Memory(), receivedData);
      if |receivedData| == 0 {
        return 0, Nothing;
      }
      if state == Idle {
        state := Header;
      }
      bytesConsumed, result := Take(receivedData);
      ShapedValid();
    }

    /** The rest of a call, once there are bytes to take. */
    method Take(receivedData: bytes) returns (bytesConsumed: nat, result: Result)
      requires Shaped() && Takes(Memory(), receivedData)
      modifies this, inboundBuffer
      ensures inboundOffset <= inboundBuffer.Length
      ensures Taken(limits, old(Memory()), receivedData) == Outcome(Memory(), bytesConsumed, result)
      ensures Shaped()
      ensures inboundBuffer == old(inboundBuffer) || inboundBuffer == headerBuffer || fresh(inboundBuffer)
    {
      hide Fill, AtTarget;
      bytesConsumed := ConsumeData(receivedData);
      if inboundOffset < targetSize {
        return bytesConsumed, Nothing;
      }
      bytesConsumed, result := Process(receivedData[bytesConsumed..], bytesConsumed);
    }

    /** The switch on the state, entered with the target reached. */
    method Process(rest: bytes, soFar: nat) returns (bytesConsumed: nat, result: Result)
      requires Shaped() && state != Idle && inboundOffset == targetSize >= HEADER_SIZE
      requires state == Initial ==> targetSize == INITIAL_SIZE
      requires state == Header ==> targetSize <= INITIAL_SIZE
      requires state == Body ==> targetSize >= HEADER_SIZE + FOOTER_SIZE
      modifies this, inboundBuffer
      ensures var o := AtTarget(limits, old(Memory()), soFar, rest);
        inboundOffset <= inboundBuffer.Length
        && bytesConsumed == o.consumed && result == o.result && Memory() == o.st
      ensures Shaped() && (!Broken(result) ==> Buffers())
      ensures inboundBuffer == old(inboundBuffer) || inboundBuffer == headerBuffer || fresh(inboundBuffer)
    {
      hide Fill, AfterHeader, Finish;
      bytesConsumed := soFar;
      if state == Initial {
        var raw := inboundBuffer[..inboundOffset];
        if raw[..4] == AMQP {
          ReturnToIdle();
          return bytesConsumed, Got(ProtocolItem(raw[4], raw[5], raw[6], raw[7]));
        }
      }
      if state != Body {
        var ok := BeginBody();
        if !ok {
          return bytesConsumed, Fail(BadAmqpData);
        }
        FillTakes(Memory(), rest);
        var more := ConsumeData(rest);
        bytesConsumed := bytesConsumed + more;
        if inboundOffset < targetSize {
          return bytesConsumed, Nothing;
        }
      }
      FinishCount(limits, Memory(), bytesConsumed, 0);
      result := FinishBody();
    }

    /** The header case: the announced size is checked, and a buffer for the whole frame
        replaces the header buffer. */
    method BeginBody() returns (ok: bool)
      requires Shaped() && state in {Initial, Header} && HEADER_SIZE <= inboundOffset == targetSize <= INITIAL_SIZE
      modifies this
      ensures inboundOffset <= inboundBuffer.Length && (Memory(), ok) == AfterHeader(limits, old(Memory()))
      ensures Shaped() && (ok ==> Buffers())
      ensures inboundBuffer == old(inboundBuffer) || fresh(inboundBuffer)
    {
      var raw := inboundBuffer[..inboundOffset];
      BEInvertsFromBE(raw[3..7]);
      var frameSize := FromBE(raw[3..7]);
      if frameSize >= INT32_MAX {
        return false;
      }
      if limits.frameMax < frameSize + HEADER_SIZE + FOOTER_SIZE {
        targetSize := frameSize + HEADER_SIZE + FOOTER_SIZE;
        return false;
      }
      var buffer := FrameBuffer(raw, frameSize + HEADER_SIZE + FOOTER_SIZE);
      targetSize := frameSize + HEADER_SIZE + FOOTER_SIZE;
      inboundBuffer := buffer;
      state := Body;
      ok := true;
    }

    /** The body case: footer, type and payload. */
    method FinishBody() returns (result: Result)
      requires Buffers() && state == Body && inboundOffset == targetSize >= HEADER_SIZE + FOOTER_SIZE
      modifies this
      ensures var o := Finish(limits, old(Memory()), 0);
        Buffers() && result == o.result && Memory() == o.st
      ensures inboundBuffer == old(inboundBuffer) || inboundBuffer == headerBuffer
    {
      hide DecodeRaw;
      var parsed := DecodeFrame(limits.schema, inboundBuffer[..targetSize], limits.memory);
      match parsed {
        case Decoded(f) =>
          ReturnToIdle();
          result := Got(FrameItem(f));
        case Ignored =>
          ReturnToIdle();
          result := Nothing;
        case Bad(status) => result := Fail(status);
        case OutOfBounds => result := Wild;
      }
    }
  }

  /** A zeroed block from the channel's pool, with the seven header bytes copied in. */
  method FrameBuffer(raw: bytes, size: nat) returns (buffer: array<byte>)
    requires HEADER_SIZE <= |raw| <= INITIAL_SIZE <= size
    ensures fresh(buffer) && buffer.Length == size
    ensures buffer[..|raw|] == if |raw| == INITIAL_SIZE then raw[HEADER_SIZE := 0] else raw
  {
    buffer := new byte[size](_ => 0);
    forall i | 0 <= i < HEADER_SIZE {
      buffer[i] := raw[i];
    }
  }

  /** The decoding of a complete raw frame, through the emitted decoders. */
  method DecodeFrame(schema: Schema, raw: bytes, memory: Memory) returns (parsed: Parsed)
    requires |raw| >= HEADER_SIZE + FOOTER_SIZE
    ensures parsed == DecodeRaw(schema, raw, memory)
  {
    hide DecExec, DecCode, ReadFlags, ReadProps;
    if raw[|raw| - 1] != FRAME_END {
      return Bad(BadAmqpData);
    }
    var channel, payload := ChannelOf(raw), raw[HEADER_SIZE..|raw| - 1];
    if raw[0] == FRAME_METHOD {
      parsed := DecodeMethodFrame(schema, channel, payload);
    } else if raw[0] == FRAME_HEADER {
      parsed := DecodeHeaderFrame(channel, payload, memory);
    } else if raw[0] == FRAME_BODY {
      parsed := Decoded(BodyFrame(channel, payload));
    } else if raw[0] == FRAME_HEARTBEAT {
      parsed := Decoded(HeartbeatFrame(channel));
    } else {
      parsed := Ignored;
    }
  }

  method DecodeMethodFrame(schema: Schema, channel: uint16, payload: bytes) returns (parsed: Parsed)
    ensures parsed == DecodeMethod(schema, channel, payload)
  {
    hide DecExec, DecCode;
    if |payload| < 4 {
      return OutOfBounds;
    }
    BEInvertsFromBE(payload[..4]);
    Pow256Values();
    var id := FromBE(payload[..4]);
    if id !in schema {
      return Bad(UnknownMethod);
    }
    var lines := GenDecodeMethodFields(schema[id]);
    var res, fields := RunDecoder(lines, payload[4..], Zeroed(|schema[id]|));
    parsed := if res == Ok then Decoded(MethodFrame(channel, id, fields)) else Bad(BadAmqpData);
  }

  method DecodeHeaderFrame(channel: uint16, payload: bytes, memory: Memory) returns (parsed: Parsed)
    ensures parsed == DecodeHeader(channel, payload, memory)
  {
    hide ReadFlags, ReadProps, FromBE;
    if |payload| < 12 {
      return OutOfBounds;
    }
    BEInvertsFromBE(payload[..2]);
    BEInvertsFromBE(payload[4..12]);
    Pow256Values();
    var classId, encoded := FromBE(payload[..2]), payload[12..];
    match ClassProperties(classId) {
      case None =>
        parsed := match ReadFlags(encoded, 0, 0, 0)
          case TooShort => Bad(BadAmqpData)
          case UndefinedShift => OutOfBounds
          case Flags(_, _) => Bad(UnknownClass);
      case Some(types) =>
        var decoding := DecodeProperties(types, encoded, Unset(|types|, payload, memory));
        parsed := match decoding
          case Properties(flags, props) => Decoded(HeaderFrame(channel, classId, FromBE(payload[4..12]), flags, props))
          case NoProperties(status) => Bad(status)
          case ShiftedAway => OutOfBounds;
    }
  }
}
