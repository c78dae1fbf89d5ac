/** Frames (section 4.2.3 of the AMQP 0-9-1 specification): a seven-byte header, the payload
    of one of four kinds, and an end marker; how `amqp_frame_to_bytes` lays a frame out and
    how a complete raw frame is decoded. */
module Frames {
  import opened Bytes
  import opened FieldTable
  import opened Statuses
  import opened TableCodec
  import opened Generator
  import opened ContentHeader

  const HEADER_SIZE := 7
  const FOOTER_SIZE := 1
  const FRAME_END: byte := 206
  const FRAME_METHOD: byte := 1
  const FRAME_HEADER: byte := 2
  const FRAME_BODY: byte := 3
  const FRAME_HEARTBEAT: byte := 8

  /** The argument types of every method the generated switches know. */
  type Schema = map<uint32, seq<FieldType>>

  datatype Frame =
    | HeartbeatFrame(channel: uint16)
    | MethodFrame(channel: uint16, id: uint32, args: seq<FieldVal>)
    | HeaderFrame(channel: uint16, classId: uint16, bodySize: uint64, flags: uint32, props: seq<FieldVal>)
    | BodyFrame(channel: uint16, fragment: bytes)
    | OtherFrame(channel: uint16, frameType: byte)

  function TypeOf(f: Frame): byte {
    match f
    case HeartbeatFrame(_) => FRAME_HEARTBEAT
    case MethodFrame(_, _, _) => FRAME_METHOD
    case HeaderFrame(_, _, _, _, _) => FRAME_HEADER
    case BodyFrame(_, _) => FRAME_BODY
    case OtherFrame(_, t) => t
  }

  /** The structures behind the frame's pointers have the C types their ids call for, and a
      frame with no other payload is of none of the four kinds. */
  predicate WellTyped(schema: Schema, f: Frame) {
    match f
    case MethodFrame(_, id, args) => id in schema ==> AllTyped(schema[id], args)
    case HeaderFrame(_, classId, _, _, props) =>
      ClassProperties(classId).Some? ==> AllTyped(ClassProperties(classId).value, props)
    case OtherFrame(_, t) => t !in {FRAME_METHOD, FRAME_HEADER, FRAME_BODY, FRAME_HEARTBEAT}
    case _ => true
  }

  /** The frame can be laid out: its id is known, and its fields can be written. */
  predicate Encodable(schema: Schema, f: Frame)
    requires WellTyped(schema, f)
  {
    match f
    case MethodFrame(_, id, args) => id in schema && AllWritable(schema[id], args, 0)
    case HeaderFrame(_, classId, _, flags, props) =>
      ClassProperties(classId).Some? && FlaggedWritable(ClassProperties(classId).value, props, flags, 0)
    case OtherFrame(_, _) => false
    case _ => true
  }

  function PayloadBytes(schema: Schema, f: Frame): bytes
    requires WellTyped(schema, f) && Encodable(schema, f)
  {
    match f
    case HeartbeatFrame(_) => []
    case MethodFrame(_, id, args) => BE(4, id) + Packed(schema[id], args, 0)
    case HeaderFrame(_, classId, size, flags, props) =>
      BE(2, classId) + BE(2, 0) + BE(8, size) + HeaderBytes(ClassProperties(classId).value, props, flags)
    case BodyFrame(_, fragment) => fragment
  }

  /** The layout of section 4.2.3. */
  function Envelope(frameType: byte, channel: uint16, payload: bytes): (b: bytes)
    ensures |b| == HEADER_SIZE + |payload| + FOOTER_SIZE
  {
    [frameType] + BE(2, channel) + BE(4, |payload|) + payload + [FRAME_END]
  }

  function FrameBytes(schema: Schema, f: Frame): bytes
    requires WellTyped(schema, f) && Encodable(schema, f)
  {
    Envelope(TypeOf(f), f.channel, PayloadBytes(schema, f))
  }

  predicate Sendable(schema: Schema, f: Frame) {
    WellTyped(schema, f) && Encodable(schema, f)
  }

  /** The frame can be laid out in `room` bytes. */
  predicate FitsIn(schema: Schema, f: Frame, room: nat) {
    Sendable(schema, f) && |FrameBytes(schema, f)| <= room
  }

  predicate AllFit(schema: Schema, frames: seq<Frame>, room: nat) {
    forall f :: f in frames ==> FitsIn(schema, f, room)
  }

  /** What a frame puts on the wire: nothing, when it cannot be laid out. */
  function FrameWire(schema: Schema, f: Frame): bytes {
    if Sendable(schema, f) then FrameBytes(schema, f) else []
  }

  // ---------------------------------------------------------------- decoding a raw frame

  /** What comes of a complete raw frame: a frame, nothing for a type the library does not
      know, a negative status, or reads beyond the raw frame, where the C code computes a
      payload length below zero or shifts flag bits away. */
  datatype Parsed = Decoded(frame: Frame) | Ignored | Bad(status: Status) | OutOfBounds

  function Zeroed(n: nat): (fields: seq<FieldVal>)
    ensures |fields| == n
  {
    seq(n, _ => IntVal(0))
  }

  /** What pool memory holds where a properties structure is put: zeros on a new page, but anything on
      a recycled one. It may be different for every header payload. */
  type Memory = (bytes, nat) -> FieldVal

  function Unset(n: nat, payload: bytes, memory: Memory): (fields: seq<FieldVal>)
    ensures |fields| == n
  {
    seq(n, k requires 0 <= k < n => memory(payload, k))
  }

  function DecodeMethod(schema: Schema, channel: uint16, payload: bytes): Parsed {
    if |payload| < 4 then OutOfBounds
    else
      BEInvertsFromBE(payload[..4]);
      Pow256Values();
      var id := FromBE(payload[..4]);
      if id !in schema then Bad(UnknownMethod)
      else
        match DecodeFields(schema[id], payload[4..], 0, Zeroed(|schema[id]|))
        case Stuck => Bad(BadAmqpData)
        case Reading(_, _, fields) => Decoded(MethodFrame(channel, id, fields))
  }

  function DecodeHeader(channel: uint16, payload: bytes, memory: Memory): Parsed {
    if |payload| < 12 then OutOfBounds
    else
      BEInvertsFromBE(payload[..2]);
      BEInvertsFromBE(payload[4..12]);
      Pow256Values();
      var classId, encoded := FromBE(payload[..2]), payload[12..];
      match ReadFlags(encoded, 0, 0, 0)
      case TooShort => Bad(BadAmqpData)
      case UndefinedShift => OutOfBounds
      case Flags(_, _) =>
        match ClassProperties(classId)
        case None => Bad(UnknownClass)
        case Some(types) =>
          match ReadHeader(types, encoded, 0, Unset(|types|, payload, memory))
          case None => Bad(BadAmqpData)
          case Some((flags, props, _)) =>
            Decoded(HeaderFrame(channel, classId, FromBE(payload[4..12]), flags, props))
  }

  function DecodePayload(schema: Schema, frameType: byte, channel: uint16, payload: bytes, memory: Memory): Parsed {
    if frameType == FRAME_METHOD then DecodeMethod(schema, channel, payload)
    else if frameType == FRAME_HEADER then DecodeHeader(channel, payload, memory)
    else if frameType == FRAME_BODY then Decoded(BodyFrame(channel, payload))
    else if frameType == FRAME_HEARTBEAT then Decoded(HeartbeatFrame(channel))
    else Ignored
  }

  function ChannelOf(raw: bytes): uint16
    requires |raw| >= 3
  {
    BEInvertsFromBE(raw[1..3]);
    Pow256Values();
    FromBE(raw[1..3])
  }

  function DecodeRaw(schema: Schema, raw: bytes, memory: Memory): Parsed
    requires |raw| >= HEADER_SIZE + FOOTER_SIZE
  {
    if raw[|raw| - 1] != FRAME_END then Bad(BadAmqpData)
    else DecodePayload(schema, raw[0], ChannelOf(raw), raw[HEADER_SIZE..|raw| - 1], memory)
  }

  // ---------------------------------------------------------------- the round trip

  /** The frame as it comes back: booleans 0 or 1, continuation flags echoed, and members of
      absent properties as the pool memory left them. */
  function Received(schema: Schema, f: Frame, memory: Memory): Frame
    requires WellTyped(schema, f) && Encodable(schema, f)
  {
    match f
    case MethodFrame(channel, id, args) => MethodFrame(channel, id, NormalFields(args))
    case HeaderFrame(channel, classId, size, flags, props) =>
      HeaderFrame(channel, classId, size, Echoed(flags),
                  PresentProps(props, flags, Unset(|props|, PayloadBytes(schema, f), memory)))
    case _ => f
  }

  function PresentProps(props: seq<FieldVal>, flags: uint32, unset: seq<FieldVal>): seq<FieldVal>
    requires |props| == |unset|
  {
    seq(|props|, k requires 0 <= k < |props| => if Has(flags, k) then NormalField(props[k]) else unset[k])
  }

  /** Every table in the frame survives the wire. */
  predicate Survives(schema: Schema, f: Frame)
    requires WellTyped(schema, f) && Encodable(schema, f)
  {
    match f
    case MethodFrame(_, _, args) => AllCodable(args, 0)
    case HeaderFrame(_, classId, _, flags, props) =>
      FlaggedCodable(ClassProperties(classId).value, props, flags, 0)
    case _ => true
  }

  lemma AtWhole(b: bytes)
    ensures At(b, 0, b)
  {
    assert b[0..|b|] == b;
  }

  lemma {:induction false} AbsentStayUnset(types: PropertyTypes, s: bytes, off: nat, flags: uint32, k: nat,
                                          fields: seq<FieldVal>)
    requires k <= |types| == |fields| && ReadProps(types, s, off, flags, k, fields).Some?
    ensures var r := ReadProps(types, s, off, flags, k, fields).value.0;
      forall j :: 0 <= j < |types| && !Has(flags, j) ==> r[j] == fields[j]
    decreases |types| - k
  {
    hide Has, FieldAt;
    if k < |types| {
      assert types[k] in types;
      if !Has(flags, k) {
        AbsentStayUnset(types, s, off, flags, k + 1, fields);
      } else {
        var (v, end) := FieldAt(types[k], s, off).value;
        AbsentStayUnset(types, s, end, flags, k + 1, fields[k := v]);
      }
    }
  }

  lemma MethodRoundTrip(schema: Schema, channel: uint16, id: uint32, args: seq<FieldVal>)
    requires id in schema && AllTyped(schema[id], args) && AllWritable(schema[id], args, 0)
    requires |Packed(schema[id], args, 0)| < 0x1_0000_0000
    ensures DecodeMethod(schema, channel, BE(4, id) + Packed(schema[id], args, 0))
            == Decoded(MethodFrame(channel, id, NormalFields(args)))
       <==> AllCodable(args, 0)
  {
    hide Packed, DecodeFields, BE, FromBE, AllCodable, AllWritable;
    var types, wire := schema[id], Packed(schema[id], args, 0);
    var payload := BE(4, id) + wire;
    assert payload[..4] == BE(4, id) && payload[4..] == wire;
    Pow256Values();
    FromBEInvertsBE(4, id);
    AtWhole(wire);
    GeneratedDecoderInverts(types, args, wire, 0, Zeroed(|types|));
  }

  lemma {:induction false} HeaderFrameRoundTrip(channel: uint16, classId: uint16, size: uint64, flags: uint32,
                                                props: seq<FieldVal>, memory: Memory)
    requires ClassProperties(classId).Some? && AllTyped(ClassProperties(classId).value, props)
    requires FlaggedWritable(ClassProperties(classId).value, props, flags, 0)
    requires |HeaderBytes(ClassProperties(classId).value, props, flags)| < 0x1_0000_0000
    ensures var types := ClassProperties(classId).value;
      var payload := BE(2, classId) + BE(2, 0) + BE(8, size) + HeaderBytes(types, props, flags);
      var arrived := PresentProps(props, flags, Unset(|props|, payload, memory));
      FlaggedCodable(types, props, flags, 0) <==>
        DecodeHeader(channel, payload, memory) == Decoded(HeaderFrame(channel, classId, size, Echoed(flags), arrived))
  {
    hide BE, FromBE, ReadFlags, HeaderBytes, ReadHeader, Has, Echoed, FlaggedCodable, FlaggedNormal, PresentProps,
      FlaggedWritable, Unset;
    var types := ClassProperties(classId).value;
    var wire := HeaderBytes(types, props, flags);
    var payload := BE(2, classId) + BE(2, 0) + BE(8, size) + wire;
    assert payload[..2] == BE(2, classId) && payload[4..12] == BE(8, size) && payload[12..] == wire;
    Pow256Values();
    FromBEInvertsBE(2, classId);
    FromBEInvertsBE(8, size);
    AtWhole(wire);
    var unset := Unset(|types|, payload, memory);
    HeaderRoundTrip(types, props, flags, wire, 0, unset);
    HeaderPropsPresent(types, props, flags, wire, unset);
  }

  lemma HeaderPropsPresent(types: PropertyTypes, props: seq<FieldVal>, flags: uint32, wire: bytes,
                           unset: seq<FieldVal>)
    requires AllTyped(types, props) && |unset| == |types|
    requires ReadFlags(wire, 0, 0, 0).Flags? && ReadFlags(wire, 0, 0, 0).flags == Echoed(flags)
    ensures var r := ReadHeader(types, wire, 0, unset);
      r.Some? ==>
        (FlaggedNormal(types, props, flags, r.value.1, |types|) <==> r.value.1 == PresentProps(props, flags, unset))
  {
    hide Has, Echoed, ReadFlags, ReadProps;
    var r := ReadHeader(types, wire, 0, unset);
    if r.Some? {
      var next := ReadFlags(wire, 0, 0, 0).off;
      ReadPropsEchoed(types, wire, next, flags, 0, unset);
      AbsentStayUnset(types, wire, next, flags, 0, unset);
      var fields := r.value.1;
      if FlaggedNormal(types, props, flags, fields, |types|) {
        assert fields == PresentProps(props, flags, unset);
      }
    }
  }

  lemma EnvelopeParts(frameType: byte, channel: uint16, payload: bytes)
    requires |payload| < 0x1_0000_0000
    ensures var raw := Envelope(frameType, channel, payload);
      && raw[0] == frameType && ChannelOf(raw) == channel && raw[HEADER_SIZE..|raw| - 1] == payload
      && raw[|raw| - 1] == FRAME_END && ReadBE(raw, 3, 4) == Some(|payload|)
  {
    hide BE, FromBE;
    var raw := Envelope(frameType, channel, payload);
    assert raw[1..3] == BE(2, channel) && raw[3..7] == BE(4, |payload|);
    Pow256Values();
    FromBEInvertsBE(2, channel);
    FromBEInvertsBE(4, |payload|);
  }

  /** Every frame that can be laid out decodes from its own bytes to the frame received, if
      and only if its tables survive the wire. */
  lemma {:induction false} FrameRoundTrip(schema: Schema, f: Frame, memory: Memory)
    requires WellTyped(schema, f) && Encodable(schema, f) && |PayloadBytes(schema, f)| < 0x1_0000_0000
    ensures DecodeRaw(schema, FrameBytes(schema, f), memory) == Decoded(Received(schema, f, memory))
       <==> Survives(schema, f)
  {
    hide BE, Packed, HeaderBytes, DecodeMethod, DecodeHeader, Envelope;
    EnvelopeParts(TypeOf(f), f.channel, PayloadBytes(schema, f));
    match f
    case MethodFrame(channel, id, args) => MethodRoundTrip(schema, channel, id, args);
    case HeaderFrame(channel, classId, size, flags, props) =>
      HeaderFrameRoundTrip(channel, classId, size, flags, props, memory);
    case _ =>
  }

  // ---------------------------------------------------------------- amqp_frame_to_bytes

  /** What C asks of the caller: the outbound buffer holds the fixed parts of the frame's
      kind, and a body fragment is no longer than the space between header and end marker. */
  predicate RoomForFixedParts(f: Frame, frameMax: nat) {
    HEADER_SIZE + FOOTER_SIZE +
    (match f
     case MethodFrame(_, _, _) => 4
     case HeaderFrame(_, _, _, _, _) => 12
     case BodyFrame(_, fragment) => |fragment|
     case _ => 0) <= frameMax
  }

  /** `amqp_encode_method` into the space behind the method id. */
  method EncodeMethod(schema: Schema, id: uint32, args: seq<FieldVal>, encoded: array<byte>)
    returns (res: Status, length: nat)
    requires id in schema ==> AllTyped(schema[id], args)
    modifies encoded
    ensures res == Ok <==> id in schema && AllWritable(schema[id], args, 0)
                           && |Packed(schema[id], args, 0)| <= encoded.Length
    ensures res == if id in schema then LayoutStatus(schema[id], args, 0, encoded.Length) else UnknownMethod
    ensures res == Ok ==> length == |Packed(schema[id], args, 0)|
    ensures res == Ok ==> encoded[..] == Overwrite(old(encoded[..]), 0, Packed(schema[id], args, 0))
  {
    hide Exec, Packed, Overwrite, LayoutStatus, AllWritable;
    if id !in schema {
      return UnknownMethod, 0;
    }
    GeneratorCorrect(schema[id], args, encoded.Length);
    var lines := GenEncodeMethodFields(schema[id]);
    res, length := RunEncoder(lines, args, encoded);
  }

  /** How a frame is answered: its payload by what is left of the buffer for it. */
  function FrameStatus(schema: Schema, f: Frame, room: nat): Status
    requires WellTyped(schema, f) && RoomForFixedParts(f, room)
  {
    match f
    case MethodFrame(_, id, args) =>
      if id in schema then LayoutStatus(schema[id], args, 0, room - HEADER_SIZE - 4 - FOOTER_SIZE) else UnknownMethod
    case HeaderFrame(_, classId, _, flags, props) =>
      (match ClassProperties(classId)
       case None =>
         if |WordsBytes(FlagWords(flags))| > room - HEADER_SIZE - 12 - FOOTER_SIZE then BadAmqpData else UnknownClass
       case Some(types) => HeaderStatus(types, props, flags, room - HEADER_SIZE - 12 - FOOTER_SIZE))
    case OtherFrame(_, _) => InvalidParameter
    case _ => Ok
  }

  /** `amqp_frame_to_bytes`: an accepted frame lies at the front of the outbound buffer, and
      so takes at most `frame_max` bytes; a frame is accepted exactly when it can be laid out
      within them. */
  method FrameToBytes(schema: Schema, f: Frame, buffer: array<byte>) returns (res: Status, length: nat)
    requires WellTyped(schema, f) && RoomForFixedParts(f, buffer.Length)
    modifies buffer
    ensures res == Ok <==> Encodable(schema, f) && |FrameBytes(schema, f)| <= buffer.Length
    ensures res == FrameStatus(schema, f, buffer.Length)
    ensures res == Ok ==> length == |FrameBytes(schema, f)| && buffer[..length] == FrameBytes(schema, f)
  {
    hide BE, Packed, HeaderBytes, AllWritable, FlaggedWritable, LayoutStatus, HeaderStatus;
    length := 0;
    var payload: bytes := [];
    match f {
      case BodyFrame(_, fragment) =>
        payload := fragment;
      case MethodFrame(_, id, args) =>
        var encoded := new byte[buffer.Length - HEADER_SIZE - 4 - FOOTER_SIZE];
        var n;
        res, n := EncodeMethod(schema, id, args, encoded);
        if res != Ok {
          return;
        }
        assert encoded[..n] == Packed(schema[id], args, 0);
        payload := BE(4, id) + encoded[..n];
      case HeaderFrame(_, classId, size, flags, props) =>
        var encoded := new byte[buffer.Length - HEADER_SIZE - 12 - FOOTER_SIZE];
        var n;
        match ClassProperties(classId) {
          case None =>
            var ok;
            ok, n := EncodeFlags(flags, encoded);
            return if ok then UnknownClass else BadAmqpData, 0;
          case Some(types) =>
            res, n := EncodeProperties(types, props, flags, encoded);
            if res != Ok {
              return;
            }
            assert encoded[..n] == HeaderBytes(types, props, flags);
            payload := BE(2, classId) + BE(2, 0) + BE(8, size) + encoded[..n];
        }
      case HeartbeatFrame(_) =>
      case OtherFrame(_, _) =>
        return InvalidParameter, 0;
    }
    assert payload == PayloadBytes(schema, f);
    length := |payload| + HEADER_SIZE + FOOTER_SIZE;
    WriteEnvelope(buffer, TypeOf(f), f.channel, payload);
    res := Ok;
  }

  /** Type, channel and payload, then the length and the end marker. */
  method WriteEnvelope(buffer: array<byte>, frameType: byte, channel: uint16, payload: bytes)
    requires HEADER_SIZE + |payload| + FOOTER_SIZE <= buffer.Length
    modifies buffer
    ensures buffer[..HEADER_SIZE + |payload| + FOOTER_SIZE] == Envelope(frameType, channel, payload)
  {
    hide BE;
    var n := HEADER_SIZE + |payload|;
    buffer[0] := frameType;
    Memcpy(buffer, 1, BE(2, channel));
    Memcpy(buffer, HEADER_SIZE, payload);
    Memcpy(buffer, 3, BE(4, |payload|));
    buffer[n] := FRAME_END;
    assert buffer[1..3] == BE(2, channel);
    assert buffer[3..HEADER_SIZE] == BE(4, |payload|);
    assert buffer[HEADER_SIZE..n] == payload;
    assert buffer[..n + 1]
        == [buffer[0]] + buffer[1..3] + buffer[3..HEADER_SIZE] + buffer[HEADER_SIZE..n] + [buffer[n]];
  }
}
