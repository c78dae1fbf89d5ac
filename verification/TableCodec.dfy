/** The field-table encoder and decoder as they run: a caller's offset moves through a
    buffer, lengths are patched in after the contents, and decoded entries collect in an
    array that doubles. */
module TableCodec {
  import opened Bytes
  import opened FieldTable
  import opened Statuses

  const INITIAL_ARRAY_SIZE := 16
  const INITIAL_TABLE_SIZE := 16

  // ---------------------------------------------------------------- bounded writes

  /** `b` written at `off` when it fits, and nothing written when it does not. */
  function Put(s: bytes, off: nat, b: bytes): (t: bytes)
    ensures |t| == |s|
    ensures forall i :: 0 <= i < |s| && !(off <= i < off + |b|) ==> t[i] == s[i]
  {
    if off + |b| <= |s| then Overwrite(s, off, b) else s
  }

  method Memcpy(encoded: array<byte>, offset: nat, b: bytes)
    requires offset + |b| <= encoded.Length
    modifies encoded
    ensures encoded[..] == Overwrite(old(encoded[..]), offset, b)
  {
    forall i | 0 <= i < |b| {
      encoded[offset + i] := b[i];
    }
    assert encoded[offset..offset + |b|] == b;
  }

  /** `amqp_encode_8` to `amqp_encode_64`: the offset moves on whether or not the write fits. */
  method EncodeInt(encoded: array<byte>, width: nat, offset: nat, input: nat) returns (ok: bool, next: nat)
    modifies encoded
    ensures next == offset + width
    ensures ok <==> next <= encoded.Length
    ensures encoded[..] == Put(old(encoded[..]), offset, BE(width, input))
  {
    next := offset + width;
    ok := next <= encoded.Length;
    if ok {
      Memcpy(encoded, offset, BE(width, input));
    }
  }

  /** `amqp_encode_bytes`: an empty string is accepted without looking at the offset. */
  method EncodeBytes(encoded: array<byte>, offset: nat, input: bytes) returns (ok: bool, next: nat)
    modifies encoded
    ensures next == offset + |input|
    ensures ok <==> |input| == 0 || next <= encoded.Length
    ensures encoded[..] == Put(old(encoded[..]), offset, input)
  {
    next := offset + |input|;
    if |input| == 0 {
      assert offset <= encoded.Length ==> Overwrite(encoded[..], offset, input) == encoded[..];
      return true, offset;
    }
    ok := next <= encoded.Length;
    if ok {
      Memcpy(encoded, offset, input);
    }
  }

  // ---------------------------------------------------------------- the encoder's status

  /** How the encoder answers when `room` bytes are left at the value's offset. */
  function ValueStatus(v: FieldValue, room: int): Status
    decreases v, 1
  {
    if room < 1 then BadAmqpData
    else if v.Array? then PatchStatus(ItemsStatus(v.items, room - 5), room - 1)
    else if v.Table? then TableStatus(v.entries, room - 1)
    else if v.Unsupported? then InvalidParameter
    else if room < |ValueBytes(v)| then TableTooBig
    else Ok
  }

  /** The length is patched in last, so a failure inside comes first. */
  function PatchStatus(inside: Status, room: int): Status {
    if inside != Ok then inside else if room < 4 then TableTooBig else Ok
  }

  function ItemsStatus(items: seq<FieldValue>, room: int): Status
    decreases items, 0
  {
    if items == [] then Ok
    else if ValueStatus(items[0], room) != Ok then ValueStatus(items[0], room)
    else ItemsStatus(items[1..], room - |ValueBytes(items[0])|)
  }

  function TableStatus(entries: seq<Entry>, room: int): Status
    decreases entries, 1
  {
    PatchStatus(EntriesStatus(entries, room - 4), room)
  }

  function EntriesStatus(entries: seq<Entry>, room: int): Status
    decreases entries, 0
  {
    if entries == [] then Ok
    else if EntryStatus(entries[0], room) != Ok then EntryStatus(entries[0], room)
    else EntriesStatus(entries[1..], room - |EntryBytes(entries[0])|)
  }

  function EntryStatus(e: Entry, room: int): Status
    decreases e, 2
  {
    if room < 1 + |e.key| then TableTooBig else ValueStatus(e.value, room - 1 - |e.key|)
  }

  /** Every kind in the value is one the encoder knows. Key lengths do not matter here. */
  predicate Supported(v: FieldValue)
    decreases v, 1
  {
    if v.Array? then ItemsSupported(v.items)
    else if v.Table? then EntriesSupported(v.entries)
    else !v.Unsupported?
  }

  predicate ItemsSupported(items: seq<FieldValue>)
    decreases items, 0
  {
    items == [] || (Supported(items[0]) && ItemsSupported(items[1..]))
  }

  predicate EntriesSupported(entries: seq<Entry>)
    decreases entries, 0
  {
    entries == [] || (EntrySupported(entries[0]) && EntriesSupported(entries[1..]))
  }

  predicate EntrySupported(e: Entry)
    decreases e, 2
  {
    Supported(e.value)
  }

  /** Encoding succeeds exactly when every kind is known and the whole wire form fits, and
      it blames a parameter only when some kind is unknown. */
  lemma {:induction false} EncoderExact(v: FieldValue, room: int)
    ensures ValueStatus(v, room) == Ok <==> Supported(v) && |ValueBytes(v)| <= room
    ensures ValueStatus(v, room) == InvalidParameter ==> !Supported(v)
    ensures ValueStatus(v, room) in {Ok, BadAmqpData, InvalidParameter, TableTooBig}
    decreases v, 1
  {
    hide ItemsStatus, TableStatus, ItemsBytes, EntriesBytes, ItemsSupported, EntriesSupported, ValueBytes;
    NothingUnsupported();
    if v.Array? {
      ArrayLength(v);
      ItemsEncoderExact(v.items, room - 5);
    } else if v.Table? {
      TableLength(v);
      TableEncoderExact(v.entries, room - 1);
    }
  }

  lemma NothingUnsupported()
    ensures ItemsSupported([]) && EntriesSupported([])
  {
  }

  lemma {:induction false} ItemsEncoderExact(items: seq<FieldValue>, room: int)
    ensures ItemsStatus(items, room) == Ok <==> items == [] || (ItemsSupported(items) && |ItemsBytes(items)| <= room)
    ensures ItemsStatus(items, room) == InvalidParameter ==> !ItemsSupported(items)
    ensures ItemsStatus(items, room) in {Ok, BadAmqpData, InvalidParameter, TableTooBig}
    decreases items, 0
  {
    hide ValueStatus, ValueBytes, Supported;
    if items != [] {
      var head, rest := |ValueBytes(items[0])|, items[1..];
      EncoderExact(items[0], room);
      ItemsEncoderExact(rest, room - head);
      assert |ItemsBytes(items)| == head + |ItemsBytes(rest)|;
      assert rest == [] ==> ItemsBytes(rest) == [];
    }
  }

  lemma {:induction false} TableEncoderExact(entries: seq<Entry>, room: int)
    ensures TableStatus(entries, room) == Ok <==> EntriesSupported(entries) && 4 + |EntriesBytes(entries)| <= room
    ensures TableStatus(entries, room) == InvalidParameter ==> !EntriesSupported(entries)
    ensures TableStatus(entries, room) in {Ok, BadAmqpData, InvalidParameter, TableTooBig}
    decreases entries, 1
  {
    EntriesEncoderExact(entries, room - 4);
  }

  lemma {:induction false} EntriesEncoderExact(entries: seq<Entry>, room: int)
    ensures EntriesStatus(entries, room) == Ok
       <==> entries == [] || (EntriesSupported(entries) && |EntriesBytes(entries)| <= room)
    ensures EntriesStatus(entries, room) == InvalidParameter ==> !EntriesSupported(entries)
    ensures EntriesStatus(entries, room) in {Ok, BadAmqpData, InvalidParameter, TableTooBig}
    decreases entries, 0
  {
    hide EntryStatus, EntryBytes, EntrySupported;
    if entries != [] {
      var head, rest := |EntryBytes(entries[0])|, entries[1..];
      EntryEncoderExact(entries[0], room);
      EntriesEncoderExact(rest, room - head);
      assert |EntriesBytes(entries)| == head + |EntriesBytes(rest)|;
      assert rest == [] ==> EntriesBytes(rest) == [];
    }
  }

  lemma {:induction false} EntryEncoderExact(e: Entry, room: int)
    ensures EntryStatus(e, room) == Ok <==> EntrySupported(e) && |EntryBytes(e)| <= room
    ensures EntryStatus(e, room) == InvalidParameter ==> !EntrySupported(e)
    ensures EntryStatus(e, room) in {Ok, BadAmqpData, InvalidParameter, TableTooBig}
    decreases e, 2
  {
    hide ValueStatus, ValueBytes, Supported;
    EncoderExact(e.value, room - 1 - |e.key|);
  }

  // ---------------------------------------------------------------- which failure it is

  /** Cut off after its first `n` bytes, the value's wire form ends just before a kind byte; or it
      ends in the length of an array that has items, for the encoder leaves room for that length
      without looking whether it is there. */
  predicate EndsBeforeKind(v: FieldValue, n: int)
    decreases v, 1
  {
    n <= 0
    || (v.Array? && ItemsEndBeforeKind(v.items, n - 5))
    || (v.Table? && EntriesEndBeforeKind(v.entries, n - 5))
  }

  predicate ItemsEndBeforeKind(items: seq<FieldValue>, n: int)
    decreases items, 0
  {
    items != [] &&
    (EndsBeforeKind(items[0], n)
     || (n >= |ValueBytes(items[0])| && ItemsEndBeforeKind(items[1..], n - |ValueBytes(items[0])|)))
  }

  predicate EntriesEndBeforeKind(entries: seq<Entry>, n: int)
    decreases entries, 0
  {
    entries != [] &&
    (EntryEndsBeforeKind(entries[0], n)
     || (n >= |EntryBytes(entries[0])| && EntriesEndBeforeKind(entries[1..], n - |EntryBytes(entries[0])|)))
  }

  predicate EntryEndsBeforeKind(e: Entry, n: int)
    decreases e, 2
  {
    n >= 1 + |e.key| && EndsBeforeKind(e.value, n - 1 - |e.key|)
  }

  /** The first `n` bytes of the wire form hold the kind byte of a value of unknown kind. */
  predicate UnknownWithin(v: FieldValue, n: int)
    decreases v, 1
  {
    n >= 1 &&
    if v.Array? then ItemsUnknownWithin(v.items, n - 5)
    else if v.Table? then EntriesUnknownWithin(v.entries, n - 5)
    else v.Unsupported?
  }

  predicate ItemsUnknownWithin(items: seq<FieldValue>, n: int)
    decreases items, 0
  {
    n >= 1 && items != [] &&
    (UnknownWithin(items[0], n) || ItemsUnknownWithin(items[1..], n - |ValueBytes(items[0])|))
  }

  predicate EntriesUnknownWithin(entries: seq<Entry>, n: int)
    decreases entries, 0
  {
    n >= 1 && entries != [] &&
    (UnknownWithin(entries[0].value, n - 1 - |entries[0].key|)
     || EntriesUnknownWithin(entries[1..], n - |EntryBytes(entries[0])|))
  }

  /** The status of an encoding with `room` bytes, out of how its wire form is cut off there. */
  function CutStatus(unknown: bool, beforeKind: bool, fits: bool): Status {
    if unknown then InvalidParameter else if beforeKind then BadAmqpData else if fits then Ok else TableTooBig
  }

  /** For every value and room the encoder's status: a parameter is blamed exactly when a value of
      unknown kind comes before the room ends, the data exactly when the room ends just before a
      kind byte, and the table is too big exactly when the room ends anywhere else. */
  lemma {:induction false} ValueStatusExact(v: FieldValue, room: int)
    ensures ValueStatus(v, room) == CutStatus(UnknownWithin(v, room), EndsBeforeKind(v, room), |ValueBytes(v)| <= room)
    ensures EndsBeforeKind(v, room) ==> room < |ValueBytes(v)|
    decreases v, 1
  {
    hide ItemsStatus, TableStatus, ItemsBytes, EntriesBytes, ValueBytes;
    if v.Array? {
      ArrayLength(v);
      ItemsStatusExact(v.items, room - 5);
    } else if v.Table? {
      TableLength(v);
      TableStatusExact(v.entries, room - 1);
    }
  }

  lemma {:induction false} ItemsStatusExact(items: seq<FieldValue>, room: int)
    ensures ItemsStatus(items, room) ==
      CutStatus(ItemsUnknownWithin(items, room), ItemsEndBeforeKind(items, room),
                items == [] || |ItemsBytes(items)| <= room)
    ensures ItemsEndBeforeKind(items, room) ==> room < |ItemsBytes(items)|
    decreases items, 0
  {
    hide ValueStatus, ValueBytes, UnknownWithin, EndsBeforeKind;
    if items != [] {
      var head, rest := |ValueBytes(items[0])|, items[1..];
      ValueStatusExact(items[0], room);
      NoRoom(items[0], room);
      ItemsStatusExact(rest, room - head);
      assert |ItemsBytes(items)| == head + |ItemsBytes(rest)|;
      assert rest == [] ==> ItemsBytes(rest) == [];
    }
  }

  lemma {:induction false} TableStatusExact(entries: seq<Entry>, room: int)
    ensures TableStatus(entries, room) ==
      CutStatus(EntriesUnknownWithin(entries, room - 4), EntriesEndBeforeKind(entries, room - 4),
                4 + |EntriesBytes(entries)| <= room)
    ensures EntriesEndBeforeKind(entries, room - 4) ==> room < 4 + |EntriesBytes(entries)|
    decreases entries, 1
  {
    EntriesStatusExact(entries, room - 4);
  }

  lemma {:induction false} EntriesStatusExact(entries: seq<Entry>, room: int)
    ensures EntriesStatus(entries, room) ==
      CutStatus(EntriesUnknownWithin(entries, room), EntriesEndBeforeKind(entries, room),
                entries == [] || |EntriesBytes(entries)| <= room)
    ensures EntriesEndBeforeKind(entries, room) ==> room < |EntriesBytes(entries)|
    decreases entries, 0
  {
    hide EntryStatus, EntryBytes, UnknownWithin, EntryEndsBeforeKind;
    if entries != [] {
      var head, rest := |EntryBytes(entries[0])|, entries[1..];
      EntryStatusExact(entries[0], room);
      NoRoom(entries[0].value, room - 1 - |entries[0].key|);
      EntriesStatusExact(rest, room - head);
      assert |EntriesBytes(entries)| == head + |EntriesBytes(rest)|;
      assert rest == [] ==> EntriesBytes(rest) == [];
    }
  }

  lemma {:induction false} EntryStatusExact(e: Entry, room: int)
    ensures EntryStatus(e, room) ==
      CutStatus(UnknownWithin(e.value, room - 1 - |e.key|), EntryEndsBeforeKind(e, room), |EntryBytes(e)| <= room)
    ensures EntryEndsBeforeKind(e, room) ==> room < |EntryBytes(e)|
    decreases e, 2
  {
    hide ValueStatus, ValueBytes, EndsBeforeKind;
    ValueStatusExact(e.value, room - 1 - |e.key|);
  }

  lemma NoRoom(v: FieldValue, n: int)
    ensures n <= 0 ==> !UnknownWithin(v, n) && EndsBeforeKind(v, n)
  {
  }

  lemma ArrayLength(v: FieldValue)
    requires v.Array?
    ensures |ValueBytes(v)| == 5 + |ItemsBytes(v.items)| && (v.items == [] ==> ItemsBytes(v.items) == [])
  {
  }

  lemma TableLength(v: FieldValue)
    requires v.Table?
    ensures |ValueBytes(v)| == 5 + |EntriesBytes(v.entries)| && (v.entries == [] ==> EntriesBytes(v.entries) == [])
  {
  }

  /** The header file promises `AMQP_STATUS_TABLE_TOO_BIG` for a table that does not fit. That is
      what a table of known kinds gets exactly when the room does not end just before a kind byte;
      else the code answers `AMQP_STATUS_BAD_AMQP_DATA`. */
  lemma TooBigExactly(entries: seq<Entry>, room: int)
    requires EntriesSupported(entries) && 4 + |EntriesBytes(entries)| > room
    ensures TableStatus(entries, room) == TableTooBig <==> !EntriesEndBeforeKind(entries, room - 4)
    ensures TableStatus(entries, room) == BadAmqpData <==> EntriesEndBeforeKind(entries, room - 4)
  {
    TableStatusExact(entries, room);
    TableEncoderExact(entries, room);
  }

  /** The one-entry table with key "k" in three rooms. */
  lemma OverflowBeforeKindIsBadData()
    ensures TableStatus([Entry([107], Void)], 6) == BadAmqpData
    ensures TableStatus([Entry([107], Void)], 5) == TableTooBig
    ensures TableStatus([Entry([107], Void)], 7) == Ok
  {
    var entries := [Entry([107], Void)];
    assert entries[1..] == [];
    assert |ValueBytes(Void)| == 1;
  }

  // ---------------------------------------------------------------- the encoder

  lemma {:induction false} ItemsBytesSnoc(items: seq<FieldValue>, i: nat)
    requires i < |items|
    ensures ItemsBytes(items[..i + 1]) == ItemsBytes(items[..i]) + ValueBytes(items[i])
  {
    hide ValueBytes;
    if i > 0 {
      ItemsBytesSnoc(items[1..], i - 1);
      assert items[..i + 1][1..] == items[1..][..i] && items[..i][1..] == items[1..][..i - 1];
    } else {
      assert items[..1][1..] == [];
    }
  }

  lemma {:induction false} EntriesBytesSnoc(entries: seq<Entry>, i: nat)
    requires i < |entries|
    ensures EntriesBytes(entries[..i + 1]) == EntriesBytes(entries[..i]) + EntryBytes(entries[i])
  {
    hide EntryBytes;
    if i > 0 {
      EntriesBytesSnoc(entries[1..], i - 1);
      assert entries[..i + 1][1..] == entries[1..][..i] && entries[..i][1..] == entries[1..][..i - 1];
    } else {
      assert entries[..1][1..] == [];
    }
  }

  lemma PutTwice(s: bytes, off: nat, a: bytes, b: bytes)
    requires b != []
    ensures off + |a + b| <= |s| ==> Put(Put(s, off, a), off + |a|, b) == Put(s, off, a + b)
  {
    if off + |a + b| <= |s| {
      OverwriteTwice(s, off, a, b);
    }
  }

  /** Patching a length in front of contents already written. */
  lemma PutInFront(s: bytes, off: nat, a: bytes, b: bytes)
    requires off + |a + b| <= |s|
    ensures Put(Put(s, off + |a|, b), off, a) == Overwrite(s, off, a + b)
  {
    var t, u := Put(Put(s, off + |a|, b), off, a), Overwrite(s, off, a + b);
    forall i | 0 <= i < |s| ensures t[i] == u[i] { }
    assert t == u;
  }

  /** What one encoding call leaves behind: on success the wire form stands at the offset and
      nothing else changed; on failure nothing before the offset changed. */
  twostate predicate Encoded(encoded: array<byte>, offset: nat, wire: bytes, res: Status, next: nat)
    reads encoded
  {
    && (res == Ok ==>
          && next == offset + |wire| <= encoded.Length
          && encoded[..] == Overwrite(old(encoded[..]), offset, wire))
    && (forall i :: 0 <= i < offset && i < encoded.Length ==> encoded[i] == old(encoded[i]))
  }

  /** The length of `body`, patched in at `start` once the end of the contents is known. */
  method PatchLength(encoded: array<byte>, start: nat, end: nat, ghost before: bytes, ghost body: bytes)
    returns (res: Status)
    requires |before| == encoded.Length && end == start + 4 + |body| && (body != [] ==> end <= encoded.Length)
    requires encoded[..] == Put(before, start + 4, body)
    modifies encoded
    ensures res == if encoded.Length - start < 4 then TableTooBig else Ok
    ensures res == Ok ==> end <= encoded.Length && encoded[..] == Overwrite(before, start, LongString(body))
    ensures forall i :: 0 <= i < start && i < encoded.Length ==> encoded[i] == before[i]
  {
    hide BE, At, Overwrite;
    assert |LongString(body)| == 4 + |body|;
    var ok, _ := EncodeInt(encoded, 4, start, end - start - 4);
    res := if ok then Ok else TableTooBig;
    if ok {
      PutInFront(before, start, BE(4, |body|), body);
    }
  }

  /** `amqp_encode_table` */
  method EncodeTable(encoded: array<byte>, input: seq<Entry>, offset: nat) returns (res: Status, next: nat)
    modifies encoded
    ensures res == TableStatus(input, encoded.Length - offset)
    ensures Encoded(encoded, offset, LongString(EntriesBytes(input)), res, next)
    decreases input, 3
  {
    hide ValueStatus, ValueBytes, EntryStatus, EntryBytes, Overwrite, At;
    ghost var before := encoded[..];
    next := offset + 4;
    for i := 0 to |input|
      invariant next == offset + 4 + |EntriesBytes(input[..i])|
      invariant i > 0 ==> next <= encoded.Length
      invariant encoded[..] == Put(before, offset + 4, EntriesBytes(input[..i]))
      invariant EntriesStatus(input, encoded.Length - offset - 4)
             == EntriesStatus(input[i..], encoded.Length - next)
    {
      EntriesBytesSnoc(input, i);
      PutTwice(before, offset + 4, EntriesBytes(input[..i]), EntryBytes(input[i]));
      res, next := EncodeEntry(encoded, input[i], next);
      if res != Ok {
        return;
      }
    }
    assert input[..|input|] == input;
    res := PatchLength(encoded, offset, next, before, EntriesBytes(input));
  }

  /** One pass of the loop in `amqp_encode_table`. */
  method EncodeEntry(encoded: array<byte>, e: Entry, offset: nat) returns (res: Status, next: nat)
    modifies encoded
    ensures res == EntryStatus(e, encoded.Length - offset)
    ensures Encoded(encoded, offset, EntryBytes(e), res, next)
    decreases e, 2
  {
    hide ValueStatus, ValueBytes, BE, Overwrite, At;
    ghost var before := encoded[..];
    var ok;
    ok, next := EncodeInt(encoded, 1, offset, |e.key| % 256);
    if !ok {
      return TableTooBig, next;
    }
    ok, next := EncodeBytes(encoded, next, e.key);
    if !ok {
      return TableTooBig, next;
    }
    KeyWritten(before, offset, e.key);
    res, next := EncodeValue(encoded, e.value, next);
    if res == Ok {
      OverwriteTwice(before, offset, KeyBytes(e.key), ValueBytes(e.value));
    }
  }

  lemma {:induction false} KeyWritten(s: bytes, off: nat, key: bytes)
    requires off + 1 + |key| <= |s|
    ensures Put(Put(s, off, BE(1, |key| % 256)), off + 1, key) == Overwrite(s, off, KeyBytes(key))
  {
    hide BE;
    OneByte(|key| % 256);
    OverwriteTwice(s, off, [|key| % 256], key);
  }

  /** `amqp_encode_array` */
  method EncodeArray(encoded: array<byte>, input: seq<FieldValue>, offset: nat) returns (res: Status, next: nat)
    modifies encoded
    ensures res == PatchStatus(ItemsStatus(input, encoded.Length - offset - 4), encoded.Length - offset)
    ensures Encoded(encoded, offset, LongString(ItemsBytes(input)), res, next)
    decreases input, 3
  {
    hide ValueStatus, ValueBytes, EntryStatus, EntryBytes, Overwrite, At;
    ghost var before := encoded[..];
    next := offset + 4;
    for i := 0 to |input|
      invariant next == offset + 4 + |ItemsBytes(input[..i])|
      invariant i > 0 ==> next <= encoded.Length
      invariant encoded[..] == Put(before, offset + 4, ItemsBytes(input[..i]))
      invariant ItemsStatus(input, encoded.Length - offset - 4) == ItemsStatus(input[i..], encoded.Length - next)
    {
      ItemsBytesSnoc(input, i);
      PutTwice(before, offset + 4, ItemsBytes(input[..i]), ValueBytes(input[i]));
      res, next := EncodeValue(encoded, input[i], next);
      if res != Ok {
        return;
      }
    }
    assert input[..|input|] == input;
    res := PatchLength(encoded, offset, next, before, ItemsBytes(input));
  }

  /** `amqp_encode_field_value` */
  method EncodeValue(encoded: array<byte>, v: FieldValue, offset: nat) returns (res: Status, next: nat)
    modifies encoded
    ensures res == ValueStatus(v, encoded.Length - offset)
    ensures Encoded(encoded, offset, ValueBytes(v), res, next)
    decreases v, 4
  {
    hide ItemsStatus, EntriesStatus, ItemsBytes, EntriesBytes, KindOf, RawOf, BE, Overwrite, At;
    ghost var before := encoded[..];
    var ok;
    ok, next := EncodeInt(encoded, 1, offset, KindOf(v));
    if !ok {
      return BadAmqpData, next;
    }
    if v.Array? {
      res, next := EncodeArray(encoded, v.items, next);
    } else if v.Table? {
      res, next := EncodeTable(encoded, v.entries, next);
    } else if v.Unsupported? {
      res := InvalidParameter;
    } else {
      res, next := EncodePlain(encoded, v, next);
    }
    if res == Ok {
      KindWritten(before, offset, KindOf(v), ValueBytes(v)[1..]);
    }
  }

  /** The branches of `amqp_encode_field_value` that hold no nested value, after the kind byte. */
  method EncodePlain(encoded: array<byte>, v: FieldValue, offset: nat) returns (res: Status, next: nat)
    requires !v.Array? && !v.Table? && !v.Unsupported? && offset <= encoded.Length
    modifies encoded
    ensures res == if encoded.Length - offset < |ValueBytes(v)| - 1 then TableTooBig else Ok
    ensures Encoded(encoded, offset, ValueBytes(v)[1..], res, next)
  {
    hide BE, RawOf;
    var ok;
    if v.Decimal? {
      ok, next := EncodeDecimal(encoded, v, offset);
    } else if v.Utf8? {
      ok, next := EncodeLongString(encoded, offset, v.text);
      assert ValueBytes(v)[1..] == LongString(v.text);
    } else if v.Octets? {
      ok, next := EncodeLongString(encoded, offset, v.data);
      assert ValueBytes(v)[1..] == LongString(v.data);
    } else {
      ok, next := EncodeFixed(encoded, v, offset);
    }
    res := if ok then Ok else TableTooBig;
  }

  method EncodeDecimal(encoded: array<byte>, v: FieldValue, offset: nat) returns (ok: bool, next: nat)
    requires v.Decimal? && offset <= encoded.Length
    modifies encoded
    ensures |ValueBytes(v)| == 6 && (ok <==> offset + 5 <= encoded.Length)
    ensures Encoded(encoded, offset, ValueBytes(v)[1..], if ok then Ok else TableTooBig, next)
  {
    hide BE;
    ghost var before := encoded[..];
    ok, next := EncodeInt(encoded, 1, offset, v.decimals);
    if ok {
      ok, next := EncodeInt(encoded, 4, next, v.value);
    }
    OneByte(v.decimals);
    PutTwice(before, offset, [v.decimals], BE(4, v.value));
    assert ValueBytes(v)[1..] == [v.decimals] + BE(4, v.value);
  }

  method EncodeFixed(encoded: array<byte>, v: FieldValue, offset: nat) returns (ok: bool, next: nat)
    requires Fixed(v) && offset <= encoded.Length
    modifies encoded
    ensures next == offset + |ValueBytes(v)| - 1
    ensures ok <==> next <= encoded.Length
    ensures encoded[..] == Put(old(encoded[..]), offset, ValueBytes(v)[1..])
  {
    hide BE, RawOf;
    assert ValueBytes(v)[1..] == BE(FixedWidth(KindOf(v)).value, RawOf(v));
    if v.Void? {
      assert Overwrite(encoded[..], offset, []) == encoded[..];
      return true, offset;
    }
    ok, next := EncodeInt(encoded, FixedWidth(KindOf(v)).value, offset, RawOf(v));
  }

  method EncodeLongString(encoded: array<byte>, offset: nat, s: bytes) returns (ok: bool, next: nat)
    modifies encoded
    ensures ok <==> offset + |LongString(s)| <= encoded.Length
    ensures ok ==> next == offset + |LongString(s)|
    ensures ok ==> encoded[..] == Overwrite(old(encoded[..]), offset, LongString(s))
    ensures forall i :: 0 <= i < offset && i < encoded.Length ==> encoded[i] == old(encoded[i])
  {
    ghost var before := encoded[..];
    ok, next := EncodeInt(encoded, 4, offset, |s|);
    if ok {
      ok, next := EncodeBytes(encoded, next, s);
      if ok {
        OverwriteTwice(before, offset, BE(4, |s|), s);
      }
    }
  }

  lemma OneByte(b: byte)
    ensures BE(1, b) == [b]
  {
    assert BE(0, 0) == [];
  }

  lemma {:induction false} KindWritten(s: bytes, off: nat, kind: byte, body: bytes)
    requires off + 1 + |body| <= |s|
    ensures Overwrite(Put(s, off, BE(1, kind)), off + 1, body) == Overwrite(s, off, [kind] + body)
  {
    hide BE;
    OneByte(kind);
    OverwriteTwice(s, off, [kind], body);
  }

  // ---------------------------------------------------------------- the decoder

  function Prepend<T>(xs: seq<T>, r: Option<(seq<T>, nat)>): Option<(seq<T>, nat)> {
    match r
    case None => None
    case Some((ys, end)) => Some((xs + ys, end))
  }

  /** `amqp_decode_N` */
  method DecodeInt(encoded: bytes, width: nat, offset: nat) returns (ok: bool, value: nat, next: nat)
    ensures next == offset + width
    ensures ok <==> next <= |encoded|
    ensures ok ==> ReadBE(encoded, offset, width) == Some(value) && value < Pow256(width)
  {
    next, value := offset + width, 0;
    ok := next <= |encoded|;
    if ok {
      value := FromBE(encoded[offset..next]);
      BEInvertsFromBE(encoded[offset..next]);
    }
  }

  /** `x` stored at index `n` of the entry array, which first doubles when it is full. */
  method Store<T(0)>(entries: array<T>, n: nat, x: T) returns (stored: array<T>)
    requires n <= entries.Length && entries.Length > 0
    modifies entries
    ensures stored == entries || fresh(stored)
    ensures n < stored.Length && stored[..n + 1] == old(entries[..n]) + [x]
  {
    stored := entries;
    if n >= entries.Length {
      stored := new T[entries.Length * 2];
      forall i | 0 <= i < entries.Length {
        stored[i] := entries[i];
      }
    }
    stored[n] := x;
  }

  /** `amqp_decode_array`: the decoded values and the offset after them, or failure. */
  method DecodeArray(encoded: bytes, offset: nat) returns (res: Status, output: seq<FieldValue>, next: nat)
    ensures res == if ArrayAt(encoded, offset).Some? then Ok else BadAmqpData
    ensures res == Ok ==> ArrayAt(encoded, offset) == Some((output, next))
    decreases |encoded| - offset, 2
  {
    hide ValueAt, EntryAt, BE, FromBE;
    output := [];
    var ok, size;
    ok, size, next := DecodeInt(encoded, 4, offset);
    if !ok || size + next > |encoded| {
      return BadAmqpData, [], next;
    }
    var entries := new FieldValue[INITIAL_ARRAY_SIZE];
    var n, limit := 0, next + size;
    PrependNothing(entries[..n], ItemsAt(encoded, next, limit));
    while next < limit
      invariant n <= entries.Length && entries.Length > 0 && fresh(entries)
      invariant offset + 4 <= next <= |encoded| && limit <= |encoded|
      invariant ItemsAt(encoded, offset + 4, limit) == Prepend(entries[..n], ItemsAt(encoded, next, limit))
      decreases |encoded| - next
    {
      ghost var done := entries[..n];
      var v;
      res, v, next := DecodeValue(encoded, next);
      if res != Ok {
        return;
      }
      entries := Store(entries, n, v);
      n := n + 1;
      PrependTwice(done, v, ItemsAt(encoded, next, limit));
    }
    assert entries[..n] + [] == entries[..n];
    return Ok, entries[..n], next;
  }

  lemma PrependNothing<T>(xs: seq<T>, r: Option<(seq<T>, nat)>)
    requires xs == []
    ensures Prepend(xs, r) == r
  {
    if r.Some? {
      assert xs + r.value.0 == r.value.0;
    }
  }

  lemma PrependTwice<T>(xs: seq<T>, y: T, r: Option<(seq<T>, nat)>)
    ensures Prepend(xs, Prepend([y], r)) == Prepend(xs + [y], r)
  {
    if r.Some? {
      assert xs + ([y] + r.value.0) == xs + [y] + r.value.0;
    }
  }

  /** `amqp_decode_table` */
  method DecodeTable(encoded: bytes, offset: nat) returns (res: Status, output: seq<Entry>, next: nat)
    ensures res == if TableAt(encoded, offset).Some? then Ok else BadAmqpData
    ensures res == Ok ==> TableAt(encoded, offset) == Some((output, next))
    decreases |encoded| - offset, 2
  {
    hide ValueAt, EntryAt, BE, FromBE;
    output := [];
    var ok, size;
    ok, size, next := DecodeInt(encoded, 4, offset);
    if !ok || size + next > |encoded| {
      return BadAmqpData, [], next;
    }
    var entries := new Entry[INITIAL_TABLE_SIZE];
    var n, limit := 0, next + size;
    PrependNothing(entries[..n], EntriesAt(encoded, next, limit));
    while next < limit
      invariant n <= entries.Length && entries.Length > 0 && fresh(entries)
      invariant offset + 4 <= next <= |encoded| && limit <= |encoded|
      invariant EntriesAt(encoded, offset + 4, limit) == Prepend(entries[..n], EntriesAt(encoded, next, limit))
      decreases |encoded| - next
    {
      ghost var done := entries[..n];
      var e;
      res, e, next := DecodeEntry(encoded, next);
      if res != Ok {
        return;
      }
      entries := Store(entries, n, e);
      n := n + 1;
      PrependTwice(done, e, EntriesAt(encoded, next, limit));
    }
    assert entries[..n] + [] == entries[..n];
    return Ok, entries[..n], next;
  }

  /** One pass of the loop in `amqp_decode_table`. */
  method DecodeEntry(encoded: bytes, offset: nat) returns (res: Status, e: Entry, next: nat)
    ensures res == if EntryAt(encoded, offset).Some? then Ok else BadAmqpData
    ensures res == Ok ==> EntryAt(encoded, offset) == Some((e, next))
    decreases |encoded| - offset, 1
  {
    hide ValueAt, BE, FromBE;
    e := Entry([], Void);
    var ok, keylen;
    ok, keylen, next := DecodeInt(encoded, 1, offset);
    if !ok {
      return BadAmqpData, e, next;
    }
    KeyLengthAt(encoded, offset);
    if next + keylen > |encoded| {
      return BadAmqpData, e, next + keylen;
    }
    var key := encoded[next..next + keylen];
    var v;
    res, v, next := DecodeValue(encoded, next + keylen);
    e := Entry(key, v);
  }

  lemma KeyLengthAt(s: bytes, off: nat)
    requires off < |s|
    ensures ReadBE(s, off, 1) == Some(s[off])
  {
    var w := s[off..off + 1];
    assert w == [s[off]];
    assert FromBE(w) == FromBE(w[..0]) * 256 + s[off];
  }

  /** `amqp_decode_field_value` */
  method DecodeValue(encoded: bytes, offset: nat) returns (res: Status, v: FieldValue, next: nat)
    ensures res == if ValueAt(encoded, offset).Some? then Ok else BadAmqpData
    ensures res == Ok ==> ValueAt(encoded, offset) == Some((v, next))
    decreases |encoded| - offset, 3
  {
    hide BE, FromBE;
    v, res := Void, BadAmqpData;
    var ok, kind;
    ok, kind, next := DecodeInt(encoded, 1, offset);
    if !ok {
      return;
    }
    KeyLengthAt(encoded, offset);
    if FixedWidth(kind).Some? {
      var raw;
      ok, raw, next := DecodeInt(encoded, FixedWidth(kind).value, next);
      if ok {
        return Ok, FromRaw(kind, raw), next;
      }
    } else if kind == 'D' as int {
      var decimals, value;
      ok, decimals, next := DecodeInt(encoded, 1, next);
      if ok {
        KeyLengthAt(encoded, offset + 1);
        ok, value, next := DecodeInt(encoded, 4, next);
        if ok {
          Pow256Values();
          return Ok, Decimal(decimals, value), next;
        }
      }
    } else if kind == 'S' as int || kind == 'x' as int {
      var len;
      ok, len, next := DecodeInt(encoded, 4, next);
      if ok && next + len <= |encoded| {
        var b := encoded[next..next + len];
        return Ok, if kind == 'S' as int then Utf8(b) else Octets(b), next + len;
      }
    } else if kind == 'A' as int {
      var items;
      res, items, next := DecodeArray(encoded, next);
      v := Array(items);
    } else if kind == 'F' as int {
      var entries;
      res, entries, next := DecodeTable(encoded, next);
      v := Table(entries);
    }
  }

  /** A table encoded into any buffer at any offset decodes there to the same table, booleans
      normalized, with exactly the written bytes consumed and the rest of the buffer as it
      was; and only codable tables do. */
  lemma EncodedTableDecodes(buffer: bytes, offset: nat, entries: seq<Entry>)
    requires |EntriesBytes(entries)| < 0x1_0000_0000
    requires TableStatus(entries, |buffer| - offset) == Ok
    ensures offset + |LongString(EntriesBytes(entries))| <= |buffer|
    ensures EntriesCodable(entries)
       <==> TableAt(Overwrite(buffer, offset, LongString(EntriesBytes(entries))), offset)
            == Some((EntriesNormal(entries), offset + 4 + |EntriesBytes(entries)|))
  {
    hide EntriesBytes, EntriesCodable, EntriesNormal, TableAt, TableStatus;
    TableEncoderExact(entries, |buffer| - offset);
    var written := Overwrite(buffer, offset, LongString(EntriesBytes(entries)));
    TableRoundTrip(written, offset, entries);
  }

  /** A key of more than 255 bytes is written without complaint and cannot be read back: here every
      one-entry table with such a key, in a buffer that just holds it. */
  lemma LongKeyIsLost(key: bytes)
    requires 255 < |key| < 0xFFFF_FFF0
    ensures var entries, wire := [Entry(key, Void)], LongString(EntriesBytes([Entry(key, Void)]));
      TableStatus(entries, |wire|) == Ok
      && TableAt(wire, 0) != Some((EntriesNormal(entries), |wire|))
  {
    var entries := [Entry(key, Void)];
    var wire := LongString(EntriesBytes(entries));
    assert entries[1..] == [] && |ValueBytes(Void)| == 1;
    assert entries[0] == Entry(key, Void) && Supported(Void) && EntrySupported(entries[0]) && !EntryCodable(entries[0]);
    assert EntriesSupported([]);
    assert EntriesSupported(entries) && !EntriesCodable(entries);
    assert |EntriesBytes(entries)| == |key| + 2;
    hide EntriesBytes, TableAt, TableStatus, EntriesSupported, EntriesCodable, EntriesNormal;
    TableEncoderExact(entries, |wire|);
    assert Overwrite(wire, 0, wire) == wire;
    EncodedTableDecodes(wire, 0, entries);
  }
}
