/** Field tables and arrays (section 4.2.5.5 of the AMQP 0-9-1 specification, with the
    type tags of `amqp_field_value_kind_t`): their values, their wire form, and the
    reading of a wire form back. */
module FieldTable {
  import opened Bytes

  type int8 = x: int | -0x80 <= x < 0x80
  type int16 = x: int | -0x8000 <= x < 0x8000
  type int32 = x: int | -0x8000_0000 <= x < 0x8000_0000
  type int64 = x: int | -0x8000_0000_0000_0000 <= x < 0x8000_0000_0000_0000
  type uint16 = x: int | 0 <= x < 0x1_0000
  type uint32 = x: int | 0 <= x < 0x1_0000_0000
  type uint64 = x: int | 0 <= x < 0x1_0000_0000_0000_0000

  /** A kind byte that no branch of the codec's switch names. */
  type otherKind = k: byte | !KnownKind(k) witness 0

  /** A tagged field value. The float kinds carry the bits that the codec copies by punning. */
  datatype FieldValue =
    | Void
    | Boolean(truth: int32)
    | I8(i8: int8)
    | U8(u8: byte)
    | I16(i16: int16)
    | U16(u16: uint16)
    | I32(i32: int32)
    | U32(u32: uint32)
    | I64(i64: int64)
    | U64(u64: uint64)
    | F32(bits32: uint32)
    | F64(bits64: uint64)
    | Decimal(decimals: byte, value: uint32)
    | Utf8(text: bytes)
    | Octets(data: bytes)
    | Array(items: seq<FieldValue>)
    | Timestamp(seconds: uint64)
    | Table(entries: seq<Entry>)
    | Unsupported(kind: otherKind)

  datatype Entry = Entry(key: bytes, value: FieldValue)

  predicate KnownKind(k: byte) {
    FixedWidth(k).Some? || k in {'D' as int, 'S' as int, 'x' as int, 'A' as int, 'F' as int}
  }

  /** The payload width of the kinds that hold one fixed-size integer. */
  function FixedWidth(k: byte): Option<nat> {
    if k == 'V' as int then Some(0)
    else if k == 't' as int || k == 'b' as int || k == 'B' as int then Some(1)
    else if k == 's' as int || k == 'u' as int then Some(2)
    else if k == 'I' as int || k == 'i' as int || k == 'f' as int then Some(4)
    else if k == 'l' as int || k == 'L' as int || k == 'd' as int || k == 'T' as int then Some(8)
    else None
  }

  function KindOf(v: FieldValue): byte {
    match v
    case Void => 'V' as int
    case Boolean(_) => 't' as int
    case I8(_) => 'b' as int
    case U8(_) => 'B' as int
    case I16(_) => 's' as int
    case U16(_) => 'u' as int
    case I32(_) => 'I' as int
    case U32(_) => 'i' as int
    case I64(_) => 'l' as int
    case U64(_) => 'L' as int
    case F32(_) => 'f' as int
    case F64(_) => 'd' as int
    case Decimal(_, _) => 'D' as int
    case Utf8(_) => 'S' as int
    case Octets(_) => 'x' as int
    case Array(_) => 'A' as int
    case Timestamp(_) => 'T' as int
    case Table(_) => 'F' as int
    case Unsupported(k) => k
  }

  predicate Fixed(v: FieldValue)
    ensures Fixed(v) <==> !(v.Decimal? || v.Utf8? || v.Octets? || v.Array? || v.Table? || v.Unsupported?)
  {
    FixedWidth(KindOf(v)).Some?
  }

  /** The C cast from a signed integer to the unsigned type whose range is `0..range`. */
  function ToUnsigned(i: int, range: int): int {
    if i < 0 then i + range else i
  }

  /** The C cast back. */
  function ToSigned(u: int, range: int): int {
    if u >= range / 2 then u - range else u
  }

  /** The unsigned integer that the encoder writes for a value of a fixed-width kind. */
  function RawOf(v: FieldValue): nat
    requires Fixed(v)
  {
    match v
    case Void => 0
    case Boolean(t) => if t != 0 then 1 else 0
    case I8(i) => ToUnsigned(i, 0x100)
    case U8(u) => u
    case I16(i) => ToUnsigned(i, 0x1_0000)
    case U16(u) => u
    case I32(i) => ToUnsigned(i, 0x1_0000_0000)
    case U32(u) => u
    case I64(i) => ToUnsigned(i, 0x1_0000_0000_0000_0000)
    case U64(u) => u
    case F32(u) => u
    case F64(u) => u
    case Timestamp(u) => u
  }

  /** The value that the decoder stores for the integer it read under kind `k`. */
  function FromRaw(k: byte, raw: nat): FieldValue
    requires FixedWidth(k).Some? && raw < Pow256(FixedWidth(k).value)
  {
    Pow256Values();
    if k == 'V' as int then Void
    else if k == 't' as int then Boolean(if raw != 0 then 1 else 0)
    else if k == 'b' as int then I8(ToSigned(raw, 0x100))
    else if k == 'B' as int then U8(raw)
    else if k == 's' as int then I16(ToSigned(raw, 0x1_0000))
    else if k == 'u' as int then U16(raw)
    else if k == 'I' as int then I32(ToSigned(raw, 0x1_0000_0000))
    else if k == 'i' as int then U32(raw)
    else if k == 'l' as int then I64(ToSigned(raw, 0x1_0000_0000_0000_0000))
    else if k == 'L' as int then U64(raw)
    else if k == 'f' as int then F32(raw)
    else if k == 'd' as int then F64(raw)
    else Timestamp(raw)
  }

  // ---------------------------------------------------------------- the wire form

  /** A 32-bit length followed by that many bytes. */
  function LongString(b: bytes): bytes {
    BE(4, |b|) + b
  }

  function ValueBytes(v: FieldValue): (b: bytes)
    ensures |b| >= 1
    decreases v, 1
  {
    [KindOf(v)] +
    if Fixed(v) then BE(FixedWidth(KindOf(v)).value, RawOf(v))
    else if v.Decimal? then [v.decimals] + BE(4, v.value)
    else if v.Utf8? then LongString(v.text)
    else if v.Octets? then LongString(v.data)
    else if v.Array? then LongString(ItemsBytes(v.items))
    else if v.Table? then LongString(EntriesBytes(v.entries))
    else []
  }

  function ItemsBytes(items: seq<FieldValue>): bytes
    decreases items, 0
  {
    if items == [] then [] else ValueBytes(items[0]) + ItemsBytes(items[1..])
  }

  /** The key length is cast to eight bits; the key itself is written whole. */
  function KeyBytes(key: bytes): (b: bytes)
    ensures |b| == 1 + |key|
  {
    [|key| % 256] + key
  }

  function EntriesBytes(entries: seq<Entry>): bytes
    decreases entries, 0
  {
    if entries == [] then []
    else EntryBytes(entries[0]) + EntriesBytes(entries[1..])
  }

  function EntryBytes(e: Entry): (b: bytes)
    ensures |b| >= 1
    decreases e, 2
  {
    KeyBytes(e.key) + ValueBytes(e.value)
  }

  // ---------------------------------------------------------------- reading it back

  /** A fixed-width payload under kind `k`. */
  function FixedAt(s: bytes, off: nat, k: byte): (r: Option<(FieldValue, nat)>)
    requires FixedWidth(k).Some?
    ensures r.Some? ==> off <= r.value.1 <= |s|
  {
    var w := FixedWidth(k).value;
    if off + w > |s| then None
    else
      BEInvertsFromBE(s[off..off + w]);
      Some((FromRaw(k, FromBE(s[off..off + w])), off + w))
  }

  function DecimalAt(s: bytes, off: nat): (r: Option<(FieldValue, nat)>)
    ensures r.Some? ==> off < r.value.1 <= |s|
  {
    if off + 5 > |s| then None
    else
      BEInvertsFromBE(s[off + 1..off + 5]);
      Pow256Values();
      Some((Decimal(s[off], FromBE(s[off + 1..off + 5])), off + 5))
  }

  /** The 32-bit length at `off` and the end of the bytes it announces, if they are there. */
  function LengthAt(s: bytes, off: nat): (r: Option<nat>)
    ensures r.Some? ==> off + 4 <= r.value <= |s|
    ensures r.Some? ==> ReadBE(s, off, 4) == Some(r.value - off - 4)
  {
    match ReadBE(s, off, 4)
    case None => None
    case Some(n) => if off + 4 + n > |s| then None else Some(off + 4 + n)
  }

  /** The value that stands at `off` and the offset after it, if the bytes decode. */
  function ValueAt(s: bytes, off: nat): (r: Option<(FieldValue, nat)>)
    ensures r.Some? ==> off < r.value.1 <= |s|
    decreases |s| - off, 0
  {
    if off >= |s| then None
    else
      var k := s[off];
      if FixedWidth(k).Some? then FixedAt(s, off + 1, k)
      else if k == 'D' as int then DecimalAt(s, off + 1)
      else if k == 'S' as int || k == 'x' as int then
        match LengthAt(s, off + 1)
        case None => None
        case Some(end) =>
          var b := s[off + 5..end];
          Some((if k == 'S' as int then Utf8(b) else Octets(b), end))
      else if k == 'A' as int then
        match ArrayAt(s, off + 1)
        case None => None
        case Some((items, end)) => Some((Array(items), end))
      else if k == 'F' as int then
        match TableAt(s, off + 1)
        case None => None
        case Some((entries, end)) => Some((Table(entries), end))
      else None
  }

  function ArrayAt(s: bytes, off: nat): (r: Option<(seq<FieldValue>, nat)>)
    ensures r.Some? ==> LengthAt(s, off).Some? && LengthAt(s, off).value <= r.value.1 <= |s|
    decreases |s| - off, 2
  {
    match LengthAt(s, off)
    case None => None
    case Some(limit) => ItemsAt(s, off + 4, limit)
  }

  /** The values from `off` on, until one ends at or after `limit`. A value is bounded by
      the buffer only, so the last one may end beyond `limit`. */
  function ItemsAt(s: bytes, off: nat, limit: nat): (r: Option<(seq<FieldValue>, nat)>)
    requires limit <= |s|
    ensures r.Some? ==> limit <= r.value.1 && off <= r.value.1 && (off <= |s| ==> r.value.1 <= |s|)
    decreases |s| - off, 1
  {
    if off >= limit then Some(([], off))
    else
      match ValueAt(s, off)
      case None => None
      case Some((v, next)) =>
        match ItemsAt(s, next, limit)
        case None => None
        case Some((rest, end)) => Some(([v] + rest, end))
  }

  /** A table: the decoder's result begins and ends inside the buffer, at or after the
      limit that the length announced. */
  function TableAt(s: bytes, off: nat): (r: Option<(seq<Entry>, nat)>)
    ensures r.Some? ==> LengthAt(s, off).Some? && LengthAt(s, off).value <= r.value.1 <= |s|
    decreases |s| - off, 2
  {
    match LengthAt(s, off)
    case None => None
    case Some(limit) => EntriesAt(s, off + 4, limit)
  }

  function EntriesAt(s: bytes, off: nat, limit: nat): (r: Option<(seq<Entry>, nat)>)
    requires limit <= |s|
    ensures r.Some? ==> limit <= r.value.1 && off <= r.value.1 && (off <= |s| ==> r.value.1 <= |s|)
    decreases |s| - off, 1
  {
    if off >= limit then Some(([], off))
    else
      match EntryAt(s, off)
      case None => None
      case Some((e, next)) =>
        match EntriesAt(s, next, limit)
        case None => None
        case Some((rest, end)) => Some(([e] + rest, end))
  }

  function EntryAt(s: bytes, off: nat): (r: Option<(Entry, nat)>)
    ensures r.Some? ==> off < r.value.1 <= |s|
    decreases |s| - off, 0
  {
    if off >= |s| || off + 1 + s[off] > |s| then None
    else
      match ValueAt(s, off + 1 + s[off])
      case None => None
      case Some((v, next)) => Some((Entry(s[off + 1..off + 1 + s[off]], v), next))
  }

  // ---------------------------------------------------------------- the round trip

  /** Every kind is known and every key length survives the cast to eight bits. */
  predicate Codable(v: FieldValue)
    decreases v, 1
  {
    if v.Array? then ItemsCodable(v.items)
    else if v.Table? then EntriesCodable(v.entries)
    else !v.Unsupported?
  }

  predicate ItemsCodable(items: seq<FieldValue>)
    decreases items, 0
  {
    items == [] || (Codable(items[0]) && ItemsCodable(items[1..]))
  }

  predicate EntriesCodable(entries: seq<Entry>)
    decreases entries, 0
  {
    entries == [] || (EntryCodable(entries[0]) && EntriesCodable(entries[1..]))
  }

  predicate EntryCodable(e: Entry)
    decreases e, 2
  {
    |e.key| <= 255 && Codable(e.value)
  }

  /** The value with every boolean replaced by 0 or 1. */
  function Normal(v: FieldValue): FieldValue
    decreases v, 1
  {
    if v.Boolean? then Boolean(if v.truth != 0 then 1 else 0)
    else if v.Array? then Array(ItemsNormal(v.items))
    else if v.Table? then Table(EntriesNormal(v.entries))
    else v
  }

  function ItemsNormal(items: seq<FieldValue>): seq<FieldValue>
    decreases items, 0
  {
    if items == [] then [] else [Normal(items[0])] + ItemsNormal(items[1..])
  }

  function EntriesNormal(entries: seq<Entry>): seq<Entry>
    decreases entries, 0
  {
    if entries == [] then []
    else [EntryNormal(entries[0])] + EntriesNormal(entries[1..])
  }

  function EntryNormal(e: Entry): Entry
    decreases e, 2
  {
    Entry(e.key, Normal(e.value))
  }

  lemma FixedRoundTrip(v: FieldValue)
    requires Fixed(v)
    ensures RawOf(v) < Pow256(FixedWidth(KindOf(v)).value)
    ensures FromRaw(KindOf(v), RawOf(v)) == Normal(v)
  {
    Pow256Values();
  }

  lemma LongStringAt(s: bytes, off: nat, b: bytes)
    requires At(s, off, LongString(b)) && |b| < 0x1_0000_0000
    ensures LengthAt(s, off) == Some(off + 4 + |b|) && At(s, off + 4, b)
  {
    AtConcat(s, off, BE(4, |b|), b);
    Pow256Values();
    ReadBack(s, off, 4, |b|);
  }

  lemma FixedAtOffset(s: bytes, off: nat, v: FieldValue)
    requires Fixed(v)
    requires At(s, off, BE(FixedWidth(KindOf(v)).value, RawOf(v)))
    ensures FixedAt(s, off, KindOf(v)) == Some((Normal(v), off + FixedWidth(KindOf(v)).value))
  {
    hide RawOf, FromRaw, FixedWidth, KindOf, Normal, BE, FromBE, Pow256, At, FixedAt;
    FixedRoundTrip(v);
    var w := FixedWidth(KindOf(v)).value;
    FromBEInvertsBE(w, RawOf(v));
    FixedAtBytes(s, off, KindOf(v), BE(w, RawOf(v)));
  }

  lemma FixedAtBytes(s: bytes, off: nat, k: byte, b: bytes)
    requires FixedWidth(k) == Some(|b|) && At(s, off, b) && FromBE(b) < Pow256(|b|)
    ensures FixedAt(s, off, k) == Some((FromRaw(k, FromBE(b)), off + |b|))
  {
    hide FixedWidth, FromRaw, BE, FromBE, Pow256;
  }

  lemma DecimalAtOffset(s: bytes, off: nat, d: byte, n: uint32)
    requires At(s, off, [d] + BE(4, n))
    ensures DecimalAt(s, off) == Some((Decimal(d, n), off + 5))
  {
    AtConcat(s, off, [d], BE(4, n));
    assert s[off..off + 1][0] == d;
    Pow256Values();
    FromBEInvertsBE(4, n);
  }

  lemma FixedValueRoundTrip(s: bytes, off: nat, v: FieldValue)
    requires Fixed(v) && At(s, off, ValueBytes(v))
    ensures Codable(v) && ValueAt(s, off) == Some((Normal(v), off + |ValueBytes(v)|))
  {
    hide BE, FromBE, RawOf, FixedAt, At;
    var body := BE(FixedWidth(KindOf(v)).value, RawOf(v));
    assert ValueBytes(v) == [KindOf(v)] + body;
    AtConcat(s, off, [KindOf(v)], body);
    AtByte(s, off, KindOf(v));
    FixedAtOffset(s, off + 1, v);
  }

  lemma PlainRoundTrip(s: bytes, off: nat, v: FieldValue)
    requires !Fixed(v) && !v.Array? && !v.Table?
    requires At(s, off, ValueBytes(v)) && |ValueBytes(v)| < 0x1_0000_0000
    ensures Codable(v) ==> ValueAt(s, off) == Some((Normal(v), off + |ValueBytes(v)|))
    ensures !Codable(v) ==> ValueAt(s, off).None?
  {
    hide BE, FromBE, LengthAt, FixedAt, DecimalAt, At;
    var body := ValueBytes(v)[1..];
    assert ValueBytes(v) == [KindOf(v)] + body;
    AtConcat(s, off, [KindOf(v)], body);
    AtByte(s, off, KindOf(v));
    if v.Decimal? {
      DecimalAtOffset(s, off + 1, v.decimals, v.value);
    } else if v.Utf8? {
      LongStringAt(s, off + 1, v.text);
      AtSlice(s, off + 5, v.text);
    } else if v.Octets? {
      LongStringAt(s, off + 1, v.data);
      AtSlice(s, off + 5, v.data);
    }
  }

  lemma ArrayValueAt(s: bytes, off: nat, items: seq<FieldValue>)
    requires At(s, off, ValueBytes(Array(items)))
    ensures At(s, off + 1, LongString(ItemsBytes(items))) && |ValueBytes(Array(items))| == 5 + |ItemsBytes(items)|
    ensures ValueAt(s, off) ==
      if ArrayAt(s, off + 1).None? then None
      else Some((Array(ArrayAt(s, off + 1).value.0), ArrayAt(s, off + 1).value.1))
  {
    hide BE, ItemsBytes, ArrayAt, At;
    AtConcat(s, off, ['A' as int], LongString(ItemsBytes(items)));
    AtByte(s, off, 'A' as int);
  }

  lemma TableValueAt(s: bytes, off: nat, entries: seq<Entry>)
    requires At(s, off, ValueBytes(Table(entries)))
    ensures At(s, off + 1, LongString(EntriesBytes(entries)))
    ensures |ValueBytes(Table(entries))| == 5 + |EntriesBytes(entries)|
    ensures ValueAt(s, off) ==
      if TableAt(s, off + 1).None? then None
      else Some((Table(TableAt(s, off + 1).value.0), TableAt(s, off + 1).value.1))
  {
    hide BE, EntriesBytes, TableAt, At;
    AtConcat(s, off, ['F' as int], LongString(EntriesBytes(entries)));
    AtByte(s, off, 'F' as int);
  }

  /** A value written below 4 GiB reads back as itself, with exactly its bytes consumed,
      if and only if it is codable. */
  lemma {:induction false} ValueRoundTrip(s: bytes, off: nat, v: FieldValue)
    requires At(s, off, ValueBytes(v)) && |ValueBytes(v)| < 0x1_0000_0000
    ensures Codable(v) ==> ValueAt(s, off) == Some((Normal(v), off + |ValueBytes(v)|))
    ensures !Codable(v) ==> ValueAt(s, off).None? || ValueAt(s, off).value.0 != Normal(v)
    decreases v, 1
  {
    hide ValueBytes, ValueAt, ItemsBytes, EntriesBytes, ArrayAt, TableAt, ItemsNormal, EntriesNormal, ItemsCodable,
      EntriesCodable, LongString, At;
    if Fixed(v) {
      FixedValueRoundTrip(s, off, v);
    } else if v.Array? {
      ArrayValueAt(s, off, v.items);
      ArrayRoundTrip(s, off + 1, v.items);
    } else if v.Table? {
      TableValueAt(s, off, v.entries);
      TableRoundTrip(s, off + 1, v.entries);
    } else {
      PlainRoundTrip(s, off, v);
    }
  }

  lemma AtByte(s: bytes, off: nat, b: byte)
    requires At(s, off, [b])
    ensures off < |s| && s[off] == b
  {
    assert s[off..off + 1][0] == b;
  }

  lemma AtSlice(s: bytes, off: nat, b: bytes)
    requires At(s, off, b)
    ensures off + |b| <= |s| && s[off..off + |b|] == b
  {
  }

  lemma {:induction false} ArrayRoundTrip(s: bytes, off: nat, items: seq<FieldValue>)
    requires At(s, off, LongString(ItemsBytes(items))) && |ItemsBytes(items)| < 0x1_0000_0000
    ensures ItemsCodable(items) ==>
              ArrayAt(s, off) == Some((ItemsNormal(items), off + 4 + |ItemsBytes(items)|))
    ensures !ItemsCodable(items) ==> ArrayAt(s, off).None? || ArrayAt(s, off).value.0 != ItemsNormal(items)
    decreases items, 1
  {
    hide ItemsBytes, ItemsAt, ItemsNormal, ItemsCodable, BE, FromBE;
    LongStringAt(s, off, ItemsBytes(items));
    ItemsRoundTrip(s, off + 4, items);
  }

  lemma {:induction false} ItemsRoundTrip(s: bytes, off: nat, items: seq<FieldValue>)
    requires At(s, off, ItemsBytes(items)) && |ItemsBytes(items)| < 0x1_0000_0000
    ensures ItemsCodable(items) ==>
              ItemsAt(s, off, off + |ItemsBytes(items)|) == Some((ItemsNormal(items), off + |ItemsBytes(items)|))
    ensures !ItemsCodable(items) ==>
              var r := ItemsAt(s, off, off + |ItemsBytes(items)|);
              r.None? || r.value.0 != ItemsNormal(items)
    decreases items, 0
  {
    hide ValueBytes, ValueAt, Normal, Codable;
    if items != [] {
      var head := ValueBytes(items[0]);
      AtConcat(s, off, head, ItemsBytes(items[1..]));
      ValueRoundTrip(s, off, items[0]);
      ItemsRoundTrip(s, off + |head|, items[1..]);
      var r := ItemsAt(s, off, off + |ItemsBytes(items)|);
      if !ItemsCodable(items) && r.Some? {
        assert r.value.0[0] != ItemsNormal(items)[0] || r.value.0[1..] != ItemsNormal(items)[1..];
      }
    }
  }

  /** The same for a whole table, as it stands in method arguments and header frames. */
  lemma {:induction false} TableRoundTrip(s: bytes, off: nat, entries: seq<Entry>)
    requires At(s, off, LongString(EntriesBytes(entries))) && |EntriesBytes(entries)| < 0x1_0000_0000
    ensures EntriesCodable(entries) ==>
              TableAt(s, off) == Some((EntriesNormal(entries), off + 4 + |EntriesBytes(entries)|))
    ensures !EntriesCodable(entries) ==>
              TableAt(s, off).None? || TableAt(s, off).value.0 != EntriesNormal(entries)
    decreases entries, 1
  {
    hide EntriesBytes, EntriesAt, EntriesNormal, EntriesCodable, BE, FromBE;
    LongStringAt(s, off, EntriesBytes(entries));
    EntriesRoundTrip(s, off + 4, entries);
  }

  lemma {:induction false} EntriesRoundTrip(s: bytes, off: nat, entries: seq<Entry>)
    requires At(s, off, EntriesBytes(entries)) && |EntriesBytes(entries)| < 0x1_0000_0000
    ensures EntriesCodable(entries) ==>
              EntriesAt(s, off, off + |EntriesBytes(entries)|)
              == Some((EntriesNormal(entries), off + |EntriesBytes(entries)|))
    ensures !EntriesCodable(entries) ==>
              var r := EntriesAt(s, off, off + |EntriesBytes(entries)|);
              r.None? || r.value.0 != EntriesNormal(entries)
    decreases entries, 0
  {
    hide EntryBytes, EntryAt, EntryNormal, EntryCodable;
    if entries != [] {
      var head := EntryBytes(entries[0]);
      AtConcat(s, off, head, EntriesBytes(entries[1..]));
      EntryRoundTrip(s, off, entries[0]);
      EntriesRoundTrip(s, off + |head|, entries[1..]);
      var r := EntriesAt(s, off, off + |EntriesBytes(entries)|);
      if !EntriesCodable(entries) && r.Some? {
        assert r.value.0[0] != EntriesNormal(entries)[0] || r.value.0[1..] != EntriesNormal(entries)[1..];
      }
    }
  }

  lemma {:induction false} EntryRoundTrip(s: bytes, off: nat, e: Entry)
    requires At(s, off, EntryBytes(e)) && |EntryBytes(e)| < 0x1_0000_0000
    ensures EntryCodable(e) ==> EntryAt(s, off) == Some((EntryNormal(e), off + |EntryBytes(e)|))
    ensures !EntryCodable(e) ==> EntryAt(s, off).None? || EntryAt(s, off).value.0 != EntryNormal(e)
    decreases e, 2
  {
    hide ValueBytes, ValueAt, Normal, Codable;
    AtConcat(s, off, KeyBytes(e.key), ValueBytes(e.value));
    AtConcat(s, off, [|e.key| % 256], e.key);
    AtByte(s, off, |e.key| % 256);
    if |e.key| <= 255 {
      ValueRoundTrip(s, off + 1 + |e.key|, e.value);
    }
  }

  // ---------------------------------------------------------------- decoder totality

  /** How deeply tables and arrays are nested in a value. */
  function Depth(v: FieldValue): nat
    decreases v, 1
  {
    if v.Array? then 1 + ItemsDepth(v.items)
    else if v.Table? then 1 + EntriesDepth(v.entries)
    else 0
  }

  function Max(a: nat, b: nat): nat { if a > b then a else b }

  function ItemsDepth(items: seq<FieldValue>): nat
    decreases items, 0
  {
    if items == [] then 0 else Max(Depth(items[0]), ItemsDepth(items[1..]))
  }

  function EntriesDepth(entries: seq<Entry>): nat
    decreases entries, 0
  {
    if entries == [] then 0 else Max(Depth(entries[0].value), EntriesDepth(entries[1..]))
  }

  /** On any bytes whatever, each level of nesting in a decoded value has cost at least
      five bytes of input, so recursion depth is bounded by a fifth of the buffer. */
  lemma {:induction false} NestingCostsInput(s: bytes, off: nat)
    ensures ValueAt(s, off).Some? ==> 5 * Depth(ValueAt(s, off).value.0) <= ValueAt(s, off).value.1 - off
    decreases |s| - off, 0
  {
    if off < |s| && ValueAt(s, off).Some? {
      var k := s[off];
      if FixedWidth(k).None? && k in {'A' as int, 'F' as int} {
        var limit := LengthAt(s, off + 1).value;
        if k == 'A' as int {
          ItemsNestingCostsInput(s, off + 5, limit);
        } else {
          EntriesNestingCostsInput(s, off + 5, limit);
        }
      }
    }
  }

  lemma {:induction false} ItemsNestingCostsInput(s: bytes, off: nat, limit: nat)
    requires limit <= |s|
    ensures ItemsAt(s, off, limit).Some? ==>
              5 * ItemsDepth(ItemsAt(s, off, limit).value.0) <= ItemsAt(s, off, limit).value.1 - off
    decreases |s| - off, 1
  {
    if off < limit && ItemsAt(s, off, limit).Some? {
      NestingCostsInput(s, off);
      ItemsNestingCostsInput(s, ValueAt(s, off).value.1, limit);
      var items := ItemsAt(s, off, limit).value.0;
      assert items[1..] == ItemsAt(s, ValueAt(s, off).value.1, limit).value.0;
    }
  }

  lemma {:induction false} EntriesNestingCostsInput(s: bytes, off: nat, limit: nat)
    requires limit <= |s|
    ensures EntriesAt(s, off, limit).Some? ==>
              5 * EntriesDepth(EntriesAt(s, off, limit).value.0) <= EntriesAt(s, off, limit).value.1 - off
    decreases |s| - off, 1
  {
    if off < limit && EntriesAt(s, off, limit).Some? {
      NestingCostsInput(s, off + 1 + s[off]);
      EntriesNestingCostsInput(s, EntryAt(s, off).value.1, limit);
      var entries := EntriesAt(s, off, limit).value.0;
      assert entries[1..] == EntriesAt(s, EntryAt(s, off).value.1, limit).value.0;
    }
  }
}
