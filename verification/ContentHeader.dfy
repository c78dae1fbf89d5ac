/** Content headers (section 4.2.6.1 of the AMQP 0-9-1 specification): the chain of 16-bit
    property flag words, the flag numbering of `genHrl`, and the property lists that the
    generated encoders and decoders walk. */
module ContentHeader {
  import opened Bytes
  import opened FieldTable
  import opened Statuses
  import opened TableCodec
  import opened Generator

  // ---------------------------------------------------------------- flag words

  /** `flags & 0xFFFE`: fifteen flags, the continuation bit clear. */
  function Fifteen(flags: nat): (w: uint16)
    ensures w % 2 == 0
  {
    flags % 0x1_0000 / 2 * 2
  }

  /** The words that the encoder's do-while loop writes: bit 0 is set in all but the last. */
  function FlagWords(flags: uint32): (words: seq<uint16>)
    ensures 1 <= |words|
  {
    var remainder := flags / 0x1_0000;
    if remainder != 0 then [Fifteen(flags) + 1] + FlagWords(remainder) else [Fifteen(flags)]
  }

  function WordsBytes(words: seq<uint16>): (b: bytes)
    ensures |b| == 2 * |words|
  {
    if words == [] then [] else BE(2, words[0]) + WordsBytes(words[1..])
  }

  /** What the decoder's loop leaves: the flags and the offset, a word missing, or a third
      word, which C would shift by the full width of its type. */
  datatype FlagRead = Flags(flags: uint32, off: nat) | TooShort | UndefinedShift

  /** `flags | (partial << 16 * index)`: the words of a chain occupy different bits. */
  function ReadFlags(s: bytes, off: nat, flags: uint32, index: nat): (r: FlagRead)
    requires index == 0 ==> flags == 0
    requires index == 1 ==> flags < 0x1_0000
    ensures r.Flags? ==> off < r.off <= |s|
    decreases |s| - off
  {
    match ReadBE(s, off, 2)
    case None => TooShort
    case Some(partial) =>
      BEInvertsFromBE(s[off..off + 2]);
      Pow256Values();
      if index >= 2 then UndefinedShift
      else
        var flags' := flags + (if index == 0 then partial else partial * 0x1_0000);
        if partial % 2 == 1 then ReadFlags(s, off + 2, flags', index + 1) else Flags(flags', off + 2)
  }

  /** The flags that come back: bit 16 cleared, and bit 0 saying whether a second word followed. */
  function Echoed(flags: uint32): uint32 {
    var remainder := flags / 0x1_0000;
    if remainder == 0 then Fifteen(flags) else Fifteen(flags) + 1 + Fifteen(remainder) * 0x1_0000
  }

  /** Every 32-bit flag word goes out in one or two words and comes back as `Echoed`. */
  lemma FlagsEcho(flags: uint32, s: bytes, off: nat)
    requires At(s, off, WordsBytes(FlagWords(flags)))
    ensures ReadFlags(s, off, 0, 0) == Flags(Echoed(flags), off + |WordsBytes(FlagWords(flags))|)
  {
    hide BE, FromBE;
    var words := FlagWords(flags);
    var rest := WordsBytes(words[1..]);
    AtConcat(s, off, BE(2, words[0]), rest);
    Pow256Values();
    ReadBack(s, off, 2, words[0]);
    if |words| > 1 {
      assert words[1..] == [Fifteen(flags / 0x1_0000)];
      assert words[1..][1..] == [];
      assert rest == BE(2, words[1]) + [];
      AtConcat(s, off + 2, BE(2, words[1]), []);
      ReadBack(s, off + 2, 2, words[1]);
    }
  }

  function Pow2(n: nat): (p: nat)
    ensures p >= 1
  {
    if n == 0 then 1 else 2 * Pow2(n - 1)
  }

  /** The bits of a number cut at bit `j` into a high and a low part. */
  lemma {:induction false} BitOfParts(hi: nat, lo: nat, j: nat, n: nat)
    requires lo < Pow2(j)
    ensures BitOf(hi * Pow2(j) + lo, n) <==> if n < j then BitOf(lo, n) else BitOf(hi, n - j)
  {
    if j > 0 {
      var x, q := hi * Pow2(j) + lo, Pow2(j - 1);
      assert x == 2 * (hi * q) + lo;
      assert x / 2 == hi * q + lo / 2 && x % 2 == lo % 2;
      if n > 0 {
        BitOfParts(hi, lo / 2, j - 1, n - 1);
      }
    }
  }

  lemma Pow2Sixteen()
    ensures Pow2(16) == 0x1_0000
  {
    assert Pow2(4) == 16;
    assert Pow2(8) == 16 * Pow2(4);
    assert Pow2(12) == 16 * Pow2(8);
  }

  lemma BitOfHalves(x: nat, n: nat)
    ensures BitOf(x, n) <==> if n < 16 then BitOf(x % 0x1_0000, n) else BitOf(x / 0x1_0000, n - 16)
  {
    hide BitOf;
    Pow2Sixteen();
    BitOfParts(x / 0x1_0000, x % 0x1_0000, 16, n);
  }

  lemma EchoHalves(flags: uint32)
    ensures Echoed(flags) % 0x1_0000 / 2 == flags % 0x1_0000 / 2
    ensures Echoed(flags) / 0x1_0000 / 2 == flags / 0x1_0000 / 2
    ensures Echoed(flags) % 0x1_0000 % 2 == if flags >= 0x1_0000 then 1 else 0
    ensures Echoed(flags) / 0x1_0000 % 2 == 0
  {
  }

  lemma SameAboveBitZero(x: nat, y: nat, n: nat)
    requires x / 2 == y / 2 && n > 0
    ensures BitOf(x, n) <==> BitOf(y, n)
  {
  }

  /** Decoder and encoder agree on every bit but the two continuation positions, 0 and 16. */
  lemma EchoKeepsFlags(flags: uint32, n: nat)
    ensures n != 0 && n != 16 ==> (BitOf(Echoed(flags), n) <==> BitOf(flags, n))
    ensures BitOf(Echoed(flags), 0) <==> flags >= 0x1_0000
    ensures !BitOf(Echoed(flags), 16)
  {
    hide Echoed;
    EchoHalves(flags);
    BitOfHalves(Echoed(flags), 16);
    BitOfHalves(Echoed(flags), 0);
    BitOfHalves(Echoed(flags), n);
    BitOfHalves(flags, n);
    if 0 < n < 16 {
      SameAboveBitZero(Echoed(flags) % 0x1_0000, flags % 0x1_0000, n);
    } else if n > 16 {
      SameAboveBitZero(Echoed(flags) / 0x1_0000, flags / 0x1_0000, n - 16);
    }
  }

  /** A flag word survives whole exactly when bit 16 is clear and bit 0 already says whether
      a second word follows. */
  lemma EchoExact(flags: uint32)
    ensures Echoed(flags) == flags <==> !BitOf(flags, 16) && (BitOf(flags, 0) <==> flags >= 0x1_0000)
  {
    hide Echoed;
    EchoHalves(flags);
    BitOfHalves(flags, 16);
    BitOfHalves(flags, 0);
  }

  // ---------------------------------------------------------------- flag numbering

  /** The bit of the `k`-th property of a class: fifteen to a word, from bit 15 downwards. */
  function FlagBit(k: nat): nat {
    k / 15 * 16 + 15 - k % 15
  }

  /** The numbering loop of `genHrl`, for a class with `count` properties. */
  method NumberFlags(count: nat) returns (bits: seq<nat>)
    ensures bits == seq(count, k requires 0 <= k < count => FlagBit(k))
  {
    hide FlagBit;
    bits := [];
    var index := 0;
    for i := 0 to count
      invariant index == (if i == 0 then 0 else i + (i - 1) / 15)
      invariant |bits| == i && forall k :: 0 <= k < i ==> bits[k] == FlagBit(k)
    {
      if index % 16 == 15 {
        index := index + 1;
      }
      FlagIndex(i, index);
      var shortnum := index / 16;
      var partialindex := 15 - index % 16;
      bits := bits + [shortnum * 16 + partialindex];
      index := index + 1;
    }
  }

  lemma FlagIndex(i: nat, index: nat)
    requires index == i + i / 15
    ensures index / 16 == i / 15 && index % 16 == i % 15
    ensures FlagBit(i) == index / 16 * 16 + (15 - index % 16)
  {
  }

  /** Distinct properties get distinct bits, none is a continuation position, and the first
      thirty fit a 32-bit flag word. */
  lemma FlagBitsDistinct(j: nat, k: nat)
    ensures FlagBit(j) == FlagBit(k) <==> j == k
    ensures FlagBit(k) % 16 != 0
    ensures FlagBit(k) < 32 <==> k < 30
  {
    assert FlagBit(k) / 16 == k / 15 && FlagBit(k) % 16 == 15 - k % 15;
    assert FlagBit(j) / 16 == j / 15 && FlagBit(j) % 16 == 15 - j % 15;
  }

  /** The test `flags & FLAG` for property `k`. */
  predicate Has(flags: nat, k: nat) {
    BitOf(flags, FlagBit(k))
  }

  lemma EchoHas(flags: uint32, k: nat)
    ensures Has(Echoed(flags), k) <==> Has(flags, k)
  {
    hide Echoed, BitOf, FlagBit;
    FlagBitsDistinct(k, k);
    EchoKeepsFlags(flags, FlagBit(k));
  }

  // ---------------------------------------------------------------- property lists

  type PropertyTypes = types: seq<FieldType> | |types| <= 30 && Bit !in types witness []

  /** content-type to cluster-id, in declaration order. */
  const BASIC_PROPERTIES: seq<FieldType> :=
    [Str(1), Str(1), TableField, Simple(1), Simple(1), Str(1), Str(1), Str(1), Str(1), Simple(8), Str(1), Str(1),
     Str(1), Str(1)]

  const BASIC_CLASS := 60

  /** The properties of each class the generated switch knows; only basic has any. */
  function ClassProperties(classId: nat): Option<PropertyTypes> {
    if classId == BASIC_CLASS then Some(BASIC_PROPERTIES)
    else if classId in {10, 20, 30, 40, 50, 85, 90} then Some([])
    else None
  }

  /** The flagged properties from the `k`-th on. */
  function PropBytes(types: PropertyTypes, vals: seq<FieldVal>, flags: uint32, k: nat): bytes
    requires AllTyped(types, vals) && k <= |types|
    decreases |types| - k
  {
    if k == |types| then []
    else
      assert types[k] in types;
      (if Has(flags, k) then FieldBytes(types[k], vals[k]) else []) + PropBytes(types, vals, flags, k + 1)
  }

  function HeaderBytes(types: PropertyTypes, vals: seq<FieldVal>, flags: uint32): bytes
    requires AllTyped(types, vals)
  {
    WordsBytes(FlagWords(flags)) + PropBytes(types, vals, flags, 0)
  }

  predicate FlaggedWritable(types: PropertyTypes, vals: seq<FieldVal>, flags: uint32, k: nat)
    requires AllTyped(types, vals)
  {
    forall j :: k <= j < |types| && Has(flags, j) ==> Writable(types[j], vals[j])
  }

  predicate FlaggedCodable(types: PropertyTypes, vals: seq<FieldVal>, flags: uint32, k: nat)
    requires AllTyped(types, vals)
  {
    forall j :: k <= j < |types| && Has(flags, j) ==> FieldCodable(vals[j])
  }

  /** The structure and the offset after the flagged properties from the `k`-th on; members
      whose flag is clear keep whatever the pool memory held. */
  function ReadProps(types: PropertyTypes, s: bytes, off: nat, flags: uint32, k: nat, fields: seq<FieldVal>):
    (r: Option<(seq<FieldVal>, nat)>)
    requires k <= |types| == |fields|
    ensures r.Some? ==> |r.value.0| == |fields| && forall j :: 0 <= j < k ==> r.value.0[j] == fields[j]
    decreases |types| - k
  {
    if k == |types| then Some((fields, off))
    else if !Has(flags, k) then ReadProps(types, s, off, flags, k + 1, fields)
    else
      assert types[k] in types;
      match FieldAt(types[k], s, off)
      case None => None
      case Some((v, end)) => ReadProps(types, s, end, flags, k + 1, fields[k := v])
  }

  /** Every flagged member reads back normalized. */
  predicate FlaggedNormal(types: PropertyTypes, vals: seq<FieldVal>, flags: uint32, fields: seq<FieldVal>, n: nat)
    requires AllTyped(types, vals) && n <= |types|
  {
    |fields| == |types| && forall j :: 0 <= j < n && Has(flags, j) ==> fields[j] == NormalField(vals[j])
  }

  lemma {:induction false} PropsRoundTrip(types: PropertyTypes, vals: seq<FieldVal>, s: bytes, off: nat, flags: uint32,
                                         k: nat, fields: seq<FieldVal>)
    requires AllTyped(types, vals) && k <= |types| && FlaggedWritable(types, vals, flags, k)
    requires At(s, off, PropBytes(types, vals, flags, k)) && |PropBytes(types, vals, flags, k)| < 0x1_0000_0000
    requires FlaggedNormal(types, vals, flags, fields, k)
    ensures var r := ReadProps(types, s, off, flags, k, fields);
      if FlaggedCodable(types, vals, flags, k) then
        r.Some? && r.value.1 == off + |PropBytes(types, vals, flags, k)|
        && FlaggedNormal(types, vals, flags, r.value.0, |types|)
      else r.None? || !FlaggedNormal(types, vals, flags, r.value.0, |types|)
    decreases |types| - k
  {
    hide FieldBytes, FieldAt, Typed, Writable, FieldCodable, NormalField, Has;
    if k < |types| {
      var rest := PropBytes(types, vals, flags, k + 1);
      assert types[k] in types;
      if Has(flags, k) {
        var head := FieldBytes(types[k], vals[k]);
        AtConcat(s, off, head, rest);
        FieldRoundTrip(types[k], vals[k], s, off);
        if FieldCodable(vals[k]) {
          PropsRoundTrip(types, vals, s, off + |head|, flags, k + 1, fields[k := NormalField(vals[k])]);
        }
      } else {
        assert [] + rest == rest;
        PropsRoundTrip(types, vals, s, off, flags, k + 1, fields);
      }
    }
  }

  /** The decoded property structure: flags, members, and the offset after them. */
  function ReadHeader(types: PropertyTypes, s: bytes, off: nat, memory: seq<FieldVal>):
    Option<(uint32, seq<FieldVal>, nat)>
    requires |memory| == |types|
  {
    match ReadFlags(s, off, 0, 0)
    case Flags(flags, next) =>
      (match ReadProps(types, s, next, flags, 0, memory)
       case None => None
       case Some((fields, end)) => Some((flags, fields, end)))
    case _ => None
  }

  /** Every property set that encodes decodes to the same flags but for the continuation
      positions and to the same flagged members, normalized, consuming exactly its bytes, if
      and only if its flagged tables are codable. */
  lemma HeaderRoundTrip(types: PropertyTypes, vals: seq<FieldVal>, flags: uint32, s: bytes, off: nat,
                        memory: seq<FieldVal>)
    requires AllTyped(types, vals) && |memory| == |types| && FlaggedWritable(types, vals, flags, 0)
    requires At(s, off, HeaderBytes(types, vals, flags)) && |HeaderBytes(types, vals, flags)| < 0x1_0000_0000
    ensures var r := ReadHeader(types, s, off, memory);
      if FlaggedCodable(types, vals, flags, 0) then
        r.Some? && r.value.0 == Echoed(flags) && r.value.2 == off + |HeaderBytes(types, vals, flags)|
        && FlaggedNormal(types, vals, flags, r.value.1, |types|)
      else r.None? || !FlaggedNormal(types, vals, flags, r.value.1, |types|)
    ensures ReadFlags(s, off, 0, 0).Flags? && ReadFlags(s, off, 0, 0).flags == Echoed(flags)
  {
    hide Echoed, ReadFlags, Has, FlagWords, WordsBytes, PropBytes, ReadProps;
    var words := WordsBytes(FlagWords(flags));
    AtConcat(s, off, words, PropBytes(types, vals, flags, 0));
    FlagsEcho(flags, s, off);
    ReadPropsEchoed(types, s, off + |words|, flags, 0, memory);
    PropsRoundTrip(types, vals, s, off + |words|, flags, 0, memory);
  }

  /** The decoder tests the flags it read; the same properties are present. */
  lemma {:induction false} ReadPropsEchoed(types: PropertyTypes, s: bytes, off: nat, flags: uint32, k: nat,
                                          fields: seq<FieldVal>)
    requires k <= |types| == |fields|
    ensures ReadProps(types, s, off, Echoed(flags), k, fields) == ReadProps(types, s, off, flags, k, fields)
    decreases |types| - k
  {
    hide Echoed, Has, FieldAt;
    if k < |types| {
      EchoHas(flags, k);
      assert types[k] in types;
      if !Has(flags, k) {
        ReadPropsEchoed(types, s, off, flags, k + 1, fields);
      } else if FieldAt(types[k], s, off).Some? {
        var (v, end) := FieldAt(types[k], s, off).value;
        ReadPropsEchoed(types, s, end, flags, k + 1, fields[k := v]);
      }
    }
  }

  // ---------------------------------------------------------------- over buffers

  /** How the property statements from the `k`-th on answer when `room` bytes are left. */
  function PropsStatus(types: PropertyTypes, vals: seq<FieldVal>, flags: uint32, k: nat, room: int): Status
    requires AllTyped(types, vals) && k <= |types|
    decreases |types| - k
  {
    if k == |types| then Ok
    else if !Has(flags, k) then PropsStatus(types, vals, flags, k + 1, room)
    else
      assert types[k] in types;
      if FieldStatus(types[k], vals[k], room) != Ok then FieldStatus(types[k], vals[k], room)
      else PropsStatus(types, vals, flags, k + 1, room - |FieldBytes(types[k], vals[k])|)
  }

  /** How a whole property set is answered: the flag words need their room first. */
  function HeaderStatus(types: PropertyTypes, vals: seq<FieldVal>, flags: uint32, room: nat): Status
    requires AllTyped(types, vals)
  {
    var words := |WordsBytes(FlagWords(flags))|;
    if words > room then BadAmqpData else PropsStatus(types, vals, flags, 0, room - words)
  }

  lemma {:induction false} PropsEncoderExact(types: PropertyTypes, vals: seq<FieldVal>, flags: uint32, k: nat,
                                             room: int)
    requires AllTyped(types, vals) && k <= |types| && room >= 0
    ensures PropsStatus(types, vals, flags, k, room) == Ok
       <==> FlaggedWritable(types, vals, flags, k) && |PropBytes(types, vals, flags, k)| <= room
    decreases |types| - k
  {
    hide FieldStatus, FieldBytes, Typed, Writable, Has;
    if k < |types| {
      assert types[k] in types;
      if !Has(flags, k) {
        PropsEncoderExact(types, vals, flags, k + 1, room);
      } else {
        FieldStatusExact(types[k], vals[k], room);
        if FieldStatus(types[k], vals[k], room) == Ok {
          PropsEncoderExact(types, vals, flags, k + 1, room - |FieldBytes(types[k], vals[k])|);
        }
      }
    }
  }

  lemma WordsSnoc(done: bytes, flags: uint32)
    ensures done + WordsBytes(FlagWords(flags)) ==
      if flags / 0x1_0000 == 0 then done + BE(2, Fifteen(flags))
      else done + BE(2, Fifteen(flags) + 1) + WordsBytes(FlagWords(flags / 0x1_0000))
  {
    hide BE;
    var words := FlagWords(flags);
    if flags / 0x1_0000 == 0 {
      assert words[1..] == [] && BE(2, words[0]) + [] == BE(2, words[0]);
    } else {
      assert words[1..] == FlagWords(flags / 0x1_0000);
      assert done + (BE(2, words[0]) + WordsBytes(words[1..])) == done + BE(2, words[0]) + WordsBytes(words[1..]);
    }
  }

  /** The do-while loop that writes the flag words. */
  method EncodeFlags(flags: uint32, encoded: array<byte>) returns (ok: bool, offset: nat)
    modifies encoded
    ensures ok <==> |WordsBytes(FlagWords(flags))| <= encoded.Length
    ensures ok ==> offset == |WordsBytes(FlagWords(flags))|
    ensures ok ==> encoded[..] == Overwrite(old(encoded[..]), 0, WordsBytes(FlagWords(flags)))
  {
    hide BE, Overwrite, At, WordsBytes, Fifteen;
    ghost var before, done: bytes := encoded[..], [];
    OverwriteNothing(before);
    offset := 0;
    var remaining: uint32 := flags;
    var more := true;
    assert [] + WordsBytes(FlagWords(flags)) == WordsBytes(FlagWords(flags));
    while more
      invariant offset == |done| <= encoded.Length && encoded[..] == Overwrite(before, 0, done)
      invariant WordsBytes(FlagWords(flags)) == if more then done + WordsBytes(FlagWords(remaining)) else done
      decreases more, remaining
    {
      WordsSnoc(done, remaining);
      var remainder := remaining / 0x1_0000;
      var partial := Fifteen(remaining);
      if remainder != 0 {
        partial := partial + 1;
      }
      var at := offset;
      ok, offset := EncodeInt(encoded, 2, offset, partial);
      if !ok {
        return;
      }
      OverwriteTwice(before, 0, done, BE(2, partial));
      done := done + BE(2, partial);
      remaining := remainder;
      more := remaining != 0;
    }
    ok := true;
  }

  /** `amqp_encode_properties` for a class the switch knows: the whole header or a status. */
  method EncodeProperties(types: PropertyTypes, vals: seq<FieldVal>, flags: uint32, encoded: array<byte>)
    returns (res: Status, offset: nat)
    requires AllTyped(types, vals)
    modifies encoded
    ensures res == Ok <==> FlaggedWritable(types, vals, flags, 0)
                           && |HeaderBytes(types, vals, flags)| <= encoded.Length
    ensures res == HeaderStatus(types, vals, flags, encoded.Length)
    ensures res == Ok ==> offset == |HeaderBytes(types, vals, flags)|
    ensures res == Ok ==> encoded[..] == Overwrite(old(encoded[..]), 0, HeaderBytes(types, vals, flags))
  {
    hide Overwrite, At, WordsBytes, FlagWords, Has, FieldBytes, FieldStatus, Typed;
    ghost var before, words := encoded[..], WordsBytes(FlagWords(flags));
    var ok;
    ok, offset := EncodeFlags(flags, encoded);
    if !ok {
      return BadAmqpData, offset;
    }
    ghost var props := PropBytes(types, vals, flags, 0);
    PropsEncoderExact(types, vals, flags, 0, encoded.Length - |words|);
    ghost var done := words;
    assert done + props == HeaderBytes(types, vals, flags);
    for k := 0 to |types|
      invariant offset == |done| <= encoded.Length && encoded[..] == Overwrite(before, 0, done)
      invariant done + PropBytes(types, vals, flags, k) == HeaderBytes(types, vals, flags)
      invariant PropsStatus(types, vals, flags, 0, encoded.Length - |words|)
             == PropsStatus(types, vals, flags, k, encoded.Length - offset)
    {
      assert types[k] in types;
      if Has(flags, k) {
        res, offset := EncodeField(encoded, types[k], vals[k], offset);
        if res != Ok {
          return;
        }
        ghost var piece := FieldBytes(types[k], vals[k]);
        OverwriteTwice(before, 0, done, piece);
        assert done + (piece + PropBytes(types, vals, flags, k + 1))
            == done + piece + PropBytes(types, vals, flags, k + 1);
        done := done + piece;
      } else {
        assert [] + PropBytes(types, vals, flags, k + 1) == PropBytes(types, vals, flags, k + 1);
      }
    }
    assert done + [] == done;
    res := Ok;
  }

  /** What decoding a property set comes to. */
  datatype Decoding = Properties(flags: uint32, fields: seq<FieldVal>) | NoProperties(status: Status) | ShiftedAway

  /** `amqp_decode_properties` for a class the switch knows, over pool memory of any contents. */
  method DecodeProperties(types: PropertyTypes, encoded: bytes, memory: seq<FieldVal>) returns (r: Decoding)
    requires |memory| == |types|
    ensures r.ShiftedAway? <==> ReadFlags(encoded, 0, 0, 0) == UndefinedShift
    ensures r.NoProperties? ==> r.status == BadAmqpData && ReadHeader(types, encoded, 0, memory) == None
    ensures r.Properties? ==>
      var h := ReadHeader(types, encoded, 0, memory); h.Some? && r.flags == h.value.0 && r.fields == h.value.1
  {
    hide FieldAt, Has, ReadBE;
    var fields, flags: uint32 := memory, 0;
    var offset: nat, index := 0, 0;
    var more := true;
    while more
      invariant index == 0 ==> flags == 0
      invariant index == 1 ==> flags < 0x1_0000
      invariant index <= 2
      invariant ReadFlags(encoded, 0, 0, 0)
             == if more then ReadFlags(encoded, offset, flags, index) else Flags(flags, offset)
      decreases more, |encoded| - offset
    {
      ReadsWithin(encoded, offset, 2);
      var ok, partial;
      ok, partial, offset := DecodeInt(encoded, 2, offset);
      if !ok {
        return NoProperties(BadAmqpData);
      }
      if index == 2 {
        return ShiftedAway;
      }
      Pow256Values();
      flags := flags + (if index == 0 then partial else partial * 0x1_0000);
      index := index + 1;
      more := partial % 2 == 1;
    }
    for k := 0 to |types|
      invariant |fields| == |types|
      invariant ReadProps(types, encoded, ReadFlags(encoded, 0, 0, 0).off, flags, 0, memory)
             == ReadProps(types, encoded, offset, flags, k, fields)
    {
      assert types[k] in types;
      if Has(flags, k) {
        var v;
        var res;
        res, v, offset := DecodeField(encoded, types[k], offset);
        if res != Ok {
          return NoProperties(BadAmqpData);
        }
        fields := fields[k := v];
      }
    }
    r := Properties(flags, fields);
  }
}
