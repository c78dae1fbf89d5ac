/** The code generator of `codegen.py`, over any list of field types: the two emitters that
    pack the AMQP bit type, the statements they emit, what those statements do when they
    run, and the octet layout of section 4.2.5.2 of the AMQP 0-9-1 specification. */
module Generator {
  import opened Bytes
  import opened FieldTable
  import opened Statuses
  import opened TableCodec

  type Width = w: nat | w in {1, 2, 4, 8} witness 1
  type LenWidth = w: nat | w in {1, 4} witness 1

  /** `SimpleType`, `StrType`, `BitType` and `TableType`. */
  datatype FieldType =
    | Bit
    | Simple(width: Width)
    | Str(lenWidth: LenWidth)
    | TableField

  /** A member of the C structure that holds a method's arguments. */
  datatype FieldVal =
    | BitVal(truth: int32)
    | IntVal(n: nat)
    | StrVal(s: bytes)
    | TableVal(entries: seq<Entry>)

  predicate Typed(t: FieldType, v: FieldVal) {
    match t
    case Bit => v.BitVal?
    case Simple(w) => v.IntVal? && v.n < Pow256(w)
    case Str(_) => v.StrVal?
    case TableField => v.TableVal?
  }

  predicate AllTyped(types: seq<FieldType>, vals: seq<FieldVal>) {
    |types| == |vals| && forall i :: 0 <= i < |types| ==> Typed(types[i], vals[i])
  }

  // ---------------------------------------------------------------- emitted statements

  /** A statement of an emitted encoder; `field` names a structure member by position. */
  datatype EncLine =
    | ClearBits
    | OrBit(field: nat, bit: nat)
    | PutBits
    | PutField(field: nat, fieldType: FieldType)

  /** A statement of an emitted decoder. */
  datatype DecLine =
    | GetBits
    | TestBit(field: nat, bit: nat)
    | GetField(field: nat, fieldType: FieldType)

  class BitEncoder {
    var bit: nat
    var lines: seq<EncLine>

    constructor ()
      ensures bit == 0 && lines == []
    {
      bit, lines := 0, [];
    }

    method Flush()
      modifies this
      ensures bit == 0 && lines == old(lines) + Pending(old(bit))
    {
      if bit != 0 {
        lines := lines + [PutBits];
        bit := 0;
      }
    }

    method Emit(line: EncLine)
      modifies this
      ensures bit == 0 && lines == old(lines) + Pending(old(bit)) + [line]
    {
      Flush();
      lines := lines + [line];
    }

    method EncodeBit(field: nat)
      requires bit < 8
      modifies this
      ensures bit == (old(bit) + 1) % 8
      ensures lines == old(lines) + BitLines(field, old(bit))
    {
      if bit == 0 {
        lines := lines + [ClearBits];
      }
      lines := lines + [OrBit(field, bit)];
      bit := bit + 1;
      if bit == 8 {
        Flush();
      }
    }
  }

  class BitDecoder {
    var bit: nat
    var lines: seq<DecLine>

    constructor ()
      ensures bit == 0 && lines == []
    {
      bit, lines := 0, [];
    }

    method Emit(line: DecLine)
      modifies this
      ensures bit == 0 && lines == old(lines) + [line]
    {
      bit := 0;
      lines := lines + [line];
    }

    method DecodeBit(field: nat)
      requires bit < 8
      modifies this
      ensures bit == (old(bit) + 1) % 8
      ensures lines == old(lines) + HeadLines(Bit, field, old(bit))
    {
      assert HeadLines(Bit, field, 0) == [GetBits] + [TestBit(field, 0)];
      if bit == 0 {
        lines := lines + [GetBits];
      }
      lines := lines + [TestBit(field, bit)];
      bit := bit + 1;
      if bit == 8 {
        bit := 0;
      }
    }
  }

  /** What a flush emits. */
  function Pending(bit: nat): seq<EncLine> {
    if bit != 0 then [PutBits] else []
  }

  function BitLines(field: nat, bit: nat): seq<EncLine> {
    AddBitLines(field, bit) + (if bit == 7 then [PutBits] else [])
  }

  /** The encoder emitted for the fields from `i` on, when `bit` bits are pending. */
  function EncCode(types: seq<FieldType>, i: nat, bit: nat): seq<EncLine>
    requires i <= |types| && bit < 8
    decreases |types| - i
  {
    if i == |types| then Pending(bit)
    else if types[i].Bit? then BitLines(i, bit) + EncCode(types, i + 1, (bit + 1) % 8)
    else Pending(bit) + [PutField(i, types[i])] + EncCode(types, i + 1, 0)
  }

  function DecCode(types: seq<FieldType>, i: nat, bit: nat): seq<DecLine>
    requires i <= |types| && bit < 8
    decreases |types| - i
  {
    if i == |types| then []
    else if types[i].Bit? then
      (if bit == 0 then [GetBits] else []) + [TestBit(i, bit)] + DecCode(types, i + 1, (bit + 1) % 8)
    else [GetField(i, types[i])] + DecCode(types, i + 1, 0)
  }

  /** `genEncodeMethodFields` */
  method GenEncodeMethodFields(types: seq<FieldType>) returns (lines: seq<EncLine>)
    ensures lines == EncCode(types, 0, 0)
  {
    hide BitLines, EncCode;
    var emitter := new BitEncoder();
    for i := 0 to |types|
      invariant emitter.bit < 8 && fresh(emitter)
      invariant EncCode(types, 0, 0) == emitter.lines + EncCode(types, i, emitter.bit)
    {
      EncCodeHead(types, i, emitter.bit);
      if types[i].Bit? {
        emitter.EncodeBit(i);
      } else {
        emitter.Emit(PutField(i, types[i]));
      }
    }
    EncCodeEnd(types, emitter.bit);
    emitter.Flush();
    lines := emitter.lines;
  }

  /** `genDecodeMethodFields` */
  method GenDecodeMethodFields(types: seq<FieldType>) returns (lines: seq<DecLine>)
    ensures lines == DecCode(types, 0, 0)
  {
    hide DecCode, HeadLines;
    var emitter := new BitDecoder();
    for i := 0 to |types|
      invariant emitter.bit < 8 && fresh(emitter)
      invariant DecCode(types, 0, 0) == emitter.lines + DecCode(types, i, emitter.bit)
    {
      DecCodeHead(types, i, emitter.bit);
      assert types[i].Bit? ==> types[i] == Bit;
      assert !types[i].Bit? ==> HeadLines(types[i], i, emitter.bit) == [GetField(i, types[i])] by {
        HeadLinesField(types[i], i, emitter.bit);
      }
      if types[i].Bit? {
        emitter.DecodeBit(i);
      } else {
        emitter.Emit(GetField(i, types[i]));
      }
    }
    DecCodeEnd(types, emitter.bit);
    lines := emitter.lines;
  }

  // ---------------------------------------------------------------- bits of an octet

  /** `(x & (1 << k)) != 0` */
  predicate BitOf(x: nat, k: nat) {
    if k == 0 then x % 2 == 1 else BitOf(x / 2, k - 1)
  }

  /** `x | (1 << k)` */
  function SetBit(x: nat, k: nat): nat {
    if k == 0 then x / 2 * 2 + 1 else 2 * SetBit(x / 2, k - 1) + x % 2
  }

  function BitValue(v: FieldVal): nat {
    if v.BitVal? && v.truth != 0 then 1 else 0
  }

  /** The octet of section 4.2.5.2: the first bit of a run is the lowest bit. */
  function PackBits(run: seq<FieldVal>): nat {
    if run == [] then 0 else BitValue(run[0]) + 2 * PackBits(run[1..])
  }

  lemma {:induction false} PackBitsSnoc(run: seq<FieldVal>, v: FieldVal)
    ensures PackBits(run + [v]) == if BitValue(v) == 1 then SetBit(PackBits(run), |run|) else PackBits(run)
  {
    if run == [] {
      assert (run + [v])[1..] == [];
    } else {
      PackBitsSnoc(run[1..], v);
      assert (run + [v])[1..] == run[1..] + [v];
      assert PackBits(run) / 2 == PackBits(run[1..]) && PackBits(run) % 2 == BitValue(run[0]);
    }
  }

  lemma {:induction false} PackedBit(run: seq<FieldVal>, k: nat)
    requires k < |run|
    ensures BitOf(PackBits(run), k) <==> BitValue(run[k]) == 1
  {
    if k > 0 {
      PackedBit(run[1..], k - 1);
      assert PackBits(run) / 2 == PackBits(run[1..]);
    }
  }

  lemma {:induction false} PackBitsBound(run: seq<FieldVal>, n: nat)
    requires |run| <= n <= 8
    ensures PackBits(run) < [1, 2, 4, 8, 16, 32, 64, 128, 256][n]
  {
    if run != [] {
      PackBitsBound(run[1..], n - 1);
    }
  }

  /** The number of consecutive bit fields from `i` on, up to `max`. */
  function RunLength(types: seq<FieldType>, i: nat, max: nat): (n: nat)
    requires i <= |types|
    ensures n <= max && i + n <= |types|
    ensures forall k :: i <= k < i + n ==> types[k].Bit?
    ensures n == max || i + n == |types| || !types[i + n].Bit?
    decreases max
  {
    if max == 0 || i == |types| || !types[i].Bit? then 0 else 1 + RunLength(types, i + 1, max - 1)
  }

  lemma {:induction false} RunLengthIs(types: seq<FieldType>, i: nat, max: nat, n: nat)
    requires n <= max && i + n <= |types|
    requires forall k :: i <= k < i + n ==> types[k].Bit?
    requires n == max || i + n == |types| || !types[i + n].Bit?
    ensures RunLength(types, i, max) == n
    decreases n
  {
    if n > 0 {
      RunLengthIs(types, i + 1, max - 1, n - 1);
    }
  }

  lemma {:induction false} RunLengthAtLeast(types: seq<FieldType>, i: nat, max: nat, n: nat)
    requires n <= max && i + n <= |types|
    requires forall k :: i <= k < i + n ==> types[k].Bit?
    ensures RunLength(types, i, max) >= n
    decreases n
  {
    if n > 0 {
      RunLengthAtLeast(types, i + 1, max - 1, n - 1);
    }
  }

  /** The wire form of a field that is not a bit. */
  function FieldBytes(t: FieldType, v: FieldVal): bytes
    requires !t.Bit? && Typed(t, v)
  {
    match t
    case Simple(w) => BE(w, v.n)
    case Str(w) => BE(w, |v.s|) + v.s
    case TableField => LongString(EntriesBytes(v.entries))
  }

  /** The wire form of the fields from `i` on: bits share octets, up to eight to an octet,
      and any other field starts on an octet of its own. */
  function Packed(types: seq<FieldType>, vals: seq<FieldVal>, i: nat): bytes
    requires AllTyped(types, vals) && i <= |types|
    decreases |types| - i
  {
    if i == |types| then []
    else if types[i].Bit? then
      var n := RunLength(types, i, 8);
      PackBitsBound(vals[i..i + n], 8);
      [PackBits(vals[i..i + n])] + Packed(types, vals, i + n)
    else FieldBytes(types[i], vals[i]) + Packed(types, vals, i + 1)
  }

  // ---------------------------------------------------------------- running the encoder

  /** The encoder's state: the bytes written and the bit buffer, or the status returned. */
  datatype Writer = Writing(out: bytes, bits: nat) | Failed(status: Status)

  /** How a field statement answers when `room` bytes are left. */
  function FieldStatus(t: FieldType, v: FieldVal, room: int): Status
    requires !t.Bit? && Typed(t, v)
  {
    match t
    case Simple(w) => if w <= room then Ok else BadAmqpData
    case Str(w) => if |v.s| < Pow256(w) && w + |v.s| <= room then Ok else BadAmqpData
    case TableField => TableStatus(v.entries, room)
  }

  /** One emitted statement. A line that names no member of its type would do nothing. */
  function Step(line: EncLine, vals: seq<FieldVal>, cap: nat, w: Writer): Writer
    requires w.Writing?
  {
    match line
    case ClearBits => w.(bits := 0)
    case OrBit(f, k) => if f < |vals| && BitValue(vals[f]) == 1 then w.(bits := SetBit(w.bits, k)) else w
    case PutBits => if |w.out| + 1 > cap then Failed(BadAmqpData) else w.(out := w.out + [w.bits % 256])
    case PutField(f, t) =>
      if f >= |vals| || t.Bit? || !Typed(t, vals[f]) then w
      else if FieldStatus(t, vals[f], cap - |w.out|) != Ok then Failed(FieldStatus(t, vals[f], cap - |w.out|))
      else w.(out := w.out + FieldBytes(t, vals[f]))
  }

  function Exec(lines: seq<EncLine>, vals: seq<FieldVal>, cap: nat, w: Writer): Writer {
    if lines == [] || w.Failed? then w else Exec(lines[1..], vals, cap, Step(lines[0], vals, cap, w))
  }

  lemma {:induction false} ExecConcat(a: seq<EncLine>, b: seq<EncLine>, vals: seq<FieldVal>, cap: nat, w: Writer)
    ensures Exec(a + b, vals, cap, w) == Exec(b, vals, cap, Exec(a, vals, cap, w))
  {
    if a == [] {
      assert a + b == b;
    } else if w.Writing? {
      ExecConcat(a[1..], b, vals, cap, Step(a[0], vals, cap, w));
      assert (a + b)[1..] == a[1..] + b;
    }
  }

  lemma ExecOne(line: EncLine, vals: seq<FieldVal>, cap: nat, w: Writer)
    requires w.Writing?
    ensures Exec([line], vals, cap, w) == Step(line, vals, cap, w)
  {
    assert [line][1..] == [];
  }

  /** The field can be written at all: its string length fits its length field, or its table
      holds known kinds only. */
  predicate Writable(t: FieldType, v: FieldVal)
    requires Typed(t, v)
  {
    match t
    case Str(w) => |v.s| < Pow256(w)
    case TableField => EntriesSupported(v.entries)
    case _ => true
  }

  predicate AllWritable(types: seq<FieldType>, vals: seq<FieldVal>, i: nat)
    requires AllTyped(types, vals)
  {
    forall k :: i <= k < |types| ==> Writable(types[k], vals[k])
  }

  lemma FieldStatusExact(t: FieldType, v: FieldVal, room: int)
    requires !t.Bit? && Typed(t, v)
    ensures FieldStatus(t, v, room) == Ok <==> Writable(t, v) && |FieldBytes(t, v)| <= room
  {
    if t.TableField? {
      TableEncoderExact(v.entries, room);
    }
  }

  /** How the fields from `i` on are answered when `room` bytes are left: an octet of bits needs one
      of them, and the first field that does not get what it needs decides. */
  function LayoutStatus(types: seq<FieldType>, vals: seq<FieldVal>, i: nat, room: int): Status
    requires AllTyped(types, vals) && i <= |types|
    decreases |types| - i
  {
    if i == |types| then Ok
    else if types[i].Bit? then
      if room < 1 then BadAmqpData else LayoutStatus(types, vals, i + RunLength(types, i, 8), room - 1)
    else if FieldStatus(types[i], vals[i], room) != Ok then FieldStatus(types[i], vals[i], room)
    else LayoutStatus(types, vals, i + 1, room - |FieldBytes(types[i], vals[i])|)
  }

  lemma PackedBits(types: seq<FieldType>, vals: seq<FieldVal>, i: nat)
    requires AllTyped(types, vals) && i < |types| && types[i].Bit?
    ensures var n := RunLength(types, i, 8);
      0 < n && PackBits(vals[i..i + n]) < 256
      && Packed(types, vals, i) == [PackBits(vals[i..i + n])] + Packed(types, vals, i + n)
  {
    hide PackBits, FieldBytes, RunLength;
    RunIsOn(types, i);
    PackBitsBound(vals[i..i + RunLength(types, i, 8)], 8);
  }

  lemma RunIsOn(types: seq<FieldType>, i: nat)
    requires i < |types| && types[i].Bit?
    ensures RunLength(types, i, 8) > 0
  {
  }

  /** The layout still owed when `b` bits before field `i` wait in the bit buffer. */
  lemma {:induction false} PendingRun(types: seq<FieldType>, vals: seq<FieldVal>, i: nat, b: nat)
    requires AllTyped(types, vals) && 0 < b <= i <= |types| && b <= 8
    requires forall k :: i - b <= k < i ==> types[k].Bit?
    requires b == 8 || i == |types| || !types[i].Bit?
    ensures PackBits(vals[i - b..i]) < 256
    ensures Packed(types, vals, i - b) == [PackBits(vals[i - b..i])] + Packed(types, vals, i)
  {
    hide PackBits, Packed, RunLength;
    RunLengthIs(types, i - b, 8, b);
    PackedBits(types, vals, i - b);
  }

  /** `w` is where the emitted encoder stands before field `i` with `b` bits pending. */
  predicate Standing(types: seq<FieldType>, vals: seq<FieldVal>, i: nat, b: nat, cap: nat, w: Writer) {
    && AllTyped(types, vals) && b <= i <= |types| && w.Writing? && |w.out| <= cap
    && (forall k :: i - b <= k < i ==> types[k].Bit?)
    && (b > 0 ==> w.bits == PackBits(vals[i - b..i]))
  }

  lemma StandingMeans(types: seq<FieldType>, vals: seq<FieldVal>, i: nat, b: nat, cap: nat, w: Writer)
    requires Standing(types, vals, i, b, cap, w)
    ensures AllTyped(types, vals) && b <= i <= |types| && w.Writing? && |w.out| <= cap
    ensures forall k :: i - b <= k < i ==> types[k].Bit?
    ensures b > 0 ==> w.bits == PackBits(vals[i - b..i])
  {
  }

  /** From `w`, `r` is the right end: the layout from field `j` on is appended, unless some
      field from `i` on cannot be written or the layout does not fit. */
  predicate EndsRight(types: seq<FieldType>, vals: seq<FieldVal>, i: nat, j: nat, cap: nat, w: Writer, r: Writer)
    requires AllTyped(types, vals) && j <= i <= |types| && w.Writing?
  {
    && (r.Writing? <==> AllWritable(types, vals, i) && |w.out| + |Packed(types, vals, j)| <= cap)
    && (r.Writing? ==> r.out == w.out + Packed(types, vals, j))
    && LayoutStatus(types, vals, j, cap - |w.out|) == (if r.Writing? then Ok else r.status)
    && r != Failed(Ok)
  }

  /** The lines that add one bit to the buffer, which the first bit of an octet clears. */
  function AddBitLines(field: nat, bit: nat): seq<EncLine> {
    (if bit == 0 then [ClearBits] else []) + [OrBit(field, bit)]
  }

  lemma AddBit(types: seq<FieldType>, vals: seq<FieldVal>, i: nat, b: nat, cap: nat, w: Writer)
    requires b < 8 && Standing(types, vals, i, b, cap, w) && i < |types| && types[i].Bit?
    ensures Exec(AddBitLines(i, b), vals, cap, w) == Writing(w.out, PackBits(vals[i - b..i + 1]))
  {
    hide PackBits;
    var run := vals[i - b..i];
    assert vals[i - b..i + 1] == run + [vals[i]];
    PackBitsSnoc(run, vals[i]);
    NoBits(run);
    if b == 0 {
      ExecOne(ClearBits, vals, cap, w);
      ExecConcat([ClearBits], [OrBit(i, b)], vals, cap, w);
      ExecOne(OrBit(i, b), vals, cap, w.(bits := 0));
    } else {
      assert AddBitLines(i, b) == [OrBit(i, b)];
      ExecOne(OrBit(i, b), vals, cap, w);
    }
  }

  /** The eighth bit sends the octet. */
  lemma BitStatement(types: seq<FieldType>, vals: seq<FieldVal>, i: nat, b: nat, cap: nat, w: Writer)
    requires b < 8 && Standing(types, vals, i, b, cap, w) && i < |types| && types[i].Bit?
    ensures var w1 := Exec(BitLines(i, b), vals, cap, w);
      var octet := PackBits(vals[i - b..i + 1]);
      if b < 7 then w1 == Writing(w.out, octet) && Standing(types, vals, i + 1, b + 1, cap, w1)
      else if |w.out| == cap then w1 == Failed(BadAmqpData)
      else octet < 256 && w1 == Writing(w.out + [octet], octet) && Standing(types, vals, i + 1, 0, cap, w1)
  {
    hide PackBits, Exec;
    AddBit(types, vals, i, b, cap, w);
    if b == 7 {
      PackBitsBound(vals[i - b..i + 1], 8);
      var w1 := Writing(w.out, PackBits(vals[i - b..i + 1]));
      ExecConcat(AddBitLines(i, b), [PutBits], vals, cap, w);
      PutBitsStatement(vals, cap, w1);
    } else {
      assert BitLines(i, b) == AddBitLines(i, b);
    }
  }

  lemma NoBits(run: seq<FieldVal>)
    ensures run == [] ==> PackBits(run) == 0
  {
  }

  lemma PackedEnd(types: seq<FieldType>, vals: seq<FieldVal>)
    requires AllTyped(types, vals)
    ensures Packed(types, vals, |types|) == []
  {
  }

  lemma PackedField(types: seq<FieldType>, vals: seq<FieldVal>, i: nat)
    requires AllTyped(types, vals) && i < |types| && !types[i].Bit?
    ensures Packed(types, vals, i) == FieldBytes(types[i], vals[i]) + Packed(types, vals, i + 1)
  {
  }

  lemma StatusField(types: seq<FieldType>, vals: seq<FieldVal>, i: nat, room: int)
    requires AllTyped(types, vals) && i < |types| && !types[i].Bit?
    ensures var status := FieldStatus(types[i], vals[i], room);
      LayoutStatus(types, vals, i, room) ==
        if status != Ok then status else LayoutStatus(types, vals, i + 1, room - |FieldBytes(types[i], vals[i])|)
  {
  }

  lemma StatusRun(types: seq<FieldType>, vals: seq<FieldVal>, i: nat, b: nat, room: int)
    requires AllTyped(types, vals) && 0 < b <= i <= |types| && b <= 8
    requires forall k :: i - b <= k < i ==> types[k].Bit?
    requires b == 8 || i == |types| || !types[i].Bit?
    ensures LayoutStatus(types, vals, i - b, room) ==
      if room < 1 then BadAmqpData else LayoutStatus(types, vals, i, room - 1)
  {
    hide RunLength, LayoutStatus;
    RunLengthIs(types, i - b, 8, b);
    StatusBits(types, vals, i - b, room);
  }

  lemma StatusBits(types: seq<FieldType>, vals: seq<FieldVal>, i: nat, room: int)
    requires AllTyped(types, vals) && i < |types| && types[i].Bit?
    ensures LayoutStatus(types, vals, i, room) ==
      if room < 1 then BadAmqpData else LayoutStatus(types, vals, i + RunLength(types, i, 8), room - 1)
  {
    hide FieldStatus, FieldBytes, RunLength;
  }

  /** The layout of what is still to come never shrinks below one octet while bits wait. */
  lemma WritableFrom(types: seq<FieldType>, vals: seq<FieldVal>, i: nat)
    requires AllTyped(types, vals) && i < |types|
    ensures AllWritable(types, vals, i) <==> Writable(types[i], vals[i]) && AllWritable(types, vals, i + 1)
    ensures types[i].Bit? ==> Writable(types[i], vals[i])
  {
  }

  /** Once `head` is written, the right end from there is the right end from before. */
  lemma EndsRightAfter(types: seq<FieldType>, vals: seq<FieldVal>, i: nat, j: nat, i1: nat, j1: nat,
                       cap: nat, head: bytes, w: Writer, w1: Writer, r: Writer)
    requires AllTyped(types, vals) && j <= i <= |types| && j1 <= i1 <= |types|
    requires w.Writing? && w1.Writing? && w1.out == w.out + head
    requires Packed(types, vals, j) == head + Packed(types, vals, j1)
    requires AllWritable(types, vals, i) <==> AllWritable(types, vals, i1)
    requires LayoutStatus(types, vals, j, cap - |w.out|) == LayoutStatus(types, vals, j1, cap - |w1.out|)
    requires EndsRight(types, vals, i1, j1, cap, w1, r)
    ensures EndsRight(types, vals, i, j, cap, w, r)
  {
    hide Packed, AllWritable, LayoutStatus;
    assert w.out + (head + Packed(types, vals, j1)) == w.out + head + Packed(types, vals, j1);
  }

  /** Running from a state that already failed. */
  lemma EndsFailed(types: seq<FieldType>, vals: seq<FieldVal>, i: nat, j: nat, cap: nat, w: Writer, w1: Writer,
                   rest: seq<EncLine>)
    requires AllTyped(types, vals) && j <= i <= |types| && w.Writing? && w1.Failed?
    requires !AllWritable(types, vals, i) || |w.out| + |Packed(types, vals, j)| > cap
    requires w1.status == LayoutStatus(types, vals, j, cap - |w.out|) != Ok
    ensures EndsRight(types, vals, i, j, cap, w, Exec(rest, vals, cap, w1))
  {
    hide Packed, AllWritable, LayoutStatus;
  }

  /** A bit first, and the right end from there. */
  lemma RightAfterBit(types: seq<FieldType>, vals: seq<FieldVal>, i: nat, b: nat, cap: nat, w: Writer,
                      rest: seq<EncLine>)
    requires b < 8 && Standing(types, vals, i, b, cap, w) && i < |types| && types[i].Bit?
    requires var w1 := Exec(BitLines(i, b), vals, cap, w);
      w1.Writing? ==>
        EndsRight(types, vals, i + 1, if b < 7 then i - b else i + 1, cap, w1, Exec(rest, vals, cap, w1))
    ensures EndsRight(types, vals, i, i - b, cap, w, Exec(BitLines(i, b) + rest, vals, cap, w))
  {
    hide PackBits, FieldStatus, Typed, Step, Packed, Exec, BitLines, AllWritable, FieldBytes, Writable, EndsRight,
      LayoutStatus;
    var w1 := Exec(BitLines(i, b), vals, cap, w);
    BitStatement(types, vals, i, b, cap, w);
    WritableFrom(types, vals, i);
    ExecConcat(BitLines(i, b), rest, vals, cap, w);
    if b < 7 {
      EndsRightAfter(types, vals, i, i - b, i + 1, i - b, cap, [], w, w1, Exec(rest, vals, cap, w1));
    } else {
      PendingRun(types, vals, i + 1, 8);
      StatusRun(types, vals, i + 1, 8, cap - |w.out|);
      if w1.Writing? {
        EndsRightAfter(types, vals, i, i - b, i + 1, i + 1, cap, [w1.bits], w, w1, Exec(rest, vals, cap, w1));
      } else {
        EndsFailed(types, vals, i, i - b, cap, w, w1, rest);
      }
    }
  }

  /** The flush first. */
  lemma RightAfterFlush(types: seq<FieldType>, vals: seq<FieldVal>, i: nat, b: nat, cap: nat, w: Writer,
                        rest: seq<EncLine>)
    requires 0 < b < 8 && Standing(types, vals, i, b, cap, w) && (i == |types| || !types[i].Bit?)
    requires var w1 := Exec([PutBits], vals, cap, w);
      w1.Writing? ==> EndsRight(types, vals, i, i, cap, w1, Exec(rest, vals, cap, w1))
    ensures EndsRight(types, vals, i, i - b, cap, w, Exec([PutBits] + rest, vals, cap, w))
  {
    hide PackBits, FieldStatus, Typed, Step, Packed, Exec, AllWritable, FieldBytes, Writable, EndsRight, LayoutStatus;
    var w1 := Exec([PutBits], vals, cap, w);
    PendingRun(types, vals, i, b);
    StatusRun(types, vals, i, b, cap - |w.out|);
    FlushStatement(types, vals, i, b, cap, w);
    ExecConcat([PutBits], rest, vals, cap, w);
    if w1.Writing? {
      EndsRightAfter(types, vals, i, i - b, i, i, cap, [w.bits], w, w1, Exec(rest, vals, cap, w1));
    } else {
      EndsFailed(types, vals, i, i - b, cap, w, w1, rest);
    }
  }

  /** Another field first, with no bit pending. */
  lemma RightAfterField(types: seq<FieldType>, vals: seq<FieldVal>, i: nat, cap: nat, w: Writer, rest: seq<EncLine>)
    requires Standing(types, vals, i, 0, cap, w) && i < |types| && !types[i].Bit?
    requires var w1 := Exec([PutField(i, types[i])], vals, cap, w);
      w1.Writing? ==> EndsRight(types, vals, i + 1, i + 1, cap, w1, Exec(rest, vals, cap, w1))
    ensures EndsRight(types, vals, i, i, cap, w, Exec([PutField(i, types[i])] + rest, vals, cap, w))
  {
    hide PackBits, FieldStatus, Typed, Step, Packed, Exec, AllWritable, FieldBytes, Writable, EndsRight, LayoutStatus;
    var line := PutField(i, types[i]);
    var w1 := Exec([line], vals, cap, w);
    FieldStatement(types, vals, i, cap, w);
    PackedField(types, vals, i);
    StatusField(types, vals, i, cap - |w.out|);
    WritableFrom(types, vals, i);
    ExecConcat([line], rest, vals, cap, w);
    if w1.Writing? {
      EndsRightAfter(types, vals, i, i, i + 1, i + 1, cap, FieldBytes(types[i], vals[i]), w, w1,
                     Exec(rest, vals, cap, w1));
    } else {
      EndsFailed(types, vals, i, i, cap, w, w1, rest);
    }
  }

  /** From any field on, the emitted encoder writes exactly the packed layout, and fails
      exactly when a field cannot be written or the layout does not fit, with the status that the
      layout calls for. */
  lemma {:induction false} EncoderWritesLayout(types: seq<FieldType>, vals: seq<FieldVal>, i: nat, b: nat,
                                              cap: nat, w: Writer)
    requires b < 8 && Standing(types, vals, i, b, cap, w)
    ensures EndsRight(types, vals, i, i - b, cap, w, Exec(EncCode(types, i, b), vals, cap, w))
    decreases |types| - i, b
  {
    hide PackBits, Step, Packed, Exec, BitLines, EndsRight, Standing;
    StandingMeans(types, vals, i, b, cap, w);
    if i < |types| && types[i].Bit? {
      var w1, rest := Exec(BitLines(i, b), vals, cap, w), EncCode(types, i + 1, (b + 1) % 8);
      BitStatement(types, vals, i, b, cap, w);
      if w1.Writing? {
        EncoderWritesLayout(types, vals, i + 1, (b + 1) % 8, cap, w1);
      }
      RightAfterBit(types, vals, i, b, cap, w, rest);
    } else if b > 0 {
      var w1, rest := Exec([PutBits], vals, cap, w), EncCode(types, i, 0);
      PendingRun(types, vals, i, b);
      FlushStatement(types, vals, i, b, cap, w);
      EncCodeFlushes(types, i, b);
      if w1.Writing? {
        EncoderWritesLayout(types, vals, i, 0, cap, w1);
      }
      RightAfterFlush(types, vals, i, b, cap, w, rest);
    } else if i < |types| {
      var w1, rest := Exec([PutField(i, types[i])], vals, cap, w), EncCode(types, i + 1, 0);
      FieldStatement(types, vals, i, cap, w);
      assert EncCode(types, i, 0) == [PutField(i, types[i])] + rest;
      if w1.Writing? {
        EncoderWritesLayout(types, vals, i + 1, 0, cap, w1);
      }
      RightAfterField(types, vals, i, cap, w, rest);
    } else {
      NothingLeft(types, vals, cap, w);
    }
  }

  lemma NothingLeft(types: seq<FieldType>, vals: seq<FieldVal>, cap: nat, w: Writer)
    requires AllTyped(types, vals) && w.Writing? && |w.out| <= cap
    ensures EndsRight(types, vals, |types|, |types|, cap, w, Exec(EncCode(types, |types|, 0), vals, cap, w))
  {
    PackedEnd(types, vals);
    assert w.out + [] == w.out;
  }

  lemma EncCodeFlushes(types: seq<FieldType>, i: nat, b: nat)
    requires i <= |types| && 0 < b < 8 && (i == |types| || !types[i].Bit?)
    ensures EncCode(types, i, b) == [PutBits] + EncCode(types, i, 0)
  {
    if i < |types| {
      assert Pending(b) + [PutField(i, types[i])] == [PutBits] + (Pending(0) + [PutField(i, types[i])]);
    }
  }

  lemma PutBitsStatement(vals: seq<FieldVal>, cap: nat, w: Writer)
    requires w.Writing? && |w.out| <= cap && w.bits < 256
    ensures Exec([PutBits], vals, cap, w) ==
            if |w.out| == cap then Failed(BadAmqpData) else Writing(w.out + [w.bits], w.bits)
  {
    ExecOne(PutBits, vals, cap, w);
  }

  lemma FlushStatement(types: seq<FieldType>, vals: seq<FieldVal>, i: nat, b: nat, cap: nat, w: Writer)
    requires 0 < b && Standing(types, vals, i, b, cap, w) && w.bits < 256
    ensures var w1 := Exec([PutBits], vals, cap, w);
      if |w.out| == cap then w1 == Failed(BadAmqpData)
      else w1 == Writing(w.out + [w.bits], w.bits) && Standing(types, vals, i, 0, cap, w1)
  {
    PutBitsStatement(vals, cap, w);
  }

  lemma FieldStatement(types: seq<FieldType>, vals: seq<FieldVal>, i: nat, cap: nat, w: Writer)
    requires Standing(types, vals, i, 0, cap, w) && i < |types| && !types[i].Bit?
    ensures var w1 := Exec([PutField(i, types[i])], vals, cap, w);
      if Writable(types[i], vals[i]) && |w.out| + |FieldBytes(types[i], vals[i])| <= cap
      then w1 == w.(out := w.out + FieldBytes(types[i], vals[i])) && Standing(types, vals, i + 1, 0, cap, w1)
      else w1.Failed? && w1.status != Ok
    ensures var w1 := Exec([PutField(i, types[i])], vals, cap, w);
      var status := FieldStatus(types[i], vals[i], cap - |w.out|);
      if w1.Failed? then w1.status == status else status == Ok
  {
    ExecOne(PutField(i, types[i]), vals, cap, w);
    FieldStatusExact(types[i], vals[i], cap - |w.out|);
  }

  // ---------------------------------------------------------------- running the decoder

  /** The decoder's state: its offset, its bit buffer and the structure it fills. */
  datatype Reader = Reading(off: nat, bits: nat, fields: seq<FieldVal>) | Stuck

  function FieldAt(t: FieldType, s: bytes, off: nat): (r: Option<(FieldVal, nat)>)
    requires !t.Bit?
    ensures r.Some? ==> off < r.value.1 <= |s|
  {
    match t
    case Simple(w) =>
      (match ReadBE(s, off, w)
       case None => None
       case Some(n) => Some((IntVal(n), off + w)))
    case Str(w) =>
      (match ReadBE(s, off, w)
       case None => None
       case Some(n) => if off + w + n > |s| then None else Some((StrVal(s[off + w..off + w + n]), off + w + n)))
    case TableField =>
      (match TableAt(s, off)
       case None => None
       case Some((entries, end)) => Some((TableVal(entries), end)))
  }

  function DecStep(line: DecLine, s: bytes, r: Reader): Reader
    requires r.Reading?
  {
    match line
    case GetBits => if r.off < |s| then r.(off := r.off + 1, bits := s[r.off]) else Stuck
    case TestBit(f, k) => if f < |r.fields| then r.(fields := r.fields[f := Truth(BitOf(r.bits, k))]) else r
    case GetField(f, t) =>
      if f >= |r.fields| || t.Bit? then r
      else
        match FieldAt(t, s, r.off)
        case None => Stuck
        case Some((v, end)) => r.(off := end, fields := r.fields[f := v])
  }

  function Truth(b: bool): FieldVal {
    BitVal(if b then 1 else 0)
  }

  function DecExec(lines: seq<DecLine>, s: bytes, r: Reader): Reader {
    if lines == [] || r.Stuck? then r else DecExec(lines[1..], s, DecStep(lines[0], s, r))
  }

  lemma {:induction false} DecExecConcat(a: seq<DecLine>, b: seq<DecLine>, s: bytes, r: Reader)
    ensures DecExec(a + b, s, r) == DecExec(b, s, DecExec(a, s, r))
  {
    if a == [] {
      assert a + b == b;
    } else if r.Reading? {
      DecExecConcat(a[1..], b, s, DecStep(a[0], s, r));
      assert (a + b)[1..] == a[1..] + b;
    }
  }

  lemma DecExecOne(line: DecLine, s: bytes, r: Reader)
    requires r.Reading?
    ensures DecExec([line], s, r) == DecStep(line, s, r)
  {
    assert [line][1..] == [];
  }

  /** What a field reads back as: bits and the booleans of tables become 0 or 1. */
  function NormalField(v: FieldVal): FieldVal {
    match v
    case BitVal(_) => Truth(BitValue(v) == 1)
    case TableVal(entries) => TableVal(EntriesNormal(entries))
    case _ => v
  }

  predicate FieldCodable(v: FieldVal) {
    v.TableVal? ==> EntriesCodable(v.entries)
  }

  lemma FieldRoundTrip(t: FieldType, v: FieldVal, s: bytes, off: nat)
    requires !t.Bit? && Typed(t, v) && Writable(t, v)
    requires At(s, off, FieldBytes(t, v)) && |FieldBytes(t, v)| < 0x1_0000_0000
    ensures FieldCodable(v) ==> FieldAt(t, s, off) == Some((NormalField(v), off + |FieldBytes(t, v)|))
    ensures !FieldCodable(v) ==> FieldAt(t, s, off).None? || FieldAt(t, s, off).value.0 != NormalField(v)
  {
    hide EntriesBytes, EntriesNormal, EntriesCodable, BE, FromBE, TableAt, Pow256;
    match t
    case Simple(w) => ReadBack(s, off, w, v.n);
    case Str(w) =>
      AtConcat(s, off, BE(w, |v.s|), v.s);
      ReadBack(s, off, w, |v.s|);
    case TableField => TableRoundTrip(s, off, v.entries);
  }

  /** Bit lines and field lines for the fields from `i` on leave earlier members alone. */
  lemma {:induction false} LaterLinesKeep(types: seq<FieldType>, i: nat, b: nat, s: bytes, r: Reader)
    requires r.Reading? && i <= |types| == |r.fields| && b < 8
    ensures var e := DecExec(DecCode(types, i, b), s, r);
      e.Reading? ==> |e.fields| == |types| && forall k :: 0 <= k < i ==> e.fields[k] == r.fields[k]
    decreases |types| - i
  {
    hide FieldAt, BitOf, HeadLines;
    if i < |types| {
      var head := HeadLines(types[i], i, b);
      var b' := if types[i].Bit? then (b + 1) % 8 else 0;
      DecCodeHead(types, i, b);
      DecExecConcat(head, DecCode(types, i + 1, b'), s, r);
      HeadLinesEffect(types[i], i, b, s, r);
      var r1 := DecExec(head, s, r);
      if r1.Reading? {
        LaterLinesKeep(types, i + 1, b', s, r1);
      }
    }
  }

  /** The lines that one field adds to the emitted decoder. */
  function HeadLines(t: FieldType, i: nat, b: nat): seq<DecLine> {
    if !t.Bit? then [GetField(i, t)] else if b == 0 then [GetBits, TestBit(i, b)] else [TestBit(i, b)]
  }

  lemma HeadLinesField(t: FieldType, i: nat, b: nat)
    ensures !t.Bit? ==> HeadLines(t, i, b) == [GetField(i, t)]
  {
  }

  lemma DecCodeHead(types: seq<FieldType>, i: nat, b: nat)
    requires i < |types| && b < 8
    ensures DecCode(types, i, b)
         == HeadLines(types[i], i, b) + DecCode(types, i + 1, if types[i].Bit? then (b + 1) % 8 else 0)
  {
    if types[i].Bit? && b == 0 {
      assert [GetBits] + [TestBit(i, b)] == [GetBits, TestBit(i, b)];
    }
  }

  lemma HeadLinesEffect(t: FieldType, i: nat, b: nat, s: bytes, r: Reader)
    requires r.Reading? && i < |r.fields|
    ensures DecExec(HeadLines(t, i, b), s, r) ==
      if !t.Bit? then DecStep(GetField(i, t), s, r)
      else if b > 0 then r.(fields := r.fields[i := Truth(BitOf(r.bits, b))])
      else if r.off < |s| then Reading(r.off + 1, s[r.off], r.fields[i := Truth(BitOf(s[r.off], 0))])
      else Stuck
  {
    hide FieldAt, BitOf;
    if t.Bit? && b == 0 {
      assert HeadLines(t, i, b) == [GetBits] + [TestBit(i, b)];
      DecExecConcat([GetBits], [TestBit(i, b)], s, r);
      DecExecOne(GetBits, s, r);
      if r.off < |s| {
        DecExecOne(TestBit(i, b), s, DecStep(GetBits, s, r));
      }
    } else {
      DecExecOne(HeadLines(t, i, b)[0], s, r);
    }
  }

  predicate AllCodable(vals: seq<FieldVal>, i: nat) {
    forall k :: i <= k < |vals| ==> FieldCodable(vals[k])
  }

  predicate ReadThrough(vals: seq<FieldVal>, n: nat, fields: seq<FieldVal>)
    requires n <= |vals|
  {
    |fields| == |vals| && forall k :: 0 <= k < n ==> fields[k] == NormalField(vals[k])
  }

  /** The end of the run of bits that field `i`, with `b` bits of its octet before it, is in. */
  function RunEnd(types: seq<FieldType>, i: nat, b: nat): (j: nat)
    requires b <= i <= |types|
    ensures j <= |types|
  {
    if b == 0 then i else i - b + RunLength(types, i - b, 8)
  }

  /** Where the emitted decoder stands before field `i`, after `b` bits of an octet: earlier
      members are filled, the octet is in the bit buffer, and the rest of the layout follows. */
  predicate Placed(types: seq<FieldType>, vals: seq<FieldVal>, i: nat, b: nat, s: bytes, r: Reader) {
    && AllTyped(types, vals) && b <= i <= |types| && r.Reading? && ReadThrough(vals, i, r.fields)
    && (forall k :: i - b <= k < i ==> types[k].Bit?)
    && At(s, r.off, Packed(types, vals, RunEnd(types, i, b)))
    && (b > 0 ==> i <= RunEnd(types, i, b) && r.bits == PackBits(vals[i - b..RunEnd(types, i, b)]))
  }

  lemma PlacedMeans(types: seq<FieldType>, vals: seq<FieldVal>, i: nat, b: nat, s: bytes, r: Reader)
    requires Placed(types, vals, i, b, s, r)
    ensures AllTyped(types, vals) && b <= i <= |types| && r.Reading? && |r.fields| == |types|
  {
  }

  /** The first bit of a run reads the octet that the whole run shares. */
  lemma ReadFirstBit(types: seq<FieldType>, vals: seq<FieldVal>, i: nat, s: bytes, r: Reader)
    requires Placed(types, vals, i, 0, s, r) && i < |types| && types[i].Bit?
    ensures var r1 := DecExec(HeadLines(types[i], i, 0), s, r);
      Placed(types, vals, i + 1, 1, s, r1)
      && r.off < r1.off
      && r1.off + |Packed(types, vals, RunEnd(types, i + 1, 1))| == r.off + |Packed(types, vals, i)|
  {
    hide PackBits, Packed, RunLength, BitOf;
    var n := RunLength(types, i, 8);
    var run := vals[i..i + n];
    PackedBits(types, vals, i);
    AtConcat(s, r.off, [PackBits(run)], Packed(types, vals, i + n));
    AtByte(s, r.off, PackBits(run));
    PackedBit(run, 0);
    assert run[0] == vals[i];
    HeadLinesEffect(types[i], i, 0, s, r);
  }

  /** The later bits of a run find the octet in the bit buffer. */
  lemma ReadLaterBit(types: seq<FieldType>, vals: seq<FieldVal>, i: nat, b: nat, s: bytes, r: Reader)
    requires 0 < b < 8 && Placed(types, vals, i, b, s, r) && i < |types| && types[i].Bit?
    ensures var r1 := DecExec(HeadLines(types[i], i, b), s, r);
      Placed(types, vals, i + 1, (b + 1) % 8, s, r1) && r1.off == r.off
      && RunEnd(types, i + 1, (b + 1) % 8) == RunEnd(types, i, b)
  {
    hide PackBits, Packed, RunLength, BitOf;
    var j := RunEnd(types, i, b);
    var run := vals[i - b..j];
    RunLengthAtLeast(types, i - b, 8, b + 1);
    PackedBit(run, b);
    assert run[b] == vals[i];
    HeadLinesEffect(types[i], i, b, s, r);
  }

  lemma RunEnds(types: seq<FieldType>, i: nat, b: nat)
    requires b <= i <= |types| && b <= 8 && (i == |types| || !types[i].Bit?)
    requires forall k :: i - b <= k < i ==> types[k].Bit?
    ensures RunEnd(types, i, b) == i
  {
    RunLengthIs(types, i - b, 8, b);
  }

  /** A field statement reads its field and leaves the next one in place, or meets a table
      that does not survive and shows it. */
  lemma ReadField(types: seq<FieldType>, vals: seq<FieldVal>, i: nat, b: nat, s: bytes, r: Reader)
    requires b < 8 && Placed(types, vals, i, b, s, r) && i < |types| && !types[i].Bit?
    requires Writable(types[i], vals[i]) && |Packed(types, vals, i)| < 0x1_0000_0000
    ensures var r1 := DecExec(HeadLines(types[i], i, b), s, r);
      if FieldCodable(vals[i]) then
        Placed(types, vals, i + 1, 0, s, r1) && r.off <= r1.off
        && r1.off + |Packed(types, vals, i + 1)| == r.off + |Packed(types, vals, i)|
      else r1.Stuck? || (|r1.fields| == |types| && r1.fields[i] != NormalField(vals[i]))
  {
    hide PackBits, Packed, RunLength, FieldBytes, FieldAt, FieldCodable, NormalField, Typed, Writable;
    RunEnds(types, i, b);
    PackedField(types, vals, i);
    AtConcat(s, r.off, FieldBytes(types[i], vals[i]), Packed(types, vals, i + 1));
    FieldRoundTrip(types[i], vals[i], s, r.off);
    HeadLinesEffect(types[i], i, b, s, r);
  }

  lemma CodableFrom(vals: seq<FieldVal>, i: nat)
    requires i < |vals|
    ensures AllCodable(vals, i) <==> FieldCodable(vals[i]) && AllCodable(vals, i + 1)
    ensures vals[i].BitVal? ==> FieldCodable(vals[i])
  {
  }

  /** Wherever the two bit counters stand, the emitted decoder reads what the emitted encoder
      wrote: every member comes back, normalized, and exactly the layout is consumed, if and
      only if every table is codable. */
  lemma {:induction false} DecoderReadsLayout(types: seq<FieldType>, vals: seq<FieldVal>, i: nat, b: nat,
                                             s: bytes, r: Reader)
    requires b < 8 && Placed(types, vals, i, b, s, r) && AllWritable(types, vals, i)
    requires |Packed(types, vals, RunEnd(types, i, b))| < 0x1_0000_0000
    ensures var e := DecExec(DecCode(types, i, b), s, r);
      if AllCodable(vals, i) then
        e.Reading? && e.off == r.off + |Packed(types, vals, RunEnd(types, i, b))|
        && ReadThrough(vals, |vals|, e.fields)
      else e.Stuck? || !ReadThrough(vals, |vals|, e.fields)
    decreases |types| - i
  {
    hide PackBits, Packed, RunLength, HeadLines, Placed, AllCodable, FieldCodable, NormalField, AllWritable,
      Writable, Typed, FieldAt, RunEnd, DecExec, DecCode;
    PlacedMeans(types, vals, i, b, s, r);
    if i < |types| {
      var b' := if types[i].Bit? then (b + 1) % 8 else 0;
      var r1 := DecExec(HeadLines(types[i], i, b), s, r);
      DecCodeHead(types, i, b);
      DecExecConcat(HeadLines(types[i], i, b), DecCode(types, i + 1, b'), s, r);
      WritableFrom(types, vals, i);
      CodableFrom(vals, i);
      TypedAt(types, vals, i);
      RunEndHere(types, i);
      RunEndHere(types, i + 1);
      if types[i].Bit? && b == 0 {
        ReadFirstBit(types, vals, i, s, r);
        DecoderReadsLayout(types, vals, i + 1, b', s, r1);
      } else if types[i].Bit? {
        ReadLaterBit(types, vals, i, b, s, r);
        DecoderReadsLayout(types, vals, i + 1, b', s, r1);
      } else {
        EndOfRun(types, vals, i, b, s, r);
        ReadField(types, vals, i, b, s, r);
        if FieldCodable(vals[i]) {
          DecoderReadsLayout(types, vals, i + 1, b', s, r1);
        } else if r1.Reading? {
          LaterLinesKeep(types, i + 1, b', s, r1);
        } else {
          DecExecStuck(DecCode(types, i + 1, b'), s);
        }
      }
    } else {
      EndOfRun(types, vals, i, b, s, r);
      PackedEnd(types, vals);
      AllRead(types, vals, i, b, s, r);
      DecExecNothing(types, b, s, r);
    }
  }

  lemma AllRead(types: seq<FieldType>, vals: seq<FieldVal>, i: nat, b: nat, s: bytes, r: Reader)
    requires Placed(types, vals, i, b, s, r) && i == |types|
    ensures AllCodable(vals, i) && ReadThrough(vals, |vals|, r.fields)
  {
  }

  lemma DecExecNothing(types: seq<FieldType>, b: nat, s: bytes, r: Reader)
    requires b < 8
    ensures DecExec(DecCode(types, |types|, b), s, r) == r
  {
  }

  lemma DecExecStuck(lines: seq<DecLine>, s: bytes)
    ensures DecExec(lines, s, Stuck) == Stuck
  {
  }

  lemma EndOfRun(types: seq<FieldType>, vals: seq<FieldVal>, i: nat, b: nat, s: bytes, r: Reader)
    requires b < 8 && Placed(types, vals, i, b, s, r) && (i == |types| || !types[i].Bit?)
    ensures RunEnd(types, i, b) == i
  {
    RunEnds(types, i, b);
  }

  lemma RunEndHere(types: seq<FieldType>, i: nat)
    requires i <= |types|
    ensures RunEnd(types, i, 0) == i
  {
  }

  lemma TypedAt(types: seq<FieldType>, vals: seq<FieldVal>, i: nat)
    requires AllTyped(types, vals) && i < |types|
    ensures types[i].Bit? <==> vals[i].BitVal?
  {
  }

  // ---------------------------------------------------------------- generator correctness

  /** The encoder emitted for a method, run into `cap` bytes. */
  function EncodeFields(types: seq<FieldType>, vals: seq<FieldVal>, cap: nat): Writer {
    Exec(EncCode(types, 0, 0), vals, cap, Writing([], 0))
  }

  /** The decoder emitted for a method, run at `off` over a structure of any contents. */
  function DecodeFields(types: seq<FieldType>, s: bytes, off: nat, fields: seq<FieldVal>): Reader {
    DecExec(DecCode(types, 0, 0), s, Reading(off, 0, fields))
  }

  function NormalFields(vals: seq<FieldVal>): seq<FieldVal> {
    seq(|vals|, i requires 0 <= i < |vals| => NormalField(vals[i]))
  }

  /** For every list of field types: the emitted encoder writes the packed layout exactly when
      the fields are writable and the layout fits, and the emitted decoder inverts it exactly
      when every table is codable. */
  lemma GeneratorCorrect(types: seq<FieldType>, vals: seq<FieldVal>, cap: nat)
    requires AllTyped(types, vals)
    ensures var w := EncodeFields(types, vals, cap);
      && (w.Writing? <==> AllWritable(types, vals, 0) && |Packed(types, vals, 0)| <= cap)
      && (w.Writing? ==> w.out == Packed(types, vals, 0))
      && LayoutStatus(types, vals, 0, cap) == (if w.Writing? then Ok else w.status) && w != Failed(Ok)
  {
    hide Packed, AllWritable, LayoutStatus;
    EncoderWritesLayout(types, vals, 0, 0, cap, Writing([], 0));
    assert [] + Packed(types, vals, 0) == Packed(types, vals, 0);
  }

  lemma GeneratedDecoderInverts(types: seq<FieldType>, vals: seq<FieldVal>, s: bytes, off: nat, memory: seq<FieldVal>)
    requires AllTyped(types, vals) && AllWritable(types, vals, 0) && |memory| == |types|
    requires At(s, off, Packed(types, vals, 0)) && |Packed(types, vals, 0)| < 0x1_0000_0000
    ensures var e := DecodeFields(types, s, off, memory);
      if AllCodable(vals, 0) then
        e.Reading? && e.off == off + |Packed(types, vals, 0)| && e.fields == NormalFields(vals)
      else e.Stuck? || e.fields != NormalFields(vals)
  {
    hide Packed;
    DecoderReadsLayout(types, vals, 0, 0, s, Reading(off, 0, memory));
    RunEndHere(types, 0);
    var e := DecodeFields(types, s, off, memory);
    if e.Reading? && ReadThrough(vals, |vals|, e.fields) {
      assert e.fields == NormalFields(vals);
    }
  }

  // ---------------------------------------------------------------- the emitted code over buffers

  /** The emitted encoder as compiled: it fills `encoded` from offset 0 and returns the
      offset, or the negative status. */
  method RunEncoder(lines: seq<EncLine>, vals: seq<FieldVal>, encoded: array<byte>)
    returns (res: Status, offset: nat)
    modifies encoded
    ensures res == Ok <==> Exec(lines, vals, encoded.Length, Writing([], 0)).Writing?
    ensures res == Ok ==>
      var w := Exec(lines, vals, encoded.Length, Writing([], 0));
      offset == |w.out| <= encoded.Length && encoded[..] == Overwrite(old(encoded[..]), 0, w.out)
    ensures res != Ok ==> Exec(lines, vals, encoded.Length, Writing([], 0)) == Failed(res)
  {
    hide FieldBytes, FieldStatus, SetBit, BitValue, Overwrite;
    ghost var before := encoded[..];
    var bitBuffer := 0;
    offset := 0;
    ghost var w := Writing([], 0);
    assert Overwrite(before, 0, []) == before by { OverwriteNothing(before); }
    for i := 0 to |lines|
      invariant w.Writing? && w.bits == bitBuffer && |w.out| == offset <= encoded.Length
      invariant encoded[..] == Overwrite(before, 0, w.out)
      invariant Exec(lines, vals, encoded.Length, Writing([], 0)) == Exec(lines[i..], vals, encoded.Length, w)
    {
      ghost var next := Step(lines[i], vals, encoded.Length, w);
      ExecUnfold(lines[i..], vals, encoded.Length, w);
      assert lines[i..][1..] == lines[i + 1..];
      match lines[i] {
        case ClearBits =>
          bitBuffer := 0;
        case OrBit(f, k) =>
          if f < |vals| && BitValue(vals[f]) == 1 {
            bitBuffer := SetBit(bitBuffer, k);
          }
        case PutBits =>
          var ok;
          OneByte(bitBuffer % 256);
          ok, offset := EncodeInt(encoded, 1, offset, bitBuffer % 256);
          if !ok {
            return BadAmqpData, offset;
          }
          OverwriteTwice(before, 0, w.out, [bitBuffer % 256]);
        case PutField(f, t) =>
          if f < |vals| && !t.Bit? && Typed(t, vals[f]) {
            res, offset := EncodeField(encoded, t, vals[f], offset);
            if res != Ok {
              return;
            }
            OverwriteTwice(before, 0, w.out, FieldBytes(t, vals[f]));
          }
      }
      w := next;
    }
    res := Ok;
  }

  lemma OverwriteNothing(s: bytes)
    ensures Overwrite(s, 0, []) == s
  {
    assert s[..0] + [] + s[0..] == s;
  }

  lemma ExecUnfold(lines: seq<EncLine>, vals: seq<FieldVal>, cap: nat, w: Writer)
    requires lines != [] && w.Writing?
    ensures Exec(lines, vals, cap, w) == Exec(lines[1..], vals, cap, Step(lines[0], vals, cap, w))
  {
  }

  /** One `SimpleType`, `StrType` or `TableType` statement of an emitted encoder. */
  method EncodeField(encoded: array<byte>, t: FieldType, v: FieldVal, offset: nat) returns (res: Status, next: nat)
    requires !t.Bit? && Typed(t, v)
    modifies encoded
    ensures res == FieldStatus(t, v, encoded.Length - offset)
    ensures res == Ok ==> next == offset + |FieldBytes(t, v)| <= encoded.Length
    ensures res == Ok ==> encoded[..] == Overwrite(old(encoded[..]), offset, FieldBytes(t, v))
  {
    hide TableStatus, EntriesBytes, BE, Overwrite, At, Pow256;
    var ok;
    match t {
      case Simple(w) =>
        ok, next := EncodeInt(encoded, w, offset, v.n);
        res := if ok then Ok else BadAmqpData;
      case Str(w) =>
        ok, next := EncodeString(encoded, w, v.s, offset);
        res := if ok then Ok else BadAmqpData;
      case TableField =>
        res, next := EncodeTable(encoded, v.entries, offset);
    }
  }

  /** The statement of `StrType`: the length is checked against the length field's maximum first. */
  method EncodeString(encoded: array<byte>, w: LenWidth, s: bytes, offset: nat) returns (ok: bool, next: nat)
    modifies encoded
    ensures ok <==> |s| < Pow256(w) && offset + w + |s| <= encoded.Length
    ensures ok ==> next == offset + w + |s| && encoded[..] == Overwrite(old(encoded[..]), offset, BE(w, |s|) + s)
  {
    hide BE, Overwrite, At, Pow256;
    ghost var before := encoded[..];
    if |s| > MaxLength(w) {
      return false, offset;
    }
    ok, next := EncodeInt(encoded, w, offset, |s|);
    if ok {
      ok, next := EncodeBytes(encoded, next, s);
      if ok {
        OverwriteTwice(before, offset, BE(w, |s|), s);
      }
    }
  }

  /** `UINT8_MAX` and `UINT32_MAX`. */
  function MaxLength(w: LenWidth): (m: nat)
    ensures m + 1 == Pow256(w)
  {
    Pow256Values();
    if w == 1 then 0xFF else 0xFFFF_FFFF
  }

  /** The emitted decoder as compiled, over a structure fresh from the pool. */
  method RunDecoder(lines: seq<DecLine>, encoded: bytes, memory: seq<FieldVal>)
    returns (res: Status, fields: seq<FieldVal>)
    ensures res == if DecExec(lines, encoded, Reading(0, 0, memory)).Reading? then Ok else BadAmqpData
    ensures res == Ok ==> fields == DecExec(lines, encoded, Reading(0, 0, memory)).fields
  {
    hide BitOf, ReadBE, TableAt;
    var offset: nat, bitBuffer: nat := 0, 0;
    fields := memory;
    for i := 0 to |lines|
      invariant DecExec(lines, encoded, Reading(0, 0, memory))
             == DecExec(lines[i..], encoded, Reading(offset, bitBuffer, fields))
    {
      assert lines[i..][1..] == lines[i + 1..];
      match lines[i] {
        case GetBits =>
          KeyLengthWithin(encoded, offset);
          var ok;
          ok, bitBuffer, offset := DecodeInt(encoded, 1, offset);
          if !ok {
            return BadAmqpData, fields;
          }
        case TestBit(f, k) =>
          if f < |fields| {
            fields := fields[f := Truth(BitOf(bitBuffer, k))];
          }
        case GetField(f, t) =>
          if f < |fields| && !t.Bit? {
            var v;
            res, v, offset := DecodeField(encoded, t, offset);
            if res != Ok {
              return;
            }
            fields := fields[f := v];
          }
      }
    }
    res := Ok;
  }

  lemma KeyLengthWithin(s: bytes, off: nat)
    ensures off < |s| ==> ReadBE(s, off, 1) == Some(s[off])
  {
    if off < |s| {
      KeyLengthAt(s, off);
    }
  }

  method DecodeField(encoded: bytes, t: FieldType, offset: nat) returns (res: Status, v: FieldVal, next: nat)
    requires !t.Bit?
    ensures res == if FieldAt(t, encoded, offset).Some? then Ok else BadAmqpData
    ensures res == Ok ==> FieldAt(t, encoded, offset) == Some((v, next))
  {
    hide ReadBE, TableAt;
    v, res := IntVal(0), BadAmqpData;
    var ok;
    var n: nat;
    match t {
      case Simple(w) =>
        ReadsWithin(encoded, offset, w);
        ok, n, next := DecodeInt(encoded, w, offset);
        if ok {
          return Ok, IntVal(n), next;
        }
      case Str(w) =>
        ReadsWithin(encoded, offset, w);
        ok, n, next := DecodeInt(encoded, w, offset);
        if ok && next + n <= |encoded| {
          return Ok, StrVal(encoded[next..next + n]), next + n;
        }
      case TableField =>
        var entries;
        res, entries, next := DecodeTable(encoded, offset);
        v := TableVal(entries);
    }
  }

  lemma ReadsWithin(s: bytes, off: nat, w: nat)
    ensures ReadBE(s, off, w).Some? <==> off + w <= |s|
  {
  }

  // ---------------------------------------------------------------- generated instances

  const QUEUE_DECLARE: seq<FieldType> := [Simple(2), Str(1), Bit, Bit, Bit, Bit, Bit, TableField]

  /** The generated file's queue.declare cases are what the two emitters emit for its fields. */
  lemma {:induction false} QueueDeclareAsGenerated()
    ensures EncCode(QUEUE_DECLARE, 0, 0)
         == [PutField(0, Simple(2)), PutField(1, Str(1)), ClearBits, OrBit(2, 0), OrBit(3, 1), OrBit(4, 2),
             OrBit(5, 3), OrBit(6, 4), PutBits, PutField(7, TableField)]
    ensures DecCode(QUEUE_DECLARE, 0, 0)
         == [GetField(0, Simple(2)), GetField(1, Str(1)), GetBits, TestBit(2, 0), TestBit(3, 1), TestBit(4, 2),
             TestBit(5, 3), TestBit(6, 4), GetField(7, TableField)]
  {
    var types := QUEUE_DECLARE;
    QueueDeclareEncoder(types);
    QueueDeclareDecoder(types);
  }

  lemma QueueDeclareEncoder(types: seq<FieldType>)
    requires types == QUEUE_DECLARE
    ensures EncCode(types, 0, 0)
         == [PutField(0, Simple(2)), PutField(1, Str(1)), ClearBits, OrBit(2, 0), OrBit(3, 1), OrBit(4, 2),
             OrBit(5, 3), OrBit(6, 4), PutBits, PutField(7, TableField)]
  {
    hide EncCode;
    EncCodeHead(types, 0, 0);
    EncCodeHead(types, 1, 0);
    EncCodeHead(types, 2, 0);
    EncCodeHead(types, 3, 1);
    EncCodeHead(types, 4, 2);
    EncCodeHead(types, 5, 3);
    EncCodeHead(types, 6, 4);
    EncCodeHead(types, 7, 5);
    EncCodeEnd(types, 0);
    assert EncCode(types, 5, 3) == [OrBit(5, 3), OrBit(6, 4), PutBits, PutField(7, TableField)];
    assert EncCode(types, 3, 1) == [OrBit(3, 1), OrBit(4, 2)] + EncCode(types, 5, 3);
    assert EncCode(types, 1, 0) == [PutField(1, Str(1)), ClearBits, OrBit(2, 0)] + EncCode(types, 3, 1);
  }

  lemma QueueDeclareDecoder(types: seq<FieldType>)
    requires types == QUEUE_DECLARE
    ensures DecCode(types, 0, 0)
         == [GetField(0, Simple(2)), GetField(1, Str(1)), GetBits, TestBit(2, 0), TestBit(3, 1), TestBit(4, 2),
             TestBit(5, 3), TestBit(6, 4), GetField(7, TableField)]
  {
    hide DecCode;
    DecCodeEnd(types, 0);
    DecCodeHead(types, 0, 0);
    DecCodeHead(types, 1, 0);
    DecCodeHead(types, 2, 0);
    DecCodeHead(types, 3, 1);
    DecCodeHead(types, 4, 2);
    DecCodeHead(types, 5, 3);
    DecCodeHead(types, 6, 4);
    DecCodeHead(types, 7, 5);
    assert DecCode(types, 5, 3) == [TestBit(5, 3), TestBit(6, 4), GetField(7, TableField)];
    assert DecCode(types, 3, 1) == [TestBit(3, 1), TestBit(4, 2)] + DecCode(types, 5, 3);
    assert DecCode(types, 1, 0) == [GetField(1, Str(1)), GetBits, TestBit(2, 0)] + DecCode(types, 3, 1);
  }

  lemma DecCodeEnd(types: seq<FieldType>, b: nat)
    requires b < 8
    ensures DecCode(types, |types|, b) == []
  {
  }

  lemma EncCodeEnd(types: seq<FieldType>, b: nat)
    requires b < 8
    ensures EncCode(types, |types|, b) == Pending(b)
  {
  }

  lemma EncCodeHead(types: seq<FieldType>, i: nat, b: nat)
    requires i < |types| && b < 8
    ensures EncCode(types, i, b)
         == (if types[i].Bit? then BitLines(i, b) else Pending(b) + [PutField(i, types[i])])
            + EncCode(types, i + 1, if types[i].Bit? then (b + 1) % 8 else 0)
  {
  }
}
