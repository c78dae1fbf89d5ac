/** Copying a field table into a pool (`amqp_table_clone`): the values with the places of their
    strings and entry arrays. */
module DeepCopy {
  import opened Bytes
  import opened Statuses
  import opened FieldTable
  import opened Pool

  /** A field value in memory. A null pointer is no place. */
  datatype Field =
    | Scalar(value: FieldValue)
    | Text(at: Option<Region>, text: bytes)
    | Blob(at: Option<Region>, data: bytes)
    | Items(at: Option<Region>, items: seq<Field>)
    | Nested(table: StoredTable)

  datatype StoredEntry = StoredEntry(keyAt: Option<Region>, key: bytes, value: Field)

  datatype StoredTable = StoredTable(at: Option<Region>, entries: seq<StoredEntry>)

  /** The sizes of `amqp_field_value_t` and `amqp_table_entry_t` on a 64-bit machine. */
  const VALUE_SIZE: nat := 24
  const ENTRY_SIZE: nat := 40

  const EMPTY_TABLE := StoredTable(None, [])

  // ---------------------------------------------------------------- the value and its memory

  function Erase(f: Field): FieldValue
    decreases f, 1
  {
    match f
    case Scalar(v) => v
    case Text(_, t) => Utf8(t)
    case Blob(_, d) => Octets(d)
    case Items(_, items) => Array(EraseItems(items))
    case Nested(t) => Table(EraseEntries(t.entries))
  }

  function EraseItems(items: seq<Field>): (r: seq<FieldValue>)
    ensures |r| == |items|
    ensures forall i :: 0 <= i < |r| ==> r[i] == Erase(items[i])
    decreases items, 0
  {
    if items == [] then [] else [Erase(items[0])] + EraseItems(items[1..])
  }

  function EraseEntry(e: StoredEntry): Entry
    decreases e, 2
  {
    Entry(e.key, Erase(e.value))
  }

  function EraseEntries(entries: seq<StoredEntry>): (r: seq<Entry>)
    ensures |r| == |entries|
    ensures forall i :: 0 <= i < |r| ==> r[i] == EraseEntry(entries[i])
    decreases entries, 0
  {
    if entries == [] then [] else [EraseEntry(entries[0])] + EraseEntries(entries[1..])
  }

  function Pointer(at: Option<Region>): seq<Region> {
    if at.Some? then [at.value] else []
  }

  /** The places a value occupies, in the order in which a copy asks for them. */
  function Places(f: Field): seq<Region>
    decreases f, 1
  {
    match f
    case Scalar(_) => []
    case Text(at, _) => Pointer(at)
    case Blob(at, _) => Pointer(at)
    case Items(at, items) => Pointer(at) + ItemsPlaces(items)
    case Nested(t) => TablePlaces(t)
  }

  function ItemsPlaces(items: seq<Field>): seq<Region>
    decreases items, 0
  {
    if items == [] then [] else Places(items[0]) + ItemsPlaces(items[1..])
  }

  function EntryPlaces(e: StoredEntry): seq<Region>
    decreases e, 2
  {
    Pointer(e.keyAt) + Places(e.value)
  }

  function EntriesPlaces(entries: seq<StoredEntry>): seq<Region>
    decreases entries, 0
  {
    if entries == [] then [] else EntryPlaces(entries[0]) + EntriesPlaces(entries[1..])
  }

  function TablePlaces(t: StoredTable): seq<Region>
    decreases t, 1
  {
    Pointer(t.at) + EntriesPlaces(t.entries)
  }

  /** A value as the library builds them: scalars hold no other kind, and an array has entries
      exactly when it has a place for them. */
  predicate Proper(f: Field)
    decreases f, 1
  {
    match f
    case Scalar(v) => Fixed(v) || v.Decimal? || v.Unsupported?
    case Text(_, _) => true
    case Blob(_, _) => true
    case Items(at, items) => (at.None? <==> items == []) && forall i :: i in items ==> Proper(i)
    case Nested(t) => ProperEntries(t.entries)
  }

  predicate ProperEntries(entries: seq<StoredEntry>)
    decreases entries, 0
  {
    forall e :: e in entries ==> Proper(e.value)
  }

  /** What C can hold: the same, but an array with a place may be empty too. */
  predicate Legal(f: Field)
    decreases f, 1
  {
    match f
    case Scalar(v) => Fixed(v) || v.Decimal? || v.Unsupported?
    case Text(_, _) => true
    case Blob(_, _) => true
    case Items(at, items) => (at.None? ==> items == []) && forall i :: i in items ==> Legal(i)
    case Nested(t) => LegalEntries(t.entries)
  }

  predicate LegalEntries(entries: seq<StoredEntry>)
    decreases entries, 0
  {
    forall e :: e in entries ==> Legal(e.value)
  }

  /** What the copier answers. A pool gives no memory for nothing, so that an array with a place but
      no entries is taken for want of memory. */
  function CloneStatus(f: Field): Status
    decreases f, 1
  {
    match f
    case Scalar(v) => if v.Unsupported? then InvalidParameter else Ok
    case Items(at, items) => if at.None? then Ok else if items == [] then NoMemory else ItemsStatus(items)
    case Nested(t) => EntriesStatus(t.entries)
    case _ => Ok
  }

  /** The first refusal counts. */
  function ItemsStatus(items: seq<Field>): Status
    decreases items, 0
  {
    if items == [] then Ok
    else if CloneStatus(items[0]) != Ok then CloneStatus(items[0])
    else ItemsStatus(items[1..])
  }

  function EntryStatus(e: StoredEntry): Status
    decreases e, 2
  {
    if e.key == [] then InvalidParameter else CloneStatus(e.value)
  }

  function EntriesStatus(entries: seq<StoredEntry>): Status
    decreases entries, 0
  {
    if entries == [] then Ok
    else if EntryStatus(entries[0]) != Ok then EntryStatus(entries[0])
    else EntriesStatus(entries[1..])
  }

  predicate Copies(f: Field) {
    CloneStatus(f) == Ok
  }

  predicate EntryCopies(e: StoredEntry) {
    e.key != [] && Copies(e.value)
  }

  predicate AllCopy(entries: seq<StoredEntry>) {
    forall e :: e in entries ==> EntryCopies(e)
  }

  lemma AllCopyCons(entries: seq<StoredEntry>)
    requires entries != []
    ensures AllCopy(entries) <==> EntryCopies(entries[0]) && AllCopy(entries[1..])
  {
    hide EntryCopies;
    assert forall e :: e in entries <==> e == entries[0] || e in entries[1..];
  }

  lemma {:induction false} EntriesOk(entries: seq<StoredEntry>)
    ensures EntriesStatus(entries) == Ok <==> AllCopy(entries)
  {
    hide CloneStatus, AllCopy;
    if entries == [] {
      NothingRefused();
    } else {
      EntriesOk(entries[1..]);
      AllCopyCons(entries);
    }
  }

  lemma NothingRefused()
    ensures AllCopy([])
  {
  }

  /** What the copier accepts: no kind it does not know, and no empty key at any depth. */
  predicate Cloneable(v: FieldValue)
    decreases v, 1
  {
    if v.Array? then forall i :: i in v.items ==> Cloneable(i)
    else if v.Table? then CloneableEntries(v.entries)
    else !v.Unsupported?
  }

  predicate CloneableEntries(entries: seq<Entry>)
    decreases entries, 0
  {
    forall e :: e in entries ==> CloneableEntry(e)
  }

  predicate CloneableEntry(e: Entry)
    decreases e, 2
  {
    e.key != [] && Cloneable(e.value)
  }

  // ---------------------------------------------------------------- what the wire does to it

  lemma ItemsCons(items: seq<FieldValue>)
    requires items != []
    ensures Cloneable(Array(items)) <==> Cloneable(items[0]) && Cloneable(Array(items[1..]))
  {
    assert forall i :: i in items <==> i == items[0] || i in items[1..];
  }

  lemma EntriesCons(entries: seq<Entry>)
    requires entries != []
    ensures CloneableEntries(entries) <==> CloneableEntry(entries[0]) && CloneableEntries(entries[1..])
  {
    hide CloneableEntry;
    assert forall e :: e in entries <==> e == entries[0] || e in entries[1..];
  }

  /** A value can be copied exactly when what it reads back as can be. */
  lemma {:induction false} CloneableNormal(v: FieldValue)
    ensures Cloneable(Normal(v)) <==> Cloneable(v)
    decreases v, 1
  {
    if v.Array? {
      CloneableItemsNormal(v.items);
    } else if v.Table? {
      CloneableEntriesNormal(v.entries);
    }
  }

  lemma {:induction false} CloneableItemsNormal(items: seq<FieldValue>)
    ensures Cloneable(Array(ItemsNormal(items))) <==> Cloneable(Array(items))
    decreases items, 0
  {
    hide Cloneable, Normal;
    if items != [] {
      CloneableNormal(items[0]);
      CloneableItemsNormal(items[1..]);
      ItemsCons(items);
      ItemsCons(ItemsNormal(items));
      assert ItemsNormal(items)[1..] == ItemsNormal(items[1..]);
    }
  }

  lemma {:induction false} CloneableEntriesNormal(entries: seq<Entry>)
    ensures CloneableEntries(EntriesNormal(entries)) <==> CloneableEntries(entries)
    decreases entries, 0
  {
    hide Cloneable, CloneableEntries, Normal;
    if entries != [] {
      CloneableNormal(entries[0].value);
      CloneableEntriesNormal(entries[1..]);
      EntriesCons(entries);
      EntriesCons(EntriesNormal(entries));
      assert EntriesNormal(entries)[1..] == EntriesNormal(entries[1..]);
    }
  }

  // ---------------------------------------------------------------- one more element

  lemma {:induction false} ItemsPlacesSnoc(items: seq<Field>, f: Field)
    ensures ItemsPlaces(items + [f]) == ItemsPlaces(items) + Places(f)
  {
    hide Places;
    if items == [] {
      assert items + [f] == [f] && [f][1..] == [];
    } else {
      ItemsPlacesSnoc(items[1..], f);
      assert (items + [f])[1..] == items[1..] + [f];
    }
  }

  lemma {:induction false} EntriesPlacesSnoc(entries: seq<StoredEntry>, e: StoredEntry)
    ensures EntriesPlaces(entries + [e]) == EntriesPlaces(entries) + EntryPlaces(e)
  {
    hide EntryPlaces;
    if entries == [] {
      assert entries + [e] == [e] && [e][1..] == [];
    } else {
      EntriesPlacesSnoc(entries[1..], e);
      assert (entries + [e])[1..] == entries[1..] + [e];
    }
  }

  /** The first items are copied, and the pool has handed out their places since `before`. */
  ghost predicate ItemsCopied(original: seq<Field>, done: seq<Field>, before: seq<Region>, live: seq<Region>) {
    && |done| <= |original| && live == before + ItemsPlaces(done)
    && (forall j :: 0 <= j < |done| ==>
          Erase(done[j]) == Erase(original[j]) && Proper(done[j]))
  }

  lemma ItemCopied(original: seq<Field>, done: seq<Field>, f: Field, before: seq<Region>, live: seq<Region>)
    requires ItemsCopied(original, done, before, live) && |done| < |original|
    requires Erase(f) == Erase(original[|done|]) && Proper(f)
    ensures ItemsCopied(original, done + [f], before, live + Places(f))
  {
    hide Erase, Proper, Places, ItemsPlaces;
    ItemsPlacesSnoc(done, f);
    assert before + ItemsPlaces(done) + Places(f) == before + (ItemsPlaces(done) + Places(f));
  }

  lemma AllItemsCopied(original: seq<Field>, done: seq<Field>, before: seq<Region>, live: seq<Region>)
    requires ItemsCopied(original, done, before, live) && |done| == |original|
    ensures EraseItems(done) == EraseItems(original) && live == before + ItemsPlaces(done)
    ensures forall i :: i in done ==> Proper(i)
  {
    hide Erase, Proper, ItemsPlaces;
  }

  ghost predicate EntriesCopied(original: seq<StoredEntry>, done: seq<StoredEntry>, before: seq<Region>,
                                live: seq<Region>) {
    && |done| <= |original| && live == before + EntriesPlaces(done)
    && (forall j :: 0 <= j < |done| ==>
          EraseEntry(done[j]) == EraseEntry(original[j]) && Proper(done[j].value))
  }

  lemma EntryCopied(original: seq<StoredEntry>, done: seq<StoredEntry>, e: StoredEntry, before: seq<Region>,
                    live: seq<Region>)
    requires EntriesCopied(original, done, before, live) && |done| < |original|
    requires EraseEntry(e) == EraseEntry(original[|done|]) && Proper(e.value)
    ensures EntriesCopied(original, done + [e], before, live + EntryPlaces(e))
  {
    hide EraseEntry, Proper, EntryPlaces, EntriesPlaces;
    EntriesPlacesSnoc(done, e);
    assert before + EntriesPlaces(done) + EntryPlaces(e) == before + (EntriesPlaces(done) + EntryPlaces(e));
  }

  lemma AllEntriesCopied(original: seq<StoredEntry>, done: seq<StoredEntry>, before: seq<Region>, live: seq<Region>)
    requires EntriesCopied(original, done, before, live) && |done| == |original|
    ensures EraseEntries(done) == EraseEntries(original) && ProperEntries(done)
    ensures live == before + EntriesPlaces(done)
  {
    hide EraseEntry, Proper, EntriesPlaces;
  }

  // ---------------------------------------------------------------- what the answer means

  /** The copier accepts exactly the proper values with no kind it does not know and no empty key; and
      a proper value is never refused for want of memory. */
  lemma {:induction false} CloneStatusMeans(f: Field)
    requires Legal(f)
    ensures CloneStatus(f) == Ok <==> Proper(f) && Cloneable(Erase(f))
    ensures Proper(f) ==> CloneStatus(f) in {Ok, InvalidParameter}
    decreases f, 1
  {
    match f {
      case Items(at, items) =>
        hide CloneStatus, ItemsStatus, Cloneable, Proper;
        if items != [] {
          ItemsStatusMeans(items);
        }
        ItemsMeaning(at, items);
      case Nested(t) => EntriesStatusMeans(t.entries);
      case _ =>
    }
  }

  lemma ItemsMeaning(at: Option<Region>, items: seq<Field>)
    requires at.None? ==> items == []
    ensures CloneStatus(Items(at, items)) ==
      if at.None? then Ok else if items == [] then NoMemory else ItemsStatus(items)
    ensures Proper(Items(at, items)) <==> (at.None? <==> items == []) && AllProper(items)
    ensures Cloneable(Erase(Items(at, items))) <==> AllCloneable(items)
  {
    forall i | i in EraseItems(items) && AllCloneable(items) ensures Cloneable(i) {
      var k :| 0 <= k < |items| && EraseItems(items)[k] == i;
      assert items[k] in items;
    }
    forall i | i in items && Cloneable(Array(EraseItems(items))) ensures Cloneable(Erase(i)) {
      var k :| 0 <= k < |items| && items[k] == i;
      assert EraseItems(items)[k] in EraseItems(items);
    }
  }

  predicate AllProper(items: seq<Field>) {
    forall i :: i in items ==> Proper(i)
  }

  predicate AllCloneable(items: seq<Field>) {
    forall i :: i in items ==> Cloneable(Erase(i))
  }

  lemma {:induction false} ItemsStatusMeans(items: seq<Field>)
    requires forall i :: i in items ==> Legal(i)
    ensures ItemsStatus(items) == Ok <==> AllProper(items) && AllCloneable(items)
    ensures AllProper(items) ==> ItemsStatus(items) in {Ok, InvalidParameter}
    decreases items, 0
  {
    hide Legal, Proper, Cloneable, Erase, CloneStatus;
    if items != [] {
      CloneStatusMeans(items[0]);
      ItemsStatusMeans(items[1..]);
      assert forall i :: i in items <==> i == items[0] || i in items[1..];
    }
  }

  lemma {:induction false} EntriesStatusMeans(entries: seq<StoredEntry>)
    requires LegalEntries(entries)
    ensures EntriesStatus(entries) == Ok <==> ProperEntries(entries) && CloneableEntries(EraseEntries(entries))
    ensures ProperEntries(entries) ==> EntriesStatus(entries) in {Ok, InvalidParameter}
    decreases entries, 0
  {
    hide Legal, Proper, Cloneable, CloneableEntries, Erase, CloneStatus;
    if entries == [] {
      NoEntries(entries, []);
    } else {
      CloneStatusMeans(entries[0].value);
      EntriesStatusMeans(entries[1..]);
      EntriesCons(EraseEntries(entries));
      assert EraseEntries(entries)[1..] == EraseEntries(entries[1..]);
      assert forall e :: e in entries <==> e == entries[0] || e in entries[1..];
    }
  }

  /** A table read into a pool is copied, or refused for its values alone. */
  lemma ProperTableStatus(entries: seq<StoredEntry>)
    requires ProperEntries(entries)
    ensures LegalEntries(entries)
    ensures EntriesStatus(entries) == if CloneableEntries(EraseEntries(entries)) then Ok else InvalidParameter
  {
    hide Legal, Proper, CloneableEntries;
    forall e | e in entries ensures Legal(e.value) {
      ProperIsLegal(e.value);
    }
    EntriesStatusMeans(entries);
  }

  lemma {:induction false} ProperIsLegal(f: Field)
    requires Proper(f)
    ensures Legal(f)
    decreases f
  {
    match f {
      case Items(_, items) =>
        forall i | i in items ensures Legal(i) {
          ProperIsLegal(i);
        }
      case Nested(t) =>
        forall e | e in t.entries ensures Legal(e.value) {
          ProperIsLegal(e.value);
        }
      case _ =>
    }
  }

  // ---------------------------------------------------------------- the copier

  /** `amqp_pool_alloc_bytes`, then a copy of the string. */
  method CloneBytes(original: bytes, pool: AmqpPool, heap: Heap) returns (at: Option<Region>)
    requires pool.Valid(heap)
    modifies pool, heap
    ensures pool.Valid(heap) && heap.next >= old(heap.next)
    ensures Extends(old(pool.State()), old(heap.next), pool.State())
    ensures pool.live == old(pool.live) + Pointer(at) && (at.None? <==> original == [])
  {
    hide Sound, Alloc, Extends;
    ExtendsNot(pool.State(), heap.next);
    at := None;
    if |original| != 0 {
      at := pool.AllocBytes(heap, |original|);
    }
  }

  /** `amqp_field_value_clone`: on success an equal value, whose places are what the pool has
      handed out meanwhile. */
  method CloneField(original: Field, pool: AmqpPool, heap: Heap) returns (status: Status, clone: Field)
    requires Legal(original) && pool.Valid(heap)
    modifies pool, heap
    ensures pool.Valid(heap) && heap.next >= old(heap.next)
    ensures Extends(old(pool.State()), old(heap.next), pool.State())
    ensures status == CloneStatus(original)
    ensures status == Ok ==>
      Erase(clone) == Erase(original) && pool.live == old(pool.live) + Places(clone) && Proper(clone)
    decreases original, 2
  {
    hide Sound, Alloc, Extends, ItemsStatus, EntriesStatus;
    ExtendsNot(pool.State(), heap.next);
    clone := original;
    match original {
      case Scalar(v) =>
        status := if v.Unsupported? then InvalidParameter else Ok;
      case Text(_, text) =>
        var at := CloneBytes(text, pool, heap);
        status, clone := Ok, Text(at, text);
      case Blob(_, data) =>
        var at := CloneBytes(data, pool, heap);
        status, clone := Ok, Blob(at, data);
      case Items(at, items) =>
        if at.None? {
          status := Ok;
        } else {
          status, clone := CloneItems(items, pool, heap);
        }
      case Nested(table) =>
        var copy;
        status, copy := CloneTable(table, pool, heap);
        clone := Nested(copy);
    }
  }

  /** The array case, with a place given. */
  method CloneItems(original: seq<Field>, pool: AmqpPool, heap: Heap) returns (status: Status, clone: Field)
    requires (forall i :: i in original ==> Legal(i)) && pool.Valid(heap)
    modifies pool, heap
    ensures pool.Valid(heap) && heap.next >= old(heap.next)
    ensures Extends(old(pool.State()), old(heap.next), pool.State())
    ensures status == if original == [] then NoMemory else ItemsStatus(original)
    ensures status == Ok ==>
      Erase(clone) == Array(EraseItems(original)) && pool.live == old(pool.live) + Places(clone) && Proper(clone)
    decreases original, 1
  {
    hide Sound, Alloc, EraseItems, ItemsPlaces, ItemsStatus, Legal, Extends;
    var at := pool.AllocBytes(heap, |original| * VALUE_SIZE);
    if at.None? {
      return NoMemory, Items(at, []);
    }
    ghost var p1, h1 := pool.State(), heap.next;
    var items;
    status, items := CloneEach(original, pool, heap);
    ExtendsTwice(old(pool.State()), old(heap.next), p1, h1, pool.State());
    clone := Items(at, items);
    ConcatAssoc(old(pool.live), Pointer(at), ItemsPlaces(items));
  }

  /** The loop over the values of an array. */
  method CloneEach(original: seq<Field>, pool: AmqpPool, heap: Heap) returns (status: Status, clones: seq<Field>)
    requires (forall i :: i in original ==> Legal(i)) && pool.Valid(heap)
    modifies pool, heap
    ensures pool.Valid(heap) && heap.next >= old(heap.next)
    ensures Extends(old(pool.State()), old(heap.next), pool.State())
    ensures status == ItemsStatus(original)
    ensures status == Ok ==>
      && EraseItems(clones) == EraseItems(original) && (forall i :: i in clones ==> Proper(i))
      && pool.live == old(pool.live) + ItemsPlaces(clones)
    decreases original, 0
  {
    hide Sound, EraseItems, ItemsPlaces, ItemsCopied, CloneStatus, Legal, Extends, Proper;
    ghost var p, h, base := pool.State(), heap.next, pool.live;
    var items := new Field[|original|](_ => Scalar(Void));
    var i := 0;
    assert ItemsCopied(original, items[..0], base, base) by { NothingCopied(original, base); }
    assert original[0..] == original;
    ExtendsNot(p, h);
    while i < |original|
      invariant 0 <= i <= |original| && pool.Valid(heap) && heap.next >= h && Extends(p, h, pool.State())
      invariant ItemsCopied(original, items[..i], base, pool.live)
      invariant ItemsStatus(original) == ItemsStatus(original[i..])
    {
      ghost var done, live, p1, h1 := items[..i], pool.live, pool.State(), heap.next;
      assert original[i..][1..] == original[i + 1..];
      var item;
      status, item := CloneField(original[i], pool, heap);
      ExtendsTwice(p, h, p1, h1, pool.State());
      if status != Ok {
        return status, items[..];
      }
      ItemCopied(original, done, item, base, live);
      items[i] := item;
      assert items[..i + 1] == done + [item];
      i := i + 1;
    }
    assert items[..] == items[..i];
    AllItemsCopied(original, items[..], base, pool.live);
    status, clones := Ok, items[..];
  }

  lemma NothingCopied(original: seq<Field>, base: seq<Region>)
    ensures ItemsCopied(original, [], base, base)
  {
    assert base + [] == base;
  }

  /** `amqp_table_entry_clone` */
  method CloneEntry(original: StoredEntry, pool: AmqpPool, heap: Heap) returns (status: Status, clone: StoredEntry)
    requires Legal(original.value) && pool.Valid(heap)
    modifies pool, heap
    ensures pool.Valid(heap) && heap.next >= old(heap.next)
    ensures Extends(old(pool.State()), old(heap.next), pool.State())
    ensures status == EntryStatus(original)
    ensures status == Ok ==>
      && EraseEntry(clone) == EraseEntry(original)
      && pool.live == old(pool.live) + EntryPlaces(clone) && Proper(clone.value)
    decreases original, 2
  {
    hide Sound, Alloc, Erase, Proper, Places, Legal, CloneStatus, Extends;
    ghost var p, h := pool.State(), heap.next;
    ExtendsNot(p, h);
    clone := original;
    if |original.key| == 0 {
      return InvalidParameter, clone;
    }
    var keyAt := CloneBytes(original.key, pool, heap);
    ghost var p1, h1, live1 := pool.State(), heap.next, pool.live;
    var value;
    status, value := CloneField(original.value, pool, heap);
    ExtendsTwice(p, h, p1, h1, pool.State());
    clone := StoredEntry(keyAt, original.key, value);
    ConcatAssoc(old(pool.live), Pointer(keyAt), Places(value));
  }

  /** `amqp_table_clone` succeeds exactly on what it accepts, with an equal table all of whose
      places are new in the pool and share no byte with any memory in use. */
  method CloneTable(original: StoredTable, pool: AmqpPool, heap: Heap) returns (status: Status, clone: StoredTable)
    requires LegalEntries(original.entries) && pool.Valid(heap)
    modifies pool, heap
    ensures pool.Valid(heap) && heap.next >= old(heap.next)
    ensures Extends(old(pool.State()), old(heap.next), pool.State())
    ensures status == EntriesStatus(original.entries)
    ensures status == Ok ==>
      && EraseEntries(clone.entries) == EraseEntries(original.entries)
      && pool.live == old(pool.live) + TablePlaces(clone) && ProperEntries(clone.entries)
    ensures status == Ok ==> Apart(old(pool.State()), old(heap.next), old(pool.live), TablePlaces(clone))
    decreases original, 1
  {
    hide Sound, Alloc, Apart, Extends, EntriesStatus, EraseEntries, LegalEntries, ProperEntries, EntriesPlaces;
    ghost var p, h, live := pool.State(), heap.next, pool.live;
    ExtendsNot(p, h);
    if |original.entries| == 0 {
      NoEntries(original.entries, pool.live);
      NewIsApart(p, h, live, p, h, TablePlaces(EMPTY_TABLE));
      return Ok, EMPTY_TABLE;
    }
    var at := pool.AllocBytes(heap, |original.entries| * ENTRY_SIZE);
    ghost var p1, h1 := pool.State(), heap.next;
    var entries;
    status, entries := CloneEntries(original.entries, pool, heap);
    ExtendsTwice(p, h, p1, h1, pool.State());
    clone := StoredTable(at, entries);
    if status == Ok {
      ConcatAssoc(live, Pointer(at), EntriesPlaces(entries));
      NewIsApart(p, h, live, pool.State(), heap.next, TablePlaces(clone));
    }
  }

  /** The loop over the entries of a table. */
  method CloneEntries(original: seq<StoredEntry>, pool: AmqpPool, heap: Heap)
    returns (status: Status, clones: seq<StoredEntry>)
    requires LegalEntries(original) && pool.Valid(heap)
    modifies pool, heap
    ensures pool.Valid(heap) && heap.next >= old(heap.next)
    ensures Extends(old(pool.State()), old(heap.next), pool.State())
    ensures status == EntriesStatus(original)
    ensures status == Ok ==>
      && EraseEntries(clones) == EraseEntries(original) && ProperEntries(clones)
      && pool.live == old(pool.live) + EntriesPlaces(clones)
    decreases original, 0
  {
    hide Sound, EntryStatus, EraseEntries, EntriesPlaces, EntriesCopied, Legal, Extends, ProperEntries;
    ghost var p, h, base := pool.State(), heap.next, pool.live;
    var entries := new StoredEntry[|original|](_ => StoredEntry(None, [], Scalar(Void)));
    var i := 0;
    assert EntriesCopied(original, entries[..0], base, base) by { NoEntriesCopied(original, base); }
    assert original[0..] == original;
    ExtendsNot(p, h);
    while i < |original|
      invariant 0 <= i <= |original| && pool.Valid(heap) && heap.next >= h && Extends(p, h, pool.State())
      invariant EntriesCopied(original, entries[..i], base, pool.live)
      invariant EntriesStatus(original) == EntriesStatus(original[i..])
    {
      ghost var done, live, p1, h1 := entries[..i], pool.live, pool.State(), heap.next;
      assert original[i..][1..] == original[i + 1..];
      var entry;
      status, entry := CloneEntry(original[i], pool, heap);
      ExtendsTwice(p, h, p1, h1, pool.State());
      if status != Ok {
        return status, entries[..];
      }
      EntryCopied(original, done, entry, base, live);
      entries[i] := entry;
      assert entries[..i + 1] == done + [entry];
      i := i + 1;
    }
    assert entries[..] == entries[..i];
    AllEntriesCopied(original, entries[..], base, pool.live);
    status, clones := Ok, entries[..];
  }

  lemma NoEntries(original: seq<StoredEntry>, live: seq<Region>)
    requires original == []
    ensures EraseEntries(original) == EraseEntries(EMPTY_TABLE.entries) && CloneableEntries(EraseEntries(original))
    ensures live == live + TablePlaces(EMPTY_TABLE) && ProperEntries(EMPTY_TABLE.entries)
    ensures EntriesStatus(original) == Ok
  {
  }

  lemma NoEntriesCopied(original: seq<StoredEntry>, base: seq<Region>)
    ensures EntriesCopied(original, [], base, base)
  {
    assert base + [] == base;
  }
}
