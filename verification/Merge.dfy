/** Laying one field table over another (`amqp_merge_capabilities`). */
module Merge {
  import opened Bytes
  import opened Statuses
  import opened FieldTable
  import opened Pool
  import opened DeepCopy

  // ---------------------------------------------------------------- merging, step by step

  /** A table that a merge has made; where it is stored does not matter here. */
  function Inner(entries: seq<StoredEntry>): Field {
    Nested(StoredTable(None, entries))
  }

  /** `amqp_table_get_entry_by_key`, with the length standing for a null pointer. */
  function Find(entries: seq<StoredEntry>, key: bytes): (k: nat)
    ensures k <= |entries|
    ensures forall j :: 0 <= j < k ==> entries[j].key != key
    ensures k < |entries| ==> entries[k].key == key
  {
    if entries == [] || entries[0].key == key then 0 else 1 + Find(entries[1..], key)
  }

  /** `Wild`: an entry is looked up in `base` that is not there, or is no table. */
  datatype Merged = Done(entries: seq<StoredEntry>) | Failed(status: Status) | Wild

  function MergeOne(base: seq<StoredEntry>, temp: seq<StoredEntry>, a: StoredEntry): Merged
    decreases a, 2
  {
    var e := Find(temp, a.key);
    if e == |temp| then Done(temp + [a])
    else if a.value.Nested? && temp[e].value.Nested? then
      var b := Find(base, a.key);
      if b == |base| || !base[b].value.Nested? then Wild
      else
        match MergeTables(base[b].value.table.entries, a.value.table.entries)
        case Done(t) => Done(temp[e := temp[e].(value := Inner(t))])
        case other => other
    else Done(temp[e := temp[e].(value := a.value)])
  }

  function MergeEach(base: seq<StoredEntry>, temp: seq<StoredEntry>, add: seq<StoredEntry>): Merged
    decreases add, 0
  {
    if add == [] then Done(temp)
    else
      match MergeOne(base, temp, add[0])
      case Done(t) => MergeEach(base, t, add[1..])
      case other => other
  }

  /** An empty request to the temporary pool returns no memory, so two empty tables fail; otherwise the
      final clone decides. */
  function MergeTables(base: seq<StoredEntry>, add: seq<StoredEntry>): Merged
    decreases add, 1
  {
    if base == [] && add == [] then Failed(NoMemory)
    else
      match MergeEach(base, base, add)
      case Done(t) => if AllCopy(t) then Done(t) else Failed(EntriesStatus(t))
      case other => other
  }

  /** `amqp_table_get_entry_by_key` */
  method GetEntryByKey(entries: seq<StoredEntry>, key: bytes) returns (k: nat)
    ensures k == Find(entries, key)
  {
    hide Find;
    k := 0;
    while k < |entries|
      invariant 0 <= k <= |entries|
      invariant forall j :: 0 <= j < k ==> entries[j].key != key
    {
      if entries[k].key == key {
        FindIs(entries, key, k);
        return;
      }
      k := k + 1;
    }
    FindIs(entries, key, |entries|);
  }

  lemma {:induction false} FindIs(entries: seq<StoredEntry>, key: bytes, k: nat)
    requires k <= |entries| && forall j :: 0 <= j < k ==> entries[j].key != key
    requires k < |entries| ==> entries[k].key == key
    ensures Find(entries, key) == k
  {
    if k > 0 {
      FindIs(entries[1..], key, k - 1);
    }
  }

  lemma InnerCopies(f: Field)
    requires f.Nested?
    ensures Copies(f) <==> AllCopy(f.table.entries)
  {
    EntriesOk(f.table.entries);
  }

  // ---------------------------------------------------------------- the merger as it runs

  datatype Outcome = Stored(table: StoredTable) | Refused(status: Status) | Undefined

  /** The outcome is the merged table, as a value, stored in places that the pool handed out since
      `before`. */
  predicate Answers(outcome: Outcome, merged: Merged, before: seq<Region>, live: seq<Region>) {
    match merged
    case Done(t) =>
      && outcome.Stored? && EraseEntries(outcome.table.entries) == EraseEntries(t)
      && ProperEntries(outcome.table.entries) && AllCopy(outcome.table.entries)
      && live == before + TablePlaces(outcome.table)
    case Failed(status) => outcome == Refused(status)
    case Wild => outcome.Undefined?
  }

  /** Two entries that a merge treats alike: they may be stored in different places. */
  predicate Alike(x: StoredEntry, y: StoredEntry) {
    && x.key == y.key && Erase(x.value) == Erase(y.value) && CloneStatus(x.value) == CloneStatus(y.value)
    && (x.value.Nested? <==> y.value.Nested?) && Legal(x.value)
  }

  predicate AllAlike(xs: seq<StoredEntry>, ys: seq<StoredEntry>) {
    |xs| == |ys| && forall i :: 0 <= i < |xs| ==> Alike(xs[i], ys[i])
  }

  lemma AlikeSelf(xs: seq<StoredEntry>)
    requires LegalEntries(xs)
    ensures AllAlike(xs, xs)
  {
    hide Legal;
    forall i | 0 <= i < |xs| ensures Alike(xs[i], xs[i]) {
      assert xs[i] in xs;
    }
  }

  lemma {:induction false} AlikeFind(xs: seq<StoredEntry>, ys: seq<StoredEntry>, key: bytes)
    requires AllAlike(xs, ys)
    ensures Find(xs, key) == Find(ys, key)
  {
    hide Find, Legal, Erase, CloneStatus;
    var k := Find(xs, key);
    FindIs(ys, key, k);
  }

  lemma {:induction false} AlikeTables(xs: seq<StoredEntry>, ys: seq<StoredEntry>)
    requires AllAlike(xs, ys)
    ensures EraseEntries(xs) == EraseEntries(ys) && EntriesStatus(xs) == EntriesStatus(ys) && LegalEntries(xs)
  {
    hide Legal, Erase, CloneStatus;
    if xs != [] {
      AlikeTables(xs[1..], ys[1..]);
      assert Alike(xs[0], ys[0]);
      assert forall e :: e in xs <==> e == xs[0] || e in xs[1..];
    }
  }

  /** A nested table that was merged and stored. */
  lemma AlikeStored(x: StoredEntry, y: StoredEntry, table: StoredTable, t: seq<StoredEntry>)
    requires x.key == y.key && EraseEntries(table.entries) == EraseEntries(t)
    requires ProperEntries(table.entries) && AllCopy(table.entries) && AllCopy(t)
    ensures Alike(x.(value := Nested(table)), y.(value := Inner(t)))
  {
    hide EraseEntries, AllCopy;
    ProperTableStatus(table.entries);
    EntriesOk(table.entries);
    EntriesOk(t);
  }

  lemma TableLegal(f: Field)
    requires Legal(f) && f.Nested?
    ensures LegalEntries(f.table.entries)
  {
  }

  /** One entry of `add` put into the temporary array. */
  method MergeEntry(base: StoredTable, temp: array<StoredEntry>, num: nat, a: StoredEntry,
                    ghost sofar: seq<StoredEntry>, tempPool: AmqpPool, heap: Heap)
    returns (outcome: Outcome, num': nat)
    requires LegalEntries(base.entries) && Legal(a.value) && tempPool.Valid(heap) && num < temp.Length
    requires AllAlike(temp[..num], sofar)
    modifies temp, tempPool, heap
    ensures tempPool.Valid(heap) && heap.next >= old(heap.next) && num <= num' <= num + 1
    ensures match MergeOne(base.entries, sofar, a)
            case Done(t) => outcome.Stored? && AllAlike(temp[..num'], t)
            case Failed(status) => outcome == Refused(status)
            case Wild => outcome.Undefined?
    decreases a, 2
  {
    hide Find, Sound, Legal, Erase, CloneStatus, MergeTables, EraseEntries, AllCopy;
    num', outcome := num, Stored(EMPTY_TABLE);
    ghost var before := temp[..num];
    AlikeFind(before, sofar, a.key);
    var e := GetEntryByKey(temp[..num], a.key);
    if e == num {
      temp[num] := a;
      num' := num + 1;
      assert temp[..num'] == before + [a];
      return;
    }
    assert Alike(before[e], sofar[e]);
    var value := a.value;
    ghost var wanted := a.value;
    if a.value.Nested? && temp[e].value.Nested? {
      var b := GetEntryByKey(base.entries, a.key);
      if b == |base.entries| || !base.entries[b].value.Nested? {
        return Undefined, num;
      }
      assert base.entries[b] in base.entries;
      TableLegal(base.entries[b].value);
      TableLegal(a.value);
      outcome := MergeInto(base.entries[b].value.table, a.value.table, tempPool, heap);
      if !outcome.Stored? {
        return;
      }
      value := Nested(outcome.table);
      ghost var t := MergeTables(base.entries[b].value.table.entries, a.value.table.entries).entries;
      wanted := Inner(t);
      MergedCopies(base.entries[b].value.table.entries, a.value.table.entries);
      AlikeStored(before[e], sofar[e], outcome.table, t);
    }
    temp[e] := temp[e].(value := value);
    assert temp[..num] == before[e := before[e].(value := value)];
    assert Alike(before[e].(value := value), sofar[e].(value := wanted));
  }

  lemma MergedCopies(base: seq<StoredEntry>, add: seq<StoredEntry>)
    requires MergeTables(base, add).Done?
    ensures AllCopy(MergeTables(base, add).entries)
  {
    hide MergeEach;
  }

  /** The loop over the entries of `add`. */
  method MergeEntries(base: StoredTable, temp: array<StoredEntry>, add: StoredTable, tempPool: AmqpPool, heap: Heap)
    returns (outcome: Outcome, num: nat)
    requires LegalEntries(base.entries) && LegalEntries(add.entries) && tempPool.Valid(heap)
    requires temp.Length == |base.entries| + |add.entries| && temp[..|base.entries|] == base.entries
    modifies temp, tempPool, heap
    ensures tempPool.Valid(heap) && heap.next >= old(heap.next) && num <= temp.Length
    ensures match MergeEach(base.entries, base.entries, add.entries)
            case Done(t) => outcome.Stored? && AllAlike(temp[..num], t)
            case Failed(status) => outcome == Refused(status)
            case Wild => outcome.Undefined?
    decreases add, 0
  {
    hide Find, Sound, Legal, Alike, MergeOne, EraseEntries;
    outcome, num := Stored(EMPTY_TABLE), |base.entries|;
    ghost var sofar := base.entries;
    AlikeSelf(base.entries);
    assert add.entries[0..] == add.entries;
    var i := 0;
    while i < |add.entries|
      invariant 0 <= i <= |add.entries| && num <= |base.entries| + i
      invariant tempPool.Valid(heap) && heap.next >= old(heap.next) && outcome.Stored?
      invariant AllAlike(temp[..num], sofar)
      invariant MergeEach(base.entries, base.entries, add.entries) == MergeEach(base.entries, sofar, add.entries[i..])
    {
      assert add.entries[i..][0] == add.entries[i] && add.entries[i..][1..] == add.entries[i + 1..];
      assert add.entries[i] in add.entries;
      ghost var next := MergeOne(base.entries, sofar, add.entries[i]);
      outcome, num := MergeEntry(base, temp, num, add.entries[i], sofar, tempPool, heap);
      if !outcome.Stored? {
        return;
      }
      sofar := next.entries;
      i := i + 1;
    }
  }

  /** The loop that puts base's entries into the temporary array. */
  method CopyBase(base: StoredTable, temp: array<StoredEntry>)
    requires |base.entries| <= temp.Length
    modifies temp
    ensures temp[..|base.entries|] == base.entries
  {
    var num := 0;
    while num < |base.entries|
      invariant 0 <= num <= |base.entries| && temp[..num] == base.entries[..num]
    {
      temp[num] := base.entries[num];
      num := num + 1;
    }
  }

  /** The last step, a clone of the temporary array, seen from when the heap was at `h`. */
  method StoreClone(merged: StoredTable, ghost wanted: seq<StoredEntry>, pool: AmqpPool, heap: Heap, ghost h: BlockId)
    returns (outcome: Outcome)
    requires AllAlike(merged.entries, wanted) && pool.Valid(heap) && h <= heap.next
    modifies pool, heap
    ensures pool.Valid(heap) && heap.next >= h && Extends(old(pool.State()), h, pool.State())
    ensures Answers(outcome, if AllCopy(wanted) then Done(wanted) else Failed(EntriesStatus(wanted)),
                    old(pool.live), pool.live)
    ensures outcome.Stored? ==> Apart(old(pool.State()), h, old(pool.live), TablePlaces(outcome.table))
  {
    hide Sound, Apart, Extends, AllAlike, AllCopy, ProperEntries, EntriesStatus, CloneableEntries, EraseEntries;
    ghost var p, h1 := pool.State(), heap.next;
    AlikeTables(merged.entries, wanted);
    var status, clone := CloneTable(merged, pool, heap);
    ExtendsNot(p, h);
    ExtendsTwice(p, h, p, h1, pool.State());
    if status == Ok {
      ApartSooner(p, h, h1, old(pool.live), TablePlaces(clone));
      EntriesStatusMeans(merged.entries);
      ProperTableStatus(clone.entries);
      EntriesOk(clone.entries);
    }
    EntriesOk(wanted);
    outcome := if status == Ok then Stored(clone) else Refused(status);
  }

  /** `amqp_merge_capabilities` with both tables given: entries are overwritten in, or added to,
      a temporary array, which is then cloned into the pool. The merged table shares no byte with any
      memory in use, such as that of base, of add, or of both. */
  method MergeInto(base: StoredTable, add: StoredTable, pool: AmqpPool, heap: Heap) returns (outcome: Outcome)
    requires LegalEntries(base.entries) && LegalEntries(add.entries) && pool.Valid(heap)
    modifies pool, heap
    ensures pool.Valid(heap) && heap.next >= old(heap.next)
    ensures Extends(old(pool.State()), old(heap.next), pool.State())
    ensures Answers(outcome, MergeTables(base.entries, add.entries), old(pool.live), pool.live)
    ensures outcome.Stored? ==>
      Apart(old(pool.State()), old(heap.next), old(pool.live), TablePlaces(outcome.table))
    decreases add, 1
  {
    hide Find, Sound, LegalEntries, MergeEach, EraseEntries, EntriesStatus, Extends, Apart, AllAlike, AllCopy;
    ghost var p, h := pool.State(), heap.next;
    var tempPool := new AmqpPool(4096);
    InitSound(4096, heap.next);
    var n := |base.entries| + |add.entries|;
    var at := tempPool.AllocBytes(heap, n * ENTRY_SIZE);
    if at.None? {
      ExtendsNot(p, h);
      return Refused(NoMemory);
    }
    var temp := new StoredEntry[n](_ => StoredEntry(None, [], Scalar(Void)));
    CopyBase(base, temp);
    var num;
    outcome, num := MergeEntries(base, temp, add, tempPool, heap);
    SoundLater(p, h, pool.live, heap.next);
    ExtendsNot(p, h);
    if outcome.Stored? {
      ghost var wanted := MergeEach(base.entries, base.entries, add.entries).entries;
      outcome := StoreClone(StoredTable(at, temp[..num]), wanted, pool, heap, h);
    }
  }

  /** `amqp_merge_capabilities` */
  method MergeCapabilities(base: StoredTable, add: Option<StoredTable>, pool: AmqpPool, heap: Heap)
    returns (outcome: Outcome)
    requires LegalEntries(base.entries) && (add.Some? ==> LegalEntries(add.value.entries)) && pool.Valid(heap)
    modifies pool, heap
    ensures pool.Valid(heap)
    ensures var b := base.entries;
      var merged := if add.Some? then MergeTables(b, add.value.entries)
                    else if AllCopy(b) then Done(b) else Failed(EntriesStatus(b));
      Answers(outcome, merged, old(pool.live), pool.live)
    ensures outcome.Stored? ==>
      Apart(old(pool.State()), old(heap.next), old(pool.live), TablePlaces(outcome.table))
  {
    hide Sound, Apart, Extends, MergeTables, LegalEntries, EntriesStatus, AllAlike, AllCopy;
    if add.None? {
      AlikeSelf(base.entries);
      outcome := StoreClone(base, base.entries, pool, heap, heap.next);
    } else {
      outcome := MergeInto(base, add.value, pool, heap);
    }
  }

  // ---------------------------------------------------------------- merging, as promised

  predicate Has(entries: seq<StoredEntry>, key: bytes) {
    Find(entries, key) < |entries|
  }

  /** One value laid over another. */
  function Both(b: Field, a: Field): Field
    decreases a, 1
  {
    if a.Nested? && b.Nested? then Inner(Overlay(b.table.entries, a.table.entries)) else a
  }

  function Overlaid(b: StoredEntry, add: seq<StoredEntry>): StoredEntry
    decreases add, 0
  {
    if Has(add, b.key) then b.(value := Both(b.value, add[Find(add, b.key)].value)) else b
  }

  function OverlaidAll(base: seq<StoredEntry>, add: seq<StoredEntry>): (r: seq<StoredEntry>)
    ensures |r| == |base|
    ensures forall i :: 0 <= i < |base| ==> r[i] == Overlaid(base[i], add)
    decreases add, 1, |base|
  {
    if base == [] then [] else [Overlaid(base[0], add)] + OverlaidAll(base[1..], add)
  }

  /** The entries of `add` whose key is new. */
  function NewIn(base: seq<StoredEntry>, add: seq<StoredEntry>): seq<StoredEntry> {
    if add == [] then []
    else if Has(base, add[0].key) then NewIn(base, add[1..])
    else [add[0]] + NewIn(base, add[1..])
  }

  lemma {:induction false} NewInMeans(base: seq<StoredEntry>, add: seq<StoredEntry>)
    ensures forall e :: e in NewIn(base, add) <==> e in add && !Has(base, e.key)
  {
    hide Has;
    if add != [] {
      NewInMeans(base, add[1..]);
      assert forall e :: e in add <==> e == add[0] || e in add[1..];
    }
  }

  /** Base's entries in their order, each with add's value laid over it, then add's new ones. */
  function Overlay(base: seq<StoredEntry>, add: seq<StoredEntry>): (r: seq<StoredEntry>)
    ensures |r| >= |base|
    decreases add, 2
  {
    OverlaidAll(base, add) + NewIn(base, add)
  }

  predicate DistinctKeys(entries: seq<StoredEntry>) {
    forall i, j :: 0 <= i < j < |entries| ==> entries[i].key != entries[j].key
  }

  /** No key twice in the table, nor in any table directly nested in it, and so on. */
  predicate UniqueKeys(entries: seq<StoredEntry>) {
    && DistinctKeys(entries)
    && forall e :: e in entries && e.value.Nested? ==> UniqueKeys(e.value.table.entries)
  }

  predicate BothTables(base: seq<StoredEntry>, a: StoredEntry) {
    a.value.Nested? && Has(base, a.key) && base[Find(base, a.key)].value.Nested?
  }

  predicate BaseCloneable(b: StoredEntry, add: seq<StoredEntry>) {
    b.key != [] && (Has(add, b.key) || Copies(b.value))
  }

  /** What the merge needs beyond unique keys: a table that is not empty on both sides, no empty
      key, and no kind it cannot copy where the value survives. */
  predicate Mergeable(base: seq<StoredEntry>, add: seq<StoredEntry>) {
    && (base != [] || add != [])
    && (forall b :: b in base ==> BaseCloneable(b, add))
    && (forall a :: a in add ==>
          && a.key != []
          && (if BothTables(base, a) then Mergeable(base[Find(base, a.key)].value.table.entries, a.value.table.entries)
              else Copies(a.value)))
  }

  // ---------------------------------------------------------------- the two agree

  lemma FindMember(entries: seq<StoredEntry>, i: nat)
    requires DistinctKeys(entries) && i < |entries|
    ensures Find(entries, entries[i].key) == i
  {
    FindIs(entries, entries[i].key, i);
  }

  lemma {:induction false} NewInSnoc(base: seq<StoredEntry>, pre: seq<StoredEntry>, a: StoredEntry)
    ensures NewIn(base, pre + [a]) == NewIn(base, pre) + if Has(base, a.key) then [] else [a]
  {
    hide Has;
    if pre == [] {
      assert pre + [a] == [a] && [a][1..] == [];
    } else {
      NewInSnoc(base, pre[1..], a);
      assert (pre + [a])[0] == pre[0] && (pre + [a])[1..] == pre[1..] + [a];
    }
  }

  /** Adding an entry with a key that `add` did not have changes at most one base entry. */
  lemma OverlaidSnoc(b: StoredEntry, pre: seq<StoredEntry>, a: StoredEntry)
    requires !Has(pre, a.key)
    ensures Overlaid(b, pre + [a]) == if b.key == a.key then b.(value := Both(b.value, a.value)) else Overlaid(b, pre)
    ensures b.key == a.key ==> Overlaid(b, pre) == b
  {
    hide Both;
    var k := Find(pre, b.key);
    if k < |pre| {
      FindIs(pre + [a], b.key, k);
    } else if b.key == a.key {
      FindIs(pre + [a], b.key, |pre|);
    } else {
      FindIs(pre + [a], b.key, |pre| + 1);
    }
  }

  /** Where a key of base, or a key new so far, is found in the table built so far. */
  lemma FindInOverlay(base: seq<StoredEntry>, pre: seq<StoredEntry>, key: bytes)
    requires !Has(pre, key)
    ensures Find(Overlay(base, pre), key) == if Has(base, key) then Find(base, key) else |Overlay(base, pre)|
  {
    var t, n := Overlay(base, pre), NewIn(base, pre);
    NewInMeans(base, pre);
    forall j | 0 <= j < |n| ensures n[j].key != key {
      assert n[j] in n;
    }
    FindIs(t, key, if Has(base, key) then Find(base, key) else |t|);
  }

  /** The base entry that `a` falls on is still as it was. */
  lemma BaseUntouched(base: seq<StoredEntry>, pre: seq<StoredEntry>, a: StoredEntry)
    requires DistinctKeys(base) && !Has(pre, a.key) && Has(base, a.key)
    ensures var k := Find(base, a.key); Overlay(base, pre)[k] == base[k]
  {
    OverlaidSnoc(base[Find(base, a.key)], pre, a);
  }

  lemma {:induction false} OverlaySnoc(base: seq<StoredEntry>, pre: seq<StoredEntry>, a: StoredEntry)
    requires DistinctKeys(base) && !Has(pre, a.key)
    ensures var k := Find(base, a.key);
      Overlay(base, pre + [a]) ==
        if Has(base, a.key) then Overlay(base, pre)[k := base[k].(value := Both(base[k].value, a.value))]
        else Overlay(base, pre) + [a]
  {
    hide Find, Both, Overlaid, OverlaidAll, NewIn;
    NewInSnoc(base, pre, a);
    var t, t', k := OverlaidAll(base, pre), OverlaidAll(base, pre + [a]), Find(base, a.key);
    forall i | 0 <= i < |base|
      ensures t'[i] == if i == k then base[i].(value := Both(base[i].value, a.value)) else t[i]
    {
      OverlaidSnoc(base[i], pre, a);
      FindMember(base, i);
    }
    if k < |base| {
      assert t' == t[k := t'[k]];
    } else {
      assert t' == t;
    }
  }

  /** One step of the loop, while the nested merges go well. */
  lemma {:induction false} OneStep(base: seq<StoredEntry>, pre: seq<StoredEntry>, a: StoredEntry)
    requires DistinctKeys(base) && !Has(pre, a.key)
    requires BothTables(base, a) ==>
      var b := base[Find(base, a.key)].value;
      MergeTables(b.table.entries, a.value.table.entries) == Done(Overlay(b.table.entries, a.value.table.entries))
    ensures MergeOne(base, Overlay(base, pre), a) == Done(Overlay(base, pre + [a]))
  {
    hide MergeTables, Find, Overlay;
    FindInOverlay(base, pre, a.key);
    OverlaySnoc(base, pre, a);
    if Has(base, a.key) {
      BaseUntouched(base, pre, a);
    }
  }

  /** A nested merge that fails ends the loop. */
  lemma OneFails(base: seq<StoredEntry>, pre: seq<StoredEntry>, a: StoredEntry)
    requires DistinctKeys(base) && !Has(pre, a.key) && BothTables(base, a)
    requires MergeTables(base[Find(base, a.key)].value.table.entries, a.value.table.entries).Failed?
    ensures MergeOne(base, Overlay(base, pre), a).Failed?
  {
    hide MergeTables, Find, Overlay;
    FindInOverlay(base, pre, a.key);
    BaseUntouched(base, pre, a);
  }

  predicate NestedMergeable(base: seq<StoredEntry>, a: StoredEntry) {
    BothTables(base, a) ==> Mergeable(base[Find(base, a.key)].value.table.entries, a.value.table.entries)
  }

  predicate AllNestedMergeable(base: seq<StoredEntry>, add: seq<StoredEntry>) {
    forall a :: a in add ==> NestedMergeable(base, a)
  }

  predicate SurvivorsCloneable(base: seq<StoredEntry>, add: seq<StoredEntry>) {
    (forall b :: b in base ==> BaseCloneable(b, add)) && (forall a :: a in add ==> AddCloneable(base, a))
  }

  lemma {:induction false} EachAgrees(base: seq<StoredEntry>, pre: seq<StoredEntry>, post: seq<StoredEntry>)
    requires UniqueKeys(base) && DistinctKeys(pre + post)
    requires forall e :: e in post && e.value.Nested? ==> UniqueKeys(e.value.table.entries)
    ensures var r := MergeEach(base, Overlay(base, pre), post);
      if AllNestedMergeable(base, post) then r == Done(Overlay(base, pre + post)) else r.Failed?
    ensures AllNestedMergeable(base, post) ==> NestedCloneable(base, post)
    decreases post, 0
  {
    hide Find, Overlay, MergeOne, Mergeable, AllCopy;
    if post == [] {
      assert pre + post == pre;
    } else {
      var a, rest := post[0], post[1..];
      assert pre + [a] + rest == pre + post;
      NewKey(pre, a, rest);
      if BothTables(base, a) {
        MergeIsOverlay(base[Find(base, a.key)].value.table.entries, a.value.table.entries);
      }
      EachAgrees(base, pre + [a], rest);
      if NestedMergeable(base, a) {
        OneStep(base, pre, a);
      } else {
        OneFails(base, pre, a);
      }
      assert forall x :: x in post <==> x == a || x in rest;
    }
  }

  lemma NewKey(pre: seq<StoredEntry>, a: StoredEntry, rest: seq<StoredEntry>)
    requires DistinctKeys(pre + [a] + rest)
    ensures !Has(pre, a.key)
  {
    var all := pre + [a] + rest;
    assert all[|pre|] == a;
    assert forall i :: 0 <= i < |pre| ==> all[i] == pre[i];
  }

  /** Merging entry by entry in a temporary array is laying the whole of `add` over `base`, nested
      tables included; it fails exactly when the two are not mergeable. */
  lemma {:induction false} MergeIsOverlay(base: seq<StoredEntry>, add: seq<StoredEntry>)
    requires UniqueKeys(base) && UniqueKeys(add)
    ensures Mergeable(base, add) ==> MergeTables(base, add) == Done(Overlay(base, add))
    ensures Mergeable(base, add) ==> AllCopy(Overlay(base, add))
    ensures !Mergeable(base, add) ==> MergeTables(base, add).Failed?
    decreases add, 1
  {
    hide Overlay, AllCopy, MergeEach, Mergeable, AllNestedMergeable, SurvivorsCloneable, NestedCloneable;
    MergeableParts(base, add);
    assert [] + add == add;
    EachAgrees(base, [], add);
    OverlayNothing(base);
    if AllNestedMergeable(base, add) {
      CloneableOverlay(base, add);
    }
  }

  lemma MergeableParts(base: seq<StoredEntry>, add: seq<StoredEntry>)
    ensures Mergeable(base, add) <==>
      (base != [] || add != []) && SurvivorsCloneable(base, add) && AllNestedMergeable(base, add)
  {
    hide Find, Has, Copies, BaseCloneable;
  }

  lemma OverlayNothing(base: seq<StoredEntry>)
    ensures Overlay(base, []) == base
  {
  }

  /** The overlay can be copied exactly when every key is nonempty and every value that survives
      into it can be copied. */
  lemma {:induction false} CloneableOverlay(base: seq<StoredEntry>, add: seq<StoredEntry>)
    requires DistinctKeys(base) && DistinctKeys(add)
    requires NestedCloneable(base, add)
    ensures AllCopy(Overlay(base, add)) <==> SurvivorsCloneable(base, add)
  {
    hide Find, Copies, OverlaidAll, NewIn, BaseCloneable, AddCloneable, Overlaid, NestedCloneable, DistinctKeys;
    var t, n := OverlaidAll(base, add), NewIn(base, add);
    NewInMeans(base, add);
    forall i | 0 <= i < |base|
      ensures t[i].key != [] && Copies(t[i].value) <==>
        var k := Find(add, base[i].key);
        BaseCloneable(base[i], add) && (k < |add| ==> AddCloneable(base, add[k]))
    {
      SurvivorCloneable(base, add, i);
    }
    forall a | a in add
      ensures if Has(base, a.key) then
                base[Find(base, a.key)] in base && a == add[Find(add, base[Find(base, a.key)].key)]
              else a in n && (AddCloneable(base, a) <==> a.key != [] && Copies(a.value))
    {
      AddedWhere(base, add, a);
    }
    OverlayCloneable(t, n);
  }

  lemma OverlayCloneable(t: seq<StoredEntry>, n: seq<StoredEntry>)
    ensures AllCopy(t + n) <==>
      (forall i :: 0 <= i < |t| ==> EntryCopies(t[i])) && (forall e :: e in n ==> EntryCopies(e))
  {
    hide EntryCopies;
    assert forall e :: e in t + n <==> e in t || e in n;
    assert forall i :: 0 <= i < |t| ==> t[i] in t;
  }

  predicate AddCloneable(base: seq<StoredEntry>, a: StoredEntry) {
    a.key != [] && (BothTables(base, a) || Copies(a.value))
  }

  predicate NestedCloneable(base: seq<StoredEntry>, add: seq<StoredEntry>) {
    forall a :: a in add && BothTables(base, a) ==>
      AllCopy(Overlay(base[Find(base, a.key)].value.table.entries, a.value.table.entries))
  }

  lemma AddedWhere(base: seq<StoredEntry>, add: seq<StoredEntry>, a: StoredEntry)
    requires DistinctKeys(add) && a in add
    ensures Has(base, a.key) ==> a == add[Find(add, base[Find(base, a.key)].key)]
    ensures !Has(base, a.key) ==>
      a in NewIn(base, add) && (AddCloneable(base, a) <==> a.key != [] && Copies(a.value))
  {
    hide Find, Copies;
    var k :| 0 <= k < |add| && add[k] == a;
    FindMember(add, k);
    NewInMeans(base, add);
  }

  lemma SurvivorCloneable(base: seq<StoredEntry>, add: seq<StoredEntry>, i: nat)
    requires DistinctKeys(base) && i < |base| && NestedCloneable(base, add)
    ensures var k, t := Find(add, base[i].key), Overlaid(base[i], add);
      t.key != [] && Copies(t.value) <==>
        BaseCloneable(base[i], add) && (k < |add| ==> AddCloneable(base, add[k]))
  {
    hide Find, Overlay, Copies, AllCopy;
    FindMember(base, i);
    var k := Find(add, base[i].key);
    if k < |add| {
      assert add[k] in add;
      if BothTables(base, add[k]) {
        InnerCopies(Both(base[i].value, add[k].value));
      }
    }
  }

  // ---------------------------------------------------------------- what a reader of the result finds

  function Lookup(entries: seq<StoredEntry>, key: bytes): Option<Field> {
    if Has(entries, key) then Some(entries[Find(entries, key)].value) else None
  }

  /** The value at a path of keys, through nested tables. */
  function Get(entries: seq<StoredEntry>, path: seq<bytes>): Option<Field>
    decreases |path|
  {
    if path == [] then None
    else
      match Lookup(entries, path[0])
      case None => None
      case Some(v) => if |path| == 1 then Some(v) else if v.Nested? then Get(v.table.entries, path[1..]) else None
  }

  /** A value on the way along the path is no table. */
  predicate Blocked(entries: seq<StoredEntry>, path: seq<bytes>)
    decreases |path|
  {
    |path| >= 2 &&
    match Lookup(entries, path[0])
    case None => false
    case Some(v) => !v.Nested? || Blocked(v.table.entries, path[1..])
  }

  function Combined(b: Option<Field>, a: Option<Field>): Option<Field> {
    if a.None? then b else if b.None? then a else Some(Both(b.value, a.value))
  }

  lemma LookupMember(entries: seq<StoredEntry>, e: StoredEntry)
    requires DistinctKeys(entries) && e in entries
    ensures Lookup(entries, e.key) == Some(e.value)
  {
    hide Find;
    var i :| 0 <= i < |entries| && entries[i] == e;
    FindMember(entries, i);
  }

  lemma LookupOverlay(base: seq<StoredEntry>, add: seq<StoredEntry>, key: bytes)
    requires DistinctKeys(add)
    ensures Lookup(Overlay(base, add), key) == Combined(Lookup(base, key), Lookup(add, key))
  {
    hide Find, Both, OverlaidAll, NewIn;
    var t, n := OverlaidAll(base, add), NewIn(base, add);
    NewInMeans(base, add);
    if Has(base, key) {
      FindIs(t + n, key, Find(base, key));
    } else {
      assert forall i :: 0 <= i < |t| ==> t[i].key != key;
      if Has(add, key) {
        var e := add[Find(add, key)];
        assert e in n;
        var i :| 0 <= i < |n| && n[i] == e;
        assert (t + n)[|t| + i] == e;
      }
      var k := Find(t + n, key);
      if k < |t + n| {
        assert (t + n)[k] == n[k - |t|] && n[k - |t|] in n;
        LookupMember(add, n[k - |t|]);
      }
    }
  }

  /** At every path the merged table holds add's value, or the merge of both when both are tables,
      or base's value, unless a value of add that is no table replaced a table on the way there. */
  lemma {:induction false} PathLookup(base: seq<StoredEntry>, add: seq<StoredEntry>, path: seq<bytes>)
    requires UniqueKeys(base) && UniqueKeys(add)
    ensures Get(Overlay(base, add), path) ==
      if Get(add, path).None? && Blocked(add, path) then None else Combined(Get(base, path), Get(add, path))
    decreases |path|
  {
    hide Find, Overlay, Has;
    if path != [] {
      LookupOverlay(base, add, path[0]);
      var b, a := Lookup(base, path[0]), Lookup(add, path[0]);
      if a.Some? && b.Some? && a.value.Nested? && b.value.Nested? {
        NestedUnique(base, path[0]);
        NestedUnique(add, path[0]);
        PathLookup(b.value.table.entries, a.value.table.entries, path[1..]);
      }
    }
  }

  lemma NestedUnique(entries: seq<StoredEntry>, key: bytes)
    requires UniqueKeys(entries)
    ensures var v := Lookup(entries, key); v.Some? && v.value.Nested? ==> UniqueKeys(v.value.table.entries)
  {
    if Has(entries, key) {
      assert entries[Find(entries, key)] in entries;
    }
  }

  // ---------------------------------------------------------------- where unique keys matter

  predicate HasTable(base: seq<StoredEntry>, key: bytes) {
    Has(base, key) && base[Find(base, key)].value.Nested?
  }

  /** Once the entries `pre` were put in, the temporary array holds a table under `key`: the last of
      them with this key holds one, or none of them has the key and base holds one. */
  predicate TableNow(base: seq<StoredEntry>, pre: seq<StoredEntry>, key: bytes)
    decreases |pre|
  {
    if pre == [] then HasTable(base, key)
    else
      var (front, last) := (pre[..|pre| - 1], pre[|pre| - 1]);
      if last.key == key then last.value.Nested? else TableNow(base, front, key)
  }

  /** The `i`-th entry of `add` is a table that falls on a table. */
  predicate Meets(base: seq<StoredEntry>, add: seq<StoredEntry>, i: nat)
    requires i < |add|
  {
    add[i].value.Nested? && TableNow(base, add[..i], add[i].key)
  }

  /** Some table falls on a table, and what it is to be merged with, which is base's table and not
      the one it falls on, is not there, or leads to the same trouble further in. */
  predicate Danger(base: seq<StoredEntry>, add: seq<StoredEntry>)
    decreases add
  {
    exists i :: 0 <= i < |add| && Meets(base, add, i)
                && (HasTable(base, add[i].key) ==>
                      Danger(base[Find(base, add[i].key)].value.table.entries, add[i].value.table.entries))
  }

  /** The `i`-th entry is one of these. */
  predicate Endangers(base: seq<StoredEntry>, add: seq<StoredEntry>, i: nat)
    requires i < |add|
  {
    Meets(base, add, i)
    && (HasTable(base, add[i].key) ==>
          Danger(base[Find(base, add[i].key)].value.table.entries, add[i].value.table.entries))
  }

  /** The value under `key` once the entries `pre` were put in. */
  function Now(base: seq<StoredEntry>, pre: seq<StoredEntry>, key: bytes): Option<Field>
    decreases |pre|
  {
    if pre == [] then Lookup(base, key)
    else
      var (front, a) := (pre[..|pre| - 1], pre[|pre| - 1]);
      if a.key != key then Now(base, front, key)
      else if Meets(base, pre, |pre| - 1) then MergedValue(base, a)
      else Some(a.value)
  }

  function NestedMerge(base: seq<StoredEntry>, a: StoredEntry): Merged
    requires a.value.Nested? && HasTable(base, a.key)
  {
    MergeTables(base[Find(base, a.key)].value.table.entries, a.value.table.entries)
  }

  /** A table of `add` merged with base's. */
  function MergedValue(base: seq<StoredEntry>, a: StoredEntry): Option<Field>
    requires a.value.Nested?
  {
    if !HasTable(base, a.key) then None
    else
      match NestedMerge(base, a)
      case Done(t) => Some(Inner(t))
      case _ => None
  }

  /** The temporary array holds what it should after the entries `pre`. */
  ghost predicate Tracks(base: seq<StoredEntry>, pre: seq<StoredEntry>, temp: seq<StoredEntry>) {
    forall key :: Lookup(temp, key) == Now(base, pre, key)
                  && (Lookup(temp, key).Some? && Lookup(temp, key).value.Nested? <==> TableNow(base, pre, key))
  }

  lemma LookupAppended(temp: seq<StoredEntry>, a: StoredEntry, key: bytes)
    requires !Has(temp, a.key)
    ensures Lookup(temp + [a], key) == if key == a.key then Some(a.value) else Lookup(temp, key)
  {
    var k := Find(temp, key);
    if k < |temp| {
      FindIs(temp + [a], key, k);
    } else {
      FindIs(temp + [a], key, if key == a.key then |temp| else |temp| + 1);
    }
  }

  lemma LookupReplaced(temp: seq<StoredEntry>, e: nat, v: Field, key: bytes)
    requires e < |temp| && e == Find(temp, temp[e].key)
    ensures Lookup(temp[e := temp[e].(value := v)], key) == if key == temp[e].key then Some(v) else Lookup(temp, key)
  {
    FindIs(temp[e := temp[e].(value := v)], key, Find(temp, key));
  }

  lemma NowSnoc(base: seq<StoredEntry>, pre: seq<StoredEntry>, a: StoredEntry, key: bytes)
    ensures Meets(base, pre + [a], |pre|) <==> a.value.Nested? && TableNow(base, pre, a.key)
    ensures TableNow(base, pre + [a], key) <==> if a.key == key then a.value.Nested? else TableNow(base, pre, key)
    ensures Now(base, pre + [a], key) ==
      if a.key != key then Now(base, pre, key)
      else if a.value.Nested? && TableNow(base, pre, key) then MergedValue(base, a) else Some(a.value)
  {
    hide MergedValue, Lookup, HasTable;
    assert (pre + [a])[..|pre|] == pre && (pre + [a])[|pre|] == a;
  }

  /** One entry put into the temporary array: the array follows, or the entry was a danger, or a
      merge further in was refused. */
  lemma {:induction false} OneTracks(base: seq<StoredEntry>, pre: seq<StoredEntry>, temp: seq<StoredEntry>,
                                     a: StoredEntry)
    requires Tracks(base, pre, temp)
    ensures var r := MergeOne(base, temp, a);
      var merges := a.value.Nested? && TableNow(base, pre, a.key);
      && (r.Done? ==> Tracks(base, pre + [a], r.entries))
      && (r == Wild <==> merges && (HasTable(base, a.key) ==> NestedMerge(base, a) == Wild))
      && (r.Done? && merges ==> HasTable(base, a.key) && NestedMerge(base, a).Done?)
  {
    hide MergeTables, Find, Now, TableNow;
    var e, r := Find(temp, a.key), MergeOne(base, temp, a);
    assert Lookup(temp, a.key).Some? <==> e < |temp|;
    assert Lookup(temp, a.key) == Now(base, pre, a.key);
    if r.Done? {
      forall key
        ensures Lookup(r.entries, key) == Now(base, pre + [a], key)
        ensures Lookup(r.entries, key).Some? && Lookup(r.entries, key).value.Nested? <==> TableNow(base, pre + [a], key)
      {
        NowSnoc(base, pre, a, key);
        assert Lookup(temp, key) == Now(base, pre, key);
        if e == |temp| {
          LookupAppended(temp, a, key);
        } else {
          LookupReplaced(temp, e, r.entries[e].value, key);
        }
      }
    }
  }

  lemma EndangersIn(base: seq<StoredEntry>, pre: seq<StoredEntry>, a: StoredEntry, rest: seq<StoredEntry>)
    ensures Endangers(base, pre + [a] + rest, |pre|) <==>
      && a.value.Nested? && TableNow(base, pre, a.key)
      && (HasTable(base, a.key) ==> Danger(base[Find(base, a.key)].value.table.entries, a.value.table.entries))
  {
    hide Danger, Find, TableNow;
    assert (pre + [a] + rest)[..|pre|] == pre && (pre + [a] + rest)[|pre|] == a;
  }

  lemma {:induction false} EachTracks(base: seq<StoredEntry>, pre: seq<StoredEntry>, temp: seq<StoredEntry>,
                                      post: seq<StoredEntry>)
    requires Tracks(base, pre, temp)
    ensures var r := MergeEach(base, temp, post);
      && (r == Wild ==> exists i :: |pre| <= i < |pre + post| && Endangers(base, pre + post, i))
      && (r.Done? ==> forall i :: |pre| <= i < |pre + post| ==> !Endangers(base, pre + post, i))
      && (r.Done? ==> Tracks(base, pre + post, r.entries))
    decreases post, 0
  {
    hide Tracks, MergeOne, Endangers, Danger, Find, TableNow;
    if post == [] {
      assert pre + post == pre;
    } else {
      var a, rest := post[0], post[1..];
      assert pre + [a] + rest == pre + post;
      EndangersIn(base, pre, a, rest);
      OneTracks(base, pre, temp, a);
      if a.value.Nested? && HasTable(base, a.key) {
        WildExactly(base[Find(base, a.key)].value.table.entries, a.value.table.entries);
      }
      var r := MergeOne(base, temp, a);
      if r.Done? {
        EachTracks(base, pre + [a], r.entries, rest);
      }
    }
  }

  /** No table in it, nor the whole, is empty. */
  predicate Filled(entries: seq<StoredEntry>) {
    entries != [] && forall e :: e in entries && e.value.Nested? ==> Filled(e.value.table.entries)
  }

  lemma {:induction false} EachCloneable(base: seq<StoredEntry>, temp: seq<StoredEntry>, post: seq<StoredEntry>)
    requires AllCopy(base) && AllCopy(temp) && AllCopy(post)
    requires forall e :: e in post && e.value.Nested? ==> Filled(e.value.table.entries)
    ensures var r := MergeEach(base, temp, post); !r.Failed? && (r.Done? ==> AllCopy(r.entries))
    decreases post, 0
  {
    hide Find, Copies, AllCopy, MergeTables, MergeOne;
    if post != [] {
      var a, rest := post[0], post[1..];
      AllCopyCons(post);
      assert forall e :: e in rest ==> e in post;
      OneCloneable(base, temp, a);
      if a.value.Nested? && HasTable(base, a.key) {
        CloneableInside(base, Find(base, a.key));
        CloneableInside(post, 0);
        NeverRefused(base[Find(base, a.key)].value.table.entries, a.value.table.entries);
      }
      var r := MergeOne(base, temp, a);
      if r.Done? {
        EachCloneable(base, r.entries, rest);
      }
    }
  }

  lemma CloneableInside(entries: seq<StoredEntry>, k: nat)
    requires AllCopy(entries) && k < |entries|
    ensures EntryCopies(entries[k])
    ensures entries[k].value.Nested? ==> AllCopy(entries[k].value.table.entries)
  {
    hide Copies;
    assert entries[k] in entries && EntryCopies(entries[k]);
    if entries[k].value.Nested? {
      InnerCopies(entries[k].value);
    }
  }

  /** Only a nested merge can refuse an entry, and what comes of it can be copied. */
  lemma OneCloneable(base: seq<StoredEntry>, temp: seq<StoredEntry>, a: StoredEntry)
    requires AllCopy(temp) && EntryCopies(a)
    ensures var r := MergeOne(base, temp, a);
      && (r.Done? ==> AllCopy(r.entries))
      && (r.Failed? ==> a.value.Nested? && HasTable(base, a.key) && NestedMerge(base, a).Failed?)
  {
    hide Find, MergeTables;
    var e, r := Find(temp, a.key), MergeOne(base, temp, a);
    if r.Done? {
      if a.value.Nested? && HasTable(base, a.key) && NestedMerge(base, a).Done? {
        MergedCloneable(base[Find(base, a.key)].value.table.entries, a.value.table.entries);
      }
      forall x | x in r.entries ensures EntryCopies(x) {
        if x !in temp && e < |temp| {
          CloneableInside(temp, e);
        }
      }
    }
  }

  lemma MergedCloneable(base: seq<StoredEntry>, add: seq<StoredEntry>)
    requires MergeTables(base, add).Done?
    ensures Copies(Inner(MergeTables(base, add).entries))
  {
    hide MergeTables, Copies, AllCopy;
    MergedCopies(base, add);
    InnerCopies(Inner(MergeTables(base, add).entries));
  }

  lemma {:induction false} NeverRefused(base: seq<StoredEntry>, add: seq<StoredEntry>)
    requires AllCopy(base) && AllCopy(add) && Filled(add)
    ensures !MergeTables(base, add).Failed?
    decreases add, 1
  {
    hide MergeEach, AllCopy;
    EachCloneable(base, base, add);
  }

  /** For all tables: a merge follows a null pointer, or takes for a table what is none, only where
      some key stands twice in `add` with tables, with none but tables of this key between, and
      base has no table under it, or where a nested merge does so; and where that is so no merge
      succeeds. Whenever nothing can be refused, that is exactly where it happens. */
  lemma {:induction false} WildExactly(base: seq<StoredEntry>, add: seq<StoredEntry>)
    ensures MergeTables(base, add) == Wild ==> Danger(base, add)
    ensures Danger(base, add) ==> !MergeTables(base, add).Done?
    ensures AllCopy(base) && AllCopy(add) && Filled(add) ==>
      (MergeTables(base, add) == Wild <==> Danger(base, add))
    decreases add, 1
  {
    hide MergeEach, Endangers, Danger, AllCopy, Tracks, Filled;
    assert [] + add == add;
    TracksFromBase(base);
    EachTracks(base, [], base, add);
    DangerMeans(base, add);
    if AllCopy(base) && AllCopy(add) && Filled(add) {
      NeverRefused(base, add);
    }
  }

  lemma DangerMeans(base: seq<StoredEntry>, add: seq<StoredEntry>)
    ensures Danger(base, add) <==> exists i :: 0 <= i < |add| && Endangers(base, add, i)
  {
    if Danger(base, add) {
      var i :| 0 <= i < |add| && Meets(base, add, i)
               && (HasTable(base, add[i].key) ==>
                     Danger(base[Find(base, add[i].key)].value.table.entries, add[i].value.table.entries));
      assert Endangers(base, add, i);
    }
    if i :| 0 <= i < |add| && Endangers(base, add, i) {
      assert Meets(base, add, i);
    }
  }

  lemma TracksFromBase(base: seq<StoredEntry>)
    ensures Tracks(base, [], base)
  {
    hide Find;
  }

  /** For all tables: when a merge succeeds, each key holds the value of add's last entry with it; a
      table among these that fell on a table is merged with base's, whatever stood there; and a key
      that `add` does not have holds what base held. */
  lemma {:induction false} LastEntryWins(base: seq<StoredEntry>, add: seq<StoredEntry>, key: bytes)
    requires MergeTables(base, add).Done?
    ensures !Has(add, key) ==> Lookup(MergeTables(base, add).entries, key) == Lookup(base, key)
    ensures forall i :: 0 <= i < |add| && add[i].key == key && !Has(add[i + 1..], key) ==>
      Lookup(MergeTables(base, add).entries, key) ==
        if Meets(base, add, i) then MergedValue(base, add[i]) else Some(add[i].value)
  {
    hide MergeEach, Endangers, AllCopy, Has, MergedValue, Lookup, TableNow, Now;
    TracksFromBase(base);
    EachTracks(base, [], base, add);
    assert [] + add == add;
    if !Has(add, key) {
      NowUntouched(base, add, 0, key);
      assert add[..0] == [];
    }
    forall i | 0 <= i < |add| && add[i].key == key && !Has(add[i + 1..], key)
      ensures Now(base, add, key) == if Meets(base, add, i) then MergedValue(base, add[i]) else Some(add[i].value)
    {
      NowUntouched(base, add, i + 1, key);
      MeetsAt(base, add, i);
    }
  }

  lemma MeetsAt(base: seq<StoredEntry>, add: seq<StoredEntry>, i: nat)
    requires i < |add|
    ensures Meets(base, add[..i + 1], i) == Meets(base, add, i)
    ensures Now(base, add[..i + 1], add[i].key) ==
      if Meets(base, add, i) then MergedValue(base, add[i]) else Some(add[i].value)
  {
    hide MergedValue, Lookup, HasTable, TableNow;
    assert add[..i + 1][..i] == add[..i] && add[..i + 1][i] == add[i];
  }

  /** Entries with other keys leave a key as it was. */
  lemma {:induction false} NowUntouched(base: seq<StoredEntry>, add: seq<StoredEntry>, n: nat, key: bytes)
    requires n <= |add| && !Has(add[n..], key)
    ensures Now(base, add, key) == Now(base, add[..n], key)
    decreases |add|
  {
    hide Meets, MergedValue, Lookup;
    if n == |add| {
      assert add[..n] == add;
    } else {
      var front, last := add[..|add| - 1], add[|add| - 1];
      assert add[n..][|add| - 1 - n] == last && add[n..] == front[n..] + [last];
      assert front[..n] == add[..n];
      if Has(front[n..], key) {
        FindIs(add[n..], key, Find(front[n..], key));
      }
      NowUntouched(base, front, n, key);
    }
  }

  /** A key twice in `add`, both times a table, and not in `base`: the second one looks the key up
      in `base` and follows a null pointer. */
  lemma RepeatedKeyIsWild(key: bytes, t: seq<StoredEntry>, u: seq<StoredEntry>)
    ensures MergeTables([], [StoredEntry(None, key, Inner(t)), StoredEntry(None, key, Inner(u))]) == Wild
  {
    var first, second := StoredEntry(None, key, Inner(t)), StoredEntry(None, key, Inner(u));
    var add := [first, second];
    assert MergeOne([], [], first) == Done([first]);
    assert MergeOne([], [first], second) == Wild;
    assert MergeEach([], [first], [second]) == Wild;
    assert add[0] == first && add[1..] == [second];
    assert MergeEach([], [], add) == Wild;
  }
}
