/** The pool allocator of `amqp_mem.c`: requests are cut off pages that a recycle keeps for
    reuse, and requests longer than a page get blocks of their own that a recycle frees. */
module Pool {
  import opened Bytes

  type BlockId = nat

  /** `len` bytes at `off` in a block; two regions of different blocks have no byte in common. */
  datatype Region = Region(block: BlockId, off: nat, len: nat)

  predicate Disjoint(a: Region, b: Region) {
    a.block != b.block || a.off + a.len <= b.off || b.off + b.len <= a.off
  }

  /** The fields of `amqp_pool_t`; the block lists are sequences. */
  datatype PoolState = PoolState(pagesize: nat, pages: seq<BlockId>, large: seq<BlockId>, nextPage: nat,
                                 allocBlock: Option<BlockId>, allocUsed: nat)

  /** `init_amqp_pool` */
  function Init(pagesize: nat): PoolState {
    PoolState(if pagesize != 0 then pagesize else 4096, [], [], 0, None, 0)
  }

  /** `(amount + 7) & ~7` */
  function RoundUp(amount: nat): (r: nat)
    ensures amount <= r < amount + 8 && r % 8 == 0
  {
    (amount + 7) / 8 * 8
  }

  /** A successful `amqp_pool_alloc`: the pool, the next block id of the heap, and the region,
      which is absent for an empty request. */
  function Alloc(p: PoolState, heap: BlockId, amount: nat): (PoolState, BlockId, Option<Region>) {
    if amount == 0 then (p, heap, None)
    else
      var n := RoundUp(amount);
      if n > p.pagesize then
        (p.(large := p.large + [heap]), heap + 1, Some(Region(heap, 0, n)))
      else if p.allocBlock.Some? && p.allocUsed + n <= p.pagesize then
        (p.(allocUsed := p.allocUsed + n), heap, Some(Region(p.allocBlock.value, p.allocUsed, n)))
      else if p.nextPage >= |p.pages| then
        (p.(pages := p.pages + [heap], nextPage := |p.pages| + 1, allocBlock := Some(heap), allocUsed := n),
         heap + 1, Some(Region(heap, 0, n)))
      else
        (p.(nextPage := p.nextPage + 1, allocBlock := Some(p.pages[p.nextPage]), allocUsed := n),
         heap, Some(Region(p.pages[p.nextPage], 0, n)))
  }

  /** `recycle_amqp_pool` */
  function Recycle(p: PoolState): PoolState {
    p.(large := [], nextPage := 0, allocBlock := None, allocUsed := 0)
  }

  // ---------------------------------------------------------------- pool safety

  /** The pool's blocks are distinct and came from the heap, and the current page is the last
      one taken into use. */
  ghost predicate WellFormed(p: PoolState, heap: BlockId) {
    && p.nextPage <= |p.pages|
    && (forall b :: b in p.pages ==> b < heap && b !in p.large)
    && (forall b :: b in p.large ==> b < heap)
    && (forall i, j :: 0 <= i < j < |p.pages| ==> p.pages[i] != p.pages[j])
    && (match p.allocBlock
        case None => p.nextPage == 0
        case Some(b) => p.nextPage > 0 && b == p.pages[p.nextPage - 1] && p.allocUsed <= p.pagesize
                        && p.allocUsed % 8 == 0)
  }

  /** Where a region handed out since the last recycle lies. */
  ghost predicate Placed(p: PoolState, r: Region) {
    && r.off % 8 == 0 && r.len > 0
    && (r.block in p.large || exists i :: OnPage(p, r, i))
  }

  ghost predicate OnPage(p: PoolState, r: Region, i: nat) {
    && i < p.nextPage <= |p.pages| && r.block == p.pages[i] && r.off + r.len <= p.pagesize
    && (i == p.nextPage - 1 ==> r.off + r.len <= p.allocUsed)
  }

  /** `live` are the regions handed out since the last recycle, oldest first. */
  ghost predicate Sound(p: PoolState, heap: BlockId, live: seq<Region>) {
    && WellFormed(p, heap)
    && (forall i :: 0 <= i < |live| ==> Placed(p, live[i]))
    && (forall i, j :: 0 <= i < j < |live| ==> Disjoint(live[i], live[j]))
  }

  lemma InitSound(pagesize: nat, heap: BlockId)
    ensures Sound(Init(pagesize), heap, [])
  {
  }

  /** A recycle leaves nothing live. */
  lemma RecycleSound(p: PoolState, heap: BlockId, live: seq<Region>)
    requires Sound(p, heap, live)
    ensures Sound(Recycle(p), heap, [])
  {
  }

  /** The heap may grow on behalf of others. */
  lemma SoundLater(p: PoolState, heap: BlockId, live: seq<Region>, later: BlockId)
    requires Sound(p, heap, live) && heap <= later
    ensures Sound(p, later, live)
  {
  }

  /** A region handed out earlier keeps its place, clear of the new one. */
  lemma KeptStaysPlaced(p: PoolState, heap: BlockId, kept: Region, amount: nat)
    requires WellFormed(p, heap) && Placed(p, kept)
    ensures var (p', _, r) := Alloc(p, heap, amount);
      Placed(p', kept) && (r.Some? ==> Disjoint(kept, r.value))
  {
    var (p', _, r) := Alloc(p, heap, amount);
    if kept.block !in p.large {
      var i :| OnPage(p, kept, i);
      assert OnPage(p', kept, i);
    }
  }

  /** Allocation keeps the pool well formed, keeps old regions where they were, and puts the new
      one where nothing else is: at a multiple of eight, and at least as long as requested. */
  lemma AllocPlaces(p: PoolState, heap: BlockId, live: seq<Region>, amount: nat)
    requires Sound(p, heap, live)
    ensures var (p', heap', r) := Alloc(p, heap, amount);
      heap <= heap' && (r.None? <==> amount == 0)
      && (r.None? ==> Sound(p', heap', live))
      && (r.Some? ==> Sound(p', heap', live + [r.value]) && amount <= r.value.len)
  {
    var (p', heap', r) := Alloc(p, heap, amount);
    NewIsPlaced(p, heap, amount);
    var live' := if r.Some? then live + [r.value] else live;
    forall i | 0 <= i < |live|
      ensures Placed(p', live[i]) && (r.Some? ==> Disjoint(live[i], r.value))
    {
      KeptStaysPlaced(p, heap, live[i], amount);
    }
    assert forall i :: 0 <= i < |live| ==> live'[i] == live[i];
  }

  lemma NewIsPlaced(p: PoolState, heap: BlockId, amount: nat)
    requires WellFormed(p, heap)
    ensures var (p', heap', r) := Alloc(p, heap, amount);
      heap <= heap' && WellFormed(p', heap') && (r.Some? ==> Placed(p', r.value) && amount <= r.value.len)
  {
    var (p', _, r) := Alloc(p, heap, amount);
    if r.Some? && r.value.block !in p'.large {
      assert OnPage(p', r.value, p'.nextPage - 1);
    }
  }

  // ---------------------------------------------------------------- new memory and old

  predicate Owns(p: PoolState, b: BlockId) {
    b in p.pages || b in p.large
  }

  lemma LiveIsOwned(p: PoolState, heap: BlockId, live: seq<Region>, r: Region)
    requires Sound(p, heap, live) && r in live
    ensures Owns(p, r.block)
  {
    assert Placed(p, r);
  }

  /** Blocks that came to the pool came from the heap, as it was at `heap` or later. */
  ghost predicate Extends(p: PoolState, heap: BlockId, p': PoolState) {
    forall b: BlockId :: Owns(p', b) ==> Owns(p, b) || b >= heap
  }

  lemma ExtendsNot(p: PoolState, heap: BlockId)
    ensures Extends(p, heap, p)
  {
  }

  lemma ExtendsTwice(p: PoolState, heap: BlockId, p1: PoolState, heap1: BlockId, p2: PoolState)
    requires Extends(p, heap, p1) && heap <= heap1 && Extends(p1, heap1, p2)
    ensures Extends(p, heap, p2)
  {
    hide Owns;
  }

  lemma AllocExtends(p: PoolState, heap: BlockId, amount: nat)
    ensures Extends(p, heap, Alloc(p, heap, amount).0)
  {
  }

  /** Memory in use: handed out by the pool and not recycled, or in a block that exists but is not the
      pool's, such as another pool's, the caller's own, or static memory. */
  predicate InUse(p: PoolState, heap: BlockId, live: seq<Region>, r: Region) {
    r in live || (r.block < heap && !Owns(p, r.block))
  }

  /** The places share no byte with any memory in use. */
  ghost predicate Apart(p: PoolState, heap: BlockId, live: seq<Region>, places: seq<Region>) {
    forall r, s :: InUse(p, heap, live, r) && s in places ==> Disjoint(r, s)
  }

  lemma ApartSooner(p: PoolState, heap: BlockId, later: BlockId, live: seq<Region>, places: seq<Region>)
    requires heap <= later && Apart(p, later, live, places)
    ensures Apart(p, heap, live, places)
  {
    hide Disjoint;
    forall r, s | InUse(p, heap, live, r) && s in places ensures Disjoint(r, s) {
      assert InUse(p, later, live, r);
    }
  }

  /** What a pool hands out shares no byte with any memory that was in use before, and its parts
      share none with each other. */
  lemma NewIsApart(p: PoolState, heap: BlockId, live: seq<Region>, p': PoolState, heap': BlockId,
                   places: seq<Region>)
    requires Sound(p', heap', live + places) && Extends(p, heap, p')
    ensures Apart(p, heap, live, places)
    ensures forall i, j :: 0 <= i < j < |places| ==> Disjoint(places[i], places[j])
  {
    hide WellFormed, Placed, Disjoint, Owns;
    var all := live + places;
    forall r, s | InUse(p, heap, live, r) && s in places ensures Disjoint(r, s) {
      NewAndOld(p, heap, live, p', heap', places, r, s);
    }
    forall i, j | 0 <= i < j < |places| ensures Disjoint(places[i], places[j]) {
      assert all[|live| + i] == places[i] && all[|live| + j] == places[j];
    }
  }

  lemma NewAndOld(p: PoolState, heap: BlockId, live: seq<Region>, p': PoolState, heap': BlockId,
                  places: seq<Region>, r: Region, s: Region)
    requires Sound(p', heap', live + places) && Extends(p, heap, p') && InUse(p, heap, live, r) && s in places
    ensures Disjoint(r, s)
  {
    hide WellFormed, Placed, Owns;
    var all := live + places;
    var j :| 0 <= j < |places| && places[j] == s;
    assert all[|live| + j] == s;
    if r in live {
      var i :| 0 <= i < |live| && live[i] == r;
      assert all[i] == r;
    } else {
      LiveIsOwned(p', heap', all, s);
    }
  }

  // ---------------------------------------------------------------- the allocator as it runs

  /** Where new blocks come from: `calloc` never hands out a block that is still in use. */
  class Heap {
    var next: BlockId

    method Calloc() returns (block: BlockId)
      modifies this
      ensures block == old(next) && next == old(next) + 1
    {
      block := next;
      next := next + 1;
    }
  }

  class AmqpPool {
    const pagesize: nat
    var pages: seq<BlockId>
    var largeBlocks: seq<BlockId>
    var nextPage: nat
    var allocBlock: Option<BlockId>
    var allocUsed: nat
    ghost var live: seq<Region>

    /** The regions handed out since the last recycle are where nothing else is. */
    ghost predicate Valid(heap: Heap)
      reads this, heap
    {
      Sound(State(), heap.next, live)
    }

    function State(): PoolState
      reads this
    {
      PoolState(pagesize, pages, largeBlocks, nextPage, allocBlock, allocUsed)
    }

    constructor (pagesize: nat)
      ensures State() == Init(pagesize) && live == []
    {
      this.pagesize := if pagesize != 0 then pagesize else 4096;
      pages, largeBlocks := [], [];
      nextPage, allocBlock, allocUsed, live := 0, None, 0, [];
    }

    method RecycleAll()
      modifies this
      ensures State() == Recycle(old(State())) && live == []
    {
      largeBlocks := [];
      nextPage := 0;
      allocBlock := None;
      allocUsed := 0;
      live := [];
    }

    method AllocBytes(heap: Heap, amount: nat) returns (result: Option<Region>)
      modifies this, heap
      ensures (State(), heap.next, result) == Alloc(old(State()), old(heap.next), amount)
      ensures live == if result.Some? then old(live) + [result.value] else old(live)
      ensures heap.next >= old(heap.next) && Extends(old(State()), old(heap.next), State())
      ensures old(Valid(heap)) ==> Valid(heap) && (result.None? <==> amount == 0)
    {
      hide Sound, Extends;
      ghost var p, next, was := State(), heap.next, live;
      AllocExtends(p, next, amount);
      result := Take(heap, amount);
      if result.Some? {
        live := live + [result.value];
      }
      if Sound(p, next, was) {
        AllocPlaces(p, next, was, amount);
      }
    }

    /** `amqp_pool_alloc` */
    method Take(heap: Heap, amount: nat) returns (result: Option<Region>)
      modifies this, heap
      ensures (State(), heap.next, result) == Alloc(old(State()), old(heap.next), amount) && live == old(live)
    {
      if amount == 0 {
        return None;
      }
      var n := RoundUp(amount);
      if n > pagesize {
        var block := heap.Calloc();
        largeBlocks := largeBlocks + [block];
        return Some(Region(block, 0, n));
      }
      if allocBlock != None {
        if allocUsed + n <= pagesize {
          result := Some(Region(allocBlock.value, allocUsed, n));
          allocUsed := allocUsed + n;
          return;
        }
      }
      if nextPage >= |pages| {
        var block := heap.Calloc();
        allocBlock := Some(block);
        pages := pages + [block];
        nextPage := |pages|;
      } else {
        allocBlock := Some(pages[nextPage]);
        nextPage := nextPage + 1;
      }
      allocUsed := n;
      result := Some(Region(allocBlock.value, 0, n));
    }
  }

  // ---------------------------------------------------------------- whole runs

  /** The pool, the heap and the live regions after a list of requests. */
  function AllocAll(p: PoolState, heap: BlockId, live: seq<Region>, amounts: seq<nat>):
    (PoolState, BlockId, seq<Region>)
    decreases |amounts|
  {
    if amounts == [] then (p, heap, live)
    else
      var (p', heap', r) := Alloc(p, heap, amounts[0]);
      AllocAll(p', heap', if r.Some? then live + [r.value] else live, amounts[1..])
  }

  /** Between two recycles, all regions handed out are pairwise disjoint. */
  lemma {:induction false} AllocAllSound(p: PoolState, heap: BlockId, live: seq<Region>, amounts: seq<nat>)
    requires Sound(p, heap, live)
    ensures var (p', heap', live') := AllocAll(p, heap, live, amounts); heap <= heap' && Sound(p', heap', live')
    decreases |amounts|
  {
    hide Sound, Alloc;
    if amounts != [] {
      AllocPlaces(p, heap, live, amounts[0]);
      var (p', heap', r) := Alloc(p, heap, amounts[0]);
      AllocAllSound(p', heap', if r.Some? then live + [r.value] else live, amounts[1..]);
    }
  }

  /** The pages a list of requests takes, counted without a pool: `pages` are taken and `used`
      bytes of the last one are gone. */
  function PagesNeeded(pagesize: nat, pages: nat, used: nat, amounts: seq<nat>): (n: nat)
    ensures n >= pages
    decreases |amounts|
  {
    if amounts == [] then pages
    else
      var n := RoundUp(amounts[0]);
      if amounts[0] == 0 || n > pagesize then PagesNeeded(pagesize, pages, used, amounts[1..])
      else if pages > 0 && used + n <= pagesize then PagesNeeded(pagesize, pages, used + n, amounts[1..])
      else PagesNeeded(pagesize, pages + 1, n, amounts[1..])
  }

  function Max(a: nat, b: nat): nat { if a > b then a else b }

  /** The pool owns as many pages as it ever had, or as the requests need if that is more. */
  lemma {:induction false} PagesTaken(p: PoolState, heap: BlockId, live: seq<Region>, amounts: seq<nat>)
    requires WellFormed(p, heap)
    ensures var p' := AllocAll(p, heap, live, amounts).0;
      && p'.nextPage == PagesNeeded(p.pagesize, p.nextPage, p.allocUsed, amounts)
      && |p'.pages| == Max(|p.pages|, p'.nextPage) && p'.pagesize == p.pagesize
    decreases |amounts|
  {
    if amounts != [] {
      NewIsPlaced(p, heap, amounts[0]);
      var (p', heap', r) := Alloc(p, heap, amounts[0]);
      PagesTaken(p', heap', if r.Some? then live + [r.value] else live, amounts[1..]);
    }
  }

  /** The pool after whole epochs, each ending in a recycle. */
  function Epochs(p: PoolState, heap: BlockId, epochs: seq<seq<nat>>): (PoolState, BlockId)
    decreases |epochs|
  {
    if epochs == [] then (p, heap)
    else
      var (p', heap', _) := AllocAll(p, heap, [], epochs[0]);
      Epochs(Recycle(p'), heap', epochs[1..])
  }

  function LargestNeed(pagesize: nat, epochs: seq<seq<nat>>): nat {
    if epochs == [] then 0
    else Max(PagesNeeded(pagesize, 0, 0, epochs[0]), LargestNeed(pagesize, epochs[1..]))
  }

  /** Over any run the pool allocates as many pages as its neediest epoch, and no more. */
  lemma {:induction false} PageCountIsLargestNeed(p: PoolState, heap: BlockId, epochs: seq<seq<nat>>)
    requires Sound(p, heap, []) && p.nextPage == 0 && p.allocUsed == 0
    ensures |Epochs(p, heap, epochs).0.pages| == Max(|p.pages|, LargestNeed(p.pagesize, epochs))
    ensures var p' := Epochs(p, heap, epochs).0;
      p'.nextPage == 0 && p'.allocUsed == 0 && p'.pagesize == p.pagesize
    decreases |epochs|
  {
    hide WellFormed, AllocAll, PagesNeeded;
    if epochs != [] {
      AllocAllSound(p, heap, [], epochs[0]);
      WellFormedPool(p, heap);
      PagesTaken(p, heap, [], epochs[0]);
      var (p', heap', live) := AllocAll(p, heap, [], epochs[0]);
      RecycleSound(p', heap', live);
      PageCountIsLargestNeed(Recycle(p'), heap', epochs[1..]);
    }
  }

  lemma WellFormedPool(p: PoolState, heap: BlockId)
    requires Sound(p, heap, [])
    ensures WellFormed(p, heap)
  {
  }

  /** After a recycle, replaying requests that were served before allocates no new page. */
  lemma ReplayAllocatesNoPage(pagesize: nat, heap: BlockId, epochs: seq<seq<nat>>, again: seq<nat>)
    requires again in epochs
    ensures |Epochs(Init(pagesize), heap, epochs + [again]).0.pages| == |Epochs(Init(pagesize), heap, epochs).0.pages|
  {
    InitSound(pagesize, heap);
    PageCountIsLargestNeed(Init(pagesize), heap, epochs);
    PageCountIsLargestNeed(Init(pagesize), heap, epochs + [again]);
    NeedOfReplay(Init(pagesize).pagesize, epochs, again);
  }

  lemma {:induction false} NeedOfReplay(pagesize: nat, epochs: seq<seq<nat>>, again: seq<nat>)
    ensures LargestNeed(pagesize, epochs + [again])
         == Max(LargestNeed(pagesize, epochs), PagesNeeded(pagesize, 0, 0, again))
    ensures again in epochs ==> PagesNeeded(pagesize, 0, 0, again) <= LargestNeed(pagesize, epochs)
  {
    hide PagesNeeded;
    if epochs == [] {
      assert (epochs + [again])[1..] == [];
    } else {
      assert (epochs + [again])[1..] == epochs[1..] + [again];
      NeedOfReplay(pagesize, epochs[1..], again);
    }
  }
}
