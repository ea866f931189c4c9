/**
 The memory pool (src/allocator/memory_pool.hpp): a free list over the blocks of
 an arena, growing on demand.
 */
module MemoryPools {
  import opened Arith
  import opened Memory
  import opened Growth
  import opened Nodes
  import opened FreeLists
  import opened Arenas
  import opened Carving

  ghost predicate NoneLost(owner: map<nat, Own>) {
    forall s :: s in owner ==> owner[s] != Lost
  }

  class MemoryPool {
    const mem: Memory
    const arena: Arena
    const freeList: FreeList
    // bytes of the first block
    ghost const first: nat
    // some array request had to grow the pool
    ghost var grewForArray: bool

    ghost function Repr(): set<object> {
      {this, mem, arena, arena.allocator, arena.used, freeList}
    }

    ghost function Blocks(): seq<Block>
      reads arena.used
    {
      arena.used.stack
    }

    ghost predicate Valid()
      reads Repr()
    {
      && arena.mem == mem && freeList.mem == mem
      && arena.Valid() && freeList.Valid()
      // free and held nodes together are exactly the nodes carved from the blocks
      && freeList.owner.Keys == Carve(Blocks(), freeList.nodeSize)
      && NoneLost(freeList.owner)
      && Counted()
    }

    /** Sizes and counts: the blocks grow as computed, and growth follows demand. */
    ghost predicate Counted()
      reads this, freeList, arena.used, arena.allocator
    {
      var ns, k := freeList.nodeSize, |Blocks()|;
      && ns > 0 && k > 0 && first >= HEADER + ns
      && arena.allocator.blockSize == Sizes(first, k)
      && |freeList.owner| == Carved(first, ns, k)
      && (!grewForArray && k >= 2 ==> freeList.maxUsed > Carved(first, ns, k - 1))
    }

    constructor (nodeSize: nat, count: nat)
      requires nodeSize > 0 && RoundUpToAlign(nodeSize) * count >= HEADER + RoundUpToAlign(nodeSize)
      ensures Valid() && fresh(Repr())
      ensures freeList.nodeSize == RoundUpToAlign(nodeSize) && first == freeList.nodeSize * count
      ensures freeList.held == map[] && freeList.used == freeList.maxUsed == freeList.returned == 0
      ensures |Blocks()| == 1 && !grewForArray
    {
      hide Stacked, Owned, AllApart, Partition, Chain, FloorDiv, NodesIn, Insert, RowOf, BlockNodes, RoundUpToAlign;
      hide Sizes, Carved, Carve, NoneLost;
      RoundedNode(nodeSize);
      NoBlocks(RoundUpToAlign(nodeSize) * count, RoundUpToAlign(nodeSize));
      var m := new Memory();
      mem := m;
      arena := new Arena(RoundUpToAlign(nodeSize) * count, m);
      freeList := new FreeList(RoundUpToAlign(nodeSize), m);
      first := RoundUpToAlign(nodeSize) * count;
      grewForArray := false;
      new;
      AllocateBlock();
    }

    /** The nodes the next block will have when there are `k`. */
    ghost function NextNodes(k: nat): nat
      requires freeList.nodeSize > 0
    {
      NodesIn(Sizes(first, k), freeList.nodeSize)
    }

    /** One more block from the arena, carved into nodes in front of the list. */
    method AllocateBlock()
      requires arena.mem == mem && freeList.mem == mem
      requires arena.Valid() && freeList.Valid()
      requires freeList.owner.Keys == Carve(Blocks(), freeList.nodeSize) && NoneLost(freeList.owner)
      requires first >= HEADER + freeList.nodeSize
      requires arena.allocator.blockSize == Sizes(first, |Blocks()|)
      requires |freeList.owner| == Carved(first, freeList.nodeSize, |Blocks()|)
      modifies mem, arena.allocator, arena.used, freeList
      ensures arena.Valid() && freeList.Valid()
      ensures freeList.owner.Keys == Carve(Blocks(), freeList.nodeSize) && NoneLost(freeList.owner)
      ensures |Blocks()| == |old(Blocks())| + 1
      ensures arena.allocator.blockSize == Sizes(first, |Blocks()|)
      ensures |freeList.owner| == Carved(first, freeList.nodeSize, |Blocks()|)
      ensures freeList.held == old(freeList.held)
      ensures freeList.used == old(freeList.used) && freeList.maxUsed == old(freeList.maxUsed)
      ensures freeList.returned == old(freeList.returned)
      ensures |Blocks()| > 0 && Blocks()[1..] == old(Blocks())
      ensures freeList.free == RowOf(Blocks()[0].addr + 16, NextNodes(|old(Blocks())|), freeList.nodeSize)
                               + old(freeList.free)
      ensures !freeList.Empty()
    {
      hide Stacked, Owned, AllApart, Partition, Chain, FloorDiv, Sizes, Carve, NodesIn, Insert, RowOf;
      hide NoneLost, Carved, NextSize;
      ghost var k, ns, stack, owner := |Blocks()|, freeList.nodeSize, Blocks(), freeList.owner;
      SizesGrow(first, k);
      var mb := TakeBlock();
      ghost var words := mem.words;
      freeList.Insert(mb.addr, mb.size);
      CarvePush(stack, Blocks(), owner, ns, first, k);
      AfterInsert(words, mem.words, mem.blocks, arena.used.head, Blocks(), ns, freeList.owner);
      ChainHead(mem.words, freeList.first, freeList.free);
    }

    /** A block from the arena; pushing it leaves the list alone. */
    method TakeBlock() returns (mb: Block)
      requires arena.mem == mem && freeList.mem == mem
      requires arena.Valid() && freeList.Valid()
      requires freeList.owner.Keys == Carve(Blocks(), freeList.nodeSize)
      modifies mem, arena.allocator, arena.used
      ensures arena.Valid() && freeList.Valid()
      ensures |Blocks()| > 0 && Blocks()[1..] == old(Blocks())
      ensures var raw := Blocks()[0];
              && raw.size == old(arena.allocator.blockSize) && mb == Block(raw.addr + HEADER, raw.size - HEADER)
      ensures mb.addr % WORD == 0 && freeList.nodeSize % WORD == 0
      ensures arena.allocator.blockSize == NextSize(old(arena.allocator.blockSize))
      ensures forall s :: s in freeList.owner ==> Apart(s, freeList.nodeSize, mb.addr, mb.size)
    {
      hide Stacked, Owned, AllApart, Partition, Chain, Carve, NextSize, SameOutside, Apart;
      ghost var ns, stack, owner, blocks, words := freeList.nodeSize, Blocks(), freeList.owner, mem.blocks, mem.words;
      Listed(freeList);
      mb := arena.AllocateBlock();
      AfterPush(words, mem.words, blocks, mem.blocks, freeList.first, freeList.free, stack, ns, Blocks()[0], owner);
    }

    /** A node no allocation has; the pool grows when the list is empty. */
    method AllocateNode() returns (p: nat)
      requires Valid()
      modifies Repr()
      ensures Valid()
      ensures p != 0 && p !in old(freeList.held) && freeList.held == old(freeList.held)[p := 1]
      ensures freeList.used == old(freeList.used) + 1
      ensures freeList.maxUsed == Max(old(freeList.maxUsed), freeList.used)
      ensures freeList.returned == old(freeList.returned) && grewForArray == old(grewForArray)
      ensures |Blocks()| == |old(Blocks())| + if old(freeList.Empty()) then 1 else 0
      ensures !old(freeList.Empty()) ==> Blocks() == old(Blocks()) && old(freeList.free) == [p] + freeList.free
      ensures old(freeList.Empty()) ==>
                && |Blocks()| > 0 && Blocks()[1..] == old(Blocks())
                && RowOf(Blocks()[0].addr + 16, NextNodes(|old(Blocks())|), freeList.nodeSize) == [p] + freeList.free
    {
      hide Stacked, Owned, AllApart, Partition, Chain, Carve, Carved, Sizes, Assign, NoneLost, NodesIn, RowOf;
      if freeList.Empty() {
        ChainHead(mem.words, freeList.first, freeList.free);
        AllocateBlock();
      }
      ghost var owner := freeList.owner;
      p := freeList.Allocate();
      AssignNoneLost(owner, p, 1, 1, freeList.nodeSize, Held(p));
    }

    /** One node comes back. */
    method DeallocateNode(p: nat)
      requires Valid() && p in freeList.held && freeList.held[p] == 1
      modifies Repr()
      ensures Valid()
      ensures freeList.held == old(freeList.held) - {p} && freeList.free == [p] + old(freeList.free)
      ensures freeList.used == old(freeList.used) - 1 && freeList.maxUsed == old(freeList.maxUsed)
      ensures freeList.returned == old(freeList.returned) && grewForArray == old(grewForArray)
      ensures Blocks() == old(Blocks())
    {
      hide Stacked, Owned, AllApart, Partition, Chain, Carve, Carved, Sizes, Assign, NoneLost;
      ghost var words, owner := mem.words, freeList.owner;
      freeList.Deallocate(p);
      AssignNoneLost(owner, p, 1, 1, freeList.nodeSize, Free);
      AfterInsert(words, mem.words, mem.blocks, arena.used.head, Blocks(), freeList.nodeSize, freeList.owner);
      assert arena.Valid();
    }

    /** The list's answer to a request for `n` nodes in a row. */
    method TryArray(n: nat) returns (p: nat)
      requires Valid() && !freeList.Empty()
      modifies mem, freeList
      ensures Valid() && Blocks() == old(Blocks())
      ensures freeList.Served(old(freeList.free), old(freeList.held), old(freeList.owner), NodesFor(n), p)
      ensures if p == 0 then
                && NoFit(old(freeList.free), NodesFor(n), freeList.nodeSize)
                && freeList.free == old(freeList.free) && freeList.held == old(freeList.held)
                && freeList.used == old(freeList.used)
              else
                && p !in old(freeList.held) && freeList.held == old(freeList.held)[p := NodesFor(n)]
                && freeList.used == old(freeList.used) + NodesFor(n)
      ensures n <= 1 ==> p != 0
      ensures freeList.maxUsed == Max(old(freeList.maxUsed), freeList.used)
      ensures freeList.returned == old(freeList.returned)
    {
      hide Stacked, Owned, AllApart, Partition, Chain, Carve, Carved, Sizes, Assign, NoneLost, NoFit, FirstFit;
      hide CeilDiv, Without, RowAt, ArraySize;
      ghost var words, owner, k := mem.words, freeList.owner, NodesFor(n);
      ArrayBytes(n, freeList.nodeSize);
      p := freeList.AllocateBytes(ArraySize(n, freeList.nodeSize));
      AssignNoneLost(owner, p, k, k, freeList.nodeSize, Held(p));
      AfterInsert(words, mem.words, mem.blocks, arena.used.head, Blocks(), freeList.nodeSize, freeList.owner);
      assert arena.Valid();
    }

    /**
     `n` nodes in a row: the first such run of the list, or, when the list has none, of the list
     behind one more block. The original terminates the process when even then there is
     none: null here.
     */
    method AllocateArray(n: nat) returns (p: nat)
      requires Valid()
      modifies Repr()
      ensures Valid()
      ensures p != 0 ==> p !in old(freeList.held) && freeList.held == old(freeList.held)[p := NodesFor(n)]
      ensures p == 0 ==> freeList.held == old(freeList.held)
      ensures NextNodes(|old(Blocks())|) >= NodesFor(n) ==> p != 0
      ensures if NoFit(old(freeList.free), NodesFor(n), freeList.nodeSize) then
                && |Blocks()| > 0 && Blocks()[1..] == old(Blocks())
                && freeList.Answered(RowOf(Blocks()[0].addr + 16, NextNodes(|old(Blocks())|), freeList.nodeSize)
                                     + old(freeList.free), NodesFor(n), p)
              else
                && Blocks() == old(Blocks())
                && p != 0 && freeList.Answered(old(freeList.free), NodesFor(n), p)
      ensures freeList.used == old(freeList.used) + if p == 0 then 0 else NodesFor(n)
      ensures freeList.maxUsed == Max(old(freeList.maxUsed), freeList.used)
      ensures freeList.returned == old(freeList.returned)
      ensures grewForArray == (old(grewForArray) || |Blocks()| > |old(Blocks())|)
    {
      hide Stacked, Owned, AllApart, Partition, Chain, Carve, Carved, Sizes, NoneLost, NoFit, NodesIn;
      p := 0;
      ghost var free0 := freeList.free;
      EmptyFits(freeList, NodesFor(n));
      if !freeList.Empty() {
        p := TryArray(n);
        freeList.AnsweredFits(free0, NodesFor(n), p);
      }
      if p == 0 {
        ghost var free := freeList.free;
        grewForArray := true;
        AllocateBlock();
        ghost var q, m := Blocks()[0].addr + 16, NextNodes(|old(Blocks())|);
        p := TryArray(n);
        if p == 0 && m >= NodesFor(n) {
          RowFits(q, m, free, NodesFor(n), freeList.nodeSize);
        }
      }
    }

    /** An array of `n` nodes comes back whole. */
    method DeallocateArray(p: nat, n: nat)
      requires Valid() && p in freeList.held && freeList.held[p] == NodesFor(n)
      modifies Repr()
      ensures Valid()
      ensures freeList.held == old(freeList.held) - {p}
      ensures freeList.free == RowOf(p, NodesFor(n), freeList.nodeSize) + old(freeList.free)
      ensures freeList.used == old(freeList.used) - if n <= 1 then 1 else 0
      ensures freeList.returned == old(freeList.returned) + if n <= 1 then 0 else n
      ensures freeList.maxUsed == old(freeList.maxUsed) && Blocks() == old(Blocks())
      ensures grewForArray == old(grewForArray)
    {
      hide Stacked, Owned, AllApart, Partition, Chain, Carve, Carved, Sizes, NoneLost, CeilDiv, FloorDiv, Whole;
      hide Assign, RowOf, ArraySize, SameOutside, At, IsHeader;
      ghost var words, owner := mem.words, freeList.owner;
      ArrayBytes(n, freeList.nodeSize);
      freeList.DeallocateBytes(p, ArraySize(n, freeList.nodeSize));
      AssignNoneLost(owner, p, NodesFor(n), NodesFor(n), freeList.nodeSize, Free);
      AfterInsert(words, mem.words, mem.blocks, arena.used.head, Blocks(), freeList.nodeSize, freeList.owner);
      assert arena.Valid();
    }

    /** A holder writes any word of a node it holds; the pool does not notice. */
    method Construct(p: nat, i: nat, a: nat, v: nat)
      requires Valid() && p in freeList.held && i < freeList.held[p]
      requires a % WORD == 0
      requires At(p, i, freeList.nodeSize) <= a && a + WORD <= At(p, i, freeList.nodeSize) + freeList.nodeSize
      modifies mem
      ensures Valid() && mem.words == old(mem.words)[a := v]
    {
      hide Stacked, Owned, AllApart, Chain, Carve, Carved, Sizes, NoneLost;
      ghost var ns := freeList.nodeSize;
      HeldWord(freeList.free, freeList.held, freeList.owner, ns, p, i, a);
      WordNoHeader(mem.words, mem.blocks, arena.used.head, Blocks(), ns, At(p, i, ns), a);
      ChainFrame(mem.words, mem.words[a := v], freeList.first, freeList.free, {a});
      StackUntouched(mem.words, mem.words[a := v], arena.used.head, Blocks(), {a});
      mem.Store(a, v);
    }
  }

  /** An empty list has no run. */
  lemma EmptyFits(list: FreeList, k: nat)
    requires list.Valid() && k > 0
    ensures list.Empty() ==> NoFit(list.free, k, list.nodeSize)
  {
    ChainHead(list.mem.words, list.first, list.free);
  }

  /** The nodes a request for `n` takes: one even for none. */
  function NodesFor(n: nat): (k: nat)
    ensures n <= 1 ==> k == 1
    ensures n > 1 ==> k == n
  {
    if n <= 1 then 1 else n
  }

  function ArraySize(n: nat, ns: nat): nat {
    n * ns
  }

  lemma ArrayBytes(n: nat, ns: nat)
    requires ns > 0
    ensures n <= 1 <==> ArraySize(n, ns) <= ns
    ensures n > 1 ==> var b := ArraySize(n, ns); CeilDiv(b, ns) == n && FloorDiv(b, ns) == n && Whole(b, ns)
  {
    MulMono(n, 1, ns);
    if n > 1 {
      assert n * ns == (n - 1) * ns + ns;
      MulMono(1, n - 1, ns);
      CeilUnique(n * ns, n, ns);
      DivUnique(n * ns, n, ns);
      assert n * ns == n * ns / ns * ns + n * ns % ns;
    }
  }

  lemma AssignNoneLost(owner: map<nat, Own>, p: nat, j: nat, k: nat, ns: nat, a: Own)
    requires NoneLost(owner) && a != Lost && j == k
    ensures forall b :: NoneLost(Assign(owner, p, j, k, ns, a, b))
  {
  }

  /** A fresh row in front of the list serves any request it is long enough for. */
  lemma RowFits(p: nat, m: nat, free: seq<nat>, k: nat, ns: nat)
    requires 0 < k <= m
    ensures !NoFit(RowOf(p, m, ns) + free, k, ns)
  {
    var free' := RowOf(p, m, ns) + free;
    assert forall j :: 0 <= j < k ==> free'[0 + j] == At(p, j, ns);
    assert RowAt(free', 0, k, ns);
  }

  lemma HeldWord(free: seq<nat>, held: map<nat, nat>, owner: map<nat, Own>, ns: nat, p: nat, i: nat, a: nat)
    requires Partition(free, held, owner, ns) && p in held && i < held[p]
    requires At(p, i, ns) <= a < At(p, i, ns) + ns
    ensures a != 0 && a !in free && At(p, i, ns) in owner
  {
    assert owner[At(p, i, ns)] == Held(p);
  }

  lemma WordNoHeader(words: map<nat, nat>, blocks: map<nat, nat>, head: nat, stack: seq<Block>, ns: nat, s: nat, a: nat)
    requires ns > 0 && Owned(blocks, stack) && AllApart(blocks) && Stacked(words, head, stack)
    requires s in Carve(stack, ns) && s <= a < s + ns
    ensures !IsHeader(stack, a)
  {
    StackSizes(words, head, stack);
    if IsHeader(stack, a) {
      CarveNoHeader(blocks, stack, ns, a);
    }
  }

  /** Writing the header of a fresh block touches no free node, and the rest of the block meets no slot. */
  lemma AfterPush(words: map<nat, nat>, words': map<nat, nat>, blocks: map<nat, nat>, blocks': map<nat, nat>,
                  head: nat, free: seq<nat>, stack: seq<Block>, ns: nat, raw: Block, owner: map<nat, Own>)
    requires ns > 0 && Owned(blocks, stack) && AllApart(blocks') && owner.Keys == Carve(stack, ns) && raw.size >= HEADER
    requires raw.addr !in blocks && blocks' == blocks[raw.addr := raw.size]
    requires Chain(words, head, free) && SameOutside(words, words', {raw.addr, raw.addr + WORD})
    requires forall s :: s in free ==> s in owner
    ensures Chain(words', head, free)
    ensures forall s :: s in owner ==> Apart(s, ns, raw.addr + HEADER, raw.size - HEADER)
  {
    FreshBlockApart(blocks, blocks', stack, ns, raw, owner.Keys);
    ChainFrame(words, words', head, free, {raw.addr, raw.addr + WORD});
  }

  /** Writing nodes touches no header. */
  lemma AfterInsert(words: map<nat, nat>, words': map<nat, nat>, blocks: map<nat, nat>, head: nat, stack: seq<Block>,
                    ns: nat, owner: map<nat, Own>)
    requires ns > 0 && Owned(blocks, stack) && AllApart(blocks) && owner.Keys == Carve(stack, ns)
    requires Stacked(words, head, stack) && SameOutside(words, words', owner.Keys)
    ensures Stacked(words', head, stack)
  {
    HeadersNotNodes(blocks, words, head, stack, ns);
    StackUntouched(words, words', head, stack, owner.Keys);
  }

  lemma FreshBlockApart(blocks: map<nat, nat>, blocks': map<nat, nat>, stack: seq<Block>, ns: nat, raw: Block,
                        nodes: set<nat>)
    requires ns > 0 && Owned(blocks, stack) && AllApart(blocks') && nodes == Carve(stack, ns) && raw.size >= HEADER
    requires raw.addr !in blocks && blocks' == blocks[raw.addr := raw.size]
    ensures forall s :: s in nodes ==> Apart(s, ns, raw.addr + HEADER, raw.size - HEADER)
    ensures forall s :: s in {raw.addr, raw.addr + WORD} ==> s !in nodes
  {
    forall a | a in blocks
      ensures Apart(a, blocks[a], raw.addr, raw.size)
    {
      assert a in blocks' && raw.addr in blocks';
      assert Apart(a, blocks'[a], raw.addr, blocks'[raw.addr]);
    }
    CarveApart(blocks, stack, ns, raw);
  }

  lemma Listed(list: FreeList)
    requires list.Valid()
    ensures list.nodeSize % WORD == 0
    ensures forall s :: s in list.free ==> s in list.owner
  {
  }

  /** Rounding a size up twice is rounding it up once, and nothing is smaller than a pointer. */
  lemma RoundedNode(nodeSize: nat)
    requires nodeSize > 0
    ensures var ns := RoundUpToAlign(nodeSize);
            ns >= WORD && (if ns > WORD then RoundUpToAlign(ns) else WORD) == ns
  {
  }

  lemma NoBlocks(first: nat, ns: nat)
    requires ns > 0
    ensures Sizes(first, 0) == first && Carved(first, ns, 0) == 0 && Carve([], ns) == {}
    ensures NoneLost(map[])
  {
  }

  /** What carving one more block does to the slots. */
  lemma CarvePush(stack: seq<Block>, stack': seq<Block>, owner: map<nat, Own>, ns: nat, first: nat, k: nat)
    requires ns > 0 && |stack'| > 0 && stack'[1..] == stack && owner.Keys == Carve(stack, ns) && NoneLost(owner)
    requires stack'[0].size == Sizes(first, k) >= HEADER + ns
    ensures var raw := stack'[0]; var n := NodesIn(Sizes(first, k), ns);
            && n == FloorDiv(raw.size - HEADER, ns) && n > 0
            && Insert(owner, raw.addr + HEADER, n, ns).Keys == Carve(stack', ns)
            && NoneLost(Insert(owner, raw.addr + HEADER, n, ns))
    ensures Carved(first, ns, k + 1) == Carved(first, ns, k) + NodesIn(Sizes(first, k), ns)
    ensures Sizes(first, k + 1) == NextSize(Sizes(first, k))
  {
    var raw := stack'[0];
    FloorBounds(raw.size - HEADER, ns);
    InsertKeys(owner, raw.addr + HEADER, NodesIn(raw.size, ns), ns);
  }

  // ---- What holds in every reachable state ----

  /** Free nodes and allocations tile the carved nodes: each node is in the list or in exactly one allocation. */
  lemma PoolTiled(pool: MemoryPool, s: nat)
    requires pool.Valid() && s in Carve(pool.Blocks(), pool.freeList.nodeSize)
    ensures s in pool.freeList.free <==>
            !exists p :: p in pool.freeList.held && InRow(s, p, pool.freeList.held[p], pool.freeList.nodeSize)
    ensures forall p, q | p in pool.freeList.held && q in pool.freeList.held
                       && InRow(s, p, pool.freeList.held[p], pool.freeList.nodeSize)
                       && InRow(s, q, pool.freeList.held[q], pool.freeList.nodeSize) :: p == q
  {
    var owner, held := pool.freeList.owner, pool.freeList.held;
    assert s in owner;
    if owner[s] == Free {
      assert s in pool.freeList.free;
    } else {
      assert InRow(s, owner[s].base, held[owner[s].base], pool.freeList.nodeSize);
    }
  }

  /** Nodes do not overlap each other or any block header. */
  lemma PoolSeparate(pool: MemoryPool, s: nat, t: nat, a: nat)
    requires pool.Valid()
    requires s in Carve(pool.Blocks(), pool.freeList.nodeSize) && t in Carve(pool.Blocks(), pool.freeList.nodeSize)
    requires IsHeader(pool.Blocks(), a)
    ensures s != t ==> Apart(s, pool.freeList.nodeSize, t, pool.freeList.nodeSize)
    ensures !(s <= a < s + pool.freeList.nodeSize)
  {
    assert s in pool.freeList.owner && t in pool.freeList.owner;
    StackSizes(pool.mem.words, pool.arena.used.head, pool.Blocks());
    CarveNoHeader(pool.mem.blocks, pool.Blocks(), pool.freeList.nodeSize, a);
  }

  /** No allocation reaches across a block boundary. */
  lemma {:induction false} ArrayInOneBlock(pool: MemoryPool, p: nat, n: nat) returns (b: Block)
    requires pool.Valid() && p in pool.freeList.held && 0 < n <= pool.freeList.held[p]
    ensures b in pool.Blocks() && b.addr + HEADER <= p
    ensures At(p, n - 1, pool.freeList.nodeSize) + pool.freeList.nodeSize <= b.addr + b.size
    decreases n
  {
    hide Stacked, Owned, AllApart, Partition, Chain, Carve, Carved, Sizes, NoneLost, At;
    var ns, stack := pool.freeList.nodeSize, pool.Blocks();
    var last := At(p, n - 1, ns);
    Facts(pool.freeList.free, pool.freeList.held, pool.freeList.owner, ns);
    NodeInside(stack, ns, last);
    var i :| 0 <= i < |stack| && Within(last, ns, stack[i]);
    b := stack[i];
    if n == 1 {
      AtFirst(p, ns);
    } else {
      var c := ArrayInOneBlock(pool, p, n - 1);
      var j :| 0 <= j < |stack| && stack[j] == c;
      BlocksDisjoint(pool.mem.blocks, stack, i, j);
      AtStep(p, n - 1, ns);
    }
  }

  lemma AtFirst(p: nat, ns: nat)
    ensures At(p, 0, ns) == p
  {
  }

  lemma AtStep(p: nat, i: nat, ns: nat)
    requires i > 0
    ensures At(p, i, ns) == At(p, i - 1, ns) + ns && p <= At(p, i, ns)
  {
    NotBefore(p, i, ns);
  }

  lemma BlocksDisjoint(blocks: map<nat, nat>, stack: seq<Block>, i: nat, j: nat)
    requires AllApart(blocks) && Owned(blocks, stack) && i < |stack| && j < |stack|
    ensures i != j ==> Apart(stack[i].addr, stack[i].size, stack[j].addr, stack[j].size)
  {
  }

  /**
   With first blocks of at most 24 significant bits, and as long as only single nodes made the
   pool grow, peak use exceeds all but the last block: with h nodes lost to each header and k >= 2
   blocks, count * (2^(k-1) - 1) - (k-1) * h < max_used.
   */
  lemma GrowthFollowsUse(pool: MemoryPool, count: nat)
    requires pool.Valid() && pool.first == count * pool.freeList.nodeSize && Exact(pool.first)
    requires !pool.grewForArray && |pool.Blocks()| >= 2
    ensures var k, h := |pool.Blocks()|, CeilDiv(16, pool.freeList.nodeSize);
            count * (Pow2(k - 1) - 1) < pool.freeList.maxUsed + (k - 1) * h
  {
    hide Stacked, Owned, AllApart, Partition, Chain, Carve, Carved, Sizes, NoneLost, CeilDiv, Exact, Pow2;
    CarvedClosed(count, pool.freeList.nodeSize, |pool.Blocks()| - 1);
  }

  /** After k blocks of doubling size the pool holds count * (2^k - 1) - k * h nodes, free or held. */
  lemma NodesAfterGrowth(pool: MemoryPool, count: nat)
    requires pool.Valid() && pool.first == count * pool.freeList.nodeSize && Exact(pool.first)
    ensures var k, h := |pool.Blocks()|, CeilDiv(16, pool.freeList.nodeSize);
            |Carve(pool.Blocks(), pool.freeList.nodeSize)| + k * h == count * (Pow2(k) - 1)
  {
    hide Stacked, Owned, AllApart, Partition, Chain, Carve, Carved, Sizes, NoneLost, CeilDiv, Exact, Pow2;
    CarvedClosed(count, pool.freeList.nodeSize, |pool.Blocks()|);
    assert |pool.freeList.owner| == |pool.freeList.owner.Keys|;
  }

  lemma {:induction false} SizesGrow(first: nat, k: nat)
    ensures Sizes(first, k) >= first
  {
    if k > 0 {
      SizesGrow(first, k - 1);
      NextSizeFacts(Sizes(first, k - 1));
    }
  }
}
