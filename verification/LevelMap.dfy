/**
 A `std::map<price_t, price_level>` over a memory pool: the levels of one side by
 price, best price first. Every map element occupies one node of the pool.
 */
module LevelMaps {
  import opened Arith
  import opened Core
  import opened Memory
  import opened MemoryPools

  /** sizeof(pair<price_t const, price_level>) and four pointers of a map node. */
  const MAP_NODE_SIZE: nat := 44

  /** The quantities by price. */
  ghost function Quantities(levels: map<u32, PriceLevel>): map<u32, u32>
    reads levels.Values
  {
    map p | p in levels :: levels[p].aggQty
  }

  ghost predicate DistinctCells(cells: map<u32, nat>) {
    forall p, q :: p in cells && q in cells && p != q ==> cells[p] != cells[q]
  }

  class LevelMap {
    const side: Side
    const pool: MemoryPool
    var levels: map<u32, PriceLevel>
    // the address of each map node in the pool
    var cells: map<u32, nat>
    ghost var Repr: set<object>

    ghost predicate Valid()
      reads this, Repr
      ensures Valid() ==> this in Repr
    {
      && this in Repr && pool.Repr() <= Repr && this !in pool.Repr()
      && (forall p :: p in levels ==> levels[p] in Repr && levels[p] !in pool.Repr() && levels[p].price == p)
      && Celled()
    }

    /** The pool's nodes in use are exactly this map's. */
    ghost predicate Celled()
      reads `levels, `cells, pool.Repr()
    {
      && pool.Valid()
      && cells.Keys == levels.Keys && DistinctCells(cells)
      && (forall p :: p in cells ==> cells[p] in pool.freeList.held && pool.freeList.held[cells[p]] == 1)
      && pool.freeList.used == |levels|
    }

    constructor (side: Side)
      ensures Valid() && this.side == side && levels == map[] && fresh(Repr) && MaxUsed() == 0
      ensures pool.freeList.nodeSize == 48 && pool.first == 2400
    {
      hide MemoryPool.Valid;
      assert RoundUpToAlign(MAP_NODE_SIZE) == 48;
      this.side := side;
      var p := new MemoryPool(MAP_NODE_SIZE, NUM_PRICE_LEVELS);
      pool := p;
      levels, cells := map[], map[];
      Repr := {this} + p.Repr();
    }

    ghost function MaxUsed(): nat
      reads pool.freeList
    {
      pool.freeList.maxUsed
    }

    predicate Empty()
      reads this
    {
      |levels| == 0
    }

    /** A map node from the pool for a level. */
    method Link(level: PriceLevel)
      requires Celled() && this !in pool.Repr() && level.price !in levels
      modifies this`levels, this`cells, pool.Repr()
      ensures Celled() && levels == old(levels)[level.price := level]
      ensures MaxUsed() == Max(old(MaxUsed()), |levels|)
      ensures cells.Keys == levels.Keys && level.price in cells
      ensures cells == old(cells)[level.price := cells[level.price]]
      ensures cells[level.price] !in old(pool.freeList.held)
      ensures pool.freeList.held == old(pool.freeList.held)[cells[level.price] := 1]
    {
      hide MemoryPool.Valid;
      var cell := pool.AllocateNode();
      cells := cells[level.price := cell];
      assert DistinctCells(cells);
      levels := levels[level.price := level];
      assert forall p :: p in cells ==> cells[p] in pool.freeList.held && pool.freeList.held[cells[p]] == 1;
    }

    /** A level under a price the map does not have. */
    method Emplace(price: u32, qty: u32) returns (level: PriceLevel)
      requires Valid() && price !in levels
      modifies this, pool.Repr()
      ensures Valid() && fresh(level) && level.price == price && level.aggQty == qty
      ensures Repr == old(Repr) + {level}
      ensures levels == old(levels)[price := level]
      ensures MaxUsed() == Max(old(MaxUsed()), |levels|)
      ensures cells.Keys == levels.Keys && price in cells && cells == old(cells)[price := cells[price]]
      ensures cells[price] !in old(pool.freeList.held)
      ensures pool.freeList.held == old(pool.freeList.held)[cells[price] := 1]
    {
      hide MemoryPool.Valid, Celled;
      level := new PriceLevel(price, qty);
      Link(level);
      Repr := Repr + {level};
    }

    /** The map node of a price returns to the pool. */
    method Unlink(price: u32)
      requires Celled() && this !in pool.Repr() && price in levels
      modifies this`levels, this`cells, pool.Repr()
      ensures Celled() && levels == old(levels) - {price}
      ensures MaxUsed() == old(MaxUsed())
      ensures old(cells).Keys == old(levels).Keys && price in old(cells) && cells == old(cells) - {price}
      ensures pool.freeList.held == old(pool.freeList.held) - {old(cells)[price]}
    {
      hide MemoryPool.Valid;
      pool.DeallocateNode(cells[price]);
      cells := cells - {price};
      assert DistinctCells(cells);
      levels := levels - {price};
      assert forall p :: p in cells ==> cells[p] in pool.freeList.held && pool.freeList.held[cells[p]] == 1;
    }

    /** `erase` by key. */
    method Erase(price: u32)
      requires Valid() && price in levels
      modifies this, pool.Repr()
      ensures Valid() && Repr == old(Repr)
      ensures levels == old(levels) - {price}
      ensures MaxUsed() == old(MaxUsed())
      ensures old(cells).Keys == old(levels).Keys && price in old(cells) && cells == old(cells) - {price}
      ensures pool.freeList.held == old(pool.freeList.held) - {old(cells)[price]}
    {
      hide MemoryPool.Valid, Celled;
      Unlink(price);
    }

    lemma KeysOfQuantities()
      ensures Quantities(levels).Keys == levels.Keys
    {
    }

    lemma DepthBound()
      requires Valid()
      ensures |levels| <= MaxUsed()
    {
    }
  }
}
