/**
 A `std::list<price_level>`: the levels of one side of a book, in order. With
 a pool, every list node occupies one node of the pool; without one the list
 uses the default allocator.
 */
module LevelLists {
  import opened Arith
  import opened Core
  import opened Ladder
  import opened MemoryPools

  function InsertAt<T>(s: seq<T>, i: nat, x: T): (t: seq<T>)
    requires i <= |s|
    ensures |t| == |s| + 1 && t[i] == x
    ensures forall k :: 0 <= k < |t| && k != i ==> t[k] == s[if k < i then k else k - 1]
  {
    s[..i] + [x] + s[i..]
  }

  function RemoveAt<T>(s: seq<T>, i: nat): (t: seq<T>)
    requires i < |s|
    ensures |t| == |s| - 1
    ensures forall k :: 0 <= k < |t| ==> t[k] == s[if k < i then k else k + 1]
  {
    s[..i] + s[i + 1..]
  }

  ghost predicate Distinct<T>(s: seq<T>) {
    forall i, j :: 0 <= i < j < |s| ==> s[i] != s[j]
  }

  lemma InsertFacts<T>(s: seq<T>, i: nat, x: T)
    requires i <= |s|
    ensures forall y :: y in InsertAt(s, i, x) <==> y == x || y in s
    ensures Distinct(s) && x !in s ==> Distinct(InsertAt(s, i, x))
  {
    hide InsertAt, Distinct;
    var t := InsertAt(s, i, x);
    forall y | y in s
      ensures y in t
    {
      var k :| 0 <= k < |s| && s[k] == y;
      assert t[if k < i then k else k + 1] == y;
    }
    InsertDistinct(s, i, x);
  }

  lemma InsertDistinct<T>(s: seq<T>, i: nat, x: T)
    requires i <= |s|
    ensures Distinct(s) && x !in s ==> Distinct(InsertAt(s, i, x))
  {
    hide InsertAt;
  }

  lemma RemoveFacts<T>(s: seq<T>, i: nat)
    requires i < |s| && Distinct(s)
    ensures forall y :: y in RemoveAt(s, i) <==> y != s[i] && y in s
    ensures Distinct(RemoveAt(s, i))
  {
    var t := RemoveAt(s, i);
    assert forall k :: 0 <= k < |s| && k != i ==> s[k] == t[if k < i then k else k - 1];
  }

  /** The list as a value. */
  ghost function View(nodes: seq<PriceLevel>): (s: seq<Level>)
    reads nodes
    ensures |s| == |nodes|
    ensures forall i :: 0 <= i < |nodes| ==> s[i] == Level(nodes[i].price, nodes[i].aggQty)
  {
    if nodes == [] then [] else [Level(nodes[0].price, nodes[0].aggQty)] + View(nodes[1..])
  }

  lemma ViewInsert(nodes: seq<PriceLevel>, i: nat, n: PriceLevel)
    requires i <= |nodes|
    ensures View(InsertAt(nodes, i, n)) == InsertAt(View(nodes), i, Level(n.price, n.aggQty))
  {
    hide View, InsertAt, RemoveAt;
    var s, t := View(InsertAt(nodes, i, n)), InsertAt(View(nodes), i, Level(n.price, n.aggQty));
    assert forall k :: 0 <= k < |t| ==> s[k] == t[k];
  }

  lemma ViewRemove(nodes: seq<PriceLevel>, i: nat)
    requires i < |nodes|
    ensures View(RemoveAt(nodes, i)) == RemoveAt(View(nodes), i)
  {
    hide View, InsertAt, RemoveAt;
    var s, t := View(RemoveAt(nodes, i)), RemoveAt(View(nodes), i);
    assert forall k :: 0 <= k < |t| ==> s[k] == t[k];
  }

  class LevelList {
    const pool: MemoryPool?
    var nodes: seq<PriceLevel>
    // the address of each list node in the pool
    var cells: seq<nat>
    // everything the list is made of
    ghost var Repr: set<object>

    ghost function PoolRepr(): set<object> {
      if pool == null then {} else pool.Repr()
    }

    ghost predicate Valid()
      reads this, Repr
      ensures Valid() ==> this in Repr
    {
      && this in Repr && PoolRepr() <= Repr
      && this !in PoolRepr()
      && (forall n :: n in nodes ==> n in Repr && n !in PoolRepr())
      && Distinct(nodes)
      && Celled()
    }

    /** The pool's nodes in use are exactly this list's. */
    ghost predicate Celled()
      reads this, PoolRepr()
    {
      pool != null ==>
        && pool.Valid()
        && |cells| == |nodes| && Distinct(cells)
        && (forall c :: c in cells ==> c in pool.freeList.held && pool.freeList.held[c] == 1)
        && pool.freeList.used == |nodes|
    }

    constructor (pool: MemoryPool?)
      requires pool != null ==> pool.Valid() && pool.freeList.used == 0
      ensures Valid() && nodes == [] && this.pool == pool
      ensures Repr == {this} + if pool == null then {} else pool.Repr()
    {
      this.pool := pool;
      nodes, cells := [], [];
      Repr := {this} + if pool == null then {} else pool.Repr();
    }

    predicate Empty()
      reads this
    {
      |nodes| == 0
    }

    ghost function MaxUsed(): nat
      reads PoolRepr()
    {
      if pool == null then 0 else pool.freeList.maxUsed
    }

    /** A further pool node is in use, and it stands at position `i`. */
    ghost predicate TookCell(i: nat, cells0: seq<nat>, held0: map<nat, nat>)
      requires pool != null
      reads `cells, pool.freeList
    {
      && i <= |cells0| && |cells| == |cells0| + 1 && cells == InsertAt(cells0, i, cells[i])
      && cells[i] !in held0 && pool.freeList.held == held0[cells[i] := 1]
    }

    /** The pool node at position `i` is given back, and no other. */
    ghost predicate GaveCell(i: nat, cells0: seq<nat>, held0: map<nat, nat>)
      requires pool != null
      reads `cells, pool.freeList
    {
      i < |cells0| && cells == RemoveAt(cells0, i) && pool.freeList.held == held0 - {cells0[i]}
    }

    /** The pool's part of `Emplace`. */
    method TakeCell(i: nat)
      requires Celled() && this !in PoolRepr() && i <= |nodes|
      modifies this`cells, PoolRepr()
      ensures pool != null ==>
                && pool.Valid() && |cells| == |nodes| + 1 && Distinct(cells)
                && (forall c :: c in cells ==> c in pool.freeList.held && pool.freeList.held[c] == 1)
                && pool.freeList.used == |nodes| + 1
                && pool.freeList.maxUsed == Max(old(pool.freeList.maxUsed), |nodes| + 1)
      ensures pool != null ==> TookCell(i, old(cells), old(pool.freeList.held))
    {
      hide MemoryPool.Valid;
      if pool != null {
        var cell := pool.AllocateNode();
        InsertFacts(cells, i, cell);
        cells := InsertAt(cells, i, cell);
      }
    }

    /** A new level in front of position `i`. */
    method Emplace(i: nat, price: u32, qty: u32) returns (level: PriceLevel)
      requires Valid() && i <= |nodes|
      modifies this, PoolRepr()
      ensures Valid() && fresh(level) && level.price == price && level.aggQty == qty
      ensures Repr == old(Repr) + {level}
      ensures nodes == InsertAt(old(nodes), i, level)
      ensures forall n :: n in nodes <==> n == level || n in old(nodes)
      ensures View(nodes) == InsertAt(old(View(nodes)), i, Level(price, qty))
      ensures pool != null ==> MaxUsed() == Max(old(MaxUsed()), |nodes|)
      ensures pool != null ==> TookCell(i, old(cells), old(pool.freeList.held))
    {
      hide MemoryPool.Valid, Distinct, View, InsertAt, RemoveAt, TookCell, GaveCell;
      level := new PriceLevel(price, qty);
      InsertFacts(nodes, i, level);
      ViewInsert(nodes, i, level);
      TakeCell(i);
      nodes := InsertAt(nodes, i, level);
      Repr := Repr + {level};
    }

    /** The pool's part of `Erase`. */
    method GiveCell(i: nat)
      requires Celled() && this !in PoolRepr() && i < |nodes|
      modifies this`cells, PoolRepr()
      ensures pool != null ==>
                && pool.Valid() && |cells| == |nodes| - 1 && Distinct(cells)
                && (forall c :: c in cells ==> c in pool.freeList.held && pool.freeList.held[c] == 1)
                && pool.freeList.used == |nodes| - 1
                && pool.freeList.maxUsed == old(pool.freeList.maxUsed)
      ensures pool != null ==> GaveCell(i, old(cells), old(pool.freeList.held))
    {
      hide MemoryPool.Valid;
      if pool != null {
        assert cells[i] in cells;
        RemoveFacts(cells, i);
        pool.DeallocateNode(cells[i]);
        cells := RemoveAt(cells, i);
      }
    }

    /** The level at position `i` goes, and its node returns to the pool. */
    method Erase(i: nat)
      requires Valid() && i < |nodes|
      modifies this, PoolRepr()
      ensures Valid() && Repr == old(Repr)
      ensures nodes == RemoveAt(old(nodes), i)
      ensures forall n :: n in nodes <==> n != old(nodes)[i] && n in old(nodes)
      ensures View(nodes) == RemoveAt(old(View(nodes)), i)
      ensures MaxUsed() == old(MaxUsed())
      ensures pool != null ==> GaveCell(i, old(cells), old(pool.freeList.held))
    {
      hide MemoryPool.Valid, Distinct, View, InsertAt, RemoveAt, TookCell, GaveCell;
      RemoveFacts(nodes, i);
      ViewRemove(nodes, i);
      GiveCell(i);
      nodes := RemoveAt(nodes, i);
    }

    /** `erase` through an iterator: the list node itself is known. */
    method EraseNode(level: PriceLevel) returns (ghost i: nat)
      requires Valid() && level in nodes
      modifies this, PoolRepr()
      ensures Valid() && Repr == old(Repr)
      ensures i < |old(nodes)| && old(nodes)[i] == level
      ensures View(nodes) == RemoveAt(old(View(nodes)), i)
      ensures forall n :: n in nodes <==> n != level && n in old(nodes)
      ensures |nodes| == |old(nodes)| - 1 && MaxUsed() == old(MaxUsed())
      ensures pool != null ==> GaveCell(i, old(cells), old(pool.freeList.held))
    {
      hide MemoryPool.Valid, Distinct, View, RemoveAt, Celled, GaveCell;
      var k :| 0 <= k < |nodes| && nodes[k] == level;
      i := k;
      Erase(k);
    }

    /** `inc_qty` on a level of the list. */
    method Increase(level: PriceLevel, ghost i: nat, qty: u32)
      requires Valid() && i < |nodes| && nodes[i] == level
      modifies level
      ensures Valid()
      ensures View(nodes) == old(View(nodes))[i := Level(level.price, Inc32(old(level.aggQty), qty))]
    {
      hide MemoryPool.Valid, View;
      level.IncQty(qty);
      ViewUpdate(nodes, old(View(nodes)), i);
    }

    /** `dec_qty` on a level of the list. */
    method Decrease(level: PriceLevel, qty: u32) returns (ghost i: nat)
      requires Valid() && level in nodes
      modifies level
      ensures Valid() && i < |nodes| && nodes[i] == level
      ensures View(nodes) == old(View(nodes))[i := Level(level.price, Dec32(old(level.aggQty), qty))]
    {
      hide MemoryPool.Valid, View;
      i :| 0 <= i < |nodes| && nodes[i] == level;
      level.DecQty(qty);
      ViewUpdate(nodes, old(View(nodes)), i);
    }

    /** The largest use of the pool is at least the present one. */
    lemma DepthBound()
      requires Valid()
      ensures pool != null ==> |nodes| <= MaxUsed()
    {
    }
  }

  lemma ViewUpdate(nodes: seq<PriceLevel>, s: seq<Level>, i: nat)
    requires i < |nodes| == |s|
    requires forall k :: 0 <= k < |s| && k != i ==> s[k] == Level(nodes[k].price, nodes[k].aggQty)
    ensures View(nodes) == s[i := Level(nodes[i].price, nodes[i].aggQty)]
  {
    hide View;
    var t := s[i := Level(nodes[i].price, nodes[i].aggQty)];
    assert forall k :: 0 <= k < |t| ==> View(nodes)[k] == t[k];
  }
}
