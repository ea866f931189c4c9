/**
 Prices, quantities, sides, orders and price levels of the market-data engine
 (src/itch/core.hpp and src/itch/price_level.hpp).
 */
module Core {

  const MODULUS: nat := 0x1_0000_0000

  /** `price_t` and `qty_t`: unsigned 32-bit words. */
  type u32 = n: nat | n < 0x1_0000_0000

  datatype Side = Bid | Ask

  /** The price levels a book's pool starts with room for. */
  const NUM_PRICE_LEVELS: nat := 50

  /** A price with a quantity; a side without levels reports Pq(0, 0). */
  datatype Pq = Pq(price: u32, qty: u32)

  /** Unsigned 32-bit addition, wrapping. */
  function Inc32(a: u32, b: u32): u32 {
    if a + b < MODULUS then a + b else a + b - MODULUS
  }

  /** Unsigned 32-bit subtraction, wrapping. */
  function Dec32(a: u32, b: u32): u32 {
    if b <= a then a - b else a + MODULUS - b
  }

  /** Both are arithmetic modulo 2^32. */
  lemma WordArithmetic(a: u32, b: u32)
    ensures Inc32(a, b) == (a + b) % 0x1_0000_0000
    ensures Dec32(a, b) == (a - b) % 0x1_0000_0000
  {
    if a + b >= 0x1_0000_0000 {
      assert a + b == 0x1_0000_0000 + Inc32(a, b);
    }
    if b > a {
      assert a - b == -0x1_0000_0000 + Dec32(a, b);
    }
  }

  /** One price with the sum of the order quantities resting on it. */
  class PriceLevel {
    const price: u32
    var aggQty: u32

    constructor (p: u32, q: u32)
      ensures price == p && aggQty == q
    {
      price, aggQty := p, q;
    }

    method IncQty(q: u32)
      modifies this
      ensures aggQty == Inc32(old(aggQty), q)
    {
      aggQty := Inc32(aggQty, q);
    }

    method DecQty(q: u32)
      modifies this
      ensures aggQty == Dec32(old(aggQty), q)
    {
      aggQty := Dec32(aggQty, q);
    }
  }

  /** An order of the order table; `pl` points to the level it rests on and is null when it rests on none. */
  class Order {
    var price: u32
    var qty: u32
    var pl: PriceLevel?
    var side: Side

    constructor ()
      ensures Cleared()
    {
      price, qty, pl, side := 0, 0, null, Bid;
    }

    predicate Cleared()
      reads this
    {
      price == 0 && qty == 0 && pl == null && side == Bid
    }

    /** The aggregate of the order's level. */
    function LevelQty(): u32
      reads this, pl
    {
      if pl == null then 0 else pl.aggQty
    }

    method Clear()
      modifies this
      ensures Cleared() && price == 0 && qty == 0 && pl == null && side == Bid
    {
      price, qty, pl, side := 0, 0, null, Bid;
    }
  }

  /** The level is an order's own, and the order has all of its quantity. */
  ghost predicate Emptied(n: PriceLevel?, pl: PriceLevel?, qty: u32, aggQty: u32) {
    n != null && n == pl && qty >= aggQty
  }
}
