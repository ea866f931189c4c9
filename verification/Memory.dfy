/**
 Raw memory as the allocators see it: a store of pointer-sized words, and the
 operating system's blocks. An address is a natural number and null is 0.
 */
module Memory {

  /** Size of a pointer; all words the allocators store lie at multiples of it. */
  const WORD: nat := 8

  /** `memory_block`: an address with a size in bytes. */
  datatype Block = Block(addr: nat, size: nat)

  /** Rounds up to the next multiple of 8. */
  function RoundUpToAlign(x: nat): (r: nat)
    ensures r % 8 == 0 && x <= r < x + 8
  {
    (x + 7) / 8 * 8
  }

  predicate Apart(a: nat, m: nat, b: nat, n: nat) {
    a + m <= b || b + n <= a
  }

  ghost predicate AllApart(blocks: map<nat, nat>) {
    forall a, b :: a in blocks && b in blocks && a != b ==> Apart(a, blocks[a], b, blocks[b])
  }

  /** The words at the addresses outside `s` are the same in both stores. */
  ghost predicate SameOutside(words: map<nat, nat>, words': map<nat, nat>, s: set<nat>) {
    forall a :: a !in s ==> (a in words <==> a in words') && (a in words ==> words[a] == words'[a])
  }

  class Memory {
    var words: map<nat, nat>
    // the operating system's live blocks: address to size
    var blocks: map<nat, nat>

    constructor ()
      ensures words == map[] && blocks == map[]
    {
      words, blocks := map[], map[];
    }

    method Store(a: nat, v: nat)
      requires a != 0
      modifies this
      ensures words == old(words)[a := v] && blocks == old(blocks)
    {
      words := words[a := v];
    }

    method Load(a: nat) returns (v: nat)
      requires a in words
      ensures v == words[a]
    {
      v := words[a];
    }

    /** The operating system hands out any aligned block that overlaps no live one. */
    method Malloc(size: nat) returns (p: nat)
      requires AllApart(blocks)
      modifies this
      ensures p != 0 && p % 16 == 0 && p !in old(blocks)
      ensures blocks == old(blocks)[p := size] && AllApart(blocks)
      ensures words == old(words)
    {
      ghost var top := Roof(blocks);
      assert Fits(blocks, top, size);
      p :| Fits(blocks, p, size);
      assert Fits(blocks, p, size);
      blocks := blocks[p := size];
    }

    method Free(p: nat)
      requires p in blocks && AllApart(blocks)
      modifies this
      ensures blocks == old(blocks) - {p} && AllApart(blocks) && words == old(words)
    {
      blocks := blocks - {p};
    }
  }

  /** Address `p` is aligned for any type and the block does not meet a live one. */
  predicate Fits(blocks: map<nat, nat>, p: nat, size: nat) {
    && p != 0 && p % 16 == 0 && p !in blocks
    && forall a :: a in blocks ==> Apart(a, blocks[a], p, size)
  }

  /** An aligned address above every block. */
  lemma Roof(blocks: map<nat, nat>) returns (top: nat)
    ensures top != 0 && top % 16 == 0
    ensures forall a :: a in blocks ==> a + blocks[a] <= top && a < top
    decreases |blocks|
  {
    if blocks == map[] {
      top := 16;
    } else {
      var a :| a in blocks;
      var others := blocks - {a};
      var rest := Roof(others);
      top := rest + (a + blocks[a] + 16) / 16 * 16;
      assert forall b :: b in blocks && b != a ==> b in others && others[b] == blocks[b];
    }
  }
}
