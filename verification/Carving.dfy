/** How a stack of blocks is carved into nodes, and how many there are. */
module Carving {
  import opened Arith
  import opened Memory
  import opened Growth
  import opened Nodes
  import opened Arenas

  /** The nodes that fit behind the header of a block. */
  function NodesIn(size: nat, ns: nat): nat
    requires ns > 0
  {
    if size >= HEADER then FloorDiv(size - HEADER, ns) else 0
  }

  ghost function BlockNodes(b: Block, ns: nat): set<nat>
    requires ns > 0
  {
    RowSet(b.addr + HEADER, NodesIn(b.size, ns), ns)
  }

  /** All the nodes of all the blocks. */
  ghost function Carve(stack: seq<Block>, ns: nat): set<nat>
    requires ns > 0
  {
    if |stack| == 0 then {} else BlockNodes(stack[0], ns) + Carve(stack[1..], ns)
  }

  /** A node lies in a block, behind its header. */
  ghost predicate Within(s: nat, ns: nat, b: Block) {
    b.addr + HEADER <= s && s + ns <= b.addr + b.size
  }

  lemma BlockInside(b: Block, ns: nat)
    requires ns > 0
    ensures forall s :: s in BlockNodes(b, ns) ==> Within(s, ns, b)
  {
    var k := NodesIn(b.size, ns);
    RowInside(b.addr + HEADER, k, ns);
    if b.size >= HEADER {
      FloorBounds(b.size - HEADER, ns);
    }
  }

  ghost predicate InSome(stack: seq<Block>, s: nat, ns: nat) {
    exists i :: 0 <= i < |stack| && Within(s, ns, stack[i])
  }

  lemma {:induction false} NodeInside(stack: seq<Block>, ns: nat, s: nat)
    requires ns > 0 && s in Carve(stack, ns)
    ensures InSome(stack, s, ns)
  {
    if s in BlockNodes(stack[0], ns) {
      BlockInside(stack[0], ns);
      assert Within(s, ns, stack[0]);
    } else {
      NodeInside(stack[1..], ns, s);
      var i :| 0 <= i < |stack[1..]| && Within(s, ns, stack[1..][i]);
      assert Within(s, ns, stack[i + 1]);
    }
  }

  lemma CarveInside(stack: seq<Block>, ns: nat)
    requires ns > 0
    ensures forall s :: s in Carve(stack, ns) ==> InSome(stack, s, ns)
  {
    forall s | s in Carve(stack, ns)
      ensures InSome(stack, s, ns)
    {
      NodeInside(stack, ns, s);
    }
  }

  /** No node of the blocks meets a block that is apart from them. */
  lemma CarveApart(blocks: map<nat, nat>, stack: seq<Block>, ns: nat, b: Block)
    requires ns > 0 && Owned(blocks, stack)
    requires forall a :: a in blocks ==> Apart(a, blocks[a], b.addr, b.size)
    ensures forall s :: s in Carve(stack, ns) ==> Apart(s, ns, b.addr, b.size)
  {
    CarveInside(stack, ns);
  }

  /** No node meets a header. */
  lemma CarveNoHeader(blocks: map<nat, nat>, stack: seq<Block>, ns: nat, a: nat)
    requires ns > 0 && AllApart(blocks) && Owned(blocks, stack) && IsHeader(stack, a)
    requires forall b :: b in stack ==> b.size >= HEADER
    ensures forall s :: s in Carve(stack, ns) ==> !(s <= a < s + ns)
  {
    CarveInside(stack, ns);
    var j :| 0 <= j < |stack| && (a == stack[j].addr || a == stack[j].addr + WORD);
    assert stack[j] in stack;
    forall s | s in Carve(stack, ns)
      ensures !(s <= a < s + ns)
    {
      var i :| 0 <= i < |stack| && Within(s, ns, stack[i]);
      if i != j {
        assert Apart(stack[i].addr, stack[i].size, stack[j].addr, stack[j].size);
      }
    }
  }

  lemma HeadersNotNodes(blocks: map<nat, nat>, words: map<nat, nat>, head: nat, stack: seq<Block>, ns: nat)
    requires ns > 0 && AllApart(blocks) && Owned(blocks, stack) && Stacked(words, head, stack)
    ensures forall a :: IsHeader(stack, a) ==> a !in Carve(stack, ns)
  {
    StackSizes(words, head, stack);
    forall a | IsHeader(stack, a)
      ensures a !in Carve(stack, ns)
    {
      CarveNoHeader(blocks, stack, ns, a);
    }
  }

  // ---- Counting ----

  /** The nodes carved from the first `k` blocks when the first of them has `first` bytes. */
  function Carved(first: nat, ns: nat, k: nat): nat
    requires ns > 0
  {
    if k == 0 then 0 else Carved(first, ns, k - 1) + NodesIn(Sizes(first, k - 1), ns)
  }

  /** A block of `n` nodes' worth of bytes loses the nodes its header takes. */
  lemma HeaderCost(n: nat, ns: nat)
    requires ns > 0 && n * ns >= HEADER
    ensures NodesIn(n * ns, ns) + CeilDiv(16, ns) == n
  {
    var h := CeilDiv(HEADER, ns);
    CeilEnough(HEADER, ns);
    MulMono(n, h - 1, ns);
    assert n >= h;
    assert (n - h) * ns == n * ns - h * ns;
    assert (h - 1) * ns == h * ns - ns;
    DivUnique(n * ns - HEADER, n - h, ns);
  }

  lemma CeilEnough(n: nat, ns: nat)
    requires ns > 0 && n > 0
    ensures var k := CeilDiv(n, ns); k > 0 && (k - 1) * ns < n <= k * ns
  {
    var a := n + ns - 1;
    var k := a / ns;
    assert a == k * ns + a % ns;
    assert k * ns == (k - 1) * ns + ns;
    assert k == 0 ==> k * ns == 0;
  }

  lemma Distribute(count: nat, p: nat, h: nat, k: nat, carved: nat, nodes: nat)
    requires k > 0 && p > 0 && carved + (k - 1) * h == count * (p - 1) && nodes + h == count * p
    ensures carved + nodes + k * h == count * (2 * p - 1)
  {
    assert k * h == (k - 1) * h + h;
    assert count * (2 * p - 1) == count * (p - 1) + count * p;
  }

  lemma Regroup(count: nat, ns: nat, p: nat)
    requires p > 0
    ensures count * ns * p == (count * p) * ns && count * ns * p >= count * ns
  {
    MulMono(1, p, count * ns);
    assert p * (count * ns) == count * ns * p;
  }

  /** The last of `k` blocks has the nodes of its doubled size, less those its header takes. */
  lemma CarvedLast(count: nat, ns: nat, k: nat)
    requires ns > 0 && k > 0 && count * ns >= HEADER && Exact(count * ns)
    ensures Carved(count * ns, ns, k) == Carved(count * ns, ns, k - 1) + NodesIn(Sizes(count * ns, k - 1), ns)
    ensures NodesIn(Sizes(count * ns, k - 1), ns) + CeilDiv(16, ns) == count * Pow2(k - 1)
  {
    var p := Pow2(k - 1);
    SizesDouble(count * ns, k - 1);
    hide Exact, CeilDiv, NodesIn, Sizes, Pow2;
    Regroup(count, ns, p);
    HeaderCost(count * p, ns);
  }

  /** After `k` blocks the pool has carved count * (2^k - 1) - k * h nodes, h of them lost to each header. */
  lemma {:induction false} CarvedClosed(count: nat, ns: nat, k: nat)
    requires ns > 0 && count * ns >= HEADER && Exact(count * ns)
    ensures Carved(count * ns, ns, k) + k * CeilDiv(16, ns) == count * (Pow2(k) - 1)
  {
    if k > 0 {
      CarvedClosed(count, ns, k - 1);
      CarvedLast(count, ns, k);
      hide Carved, Sizes, NodesIn, CeilDiv, Exact;
      Distribute(count, Pow2(k - 1), CeilDiv(HEADER, ns), k, Carved(count * ns, ns, k - 1),
                 NodesIn(Sizes(count * ns, k - 1), ns));
    }
  }
}
