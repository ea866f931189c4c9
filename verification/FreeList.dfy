/**
 The intrusive free list (src/allocator/free_list.hpp): nodes waiting in raw
 memory, each holding the address of the next one.
 */
module FreeLists {
  import opened Arith
  import opened Memory
  import opened Nodes

  /** The words spell the list: every free node holds the address of the next, the last one null. */
  ghost predicate Chain(words: map<nat, nat>, first: nat, free: seq<nat>)
    decreases |free|
  {
    if |free| == 0 then first == 0
    else first == free[0] && first != 0 && first in words && Chain(words, words[first], free[1..])
  }

  /** The list depends on nothing but the words of its own nodes: holders may write anything elsewhere. */
  lemma {:induction false} ChainFrame(words: map<nat, nat>, words': map<nat, nat>, first: nat, free: seq<nat>,
                                      written: set<nat>)
    requires Chain(words, first, free) && SameOutside(words, words', written)
    requires forall s :: s in written ==> s !in free
    ensures Chain(words', first, free)
    decreases |free|
  {
    if |free| > 0 {
      assert first !in written;
      ChainFrame(words, words', words[first], free[1..], written);
    }
  }

  lemma ChainCons(words: map<nat, nat>, first: nat, free: seq<nat>, p: nat)
    requires Chain(words, first, free) && p != 0 && p !in free
    ensures Chain(words[p := first], p, [p] + free)
  {
    ChainFrame(words, words[p := first], first, free, {p});
    assert ([p] + free)[1..] == free;
  }

  lemma {:induction false} ChainDrop(words: map<nat, nat>, first: nat, free: seq<nat>, k: nat)
    requires Chain(words, first, free) && k <= |free|
    ensures Chain(words, if k < |free| then free[k] else 0, free[k..])
    decreases |free|
  {
    if k > 0 {
      ChainDrop(words, words[first], free[1..], k - 1);
      assert free[1..][k - 1..] == free[k..];
    } else {
      assert free[0..] == free;
    }
  }

  /** A row whose nodes are linked in address order, the last one to the head of a list, extends the list. */
  lemma {:induction false} ChainRow(words: map<nat, nat>, first: nat, free: seq<nat>, p: nat, k: nat, ns: nat, j: nat)
    requires Chain(words, first, free) && j < k && p != 0
    requires forall i :: 0 <= i < k ==> At(p, i, ns) in words
    requires forall i :: 0 <= i < k - 1 ==> words[At(p, i, ns)] == At(p, i, ns) + ns
    requires words[At(p, k - 1, ns)] == first
    ensures Chain(words, At(p, j, ns), RowOf(p, k, ns)[j..] + free)
    decreases k - j
  {
    var more := RowOf(p, k, ns)[j..] + free;
    NotBefore(p, j, ns);
    if j == k - 1 {
      assert more[1..] == free;
    } else {
      ChainRow(words, first, free, p, k, ns, j + 1);
      assert more[1..] == RowOf(p, k, ns)[j + 1..] + free;
    }
  }

  lemma WithoutTail(free: seq<nat>, at: nat, k: nat)
    requires 0 < at && at + k <= |free|
    ensures Without(free, at, k)[0] == free[0] && Without(free, at, k)[1..] == Without(free[1..], at - 1, k)
    ensures free[1..][at - 1 + k..] == free[at + k..]
    ensures at > 1 ==> free[1..][at - 2] == free[at - 1]
  {
  }

  /** Bending one link (or the head) around a run leaves the list without the run. */
  lemma {:induction false} ChainSplice(words: map<nat, nat>, first: nat, free: seq<nat>, at: nat, k: nat)
    requires Chain(words, first, free) && NoDup(free) && at + k <= |free| && k > 0
    ensures var next := if at + k < |free| then free[at + k] else 0;
            var free' := Without(free, at, k);
            if at == 0 then Chain(words, next, free')
            else Chain(words[free[at - 1] := next], first, free')
    decreases |free|
  {
    var next, free' := if at + k < |free| then free[at + k] else 0, Without(free, at, k);
    if at == 0 {
      ChainDrop(words, first, free, k);
      assert free' == free[k..];
    } else {
      var words', tail := words[free[at - 1] := next], free[1..];
      WithoutTail(free, at, k);
      ChainSplice(words, words[first], tail, at - 1, k);
      if at == 1 {
        ChainFrame(words, words', next, free'[1..], {first});
      } else {
        assert words'[first] == words[first];
      }
    }
  }

  /** A run of nodes with its neighbours in the list; all null when there is no run. */
  datatype Interval = Interval(prev: nat, first: nat, last: nat, next: nat) {
    function Size(ns: nat): nat
      requires ns > 0 && first <= last + ns
    {
      (last + ns - first) / ns
    }
  }

  lemma RowSize(i: Interval, k: nat, ns: nat)
    requires ns > 0 && k > 0 && i.last == At(i.first, k - 1, ns)
    ensures i.first <= i.last + ns && i.Size(ns) == k
  {
    AtMul(i.first, k, ns);
    assert At(i.first, k, ns) == i.last + ns;
    DivUnique(k * ns, k, ns);
  }

  /** The run of `k` nodes at `at` is the first of its length. */
  ghost predicate FirstFit(free: seq<nat>, at: nat, k: nat, ns: nat) {
    RowAt(free, at, k, ns) && forall b :: 0 <= b < at ==> !RowAt(free, b, k, ns)
  }

  /** In plain arithmetic: each of the `k` nodes is one node size above its predecessor. */
  predicate AscendsAt(free: seq<nat>, b: nat, k: nat, ns: nat) {
    b + k <= |free| && forall j :: b < j < b + k ==> free[j] == free[j - 1] + ns
  }

  lemma RowAscends(free: seq<nat>, b: nat, k: nat, ns: nat)
    ensures RowAt(free, b, k, ns) <==> AscendsAt(free, b, k, ns)
  {
    if RowAt(free, b, k, ns) {
      forall j | b < j < b + k
        ensures free[j] == free[j - 1] + ns
      {
        RowNext(free, b, k, ns, j - 1);
      }
    }
    if AscendsAt(free, b, k, ns) {
      forall j | 0 <= j < k
        ensures free[b + j] == At(free[b], j, ns)
      {
        AscendingIsRow(free, b, k, ns, j);
      }
    }
  }

  lemma {:induction false} AscendingIsRow(free: seq<nat>, b: nat, k: nat, ns: nat, j: nat)
    requires AscendsAt(free, b, k, ns) && j < k
    ensures free[b + j] == At(free[b], j, ns)
  {
    if j > 0 {
      AscendingIsRow(free, b, k, ns, j - 1);
    }
  }

  lemma FirstFitMeans(free: seq<nat>, at: nat, k: nat, ns: nat)
    ensures FirstFit(free, at, k, ns)
            <==> AscendsAt(free, at, k, ns) && forall b :: 0 <= b < at ==> !AscendsAt(free, b, k, ns)
    ensures NoFit(free, k, ns) <==> forall b: nat :: !AscendsAt(free, b, k, ns)
  {
    forall b: nat
      ensures RowAt(free, b, k, ns) <==> AscendsAt(free, b, k, ns)
    {
      RowAscends(free, b, k, ns);
    }
  }

  ghost predicate NoFit(free: seq<nat>, k: nat, ns: nat) {
    forall b: nat :: !RowAt(free, b, k, ns)
  }

  lemma WithoutHead(free: seq<nat>, tail: seq<nat>, p: nat)
    requires free == [p] + tail
    ensures tail == Without(free, 0, 1)
  {
  }

  lemma FitsOne(free: seq<nat>, ns: nat)
    requires |free| > 0
    ensures FirstFit(free, 0, 1, ns)
  {
  }

  /** All that a served request changes, and what it needs to know. */
  lemma TakeFirstFit(words: map<nat, nat>, first: nat, free: seq<nat>, held: map<nat, nat>, owner: map<nat, Own>,
                     ns: nat, at: nat, k: nat)
    requires Chain(words, first, free) && Partition(free, held, owner, ns) && k > 0 && FirstFit(free, at, k, ns)
    ensures at + k <= |free| && free[at] != 0 && free[at + k - 1] == At(free[at], k - 1, ns)
    ensures at > 0 ==> free[at - 1] in owner && free[at - 1] != 0
    ensures var next := if at + k < |free| then free[at + k] else 0;
            if at == 0 then Chain(words, next, Without(free, at, k))
            else Chain(words[free[at - 1] := next], first, Without(free, at, k))
    ensures var p := free[at]; var owner' := Assign(owner, p, k, k, ns, Held(p), Held(p));
            && p !in held && Partition(Without(free, at, k), held[p := k], owner', ns)
            && owner'.Keys == owner.Keys && |owner'| == |owner|
  {
    var p := free[at];
    assert free[at + (k - 1)] == At(p, k - 1, ns);
    Facts(free, held, owner, ns);
    Take(free, held, owner, ns, at, k);
    AssignKeys(owner, p, k, k, ns, Held(p), Held(p));
    ChainSplice(words, first, free, at, k);
  }

  /** The interval is the run of `k` nodes at `at`, with its neighbours. */
  ghost predicate Delimits(i: Interval, free: seq<nat>, at: nat, k: nat) {
    && 0 < k && at + k <= |free|
    && i.prev == (if at == 0 then 0 else free[at - 1])
    && i.first == free[at]
    && i.last == free[at + k - 1]
    && i.next == if at + k < |free| then free[at + k] else 0
  }

  /**
   First fit: the earliest run of exactly as many list-consecutive, address-ascending
   nodes as the bytes need, with its neighbours; or nothing, when the list has no such run.
   */
  method ListSearchArray(mem: Memory, first: nat, bytesNeeded: nat, ns: nat, ghost free: seq<nat>)
    returns (i: Interval)
    requires ns > 0 && bytesNeeded > ns
    requires |free| > 0 && Chain(mem.words, first, free)
    ensures var k := CeilDiv(bytesNeeded, ns);
            if i.first == 0 then i == Interval(0, 0, 0, 0) && NoFit(free, k, ns)
            else exists at: nat :: FirstFit(free, at, k, ns) && Delimits(i, free, at, k)
  {
    ghost var k := CeilDiv(bytesNeeded, ns);
    CeilBounds(bytesNeeded, ns);
    hide Chain, RowAt, At;
    ChainHead(mem.words, first, free);
    RowOne(free, 0, ns);
    var next := mem.Load(first);
    i := Interval(0, first, first, next);
    var bytesSoFar := ns;
    ghost var at, n := 0, 1;
    while i.next != 0
      invariant n > 0 && at + n <= |free|
      invariant i.prev == if at == 0 then 0 else free[at - 1]
      invariant i.first == free[at] != 0 && i.last == free[at + n - 1]
      invariant Chain(mem.words, i.next, free[at + n..])
      invariant RowAt(free, at, n, ns)
      invariant bytesSoFar == n * ns < bytesNeeded && n < k
      invariant forall b :: 0 <= b < at ==> !RowAt(free, b, k, ns)
      decreases |free| - at - n
    {
      ChainHead(mem.words, i.next, free[at + n..]);
      assert free[at + n..][1..] == free[at + n + 1..];
      next := mem.Load(i.next);
      if i.last + ns != i.next {
        // not contiguous: restart at the next node
        NoRowAcross(free, at, at + n - 1, k, ns);
        i := Interval(i.last, i.next, i.next, next);
        bytesSoFar := ns;
        at, n := at + n, 1;
        RowOne(free, at, ns);
      } else {
        // extend the interval
        i := Interval(i.prev, i.first, i.next, next);
        bytesSoFar := bytesSoFar + ns;
        RowMore(free, at, n, ns);
        n := n + 1;
        RowGrown(n, bytesNeeded, ns);
        if bytesSoFar >= bytesNeeded {
          ChainHead(mem.words, i.next, free[at + n..]);
          assert Delimits(i, free, at, k);
          return;
        }
      }
    }
    ChainHead(mem.words, i.next, free[at + n..]);
    NoRowAcross(free, at, at + n - 1, k, ns);
    NoRowBeyond(free, at + n, k, ns);
    i := Interval(0, 0, 0, 0);
  }

  /** What bending the link in front of a found run does, and how long the run is. */
  lemma FoundRun(words: map<nat, nat>, first: nat, free: seq<nat>, held: map<nat, nat>, owner: map<nat, Own>,
                 ns: nat, i: Interval, at: nat, k: nat)
    requires Chain(words, first, free) && Partition(free, held, owner, ns) && ns > 0
    requires FirstFit(free, at, k, ns) && Delimits(i, free, at, k)
    ensures at + k <= |free| && at < |free| && i.first == free[at] != 0
    ensures i.first <= i.last + ns && i.Size(ns) == k
    ensures if i.prev == 0 then Chain(words, i.next, Without(free, at, k))
            else i.prev in owner && Chain(words[i.prev := i.next], first, Without(free, at, k))
    ensures var p := i.first; var owner' := Assign(owner, p, k, k, ns, Held(p), Held(p));
            && p !in held && Partition(Without(free, at, k), held[p := k], owner', ns)
            && owner'.Keys == owner.Keys && |owner'| == |owner|
  {
    hide Chain, Partition, FirstFit, Without, Assign, At, Interval.Size;
    TakeFirstFit(words, first, free, held, owner, ns, at, k);
    RowSize(i, k, ns);
  }

  lemma ChainHead(words: map<nat, nat>, first: nat, free: seq<nat>)
    requires Chain(words, first, free)
    ensures if first == 0 then |free| == 0
            else |free| > 0 && first == free[0] && first in words && Chain(words, words[first], free[1..])
  {
  }

  lemma RowOne(free: seq<nat>, at: nat, ns: nat)
    requires at < |free|
    ensures RowAt(free, at, 1, ns)
  {
  }

  lemma RowMore(free: seq<nat>, at: nat, n: nat, ns: nat)
    requires n > 0 && RowAt(free, at, n, ns) && at + n < |free| && free[at + n] == free[at + n - 1] + ns
    ensures RowAt(free, at, n + 1, ns)
    ensures (n + 1) * ns == n * ns + ns
  {
    assert free[at + (n - 1)] == At(free[at], n - 1, ns);
  }

  lemma NoRowBeyond(free: seq<nat>, end: nat, k: nat, ns: nat)
    requires k > 0 && end >= |free|
    ensures forall b :: b >= end ==> !RowAt(free, b, k, ns)
  {
  }

  lemma RowNext(free: seq<nat>, b: nat, k: nat, ns: nat, e: nat)
    requires RowAt(free, b, k, ns) && b <= e && e + 1 < b + k
    ensures free[e + 1] == free[e] + ns
  {
    assert free[b + (e - b)] == At(free[b], e - b, ns);
    assert free[b + (e - b + 1)] == At(free[b], e - b + 1, ns);
  }

  /** No run of `k` starts in a row that breaks off after fewer than `k` nodes. */
  lemma NoRowAcross(free: seq<nat>, at: nat, end: nat, k: nat, ns: nat)
    requires at <= end < |free| && end - at + 1 < k
    requires end + 1 < |free| ==> free[end] + ns != free[end + 1]
    ensures forall b :: at <= b <= end ==> !RowAt(free, b, k, ns)
  {
    forall b | at <= b <= end
      ensures !RowAt(free, b, k, ns)
    {
      if RowAt(free, b, k, ns) {
        RowNext(free, b, k, ns, end);
      }
    }
  }

  /** While the bytes so far are too few, so are the nodes; when they first suffice, the nodes are the ceiling. */
  lemma RowGrown(n: nat, bytes: nat, ns: nat)
    requires ns > 0 && bytes > ns && n > 0 && (n - 1) * ns < bytes
    ensures if n * ns >= bytes then n == CeilDiv(bytes, ns) else n < CeilDiv(bytes, ns)
  {
    if n * ns >= bytes {
      CeilUnique(bytes, n, ns);
    } else {
      var k := CeilDiv(bytes, ns);
      CeilBounds(bytes, ns);
      MulMono(k, n, ns);
    }
  }

  class FreeList {
    const nodeSize: nat
    const mem: Memory
    var first: nat
    var capacityLeft: nat
    var used: nat
    var maxUsed: nat
    // the nodes in the list, in order
    ghost var free: seq<nat>
    // the live allocations: address to number of nodes
    ghost var held: map<nat, nat>
    // every node ever inserted, and who has it now
    ghost var owner: map<nat, Own>
    // nodes that came back through the multi-node path
    ghost var returned: nat

    ghost predicate Valid()
      reads this, mem
    {
      && nodeSize > 0 && nodeSize % WORD == 0
      && Chain(mem.words, first, free)
      && Partition(free, held, owner, nodeSize)
      && capacityLeft == |free|
      && used + capacityLeft == |owner| + returned
      && used <= maxUsed
    }

    constructor (nodeSize: nat, mem: Memory)
      ensures Valid() && this.mem == mem
      ensures this.nodeSize == if nodeSize > 8 then RoundUpToAlign(nodeSize) else 8
      ensures free == [] && held == map[] && owner == map[] && returned == used == maxUsed == 0
    {
      this.nodeSize := if nodeSize > WORD then RoundUpToAlign(nodeSize) else WORD;
      this.mem := mem;
      first, capacityLeft, used, maxUsed := 0, 0, 0, 0;
      free, held, owner, returned := [], map[], map[], 0;
    }

    predicate Empty()
      reads this
    {
      first == 0
    }

    /** Chains the nodes of a region in address order in front of the list. */
    method InsertImpl(p: nat, size: nat)
      requires nodeSize > 0 && size >= nodeSize && p != 0
      requires Chain(mem.words, first, free)
      requires forall s :: s in RowSet(p, FloorDiv(size, nodeSize), nodeSize) ==> s !in free
      modifies this`first, this`capacityLeft, this`free, mem
      ensures free == RowOf(p, FloorDiv(size, nodeSize), nodeSize) + old(free)
      ensures Chain(mem.words, first, free)
      ensures capacityLeft == old(capacityLeft) + FloorDiv(size, nodeSize)
      ensures mem.blocks == old(mem.blocks)
      ensures SameOutside(old(mem.words), mem.words, RowSet(p, FloorDiv(size, nodeSize), nodeSize))
    {
      hide Chain, At, RowOf, RowSet, Linked, FloorDiv;
      FloorBounds(size, nodeSize);
      var noNodes := FloorDiv(size, nodeSize);
      ghost var nodes := RowSet(p, noNodes, nodeSize);
      var cur := p;
      LinkNone(mem.words, p, nodeSize);
      for i := 0 to noNodes - 1
        invariant cur == At(p, i, nodeSize)
        invariant mem.blocks == old(mem.blocks)
        invariant first == old(first) && free == old(free) && capacityLeft == old(capacityLeft)
        invariant Linked(mem.words, p, i, nodeSize)
        invariant SameOutside(old(mem.words), mem.words, nodes)
      {
        LinkNext(mem.words, p, i, noNodes, nodeSize);
        mem.Store(cur, cur + nodeSize);
        cur := cur + nodeSize;
      }
      LinkLast(mem.words, p, noNodes, nodeSize, first);
      mem.Store(cur, first);
      ChainFrame(old(mem.words), mem.words, first, free, nodes);
      RowWhole(mem.words, first, free, p, noNodes, nodeSize);
      first := p;
      free := RowOf(p, noNodes, nodeSize) + free;
      capacityLeft := capacityLeft + noNodes;
    }

    /** Takes over a region of memory that meets no node of the list. */
    method Insert(p: nat, size: nat)
      requires Valid()
      requires size >= nodeSize && p != 0 && p % WORD == 0
      requires forall s :: s in owner ==> Apart(s, nodeSize, p, size)
      modifies this, mem
      ensures Valid()
      ensures free == RowOf(p, FloorDiv(size, nodeSize), nodeSize) + old(free) && held == old(held)
      ensures owner == Nodes.Insert(old(owner), p, FloorDiv(size, nodeSize), nodeSize)
      ensures |owner| == |old(owner)| + FloorDiv(size, nodeSize)
      ensures used == old(used) && maxUsed == old(maxUsed) && returned == old(returned)
      ensures mem.blocks == old(mem.blocks)
      ensures SameOutside(old(mem.words), mem.words, owner.Keys)
    {
      hide Partition, Chain, FloorDiv;
      ghost var k := FloorDiv(size, nodeSize);
      FloorBounds(size, nodeSize);
      Facts(free, held, owner, nodeSize);
      InsertKeys(owner, p, k, nodeSize);
      Grow(free, held, owner, nodeSize, p, k);
      InsertImpl(p, size);
      owner := Nodes.Insert(owner, p, k, nodeSize);
    }

    /** The first node of the list. */
    method Allocate() returns (p: nat)
      requires Valid() && !Empty()
      modifies this
      ensures Valid()
      ensures old(free) == [p] + free
      ensures p !in old(held) && held == old(held)[p := 1]
      ensures owner == Assign(old(owner), p, 1, 1, nodeSize, Held(p), Held(p))
      ensures owner.Keys == old(owner).Keys && p != 0
      ensures used == old(used) + 1 && maxUsed == Max(old(maxUsed), used) && returned == old(returned)
    {
      hide Partition;
      Facts(free, held, owner, nodeSize);
      assert RowAt(free, 0, 1, nodeSize);
      Take(free, held, owner, nodeSize, 0, 1);
      AssignKeys(owner, free[0], 1, 1, nodeSize, Held(free[0]), Held(free[0]));
      capacityLeft := capacityLeft - 1;
      used := used + 1;
      maxUsed := Max(maxUsed, used);
      p := first;
      first := mem.Load(first);
      WithoutHead(free, free[1..], p);
      free := free[1..];
      held := held[p := 1];
      owner := Assign(owner, p, 1, 1, nodeSize, Held(p), Held(p));
    }

    /** The first run of nodes that holds `n` bytes; null, and no change, when there is none. */
    method AllocateRun(n: nat) returns (p: nat)
      requires Valid() && !Empty() && n > nodeSize
      modifies this, mem
      ensures Valid()
      ensures Served(old(free), old(held), old(owner), CeilDiv(n, nodeSize), p)
      ensures used == old(used) + (if p == 0 then 0 else CeilDiv(n, nodeSize))
      ensures maxUsed == Max(old(maxUsed), used)
      ensures returned == old(returned) && mem.blocks == old(mem.blocks)
      ensures owner.Keys == old(owner).Keys && SameOutside(old(mem.words), mem.words, owner.Keys)
    {
      hide Partition, Chain, RowAt, FirstFit, Assign, At, CeilDiv, NoFit, Interval.Size, Without, Delimits;
      ChainHead(mem.words, first, free);
      ghost var k := CeilDiv(n, nodeSize);
      CeilBounds(n, nodeSize);
      var i := ListSearchArray(mem, first, n, nodeSize, free);
      if i.first == 0 {
        return 0;
      }
      ghost var at: nat :| FirstFit(free, at, k, nodeSize) && Delimits(i, free, at, k);
      FoundRun(mem.words, first, free, held, owner, nodeSize, i, at, k);
      if i.prev != 0 {
        mem.Store(i.prev, i.next);
      } else {
        first := i.next;
      }
      capacityLeft := capacityLeft - i.Size(nodeSize);
      used := used + i.Size(nodeSize);
      maxUsed := Max(maxUsed, used);
      p := i.first;
      free := Without(free, at, k);
      held := held[p := k];
      owner := Assign(owner, p, k, k, nodeSize, Held(p), Held(p));
      assert Partition(free, held, owner, nodeSize) && Chain(mem.words, first, free);
      assert SplicedOut(old(free), at, k, p);
    }

    /** The answer alone: the first run, spliced out, or null when there is none. */
    ghost predicate Answered(free0: seq<nat>, k: nat, p: nat)
      reads this
    {
      if p == 0 then NoFit(free0, k, nodeSize) && free == free0
      else exists at: nat :: SplicedOut(free0, at, k, p)
    }

    lemma AnsweredFits(free0: seq<nat>, k: nat, p: nat)
      requires Answered(free0, k, p)
      ensures p == 0 <==> NoFit(free0, k, nodeSize)
    {
    }

    /** How a request for `k` nodes is answered: with the first run, spliced out and now held, or not at all. */
    ghost predicate Served(free0: seq<nat>, held0: map<nat, nat>, owner0: map<nat, Own>, k: nat, p: nat)
      reads this
    {
      if p == 0 then NoFit(free0, k, nodeSize) && free == free0 && held == held0 && owner == owner0
      else
        && p !in held0 && held == held0[p := k]
        && owner == Assign(owner0, p, k, k, nodeSize, Held(p), Held(p))
        && exists at: nat :: SplicedOut(free0, at, k, p)
    }

    ghost predicate SplicedOut(free0: seq<nat>, at: nat, k: nat, p: nat)
      reads this
    {
      && FirstFit(free0, at, k, nodeSize)
      && at + k <= |free0| && at < |free0| && p == free0[at]
      && free == Without(free0, at, k)
    }

    /** `n` bytes: one node, or the first run that fits. */
    method AllocateBytes(n: nat) returns (p: nat)
      requires Valid() && !Empty()
      modifies this, mem
      ensures Valid()
      ensures var k := if n <= nodeSize then 1 else CeilDiv(n, nodeSize);
              && Served(old(free), old(held), old(owner), k, p)
              && used == old(used) + if p == 0 then 0 else k
      ensures n <= nodeSize ==> p != 0
      ensures maxUsed == Max(old(maxUsed), used)
      ensures returned == old(returned) && mem.blocks == old(mem.blocks)
      ensures owner.Keys == old(owner).Keys && SameOutside(old(mem.words), mem.words, owner.Keys)
    {
      hide Partition, Chain, RowAt, FirstFit, Assign, At, CeilDiv, NoFit, Interval.Size, Without;
      if n <= nodeSize {
        ChainHead(mem.words, first, free);
        FitsOne(free, nodeSize);
        p := Allocate();
        WithoutHead(old(free), free, p);
        assert SplicedOut(old(free), 0, 1, p);
      } else {
        p := AllocateRun(n);
      }
    }

    /** One node comes back. */
    method Deallocate(p: nat)
      requires Valid() && p in held && held[p] == 1
      modifies this, mem
      ensures Valid()
      ensures free == [p] + old(free) && held == old(held) - {p}
      ensures owner == Assign(old(owner), p, 1, 1, nodeSize, Free, Lost)
      ensures used == old(used) - 1 && maxUsed == old(maxUsed) && returned == old(returned)
      ensures owner.Keys == old(owner).Keys && mem.blocks == old(mem.blocks)
      ensures SameOutside(old(mem.words), mem.words, owner.Keys)
    {
      hide Partition, Chain;
      Facts(free, held, owner, nodeSize);
      assert At(p, 0, nodeSize) == p;
      ChainCons(mem.words, first, free, p);
      FewerFree(free, held, owner, nodeSize, p);
      AssignKeys(owner, p, 1, 1, nodeSize, Free, Lost);
      Give(free, held, owner, nodeSize, p, 1);
      assert RowOf(p, 1, nodeSize) == [p];
      capacityLeft := capacityLeft + 1;
      used := used - 1;
      mem.Store(p, first);
      first := p;
      free := [p] + free;
      held := held - {p};
      owner := Assign(owner, p, 1, 1, nodeSize, Free, Lost);
    }

    /** All the whole nodes among `n` bytes come back; the multi-node path leaves `used` as it was. */
    method DeallocateRun(p: nat, n: nat)
      requires Valid() && n > nodeSize && p in held && held[p] == CeilDiv(n, nodeSize)
      modifies this, mem
      ensures Valid()
      ensures Recycled(old(free), old(held), old(owner), p, FloorDiv(n, nodeSize), CeilDiv(n, nodeSize))
      ensures used == old(used) && returned == old(returned) + FloorDiv(n, nodeSize)
      ensures maxUsed == old(maxUsed) && mem.blocks == old(mem.blocks)
      ensures owner.Keys == old(owner).Keys && SameOutside(old(mem.words), mem.words, owner.Keys)
    {
      hide Partition, Chain, Assign, At, RowOf, RowSet, FloorDiv, CeilDiv, Whole;
      ghost var k, j := held[p], FloorDiv(n, nodeSize);
      FloorCeil(n, nodeSize);
      GiveBack(free, held, owner, nodeSize, p, j);
      InsertImpl(p, n);
      owner := Assign(owner, p, j, k, nodeSize, Free, Lost);
      held := held - {p};
      returned := returned + j;
    }

    /** The first `j` of the `k` nodes at `p` are in front of the list, and the allocation is gone. */
    ghost predicate Recycled(free0: seq<nat>, held0: map<nat, nat>, owner0: map<nat, Own>, p: nat, j: nat, k: nat)
      reads this
    {
      && free == RowOf(p, j, nodeSize) + free0 && held == held0 - {p}
      && owner == Assign(owner0, p, j, k, nodeSize, Free, Lost)
    }

    /** `n` bytes come back; a node is lost exactly when `n` spans several nodes and is no multiple of one. */
    method DeallocateBytes(p: nat, n: nat)
      requires Valid() && p in held && held[p] == if n <= nodeSize then 1 else CeilDiv(n, nodeSize)
      modifies this, mem
      ensures Valid()
      ensures var k, j := old(held)[p], if n <= nodeSize then 1 else FloorDiv(n, nodeSize);
              && Recycled(old(free), old(held), old(owner), p, j, k)
              && 0 < j <= k && (j == k <==> n <= nodeSize || Whole(n, nodeSize))
              && used == (if n <= nodeSize then old(used) - 1 else old(used))
              && returned == if n <= nodeSize then old(returned) else old(returned) + j
      ensures maxUsed == old(maxUsed) && mem.blocks == old(mem.blocks)
      ensures owner.Keys == old(owner).Keys && SameOutside(old(mem.words), mem.words, owner.Keys)
    {
      hide Partition, Chain, Assign, FloorDiv, CeilDiv, Whole;
      if n <= nodeSize {
        Deallocate(p);
        assert RowOf(p, 1, nodeSize) == [p];
      } else {
        FloorCeil(n, nodeSize);
        DeallocateRun(p, n);
      }
    }
  }

  /** A request for 24 bytes takes two nodes of 16; the release of 24 bytes returns one, and the other is lost. */
  lemma OddReleaseLosesNode()
    ensures CeilDiv(24, 16) == 2 && FloorDiv(24, 16) == 1 && !Whole(24, 16)
    ensures var owner := map[64 := Held(64), 80 := Held(64)];
            var owner' := Assign(owner, 64, FloorDiv(24, 16), CeilDiv(24, 16), 16, Free, Lost);
            && Partition([], map[64 := CeilDiv(24, 16)], owner, 16)
            && Partition([64], map[], owner', 16) && owner' == map[64 := Free, 80 := Lost]
  {
    assert At(64, 0, 16) == 64 && At(64, 1, 16) == 80;
    var owner := map[64 := Held(64), 80 := Held(64)];
    assert InRow(64, 64, 1, 16) && InRow(64, 64, 2, 16) && InRow(80, 64, 2, 16) && !InRow(80, 64, 1, 16);
    assert Assign(owner, 64, 1, 2, 16, Free, Lost) == map[64 := Free, 80 := Lost];
  }

  // ---- Linking a row front to back ----

  /** The first `n` nodes of a row hold the address of their neighbour. */
  ghost predicate Linked(words: map<nat, nat>, p: nat, n: nat, ns: nat) {
    forall j :: 0 <= j < n ==> At(p, j, ns) in words && words[At(p, j, ns)] == At(p, j, ns) + ns
  }

  lemma LinkNone(words: map<nat, nat>, p: nat, ns: nat)
    ensures Linked(words, p, 0, ns) && At(p, 0, ns) == p
  {
  }

  lemma RowMember(p: nat, i: nat, k: nat, ns: nat)
    requires i < k && p != 0
    ensures At(p, i, ns) != 0 && At(p, i, ns) in RowSet(p, k, ns)
  {
    NotBefore(p, i, ns);
    assert RowOf(p, k, ns)[i] == At(p, i, ns);
  }

  lemma LinkKept(words: map<nat, nat>, p: nat, i: nat, ns: nat, v: nat)
    requires Linked(words, p, i, ns) && ns > 0
    ensures Linked(words[At(p, i, ns) := v], p, i, ns)
  {
    forall j | 0 <= j < i
      ensures At(p, j, ns) != At(p, i, ns)
    {
      AtOrder(p, j, i, ns);
    }
  }

  lemma LinkNext(words: map<nat, nat>, p: nat, i: nat, k: nat, ns: nat)
    requires Linked(words, p, i, ns) && i < k && p != 0 && ns > 0
    ensures At(p, i, ns) != 0 && At(p, i, ns) in RowSet(p, k, ns) && At(p, i + 1, ns) == At(p, i, ns) + ns
    ensures Linked(words[At(p, i, ns) := At(p, i, ns) + ns], p, i + 1, ns)
  {
    RowMember(p, i, k, ns);
    LinkKept(words, p, i, ns, At(p, i, ns) + ns);
  }

  lemma LinkLast(words: map<nat, nat>, p: nat, k: nat, ns: nat, first: nat)
    requires k > 0 && Linked(words, p, k - 1, ns) && p != 0 && ns > 0
    ensures At(p, k - 1, ns) != 0 && At(p, k - 1, ns) in RowSet(p, k, ns)
    ensures Linked(words[At(p, k - 1, ns) := first], p, k - 1, ns)
  {
    RowMember(p, k - 1, k, ns);
    LinkKept(words, p, k - 1, ns, first);
  }

  lemma RowWhole(words: map<nat, nat>, first: nat, free: seq<nat>, p: nat, k: nat, ns: nat)
    requires Chain(words, first, free) && k > 0 && p != 0
    requires Linked(words, p, k - 1, ns) && At(p, k - 1, ns) in words && words[At(p, k - 1, ns)] == first
    ensures Chain(words, p, RowOf(p, k, ns) + free)
  {
    ChainRow(words, first, free, p, k, ns, 0);
    assert RowOf(p, k, ns)[0..] == RowOf(p, k, ns);
  }
}
