/**
 Blocks of memory: the stack that threads them through their own first bytes
 (src/allocator/memory_block_stack.cpp), the allocator of ever larger blocks
 (src/allocator/growing_block_allocator.hpp) and the arena that joins the two
 (src/allocator/memory_arena.hpp).
 */
module Arenas {
  import opened Memory
  import opened Growth

  /** `implementation_offset`: the header at the start of a block, two words in units of the largest alignment. */
  const HEADER: nat := 16

  /** The words spell the stack: each header holds the next header's address and its own block's usable size. */
  ghost predicate Stacked(words: map<nat, nat>, head: nat, stack: seq<Block>)
    decreases |stack|
  {
    if |stack| == 0 then head == 0
    else
      var b := stack[0];
      && head == b.addr != 0 && b.size >= HEADER
      && b.addr in words && b.addr + WORD in words && words[b.addr + WORD] == b.size - HEADER
      && Stacked(words, words[b.addr], stack[1..])
  }

  ghost predicate IsHeader(stack: seq<Block>, a: nat) {
    exists i :: 0 <= i < |stack| && (a == stack[i].addr || a == stack[i].addr + WORD)
  }

  /** The stack depends on nothing but its headers. */
  lemma {:induction false} StackFrame(words: map<nat, nat>, words': map<nat, nat>, head: nat, stack: seq<Block>)
    requires Stacked(words, head, stack)
    requires forall a :: IsHeader(stack, a) ==> (a in words <==> a in words') && (a in words ==> words'[a] == words[a])
    ensures Stacked(words', head, stack)
    decreases |stack|
  {
    if |stack| > 0 {
      var rest := stack[1..];
      assert IsHeader(stack, stack[0].addr) && IsHeader(stack, stack[0].addr + WORD);
      forall a | IsHeader(rest, a)
        ensures IsHeader(stack, a)
      {
        var i :| 0 <= i < |rest| && (a == rest[i].addr || a == rest[i].addr + WORD);
        assert stack[i + 1] == rest[i];
      }
      StackFrame(words, words', words[head], rest);
    }
  }

  lemma StackUntouched(words: map<nat, nat>, words': map<nat, nat>, head: nat, stack: seq<Block>, written: set<nat>)
    requires Stacked(words, head, stack) && SameOutside(words, words', written)
    requires forall a :: IsHeader(stack, a) ==> a !in written
    ensures Stacked(words', head, stack)
  {
    StackFrame(words, words', head, stack);
  }

  /** The blocks of a stack are live and do not overlap. */
  ghost predicate Owned(blocks: map<nat, nat>, stack: seq<Block>) {
    && (forall i :: 0 <= i < |stack| ==> stack[i].addr in blocks && blocks[stack[i].addr] == stack[i].size)
    && (forall i, j :: 0 <= i < j < |stack| ==> stack[i].addr != stack[j].addr)
  }

  /** Writing the two header words of a further block puts it on the stack. */
  lemma StackPush(words: map<nat, nat>, blocks: map<nat, nat>, head: nat, stack: seq<Block>, block: Block)
    requires Stacked(words, head, stack) && AllApart(blocks) && Owned(blocks, stack)
    requires block.addr != 0 && block.size >= HEADER
    requires block.addr in blocks && blocks[block.addr] == block.size
    requires forall b :: b in stack ==> b.addr != block.addr
    ensures Stacked(words[block.addr := head][block.addr + WORD := block.size - HEADER], block.addr, [block] + stack)
    ensures Owned(blocks, [block] + stack)
  {
    var words' := words[block.addr := head][block.addr + WORD := block.size - HEADER];
    StackSizes(words, head, stack);
    HeadersApart(blocks, stack, block);
    assert Stacked(words', head, stack) by { StackFrame(words, words', head, stack); }
    var more := [block] + stack;
    assert more[1..] == stack;
    forall i, j | 0 <= i < j < |more|
      ensures more[i].addr != more[j].addr
    {
      assert more[j] == stack[j - 1] && more[j] in stack;
    }
  }

  class BlockStack {
    const mem: Memory
    var head: nat
    // the pushed blocks, the latest first
    ghost var stack: seq<Block>

    ghost predicate Valid()
      reads this, mem
    {
      && Stacked(mem.words, head, stack)
      && AllApart(mem.blocks) && Owned(mem.blocks, stack)
    }

    constructor (mem: Memory)
      requires AllApart(mem.blocks)
      ensures Valid() && stack == [] && this.mem == mem
    {
      this.mem := mem;
      head, stack := 0, [];
    }

    predicate Empty()
      reads this
    {
      head == 0
    }

    method Push(block: Block)
      requires Valid()
      requires block.addr != 0 && block.addr % 16 == 0 && block.size >= HEADER
      requires block.addr in mem.blocks && mem.blocks[block.addr] == block.size
      requires forall b :: b in stack ==> b.addr != block.addr
      modifies this, mem
      ensures Valid() && stack == [block] + old(stack) && !Empty()
      ensures mem.blocks == old(mem.blocks)
      ensures SameOutside(old(mem.words), mem.words, {block.addr, block.addr + 8})
    {
      hide Stacked, AllApart, Owned;
      StackPush(mem.words, mem.blocks, head, stack, block);
      mem.Store(block.addr, head);
      mem.Store(block.addr + WORD, block.size - HEADER);
      head := block.addr;
      stack := [block] + stack;
    }

    /** The latest block, with its original address and size. */
    method Pop() returns (block: Block)
      requires Valid() && !Empty()
      modifies this
      ensures Valid() && old(stack) == [block] + stack
    {
      var prev := mem.Load(head);
      var usable := mem.Load(head + WORD);
      block := Block(head, usable + HEADER);
      head := prev;
      assert stack == [block] + stack[1..];
      stack := stack[1..];
    }

    /** The latest block without its header. */
    method Top() returns (block: Block)
      requires Valid() && !Empty()
      ensures |stack| > 0 && stack[0].size >= 16 && block == Block(stack[0].addr + 16, stack[0].size - 16)
    {
      var usable := mem.Load(head + WORD);
      block := Block(head + HEADER, usable);
    }

    method Size() returns (n: nat)
      requires Valid()
      ensures n == |stack|
    {
      n := 0;
      var cur := head;
      while cur != 0
        invariant n <= |stack| && Stacked(mem.words, cur, stack[n..])
        decreases |stack| - n
      {
        assert stack[n..][1..] == stack[n + 1..];
        n := n + 1;
        cur := mem.Load(cur);
      }
    }
  }

  /** The header of a further block meets no header of the stack. */
  lemma HeadersApart(blocks: map<nat, nat>, stack: seq<Block>, block: Block)
    requires AllApart(blocks) && Owned(blocks, stack)
    requires block.size >= HEADER && block.addr in blocks && blocks[block.addr] == block.size
    requires forall b :: b in stack ==> b.addr != block.addr && b.size >= HEADER
    ensures !IsHeader(stack, block.addr) && !IsHeader(stack, block.addr + WORD)
  {
    forall i | 0 <= i < |stack|
      ensures block.addr !in {stack[i].addr, stack[i].addr + WORD}
      ensures block.addr + WORD !in {stack[i].addr, stack[i].addr + WORD}
    {
      assert stack[i] in stack;
      assert Apart(stack[i].addr, stack[i].size, block.addr, block.size);
    }
  }

  /** Every stacked block has room for its header. */
  lemma {:induction false} StackSizes(words: map<nat, nat>, head: nat, stack: seq<Block>)
    requires Stacked(words, head, stack)
    ensures forall i :: 0 <= i < |stack| ==> stack[i].size >= HEADER && stack[i].addr != 0
    decreases |stack|
  {
    if |stack| > 0 {
      StackSizes(words, words[head], stack[1..]);
      assert forall i :: 1 <= i < |stack| ==> stack[i] == stack[1..][i - 1];
    }
  }

  lemma AlignedBehindHeader(a: nat)
    requires a % 16 == 0
    ensures (a + HEADER) % WORD == 0
  {
  }

  class GrowingAllocator {
    const mem: Memory
    var blockSize: nat

    constructor (blockSize: nat, mem: Memory)
      ensures this.blockSize == blockSize && this.mem == mem
    {
      this.blockSize := blockSize;
      this.mem := mem;
    }

    method AllocateBlock() returns (block: Block)
      requires AllApart(mem.blocks)
      modifies this, mem
      ensures block.addr != 0 && block.addr % 16 == 0 && block.addr !in old(mem.blocks)
      ensures block.size == old(blockSize) && blockSize == NextSize(block.size)
      ensures block.size <= 16777216 ==> blockSize == 2 * block.size
      ensures mem.blocks == old(mem.blocks)[block.addr := block.size] && AllApart(mem.blocks)
      ensures mem.words == old(mem.words)
    {
      var memory := mem.Malloc(blockSize);
      block := Block(memory, blockSize);
      if block.size <= 16777216 {
        ShortSizesDouble(block.size, 0);
      }
      blockSize := NextSize(blockSize);
    }

    method DeallocateBlock(block: Block)
      requires AllApart(mem.blocks) && block.addr in mem.blocks
      modifies mem
      ensures mem.blocks == old(mem.blocks) - {block.addr} && AllApart(mem.blocks)
      ensures mem.words == old(mem.words)
    {
      mem.Free(block.addr);
    }
  }

  class Arena {
    const mem: Memory
    const allocator: GrowingAllocator
    const used: BlockStack

    ghost predicate Valid()
      reads this, mem, allocator, used
    {
      && allocator.mem == mem && used.mem == mem
      && used.Valid() && allocator.blockSize >= HEADER
    }

    constructor (blockSize: nat, mem: Memory)
      requires AllApart(mem.blocks) && blockSize >= HEADER
      ensures Valid() && this.mem == mem && fresh(allocator) && fresh(used)
      ensures used.stack == [] && allocator.blockSize == blockSize
    {
      this.mem := mem;
      allocator := new GrowingAllocator(blockSize, mem);
      used := new BlockStack(mem);
    }

    /** A new block from the system, pushed; what comes back is the block without its header. */
    method AllocateBlock() returns (block: Block)
      requires Valid()
      modifies mem, allocator, used
      ensures Valid()
      ensures |used.stack| > 0 && used.stack[1..] == old(used.stack)
      ensures var raw := used.stack[0];
              && raw.size == old(allocator.blockSize) && raw.addr % 16 == 0
              && raw.addr !in old(mem.blocks) && block.addr % WORD == 0
              && raw.size >= 16 && block == Block(raw.addr + 16, raw.size - 16)
              && mem.blocks == old(mem.blocks)[raw.addr := raw.size]
              && SameOutside(old(mem.words), mem.words, {raw.addr, raw.addr + 8})
      ensures allocator.blockSize == NextSize(old(allocator.blockSize))
    {
      var raw := allocator.AllocateBlock();
      NextSizeFacts(raw.size);
      assert used.Valid();
      used.Push(raw);
      assert used.stack[1..] == old(used.stack);
      block := used.Top();
      AlignedBehindHeader(raw.addr);
    }

    /** Returns the latest block to the system. */
    method DeallocateBlock() returns (ghost freed: Block)
      requires Valid() && !used.Empty()
      modifies mem, used
      ensures Valid() && old(used.stack) == [freed] + used.stack
      ensures freed.addr in old(mem.blocks) && old(mem.blocks)[freed.addr] == freed.size
      ensures mem.blocks == old(mem.blocks) - {freed.addr} && mem.words == old(mem.words)
    {
      var block := used.Pop();
      freed := block;
      assert old(used.stack)[0] == block;
      assert forall i :: 0 <= i < |used.stack| ==> used.stack[i] == old(used.stack)[i + 1];
      allocator.DeallocateBlock(block);
    }

    /** The destructor: every outstanding block goes back exactly once, the latest first. */
    method Destroy() returns (ghost freed: seq<Block>)
      requires Valid()
      modifies mem, used
      ensures Valid() && used.stack == [] && freed == old(used.stack)
      ensures mem.blocks == old(mem.blocks) - set b | b in freed :: b.addr
    {
      freed := [];
      while !used.Empty()
        invariant Valid() && freed + used.stack == old(used.stack)
        invariant mem.blocks == old(mem.blocks) - set b | b in freed :: b.addr
        decreases |used.stack|
      {
        ghost var was, rest := freed, used.stack;
        ghost var block := DeallocateBlock();
        freed := freed + [block];
        assert (set b | b in freed :: b.addr) == (set b | b in was :: b.addr) + {block.addr};
        assert freed + used.stack == was + rest;
      }
    }
  }
}
