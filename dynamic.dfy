/**
 * `DynamicMemoryAllocation`: a list of blocks `(start, size, owner)` that tiles the memory;
 * allocation splits a chosen free block, deallocation frees and then coalesces.
 */
module DynamicAllocation {
  import opened Common
  import opened Fit

  /** A contiguous range `[start, start + size)`, free or owned by a process. */
  datatype Block = Block(start: nat, size: nat, owner: Option<Pid>)

  function End(b: Block): nat {
    b.start + b.size
  }

  function Last(bs: seq<Block>): Block
    requires |bs| > 0
  {
    bs[|bs| - 1]
  }

  /** Each block begins where the previous one ends. */
  predicate Contiguous(bs: seq<Block>) {
    forall i :: 0 <= i < |bs| - 1 ==> bs[i + 1].start == End(bs[i])
  }

  /** The blocks cover `[0, total)` end to end, in order, with no gap and no overlap. */
  predicate Tiles(bs: seq<Block>, total: nat) {
    |bs| > 0 && bs[0].start == 0 && Contiguous(bs) && End(Last(bs)) == total
  }

  /** No block is empty. */
  predicate Positive(bs: seq<Block>) {
    forall i :: 0 <= i < |bs| ==> bs[i].size > 0
  }

  /** No free block is directly followed by another free block. */
  predicate NoAdjacentFree(bs: seq<Block>) {
    forall i :: 0 <= i < |bs| - 1 ==> bs[i].owner.Some? || bs[i + 1].owner.Some?
  }

  /** The sum of all block sizes. */
  function TotalSize(bs: seq<Block>): nat {
    if bs == [] then 0 else TotalSize(bs[..|bs| - 1]) + Last(bs).size
  }

  /** The sum of the sizes of the free blocks. */
  function FreeSpace(bs: seq<Block>): nat {
    if bs == [] then 0
    else FreeSpace(bs[..|bs| - 1]) + if Last(bs).owner.None? then Last(bs).size else 0
  }

  /** The sum of the sizes of the blocks owned by `pid`. */
  function OwnedSpace(bs: seq<Block>, pid: Pid): nat {
    if bs == [] then 0
    else OwnedSpace(bs[..|bs| - 1], pid) + if Last(bs).owner == Some(pid) then Last(bs).size else 0
  }

  /** The owned blocks, in order. */
  function OwnedBlocks(bs: seq<Block>): seq<Block> {
    if bs == [] then []
    else OwnedBlocks(bs[..|bs| - 1]) + if Last(bs).owner.Some? then [Last(bs)] else []
  }

  /** What `_find_block` scans: each block's size, and whether it is free. */
  function BlockRegions(bs: seq<Block>): (rs: seq<Region>)
    ensures |rs| == |bs|
    ensures forall i :: 0 <= i < |bs| ==> rs[i].size == bs[i].size && (rs[i].free <==> bs[i].owner.None?)
  {
    seq(|bs|, i requires 0 <= i < |bs| => Region(bs[i].size, bs[i].owner.None?))
  }

  // ----- tiling -----

  lemma {:induction false} ContiguousSum(bs: seq<Block>)
    requires |bs| > 0 && Contiguous(bs)
    ensures bs[0].start + TotalSize(bs) == End(Last(bs))
  {
    if |bs| > 1 {
      ContiguousSum(bs[..|bs| - 1]);
    }
  }

  /** The sizes of a tiling add up to the memory size. */
  lemma {:induction false} TilesSumToTotal(bs: seq<Block>, total: nat)
    requires Tiles(bs, total)
    ensures TotalSize(bs) == total
  {
    ContiguousSum(bs);
  }

  lemma {:induction false} ContiguousOrdered(bs: seq<Block>, i: nat, j: nat)
    requires Contiguous(bs) && i < j < |bs|
    ensures End(bs[i]) <= bs[j].start
    decreases j - i
  {
    if i + 1 < j {
      ContiguousOrdered(bs, i + 1, j);
    }
  }

  /**
   * A tiling of non-empty blocks is strictly sorted by start, so sorting the list by
   * `(start, size, owner)` leaves it as it is.
   */
  lemma {:induction false} TilesSortedByStart(bs: seq<Block>, total: nat)
    requires Tiles(bs, total) && Positive(bs)
    ensures forall i, j :: 0 <= i < j < |bs| ==> bs[i].start < bs[j].start
  {
    forall i, j | 0 <= i < j < |bs| ensures bs[i].start < bs[j].start {
      ContiguousOrdered(bs, i, j);
    }
  }

  // ----- allocation -----

  /**
   * The free block at `i` split into the allocated block `(start, size, pid)` and, when
   * something is left, the free block `(start + size, rest)` after it.
   */
  function Split(bs: seq<Block>, i: nat, size: nat, pid: Pid): seq<Block>
    requires i < |bs| && size <= bs[i].size
  {
    var b := bs[i];
    bs[..i] + [Block(b.start, size, Some(pid))]
    + (if b.size > size then [Block(b.start + size, b.size - size, None)] else [])
    + bs[i + 1..]
  }

  lemma {:induction false} FreeSpaceAppend(a: seq<Block>, b: seq<Block>)
    ensures FreeSpace(a + b) == FreeSpace(a) + FreeSpace(b)
    decreases |b|
  {
    if b == [] {
      assert a + b == a;
    } else {
      var b' := b[..|b| - 1];
      assert (a + b)[..|a + b| - 1] == a + b';
      assert Last(a + b) == Last(b);
      FreeSpaceAppend(a, b');
    }
  }

  /** Where each block of a split list comes from. */
  lemma {:induction false} SplitShape(bs: seq<Block>, i: nat, size: nat, pid: Pid)
    requires i < |bs| && size <= bs[i].size
    ensures var r := Split(bs, i, size, pid);
            var d := if bs[i].size > size then 1 else 0;
            && |r| == |bs| + d
            && (forall k :: 0 <= k < i ==> r[k] == bs[k])
            && r[i] == Block(bs[i].start, size, Some(pid))
            && (d == 1 ==> r[i + 1] == Block(bs[i].start + size, bs[i].size - size, None))
            && (forall k :: i < k < |bs| ==> r[k + d] == bs[k])
  {
  }

  /** Splitting the chosen free block keeps the tiling and the non-empty blocks. */
  lemma {:induction false} SplitKeepsTiling(bs: seq<Block>, total: nat, i: nat, size: nat, pid: Pid)
    requires Tiles(bs, total) && Positive(bs)
    requires i < |bs| && 0 < size <= bs[i].size
    ensures Tiles(Split(bs, i, size, pid), total) && Positive(Split(bs, i, size, pid))
  {
    SplitShape(bs, i, size, pid);
    var r := Split(bs, i, size, pid);
    var d := if bs[i].size > size then 1 else 0;
    forall k | 0 <= k < |r| - 1 ensures r[k + 1].start == End(r[k]) {
      if k + 1 < i {
      } else if k + 1 == i {
      } else if k == i {
      } else if d == 1 && k == i + 1 {
        assert r[k + 1] == bs[i + 1];
      } else {
        assert r[k] == bs[k - d] && r[k + 1] == bs[k + 1 - d];
      }
    }
    if i < |bs| - 1 {
      assert Last(r) == Last(bs);
    }
  }

  /** Splitting a free block of a list without adjacent free blocks creates no such pair. */
  lemma {:induction false} SplitKeepsNoAdjacentFree(bs: seq<Block>, i: nat, size: nat, pid: Pid)
    requires i < |bs| && bs[i].owner.None? && size <= bs[i].size && NoAdjacentFree(bs)
    ensures NoAdjacentFree(Split(bs, i, size, pid))
  {
    SplitShape(bs, i, size, pid);
    var r := Split(bs, i, size, pid);
    var d := if bs[i].size > size then 1 else 0;
    forall k | 0 <= k < |r| - 1 ensures r[k].owner.Some? || r[k + 1].owner.Some? {
      if k + 1 < i {
        assert r[k] == bs[k] && r[k + 1] == bs[k + 1];
      } else if k + 1 == i || k == i {
      } else if d == 1 && k == i + 1 {
        assert r[k + 1] == bs[i + 1];
      } else {
        assert r[k] == bs[k - d] && r[k + 1] == bs[k + 1 - d];
      }
    }
  }

  /** Splitting the chosen free block takes exactly `size` units out of free space. */
  lemma {:induction false} SplitTakesFreeSpace(bs: seq<Block>, i: nat, size: nat, pid: Pid)
    requires i < |bs| && bs[i].owner.None? && size <= bs[i].size
    ensures FreeSpace(Split(bs, i, size, pid)) + size == FreeSpace(bs)
  {
    var b := bs[i];
    var rest := if b.size > size then [Block(b.start + size, b.size - size, None)] else [];
    var mid := [Block(b.start, size, Some(pid))] + rest;
    assert Split(bs, i, size, pid) == bs[..i] + mid + bs[i + 1..];
    assert bs == bs[..i] + [b] + bs[i + 1..];
    FreeSpaceAppend(bs[..i] + mid, bs[i + 1..]);
    FreeSpaceAppend(bs[..i], mid);
    FreeSpaceAppend(bs[..i] + [b], bs[i + 1..]);
    FreeSpaceAppend(bs[..i], [b]);
    FreeSpaceAppend([Block(b.start, size, Some(pid))], rest);
    assert FreeSpace([b]) == b.size;
    assert FreeSpace([Block(b.start, size, Some(pid))]) == 0;
    assert FreeSpace(rest) == b.size - size by {
      if b.size > size {
        assert FreeSpace(rest) == FreeSpace([]) + (b.size - size);
      }
    }
  }

  // ----- deallocation -----

  /** The blocks with every block of `pid` made free (the list comprehension of `deallocate`). */
  function Release(bs: seq<Block>, pid: Pid): (r: seq<Block>)
    ensures |r| == |bs|
  {
    seq(|bs|, i requires 0 <= i < |bs| => if bs[i].owner == Some(pid) then bs[i].(owner := None) else bs[i])
  }

  /** Releasing keeps every start and size, frees exactly the blocks of `pid`, and grows free space by what `pid` held. */
  lemma {:induction false} ReleaseFacts(bs: seq<Block>, pid: Pid)
    ensures forall i :: 0 <= i < |bs| ==>
              Release(bs, pid)[i].start == bs[i].start && Release(bs, pid)[i].size == bs[i].size
    ensures forall i :: 0 <= i < |bs| ==> Release(bs, pid)[i].owner != Some(pid)
    ensures forall i :: 0 <= i < |bs| && bs[i].owner != Some(pid) ==> Release(bs, pid)[i] == bs[i]
    ensures FreeSpace(Release(bs, pid)) == FreeSpace(bs) + OwnedSpace(bs, pid)
  {
    if bs != [] {
      var init := bs[..|bs| - 1];
      ReleaseFacts(init, pid);
      assert Release(bs, pid)[..|bs| - 1] == Release(init, pid);
    }
  }

  /** One step of `merge_free_blocks`: fuse `b` into a free last block, or append it. */
  function MergeStep(acc: seq<Block>, b: Block): seq<Block> {
    if acc != [] && Last(acc).owner.None? && b.owner.None?
    then acc[..|acc| - 1] + [Block(Last(acc).start, Last(acc).size + b.size, None)]
    else acc + [b]
  }

  /** `merge_free_blocks` over a list already sorted by start. */
  function MergeFree(bs: seq<Block>): seq<Block> {
    if bs == [] then [] else MergeStep(MergeFree(bs[..|bs| - 1]), Last(bs))
  }

  /** Dropping the last block of a contiguous list leaves a contiguous list it continues. */
  lemma ContiguousInit(bs: seq<Block>)
    requires |bs| > 1 && Contiguous(bs)
    ensures var init := bs[..|bs| - 1];
            && Contiguous(init) && Last(bs).start == End(Last(init))
            && (Positive(bs) ==> Positive(init) && Last(bs).size > 0)
  {
    var init := bs[..|bs| - 1];
    assert forall i :: 0 <= i < |init| ==> init[i] == bs[i];
    assert Last(bs).start == End(bs[|bs| - 2]);
  }

  /** One coalescing step on a contiguous list that `b` continues keeps it contiguous. */
  lemma MergeStepKeepsTiling(acc: seq<Block>, b: Block)
    requires |acc| > 0 && Contiguous(acc) && b.start == End(Last(acc))
    ensures var m := MergeStep(acc, b);
            && 0 < |m| <= |acc| + 1 && m[0].start == acc[0].start && Contiguous(m) && End(Last(m)) == End(b)
            && (Positive(acc) && b.size > 0 ==> Positive(m))
  {
    if Last(acc).owner.None? && b.owner.None? {
      var front := acc[..|acc| - 1];
      var fused := Block(Last(acc).start, Last(acc).size + b.size, None);
      var m := front + [fused];
      assert forall i :: 0 <= i < |front| ==> m[i] == acc[i];
      if |front| > 0 {
        assert fused.start == End(acc[|acc| - 2]);
      }
    } else {
      var m := acc + [b];
      assert forall i :: 0 <= i < |acc| ==> m[i] == acc[i];
    }
  }

  /** Coalescing a contiguous list keeps its first start, its end, contiguity and non-empty blocks. */
  lemma {:induction false} MergeFreeKeepsTiling(bs: seq<Block>)
    requires |bs| > 0 && Contiguous(bs)
    ensures var m := MergeFree(bs);
            && 0 < |m| <= |bs| && m[0].start == bs[0].start && Contiguous(m) && End(Last(m)) == End(Last(bs))
            && (Positive(bs) ==> Positive(m))
  {
    var init := bs[..|bs| - 1];
    if init == [] {
      assert MergeFree(bs) == [Last(bs)];
    } else {
      ContiguousInit(bs);
      MergeFreeKeepsTiling(init);
      assert init[0] == bs[0];
      MergeStepKeepsTiling(MergeFree(init), Last(bs));
    }
  }

  /** After coalescing, no free block is followed by another free block. */
  lemma {:induction false} MergeFreeLeavesNoAdjacentFree(bs: seq<Block>)
    ensures NoAdjacentFree(MergeFree(bs))
  {
    if bs != [] {
      var init := bs[..|bs| - 1];
      MergeFreeLeavesNoAdjacentFree(init);
      var acc := MergeFree(init);
      if acc != [] && Last(acc).owner.None? && Last(bs).owner.None? {
        var front := acc[..|acc| - 1];
        var m := front + [Block(Last(acc).start, Last(acc).size + Last(bs).size, None)];
        if |front| > 0 {
          assert m[|m| - 2] == acc[|acc| - 2];
        }
      }
    }
  }

  /** Coalescing keeps the total free space. */
  lemma {:induction false} MergeFreeKeepsFreeSpace(bs: seq<Block>)
    ensures FreeSpace(MergeFree(bs)) == FreeSpace(bs)
  {
    if bs != [] {
      var init := bs[..|bs| - 1];
      MergeFreeKeepsFreeSpace(init);
      var acc := MergeFree(init);
      var b := Last(bs);
      if acc != [] && Last(acc).owner.None? && b.owner.None? {
        var front := acc[..|acc| - 1];
        var fused := Block(Last(acc).start, Last(acc).size + b.size, None);
        var m := front + [fused];
        assert m[..|m| - 1] == front && acc[..|acc| - 1] == front;
        assert FreeSpace(m) == FreeSpace(front) + fused.size;
        assert FreeSpace(acc) == FreeSpace(front) + Last(acc).size;
        assert MergeFree(bs) == m;
      } else {
        var m := acc + [b];
        assert m[..|m| - 1] == acc;
      }
    }
  }

  /** Coalescing keeps the owned blocks, in order. */
  lemma {:induction false} MergeFreeKeepsOwned(bs: seq<Block>)
    ensures OwnedBlocks(MergeFree(bs)) == OwnedBlocks(bs)
  {
    if bs != [] {
      var init := bs[..|bs| - 1];
      MergeFreeKeepsOwned(init);
      var acc := MergeFree(init);
      var b := Last(bs);
      if acc != [] && Last(acc).owner.None? && b.owner.None? {
        var front := acc[..|acc| - 1];
        var m := front + [Block(Last(acc).start, Last(acc).size + b.size, None)];
        assert m[..|m| - 1] == front;
        assert OwnedBlocks(m) == OwnedBlocks(front) == OwnedBlocks(acc);
      } else {
        var m := acc + [b];
        assert m[..|m| - 1] == acc;
      }
    }
  }

  /** A list with no two adjacent free blocks is left as it is, so coalescing is idempotent. */
  lemma {:induction false} MergeFreeIdentity(bs: seq<Block>)
    requires NoAdjacentFree(bs)
    ensures MergeFree(bs) == bs
  {
    if bs != [] {
      var init := bs[..|bs| - 1];
      assert NoAdjacentFree(init) by {
        forall i | 0 <= i < |init| - 1 ensures init[i].owner.Some? || init[i + 1].owner.Some? {
          assert init[i] == bs[i] && init[i + 1] == bs[i + 1];
        }
      }
      MergeFreeIdentity(init);
      if init != [] {
        assert Last(init) == bs[|bs| - 2];
      }
    }
  }

  lemma MergeFreeIdempotent(bs: seq<Block>)
    ensures MergeFree(MergeFree(bs)) == MergeFree(bs)
  {
    MergeFreeLeavesNoAdjacentFree(bs);
    MergeFreeIdentity(MergeFree(bs));
  }

  /** The two free blocks a split block leaves once its allocated part is freed again. */
  function FreedParts(b: Block, size: nat): seq<Block>
    requires size <= b.size
  {
    [Block(b.start, size, None)]
    + if b.size > size then [Block(b.start + size, b.size - size, None)] else []
  }

  /** Appending a block that cannot fuse with the last one appends it to the coalesced list. */
  lemma {:induction false} MergeFreeAppend(l: seq<Block>, m: seq<Block>, c: Block)
    requires MergeFree(l) == m && m != [] && (Last(m).owner.Some? || c.owner.Some?)
    ensures MergeFree(l + [c]) == m + [c]
  {
    assert (l + [c])[..|l|] == l;
  }

  /** The parts of a freed split block, after a list without adjacent free blocks, fuse back. */
  lemma {:induction false} MergeRejoinsBlock(pre: seq<Block>, b: Block, size: nat)
    requires b.owner.None? && size <= b.size
    requires NoAdjacentFree(pre + [b])
    ensures MergeFree(pre + FreedParts(b, size)) == pre + [b]
  {
    var bs := pre + [b];
    var x := Block(b.start, size, None);
    assert NoAdjacentFree(pre) by {
      forall k | 0 <= k < |pre| - 1 ensures pre[k].owner.Some? || pre[k + 1].owner.Some? {
        assert pre[k] == bs[k] && pre[k + 1] == bs[k + 1];
      }
    }
    MergeFreeIdentity(pre);
    if pre != [] {
      assert Last(pre) == bs[|pre| - 1] && bs[|pre|] == b;
    }
    assert (pre + [x])[..|pre|] == pre;
    assert MergeFree(pre + [x]) == pre + [x];
    if b.size > size {
      var l := pre + FreedParts(b, size);
      assert l[..|l| - 1] == pre + [x];
    }
  }

  /**
   * Coalescing rejoins a split block whose allocated part has been freed again: the freed
   * part and the free rest fuse back into the block they came from.
   */
  lemma {:induction false} MergeRejoinsSplit(pre: seq<Block>, b: Block, post: seq<Block>, size: nat)
    requires b.owner.None? && size <= b.size
    requires NoAdjacentFree(pre + [b] + post)
    ensures MergeFree(pre + FreedParts(b, size) + post) == pre + [b] + post
    decreases |post|
  {
    var bs := pre + [b] + post;
    if post == [] {
      assert bs == pre + [b] && pre + FreedParts(b, size) + post == pre + FreedParts(b, size);
      MergeRejoinsBlock(pre, b, size);
    } else {
      var post' := post[..|post| - 1];
      var bs' := pre + [b] + post';
      assert NoAdjacentFree(bs') by {
        forall k | 0 <= k < |bs'| - 1 ensures bs'[k].owner.Some? || bs'[k + 1].owner.Some? {
          assert bs'[k] == bs[k] && bs'[k + 1] == bs[k + 1];
        }
      }
      MergeRejoinsSplit(pre, b, post', size);
      assert Last(bs') == bs[|bs| - 2] && Last(post) == bs[|bs| - 1];
      MergeFreeAppend(pre + FreedParts(b, size) + post', bs', Last(post));
      assert pre + FreedParts(b, size) + post' + [Last(post)] == pre + FreedParts(b, size) + post;
      assert bs' + [Last(post)] == bs;
    }
  }

  /**
   * Deallocation undoes allocation: freeing a process that owned no block before it was
   * given part of the free block at `i` restores the block list, when that list had no two
   * adjacent free blocks.
   */
  lemma {:induction false} DeallocateUndoesAllocate(bs: seq<Block>, i: nat, size: nat, pid: Pid)
    requires i < |bs| && bs[i].owner.None? && size <= bs[i].size
    requires NoAdjacentFree(bs)
    requires forall k :: 0 <= k < |bs| ==> bs[k].owner != Some(pid)
    ensures MergeFree(Release(Split(bs, i, size, pid), pid)) == bs
  {
    var b := bs[i];
    var rest := if b.size > size then 1 else 0;
    var freed := bs[..i] + FreedParts(b, size) + bs[i + 1..];
    var r := Split(bs, i, size, pid);
    SplitShape(bs, i, size, pid);
    assert Release(r, pid) == freed by {
      forall k | 0 <= k < |r| ensures Release(r, pid)[k] == freed[k] {
        if k < i {
          assert r[k] == bs[k] == freed[k];
        } else if k > i + rest {
          assert r[k] == bs[k - rest] == freed[k];
        }
      }
    }
    assert bs == bs[..i] + [b] + bs[i + 1..];
    MergeRejoinsSplit(bs[..i], b, bs[i + 1..], size);
  }

  class DynamicMemoryAllocation {
    const memorySize: nat
    /** The blocks, ordered by start. */
    var memory: seq<Block>

    /**
     * The blocks tile `[0, memory_size)` with non-empty blocks; the one exception is a
     * memory of size 0, whose single block is empty.
     */
    ghost predicate Tiled()
      reads this
    {
      Tiles(memory, memorySize) && (Positive(memory) || |memory| == 1)
    }

    /** The tiling, and no free block directly follows another. */
    ghost predicate Valid()
      reads this
    {
      Tiled() && NoAdjacentFree(memory)
    }

    /** One free block spanning the whole memory. */
    constructor (memorySize: nat)
      ensures Valid() && this.memorySize == memorySize
      ensures memory == [Block(0, memorySize, None)]
    {
      this.memorySize := memorySize;
      memory := [Block(0, memorySize, None)];
    }

    /**
     * `_find_block`: the index of a free block of at least `size` chosen by the named
     * strategy, or `None` when none fits or the name is not a strategy.
     */
    method FindBlock(size: int, strategy: string) returns (index: Option<nat>)
      ensures index == ChooseByName(BlockRegions(memory), size, strategy)
      ensures index.Some? ==> index.value < |memory| && memory[index.value].owner.None?
                              && memory[index.value].size >= size
    {
      index := FindFit(BlockRegions(memory), size, strategy);
    }

    /**
     * Splits the chosen free block into `(start, size, pid)` followed by the free
     * remainder, if any; when no free block fits, fails and changes nothing.
     */
    method Allocate(pid: Pid, size: nat, strategy: string := "first_fit") returns (ok: bool)
      requires Valid() && size > 0
      modifies this
      ensures Valid()
      ensures var c := ChooseByName(BlockRegions(old(memory)), size, strategy);
              && ok == c.Some?
              && memory == if ok then Split(old(memory), c.value, size, pid) else old(memory)
      ensures ok ==> FreeSpace(memory) + size == FreeSpace(old(memory))
    {
      var index := FindBlock(size, strategy);
      if index.Some? {
        var i := index.value;
        SplitKeepsTiling(memory, memorySize, i, size, pid);
        SplitTakesFreeSpace(memory, i, size, pid);
        SplitKeepsNoAdjacentFree(memory, i, size, pid);
        memory := Split(memory, i, size, pid);
        return true;
      }
      return false;
    }

    /**
     * Frees every block of `pid` and coalesces: afterwards no block belongs to `pid`, no two
     * free blocks are adjacent, the other owned blocks are as they were, and free space has
     * grown by exactly what `pid` held.
     */
    method Deallocate(pid: Pid)
      requires Valid()
      modifies this
      ensures Valid()
      ensures memory == MergeFree(Release(old(memory), pid))
      ensures forall i :: 0 <= i < |memory| ==> memory[i].owner != Some(pid)
      ensures NoAdjacentFree(memory)
      ensures OwnedBlocks(memory) == OwnedBlocks(Release(old(memory), pid))
      ensures FreeSpace(memory) == FreeSpace(old(memory)) + OwnedSpace(old(memory), pid)
    {
      ReleaseKeepsTiling(memory, memorySize, pid);
      memory := Release(memory, pid);
      MergeFreeBlocks();
      NoBlockOfReleased(old(memory), memory, pid);
    }

    /** `merge_free_blocks`: fuses every run of adjacent free blocks into one block. */
    method MergeFreeBlocks()
      requires Tiled()
      modifies this
      ensures Valid()
      ensures memory == MergeFree(old(memory))
      ensures NoAdjacentFree(memory) && FreeSpace(memory) == FreeSpace(old(memory))
      ensures OwnedBlocks(memory) == OwnedBlocks(old(memory))
    {
      // `sorted(self.memory)` is `self.memory` itself: see TilesSortedByStart.
      var merged: seq<Block> := [];
      for k := 0 to |memory|
        invariant merged == MergeFree(memory[..k])
      {
        assert memory[..k + 1][..k] == memory[..k];
        var block := memory[k];
        if merged != [] && merged[|merged| - 1].owner.None? && block.owner.None? {
          var last := merged[|merged| - 1];
          merged := merged[..|merged| - 1] + [Block(last.start, last.size + block.size, None)];
        } else {
          merged := merged + [block];
        }
      }
      assert memory[..|memory|] == memory;
      MergeFreeKeepsTiling(memory);
      MergeFreeLeavesNoAdjacentFree(memory);
      MergeFreeKeepsFreeSpace(memory);
      MergeFreeKeepsOwned(memory);
      assert Tiles(merged, memorySize) && (Positive(merged) || |merged| == 1);
      memory := merged;
    }
  }

  /** Every block of `OwnedBlocks(bs)` is a block of `bs` that has an owner. */
  lemma {:induction false} OwnedBlocksFromList(bs: seq<Block>)
    ensures forall j :: 0 <= j < |OwnedBlocks(bs)| ==> OwnedBlocks(bs)[j] in bs && OwnedBlocks(bs)[j].owner.Some?
  {
    if bs != [] {
      OwnedBlocksFromList(bs[..|bs| - 1]);
    }
  }

  /** Every owned block of `bs` appears in `OwnedBlocks(bs)`. */
  lemma {:induction false} OwnedBlocksHaveOwners(bs: seq<Block>)
    ensures forall i :: 0 <= i < |bs| && bs[i].owner.Some? ==> bs[i] in OwnedBlocks(bs)
  {
    if bs != [] {
      var init := bs[..|bs| - 1];
      OwnedBlocksHaveOwners(init);
      forall i | 0 <= i < |bs| && bs[i].owner.Some? ensures bs[i] in OwnedBlocks(bs) {
        if i < |bs| - 1 {
          assert bs[i] == init[i];
        }
      }
    }
  }

  /** A list with the same owned blocks as a released list holds no block of `pid`. */
  lemma {:induction false} NoBlockOfReleased(bs: seq<Block>, m: seq<Block>, pid: Pid)
    requires OwnedBlocks(m) == OwnedBlocks(Release(bs, pid))
    ensures forall i :: 0 <= i < |m| ==> m[i].owner != Some(pid)
  {
    ReleaseFacts(bs, pid);
    OwnedBlocksFromList(Release(bs, pid));
    OwnedBlocksHaveOwners(m);
    forall i | 0 <= i < |m| ensures m[i].owner != Some(pid) {
      if m[i].owner.Some? {
        var j :| 0 <= j < |OwnedBlocks(m)| && OwnedBlocks(m)[j] == m[i];
        var r := Release(bs, pid);
        assert OwnedBlocks(r)[j] in r;
      }
    }
  }

  /** Releasing keeps the tiling and the block sizes. */
  lemma {:induction false} ReleaseKeepsTiling(bs: seq<Block>, total: nat, pid: Pid)
    requires Tiles(bs, total) && (Positive(bs) || |bs| == 1)
    ensures var r := Release(bs, pid);
            Tiles(r, total) && (Positive(r) || |r| == 1)
    ensures FreeSpace(Release(bs, pid)) == FreeSpace(bs) + OwnedSpace(bs, pid)
  {
    ReleaseFacts(bs, pid);
    var r := Release(bs, pid);
    forall k | 0 <= k < |r| - 1 ensures r[k + 1].start == End(r[k]) {
      assert bs[k + 1].start == End(bs[k]);
    }
    assert Last(r).start == Last(bs).start && Last(r).size == Last(bs).size;
    if Positive(bs) {
      forall k | 0 <= k < |r| ensures r[k].size > 0 {
        assert bs[k].size > 0;
      }
    }
  }

  /**
   * Example: memory 100 filled by processes 1, 2, 3 of sizes
   * 30, 30, 40; freeing 1 and then 2 leaves one free block of 60 at 0.
   */
  method CoalescingExample() {
    var m := new DynamicMemoryAllocation(100);
    ExampleChoices();
    ExampleSplits();
    var ok := m.Allocate(1, 30, "first_fit");
    assert ok && m.memory == [Block(0, 30, Some(1)), Block(30, 70, None)];
    ok := m.Allocate(2, 30);
    assert ok && m.memory == [Block(0, 30, Some(1)), Block(30, 30, Some(2)), Block(60, 40, None)];
    ok := m.Allocate(3, 40);
    assert ok && m.memory == [Block(0, 30, Some(1)), Block(30, 30, Some(2)), Block(60, 40, Some(3))];
    ExampleFreeFirst();
    m.Deallocate(1);
    assert m.memory == [Block(0, 30, None), Block(30, 30, Some(2)), Block(60, 40, Some(3))];
    ExampleFreeSecond();
    m.Deallocate(2);
    assert m.memory == [Block(0, 60, None), Block(60, 40, Some(3))];
  }

  /** The three first-fit choices of the coalescing example. */
  lemma ExampleChoices()
    ensures ChooseByName(BlockRegions([Block(0, 100, None)]), 30, "first_fit") == Some(0)
    ensures ChooseByName(BlockRegions([Block(0, 30, Some(1)), Block(30, 70, None)]), 30, "first_fit") == Some(1)
    ensures ChooseByName(BlockRegions([Block(0, 30, Some(1)), Block(30, 30, Some(2)), Block(60, 40, None)]),
                         40, "first_fit") == Some(2)
  {
    FirstFitAt([Block(0, 100, None)], 0, 30);
    FirstFitAt([Block(0, 30, Some(1)), Block(30, 70, None)], 1, 30);
    FirstFitAt([Block(0, 30, Some(1)), Block(30, 30, Some(2)), Block(60, 40, None)], 2, 40);
  }

  /** The three splits of the coalescing example. */
  lemma ExampleSplits()
    ensures Split([Block(0, 100, None)], 0, 30, 1) == [Block(0, 30, Some(1)), Block(30, 70, None)]
    ensures Split([Block(0, 30, Some(1)), Block(30, 70, None)], 1, 30, 2)
            == [Block(0, 30, Some(1)), Block(30, 30, Some(2)), Block(60, 40, None)]
    ensures Split([Block(0, 30, Some(1)), Block(30, 30, Some(2)), Block(60, 40, None)], 2, 40, 3)
            == [Block(0, 30, Some(1)), Block(30, 30, Some(2)), Block(60, 40, Some(3))]
  {
  }

  /** Freeing process 1 of the example frees its block, and there is nothing to coalesce. */
  lemma ExampleFreeFirst()
    ensures var full := [Block(0, 30, Some(1)), Block(30, 30, Some(2)), Block(60, 40, Some(3))];
            MergeFree(Release(full, 1)) == [Block(0, 30, None), Block(30, 30, Some(2)), Block(60, 40, Some(3))]
  {
    var full := [Block(0, 30, Some(1)), Block(30, 30, Some(2)), Block(60, 40, Some(3))];
    var freed := [Block(0, 30, None), Block(30, 30, Some(2)), Block(60, 40, Some(3))];
    assert Release(full, 1) == freed;
    MergeFreeIdentity(freed);
  }

  /** Freeing process 2 next coalesces the two free blocks into one of 60 at 0. */
  lemma ExampleFreeSecond()
    ensures var before := [Block(0, 30, None), Block(30, 30, Some(2)), Block(60, 40, Some(3))];
            MergeFree(Release(before, 2)) == [Block(0, 60, None), Block(60, 40, Some(3))]
  {
    var before := [Block(0, 30, None), Block(30, 30, Some(2)), Block(60, 40, Some(3))];
    var b0, b1, b2 := Block(0, 30, None), Block(30, 30, None), Block(60, 40, Some(3));
    var freed := [b0, b1, b2];
    var r := Release(before, 2);
    assert r[0] == b0 && r[1] == b1 && r[2] == b2;
    assert r == freed;
    assert freed[..2] == [b0, b1] && [b0, b1][..1] == [b0] && [b0][..0] == [];
    assert MergeFree([b0]) == MergeStep([], b0) == [b0];
    assert MergeFree([b0, b1]) == MergeStep([b0], b1) == [Block(0, 60, None)];
    assert MergeFree(freed) == MergeStep([Block(0, 60, None)], b2);
  }

  /** A helper for examples: the first-fit choice is `i` when `i` is the first free block large enough. */
  lemma FirstFitAt(bs: seq<Block>, i: nat, size: nat)
    requires i < |bs| && bs[i].owner.None? && bs[i].size >= size
    requires forall j :: 0 <= j < i ==> bs[j].owner.Some? || bs[j].size < size
    ensures ChooseByName(BlockRegions(bs), size, "first_fit") == Some(i)
  {
    var rs := BlockRegions(bs);
    ChooseIsChoice(rs, size, FirstFit);
    ChoiceIsUnique(rs, size, FirstFit, Some(i), Choose(rs, size, FirstFit));
  }
}
