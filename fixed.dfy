/** `FixedSizedPartitioning`: equal partitions, a request takes a contiguous run of them. */
module FixedPartitions {
  import opened Common

  /** Whether the `n` slots starting at `i` exist and are all free. */
  predicate WindowFree(s: seq<Option<Pid>>, i: nat, n: nat) {
    i + n <= |s| && forall k :: i <= k < i + n ==> s[k].None?
  }

  /** The lowest start, not below `i`, of a free window of `n` slots. */
  function FirstFreeWindowFrom(s: seq<Option<Pid>>, n: nat, i: nat): (r: Option<nat>)
    ensures r.Some? ==> i <= r.value && WindowFree(s, r.value, n)
    decreases |s| - i
  {
    if i + n > |s| then None
    else if WindowFree(s, i, n) then Some(i)
    else FirstFreeWindowFrom(s, n, i + 1)
  }

  /** The lowest start of a free window of `n` slots (the window `allocate` takes). */
  function FirstFreeWindow(s: seq<Option<Pid>>, n: nat): (r: Option<nat>)
    ensures r.Some? ==> WindowFree(s, r.value, n)
  {
    FirstFreeWindowFrom(s, n, 0)
  }

  /** The search from `i` finds the lowest free window at or after `i`, and none when there is none. */
  lemma {:induction false} FirstFreeWindowFromIsLowest(s: seq<Option<Pid>>, n: nat, i: nat)
    ensures match FirstFreeWindowFrom(s, n, i)
            case None => forall j: nat :: i <= j ==> !WindowFree(s, j, n)
            case Some(w) => i <= w && WindowFree(s, w, n) && forall j :: i <= j < w ==> !WindowFree(s, j, n)
    decreases |s| - i
  {
    if i + n <= |s| && !WindowFree(s, i, n) {
      FirstFreeWindowFromIsLowest(s, n, i + 1);
    }
  }

  /**
   * `FirstFreeWindow` is the lowest-starting free window; it is `None` exactly when no
   * window of `n` free slots exists, in particular whenever `n` exceeds the slot count.
   */
  lemma FirstFreeWindowIsLowest(s: seq<Option<Pid>>, n: nat)
    ensures FirstFreeWindow(s, n).None? <==> forall j: nat :: !WindowFree(s, j, n)
    ensures n > |s| ==> FirstFreeWindow(s, n).None?
    ensures FirstFreeWindow(s, n).Some? ==>
              var w := FirstFreeWindow(s, n).value;
              WindowFree(s, w, n) && forall j :: 0 <= j < w ==> !WindowFree(s, j, n)
  {
    FirstFreeWindowFromIsLowest(s, n, 0);
  }

  /** `s` with the `n` slots from `i` tagged with `pid`. */
  function Fill(s: seq<Option<Pid>>, i: nat, n: nat, pid: Pid): (r: seq<Option<Pid>>)
    requires i + n <= |s|
    ensures |r| == |s|
    ensures forall k :: i <= k < i + n ==> r[k] == Some(pid)
    ensures forall k :: 0 <= k < |s| && !(i <= k < i + n) ==> r[k] == s[k]
  {
    s[..i] + seq(n, _ => Some(pid)) + s[i + n..]
  }

  /** Freeing a process that held nothing before its allocation restores the slots. */
  lemma FillThenClear(s: seq<Option<Pid>>, i: nat, n: nat, pid: Pid)
    requires WindowFree(s, i, n) && Some(pid) !in s
    ensures ClearOwner(Fill(s, i, n, pid), pid) == s
  {
    ClearOwnerRestores(s, Fill(s, i, n, pid), pid);
  }

  class FixedSizedPartitioning {
    const memorySize: nat
    const partitionSize: nat
    /** One slot per partition: free, or the process holding it. */
    const partitions: array<Option<Pid>>

    ghost predicate Valid() {
      partitionSize > 0 && partitions.Length == memorySize / partitionSize
    }

    /** `memory_size // partition_size` free partitions. */
    constructor (memorySize: nat, partitionSize: nat)
      requires partitionSize > 0
      ensures Valid() && fresh(partitions)
      ensures this.memorySize == memorySize && this.partitionSize == partitionSize
      ensures forall k :: 0 <= k < partitions.Length ==> partitions[k].None?
    {
      this.memorySize := memorySize;
      this.partitionSize := partitionSize;
      partitions := new Option<Pid>[memorySize / partitionSize](_ => None);
    }

    /**
     * Takes the lowest-starting run of `ceil(size / partition_size)` free partitions for
     * `pid`; when there is no such run, reports failure and changes nothing.
     */
    method Allocate(pid: Pid, size: nat) returns (ok: bool)
      requires Valid()
      modifies partitions
      ensures var n := CeilDiv(size, partitionSize);
              var w := FirstFreeWindow(old(partitions[..]), n);
              && ok == w.Some?
              && partitions[..] == if ok then Fill(old(partitions[..]), w.value, n, pid) else old(partitions[..])
    {
      var needed := (size + partitionSize - 1) / partitionSize;
      assert needed == CeilDiv(size, partitionSize);
      var i := 0;
      while i < partitions.Length - needed + 1
        invariant 0 <= i
        invariant partitions[..] == old(partitions[..])
        invariant FirstFreeWindow(partitions[..], needed) == FirstFreeWindowFrom(partitions[..], needed, i)
        decreases partitions.Length - needed + 1 - i
      {
        if WindowFree(partitions[..], i, needed) {
          ghost var before := partitions[..];
          for j := 0 to needed
            invariant forall k :: 0 <= k < partitions.Length ==>
                        partitions[k] == if i <= k < i + j then Some(pid) else before[k]
          {
            partitions[i + j] := Some(pid);
          }
          assert partitions[..] == Fill(before, i, needed, pid);
          return true;
        }
        i := i + 1;
      }
      return false;
    }

    /** Frees every partition held by `pid` and leaves every other partition as it was. */
    method Deallocate(pid: Pid)
      requires Valid()
      modifies partitions
      ensures partitions[..] == ClearOwner(old(partitions[..]), pid)
    {
      for i := 0 to partitions.Length
        invariant forall k :: 0 <= k < partitions.Length ==>
                    partitions[k] == if k < i then ClearOwner(old(partitions[..]), pid)[k] else old(partitions[k])
      {
        if partitions[i] == Some(pid) {
          partitions[i] := None;
        }
      }
    }
  }

  /**
   * Example: memory 100 in partitions of 10; process 1 (15 units)
   * takes partitions 0-1, process 2 (25 units) takes 2-4; after freeing process 1, process 3
   * (5 units) reuses partition 0.
   */
  method FixedExample() {
    var m := new FixedSizedPartitioning(100, 10);
    assert m.partitions[..] == seq(10, _ => None);
    ExampleFirst();
    var ok := m.Allocate(1, 15);
    assert ok && m.partitions[..] == [Some(1), Some(1), None, None, None, None, None, None, None, None];
    ExampleSecond();
    ok := m.Allocate(2, 25);
    assert ok && m.partitions[..] == [Some(1), Some(1), Some(2), Some(2), Some(2), None, None, None, None, None];
    ExampleRelease();
    m.Deallocate(1);
    assert m.partitions[..] == [None, None, Some(2), Some(2), Some(2), None, None, None, None, None];
    ExampleReuse();
    ok := m.Allocate(3, 5);
    assert ok && m.partitions[..] == [Some(3), None, Some(2), Some(2), Some(2), None, None, None, None, None];
  }

  /** Process 1 (15 units, 2 partitions) takes partitions 0-1 of an empty memory. */
  lemma ExampleFirst()
    ensures var empty: seq<Option<Pid>> := seq(10, _ => None);
            && CeilDiv(15, 10) == 2 && FirstFreeWindow(empty, 2) == Some(0)
            && Fill(empty, 0, 2, 1) == [Some(1), Some(1), None, None, None, None, None, None, None, None]
  {
    var empty: seq<Option<Pid>> := seq(10, _ => None);
    assert WindowFree(empty, 0, 2);
  }

  /** Process 2 (25 units, 3 partitions) takes partitions 2-4. */
  lemma ExampleSecond()
    ensures var s := [Some(1), Some(1), None, None, None, None, None, None, None, None];
            && CeilDiv(25, 10) == 3 && FirstFreeWindow(s, 3) == Some(2)
            && Fill(s, 2, 3, 2) == [Some(1), Some(1), Some(2), Some(2), Some(2), None, None, None, None, None]
  {
    var s := [Some(1), Some(1), None, None, None, None, None, None, None, None];
    assert s[0] == Some(1) && s[1] == Some(1);
    assert !WindowFree(s, 0, 3) && !WindowFree(s, 1, 3) && WindowFree(s, 2, 3);
    assert FirstFreeWindowFrom(s, 3, 1) == FirstFreeWindowFrom(s, 3, 2) == Some(2);
  }

  /** Freeing process 1 frees partitions 0-1. */
  lemma ExampleRelease()
    ensures ClearOwner([Some(1), Some(1), Some(2), Some(2), Some(2), None, None, None, None, None], 1)
            == [None, None, Some(2), Some(2), Some(2), None, None, None, None, None]
  {
  }

  /** Process 3 (5 units, 1 partition) reuses partition 0. */
  lemma ExampleReuse()
    ensures var s: seq<Option<Pid>> := [None, None, Some(2), Some(2), Some(2), None, None, None, None, None];
            && CeilDiv(5, 10) == 1 && FirstFreeWindow(s, 1) == Some(0)
            && Fill(s, 0, 1, 3) == [Some(3), None, Some(2), Some(2), Some(2), None, None, None, None, None]
  {
    var s: seq<Option<Pid>> := [None, None, Some(2), Some(2), Some(2), None, None, None, None, None];
    assert WindowFree(s, 0, 1);
  }
}
