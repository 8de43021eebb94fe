/** `UnequalSizedPartitioning`: caller-given partition sizes, one process per partition. */
module UnequalPartitions {
  import opened Common
  import opened Fit

  /** What the selector sees of the partitions: each size, and whether it is unoccupied. */
  function PartitionRegions(sizes: seq<int>, occupied: seq<Option<Pid>>): (rs: seq<Region>)
    requires |sizes| == |occupied|
    ensures |rs| == |sizes|
    ensures forall i :: 0 <= i < |sizes| ==> rs[i].size == sizes[i] && (rs[i].free <==> occupied[i].None?)
  {
    seq(|sizes|, i requires 0 <= i < |sizes| => Region(sizes[i], occupied[i].None?))
  }

  /** Freeing a process that held nothing before it took a free partition restores the slots. */
  lemma TakeThenClear(s: seq<Option<Pid>>, i: nat, pid: Pid)
    requires i < |s| && s[i].None? && Some(pid) !in s
    ensures ClearOwner(s[i := Some(pid)], pid) == s
  {
    ClearOwnerRestores(s, s[i := Some(pid)], pid);
  }

  class UnequalSizedPartitioning {
    /** The partition sizes, fixed at construction. */
    const partitions: seq<int>
    /** One slot per partition: free, or the process holding it. */
    const occupants: array<Option<Pid>>

    ghost predicate Valid() {
      occupants.Length == |partitions|
    }

    /** What `_find_partition` scans. */
    ghost function Regions(): (rs: seq<Region>)
      requires Valid()
      reads occupants
    {
      PartitionRegions(partitions, occupants[..])
    }

    /** All partitions start free. */
    constructor (partitions: seq<int>)
      ensures Valid() && fresh(occupants)
      ensures this.partitions == partitions
      ensures forall k :: 0 <= k < occupants.Length ==> occupants[k].None?
    {
      this.partitions := partitions;
      occupants := new Option<Pid>[|partitions|](_ => None);
    }

    /**
     * `_find_partition`: the index of a free partition of at least `size` chosen by the
     * named strategy, or `None` when none fits or the name is not a strategy.
     */
    method FindPartition(size: int, strategy: string) returns (index: Option<nat>)
      requires Valid()
      ensures index == ChooseByName(Regions(), size, strategy)
      ensures index.Some? ==> index.value < occupants.Length && occupants[index.value].None?
                              && partitions[index.value] >= size
    {
      index := FindFit(PartitionRegions(partitions, occupants[..]), size, strategy);
    }

    /** Gives `pid` the chosen partition; when nothing is chosen, fails and changes nothing. */
    method Allocate(pid: Pid, size: int, strategy: string := "first_fit") returns (ok: bool)
      requires Valid()
      modifies occupants
      ensures var c := ChooseByName(old(Regions()), size, strategy);
              && ok == c.Some?
              && occupants[..] == if ok then old(occupants[..])[c.value := Some(pid)] else old(occupants[..])
    {
      var index := FindPartition(size, strategy);
      if index.Some? {
        occupants[index.value] := Some(pid);
        return true;
      }
      return false;
    }

    /** Frees every partition held by `pid` and leaves every other partition as it was. */
    method Deallocate(pid: Pid)
      requires Valid()
      modifies occupants
      ensures occupants[..] == ClearOwner(old(occupants[..]), pid)
    {
      for i := 0 to occupants.Length
        invariant forall k :: 0 <= k < occupants.Length ==>
                    occupants[k] == if k < i then ClearOwner(old(occupants[..]), pid)[k] else old(occupants[k])
      {
        if occupants[i] == Some(pid) {
          occupants[i] := None;
        }
      }
    }
  }

  /** Example: with partitions of 10, 20 and 30, best fit puts 12 units into the size-20 partition. */
  method BestFitExample() {
    var m := new UnequalSizedPartitioning([10, 20, 30]);
    var ok := m.Allocate(1, 12, "best_fit");
    ghost var rs := PartitionRegions([10, 20, 30], [None, None, None]);
    assert IsChoice(rs, 12, BestFit, Some(1));
    ChooseIsChoice(rs, 12, BestFit);
    ChoiceIsUnique(rs, 12, BestFit, Some(1), Choose(rs, 12, BestFit));
    assert ok && m.occupants[..] == [None, Some(1), None];
  }
}
