/** `Paging`: a page table mapping `(process, page)` to the frames of a fixed frame count. */
module PagingAllocator {
  import opened Common

  /** A page-table key: the process and its page number. */
  type PageKey = (Pid, nat)

  /** The frames below `n` that no entry of `t` uses, in ascending order. */
  function FreeFramesBelow(t: map<PageKey, nat>, n: nat): seq<nat> {
    if n == 0 then [] else FreeFramesBelow(t, n - 1) + if n - 1 in t.Values then [] else [n - 1]
  }

  /** The free-frame list holds exactly the unused frames below `n`. */
  lemma {:induction false} FreeFramesBelowMembers(t: map<PageKey, nat>, n: nat)
    ensures forall f: nat :: f in FreeFramesBelow(t, n) <==> f < n && f !in t.Values
  {
    if n > 0 {
      FreeFramesBelowMembers(t, n - 1);
      var r' := FreeFramesBelow(t, n - 1);
      var tail := if n - 1 in t.Values then [] else [n - 1];
      assert FreeFramesBelow(t, n) == r' + tail;
      forall f: nat ensures f in r' + tail <==> f < n && f !in t.Values {
        if f == n - 1 {
          assert f !in r';
        }
      }
    }
  }

  /** Each element is smaller than every later one. */
  predicate StrictlyAscending(s: seq<nat>) {
    forall i, j :: 0 <= i < j < |s| ==> s[i] < s[j]
  }

  /** The free-frame list is strictly ascending. */
  lemma {:induction false} FreeFramesBelowAscending(t: map<PageKey, nat>, n: nat)
    ensures StrictlyAscending(FreeFramesBelow(t, n))
  {
    if n > 0 {
      FreeFramesBelowAscending(t, n - 1);
      FreeFramesBelowMembers(t, n - 1);
      var r' := FreeFramesBelow(t, n - 1);
      var r := FreeFramesBelow(t, n);
      assert r == r' + if n - 1 in t.Values then [] else [n - 1];
      forall i, j | 0 <= i < j < |r| ensures r[i] < r[j] {
        if j < |r'| {
          assert r[i] == r'[i] && r[j] == r'[j];
        } else {
          assert r[j] == n - 1;
          assert r[i] == r'[i] && r'[i] in r';
        }
      }
    }
  }

  /** The free-frame list is strictly ascending and holds exactly the unused frames below `n`. */
  lemma FreeFramesBelowSpec(t: map<PageKey, nat>, n: nat)
    ensures var r := FreeFramesBelow(t, n);
            && (forall i, j :: 0 <= i < j < |r| ==> r[i] < r[j])
            && (forall f: nat :: f in r <==> f < n && f !in t.Values)
  {
    FreeFramesBelowMembers(t, n);
    FreeFramesBelowAscending(t, n);
  }

  /** The free frames below `m` are the first ones of the free frames below any `n >= m`. */
  lemma {:induction false} FreeFramesPrefix(t: map<PageKey, nat>, m: nat, n: nat)
    requires m <= n
    ensures FreeFramesBelow(t, m) <= FreeFramesBelow(t, n)
    decreases n - m
  {
    if m < n {
      FreeFramesPrefix(t, m, n - 1);
    }
  }

  /**
   * The first `k` free frames are the `k` lowest-numbered unused frames, in ascending
   * order: every other unused frame below `n` is larger than each of them.
   */
  lemma LowestFreeFrames(t: map<PageKey, nat>, n: nat, k: nat)
    requires k <= |FreeFramesBelow(t, n)|
    ensures var chosen := FreeFramesBelow(t, n)[..k];
            && (forall i, j :: 0 <= i < j < k ==> chosen[i] < chosen[j])
            && (forall i :: 0 <= i < k ==> chosen[i] < n && chosen[i] !in t.Values)
            && (forall f: nat, i :: f < n && f !in t.Values && f !in chosen && 0 <= i < k ==> chosen[i] < f)
  {
    var r := FreeFramesBelow(t, n);
    FreeFramesBelowSpec(t, n);
    var chosen := r[..k];
    forall i | 0 <= i < k ensures chosen[i] < n && chosen[i] !in t.Values {
      assert chosen[i] == r[i] && r[i] in r;
    }
    forall f: nat, i | f < n && f !in t.Values && f !in chosen && 0 <= i < k ensures chosen[i] < f {
      assert f in r;
      var j :| 0 <= j < |r| && r[j] == f;
      assert r[i] < r[j];
    }
  }

  /** The entries mapping pages `0 .. |fs| - 1` of `pid` to the frames `fs`, in order. */
  function PageEntries(pid: Pid, fs: seq<nat>): (m: map<PageKey, nat>)
    ensures forall key :: key in m <==> key.0 == pid && key.1 < |fs|
    ensures forall p :: 0 <= p < |fs| ==> m[(pid, p)] == fs[p]
  {
    if fs == [] then map[] else PageEntries(pid, fs[..|fs| - 1])[(pid, |fs| - 1) := fs[|fs| - 1]]
  }

  /** No two entries share a frame. */
  ghost predicate Injective(t: map<PageKey, nat>) {
    forall k1, k2 :: k1 in t && k2 in t && k1 != k2 ==> t[k1] != t[k2]
  }

  /** The entries of `t` whose process is not `pid`. */
  function WithoutProcess(t: map<PageKey, nat>, pid: Pid): (r: map<PageKey, nat>)
    ensures forall key :: key in r <==> key in t && key.0 != pid
    ensures forall key :: key in r ==> r[key] == t[key]
  {
    map key | key in t && key.0 != pid :: t[key]
  }

  class Paging {
    const memorySize: nat
    const pageSize: nat
    /** `memory_size // page_size` frames, numbered from 0. */
    const frames: nat
    var pageTable: map<PageKey, nat>

    /** Every entry names an existing frame, and no frame is shared. */
    ghost predicate Valid()
      reads this
    {
      && pageSize > 0
      && frames == memorySize / pageSize
      && (forall key :: key in pageTable ==> pageTable[key] < frames)
      && Injective(pageTable)
    }

    /** An empty page table over `memory_size // page_size` frames. */
    constructor (memorySize: nat, pageSize: nat)
      requires pageSize > 0
      ensures Valid() && pageTable == map[]
      ensures this.memorySize == memorySize && this.pageSize == pageSize
    {
      this.memorySize := memorySize;
      this.pageSize := pageSize;
      frames := memorySize / pageSize;
      pageTable := map[];
    }

    /**
     * The frame scan of `allocate`: the free frames in ascending order, stopping as soon as
     * `pagesNeeded` of them are found (with `pagesNeeded == 0` the scan never stops early).
     */
    method CollectFrames(pagesNeeded: nat) returns (fs: seq<nat>)
      requires Valid()
      ensures var free := FreeFramesBelow(pageTable, frames);
              fs == if 0 < pagesNeeded <= |free| then free[..pagesNeeded] else free
    {
      fs := [];
      var frame := 0;
      while frame < frames
        invariant frame <= frames
        invariant fs == FreeFramesBelow(pageTable, frame)
        invariant pagesNeeded == 0 || |fs| < pagesNeeded
      {
        if frame !in pageTable.Values {
          fs := fs + [frame];
          if |fs| == pagesNeeded {
            FreeFramesPrefix(pageTable, frame + 1, frames);
            return;
          }
        }
        frame := frame + 1;
      }
    }

    /**
     * Takes the `ceil(size / page_size)` lowest free frames; when fewer exist it fails and
     * leaves the table exactly as it was, otherwise it maps pages `0 .. n - 1` of `pid` to
     * them in ascending order.
     */
    method Allocate(pid: Pid, processSize: nat) returns (ok: bool)
      requires Valid()
      modifies this
      ensures Valid()
      ensures var n := CeilDiv(processSize, pageSize);
              var free := FreeFramesBelow(old(pageTable), frames);
              && ok == (|free| >= n)
              && pageTable == if ok then old(pageTable) + PageEntries(pid, free[..n]) else old(pageTable)
    {
      var pagesNeeded := (processSize + pageSize - 1) / pageSize;
      assert pagesNeeded == CeilDiv(processSize, pageSize);
      var allocatedFrames := CollectFrames(pagesNeeded);
      if |allocatedFrames| < pagesNeeded {
        return false;
      }
      assert allocatedFrames[..pagesNeeded] == FreeFramesBelow(pageTable, frames)[..pagesNeeded];
      LowestFreeFrames(pageTable, frames, pagesNeeded);
      CommitKeepsValid(pageTable, pid, allocatedFrames[..pagesNeeded], frames);
      Commit(pid, allocatedFrames, pagesNeeded);
      return true;
    }

    /** The commit loop of `allocate`: pages `0 .. n - 1` of `pid` go to `fs[0] .. fs[n - 1]`. */
    method Commit(pid: Pid, fs: seq<nat>, n: nat)
      requires n <= |fs|
      modifies this
      ensures pageTable == old(pageTable) + PageEntries(pid, fs[..n])
    {
      for page := 0 to n
        invariant pageTable == old(pageTable) + PageEntries(pid, fs[..page])
      {
        CommitStep(old(pageTable), pid, fs[..page], fs[page]);
        assert fs[..page + 1] == fs[..page] + [fs[page]];
        pageTable := pageTable[(pid, page) := fs[page]];
      }
    }

    /** Removes exactly the entries of `pid`. */
    method Deallocate(pid: Pid)
      requires Valid()
      modifies this
      ensures Valid()
      ensures pageTable == WithoutProcess(old(pageTable), pid)
    {
      var keys := pageTable.Keys;
      while keys != {}
        invariant keys <= old(pageTable).Keys
        invariant pageTable == map key | key in old(pageTable) && (key in keys || key.0 != pid) :: old(pageTable)[key]
        decreases keys
      {
        var key :| key in keys;
        if key.0 == pid {
          pageTable := pageTable - {key};
        }
        keys := keys - {key};
      }
    }
  }

  /** Committing one more page extends the table by exactly that entry. */
  lemma CommitStep(t: map<PageKey, nat>, pid: Pid, fs: seq<nat>, x: nat)
    ensures t + PageEntries(pid, fs + [x]) == (t + PageEntries(pid, fs))[(pid, |fs|) := x]
  {
    assert (fs + [x])[..|fs|] == fs;
    UpdateUnion(t, PageEntries(pid, fs), (pid, |fs|), x);
  }

  lemma UpdateUnion(t: map<PageKey, nat>, m: map<PageKey, nat>, k: PageKey, v: nat)
    ensures t + m[k := v] == (t + m)[k := v]
  {
  }

  /** Adding entries for distinct, unused frames below `frames` keeps the table valid. */
  lemma CommitKeepsValid(t: map<PageKey, nat>, pid: Pid, fs: seq<nat>, frames: nat)
    requires (forall key :: key in t ==> t[key] < frames) && Injective(t)
    requires forall i, j :: 0 <= i < j < |fs| ==> fs[i] < fs[j]
    requires forall i :: 0 <= i < |fs| ==> fs[i] < frames && fs[i] !in t.Values
    ensures var u := t + PageEntries(pid, fs); (forall key :: key in u ==> u[key] < frames) && Injective(u)
  {
    var entries := PageEntries(pid, fs);
    var u := t + entries;
    forall k1, k2 | k1 in u && k2 in u && k1 != k2 ensures u[k1] != u[k2] {
      if k1 in entries && k2 in entries {
        assert u[k1] == fs[k1.1] && u[k2] == fs[k2.1];
        if k1.1 < k2.1 {
          assert fs[k1.1] < fs[k2.1];
        } else {
          assert fs[k2.1] < fs[k1.1];
        }
      } else if k1 in entries {
        assert u[k2] == t[k2] && t[k2] in t.Values;
        assert u[k1] == fs[k1.1];
      } else if k2 in entries {
        assert u[k1] == t[k1] && t[k1] in t.Values;
        assert u[k2] == fs[k2.1];
      }
    }
  }

  /**
   * Freeing a process that held no page before its allocation gives back exactly the
   * table from before that allocation.
   */
  lemma AllocateThenDeallocate(t: map<PageKey, nat>, pid: Pid, fs: seq<nat>)
    requires forall key :: key in t ==> key.0 != pid
    ensures WithoutProcess(t + PageEntries(pid, fs), pid) == t
  {
    var u := WithoutProcess(t + PageEntries(pid, fs), pid);
    assert forall key :: key in u <==> key in t;
  }

  /**
   * Example: 40 units in pages of 10 make 4 frames; two processes
   * of 20 units take frames 0-1 and 2-3; a third then fails and the table is unchanged;
   * after freeing the first, the third gets frame 0.
   */
  method PagingExample() {
    var m := new Paging(40, 10);
    assert CeilDiv(20, 10) == 2 && CeilDiv(5, 10) == 1;
    ExampleFirst();
    var ok := m.Allocate(1, 20);
    assert ok && m.pageTable == map[(1, 0) := 0, (1, 1) := 1];
    ExampleSecond(m.pageTable);
    ok := m.Allocate(2, 20);
    assert ok && m.pageTable == map[(1, 0) := 0, (1, 1) := 1, (2, 0) := 2, (2, 1) := 3];
    FreeFramesWhenAllUsed(m.pageTable);
    ok := m.Allocate(3, 5);
    assert !ok && m.pageTable == map[(1, 0) := 0, (1, 1) := 1, (2, 0) := 2, (2, 1) := 3];
    ExampleRelease(m.pageTable);
    m.Deallocate(1);
    assert m.pageTable == map[(2, 0) := 2, (2, 1) := 3];
    ExampleReuse(m.pageTable);
    ok := m.Allocate(3, 5);
    assert ok && m.pageTable == map[(2, 0) := 2, (2, 1) := 3, (3, 0) := 0];
  }

  lemma ExampleFirst()
    ensures var free := FreeFramesBelow(map[], 4);
            |free| == 4 && map[] + PageEntries(1, free[..2]) == map[(1, 0) := 0, (1, 1) := 1]
  {
    assert FreeFramesBelow(map[], 4) == [0, 1, 2, 3];
    assert PageEntries(1, [0, 1]) == map[(1, 0) := 0, (1, 1) := 1];
  }

  lemma ExampleSecond(t: map<PageKey, nat>)
    requires t == map[(1, 0) := 0, (1, 1) := 1]
    ensures var free := FreeFramesBelow(t, 4);
            |free| == 2 && t + PageEntries(2, free[..2]) == map[(1, 0) := 0, (1, 1) := 1, (2, 0) := 2, (2, 1) := 3]
  {
    FreeFramesWhenLowUsed(t);
    assert [2, 3][..2] == [2, 3];
    assert PageEntries(2, [2, 3]) == map[(2, 0) := 2, (2, 1) := 3];
  }

  lemma ExampleRelease(t: map<PageKey, nat>)
    requires t == map[(1, 0) := 0, (1, 1) := 1, (2, 0) := 2, (2, 1) := 3]
    ensures WithoutProcess(t, 1) == map[(2, 0) := 2, (2, 1) := 3]
  {
    assert WithoutProcess(t, 1).Keys == {(2, 0), (2, 1)};
  }

  lemma ExampleReuse(t: map<PageKey, nat>)
    requires t == map[(2, 0) := 2, (2, 1) := 3]
    ensures var free := FreeFramesBelow(t, 4);
            |free| == 2 && t + PageEntries(3, free[..1]) == map[(2, 0) := 2, (2, 1) := 3, (3, 0) := 0]
  {
    FreeFramesWhenHighUsed(t);
    assert [0, 1][..1] == [0];
    assert PageEntries(3, [0]) == map[(3, 0) := 0];
  }

  lemma FreeFramesWhenAllUsed(t: map<PageKey, nat>)
    requires t == map[(1, 0) := 0, (1, 1) := 1, (2, 0) := 2, (2, 1) := 3]
    ensures FreeFramesBelow(t, 4) == []
  {
    assert t[(1, 0)] == 0 && t[(1, 1)] == 1 && t[(2, 0)] == 2 && t[(2, 1)] == 3;
    assert 0 in t.Values && 1 in t.Values && 2 in t.Values && 3 in t.Values;
    assert FreeFramesBelow(t, 1) == [];
    assert FreeFramesBelow(t, 2) == [];
    assert FreeFramesBelow(t, 3) == [];
  }

  lemma FreeFramesWhenHighUsed(t: map<PageKey, nat>)
    requires t == map[(2, 0) := 2, (2, 1) := 3]
    ensures FreeFramesBelow(t, 4) == [0, 1]
  {
    assert t[(2, 0)] == 2 && t[(2, 1)] == 3;
    assert t.Keys == {(2, 0), (2, 1)};
    assert t.Values == {2, 3};
    assert FreeFramesBelow(t, 1) == [0];
    assert FreeFramesBelow(t, 2) == [0, 1];
    assert FreeFramesBelow(t, 3) == [0, 1];
  }

  lemma FreeFramesWhenLowUsed(t: map<PageKey, nat>)
    requires t == map[(1, 0) := 0, (1, 1) := 1]
    ensures FreeFramesBelow(t, 4) == [2, 3]
  {
    assert t[(1, 0)] == 0 && t[(1, 1)] == 1;
    assert t.Keys == {(1, 0), (1, 1)};
    assert t.Values == {0, 1};
    assert FreeFramesBelow(t, 1) == [];
    assert FreeFramesBelow(t, 2) == [];
    assert FreeFramesBelow(t, 3) == [2];
  }
}
