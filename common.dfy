/** Values shared by the five allocators of memoryman.py. */
module Common {

  /** A possibly missing value: Python's `None` or a value. */
  datatype Option<T> = None | Some(value: T)

  /** A process identifier (a Python int). */
  type Pid = int

  /** The three placement rules accepted by the partition and block selectors. */
  datatype Strategy = FirstFit | BestFit | WorstFit

  /** The strategy named by one of the three literals, and no strategy for any other string. */
  function ParseStrategy(name: string): (s: Option<Strategy>)
    ensures s == Some(FirstFit) <==> name == "first_fit"
    ensures s == Some(BestFit) <==> name == "best_fit"
    ensures s == Some(WorstFit) <==> name == "worst_fit"
    ensures s.None? <==> name !in {"first_fit", "best_fit", "worst_fit"}
  {
    if name == "first_fit" then Some(FirstFit)
    else if name == "best_fit" then Some(BestFit)
    else if name == "worst_fit" then Some(WorstFit)
    else None
  }

  /** The number of units of size `unit` needed to hold `size`: `(size + unit - 1) // unit`. */
  function CeilDiv(size: nat, unit: nat): (n: nat)
    requires unit > 0
    ensures (n - 1) * unit < size <= n * unit
  {
    var n := (size + unit - 1) / unit;
    assert n * unit <= size + unit - 1 < (n + 1) * unit;
    n
  }

  /** An occupancy list with every slot held by `pid` made free. */
  function ClearOwner(s: seq<Option<Pid>>, pid: Pid): (r: seq<Option<Pid>>)
    ensures |r| == |s|
    ensures forall k :: 0 <= k < |s| ==> r[k] != Some(pid)
    ensures forall k :: 0 <= k < |s| && s[k] != Some(pid) ==> r[k] == s[k]
    ensures forall k :: 0 <= k < |s| && s[k] == Some(pid) ==> r[k] == None
  {
    seq(|s|, k requires 0 <= k < |s| => if s[k] == Some(pid) then None else s[k])
  }

  /** Clearing a process that holds no slot changes nothing, and clearing twice is clearing once. */
  lemma ClearOwnerAbsentAndIdempotent(s: seq<Option<Pid>>, pid: Pid)
    ensures Some(pid) !in s ==> ClearOwner(s, pid) == s
    ensures ClearOwner(ClearOwner(s, pid), pid) == ClearOwner(s, pid)
  {
  }

  /**
   * Clearing `pid` undoes any allocation to `pid` made on a list where it held nothing:
   * when `t` differs from `s` only in free slots of `s` that `t` gives to `pid`.
   */
  lemma ClearOwnerRestores(s: seq<Option<Pid>>, t: seq<Option<Pid>>, pid: Pid)
    requires |t| == |s| && Some(pid) !in s
    requires forall k :: 0 <= k < |s| ==> t[k] == s[k] || (t[k] == Some(pid) && s[k] == None)
    ensures ClearOwner(t, pid) == s
  {
    assert forall k :: 0 <= k < |s| ==> s[k] != Some(pid);
  }
}
