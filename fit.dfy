/**
 * First-fit, best-fit and worst-fit selection, shared by
 * `UnequalSizedPartitioning._find_partition` and `DynamicMemoryAllocation._find_block`:
 * both scan a list of regions left to right, keep the regions that are free and at least
 * as large as the request, and pick one by the same rule.
 */
module Fit {
  import opened Common

  /** What a selector sees of a partition or a block: its size and whether it is free. */
  datatype Region = Region(size: int, free: bool)

  /** Whether region `r` can hold a request of `request` units. */
  predicate Fits(r: Region, request: int) {
    r.free && r.size >= request
  }

  /**
   * Whether a fitting candidate of size `cand` replaces the current choice of size `cur`:
   * best fit and worst fit replace only on a strictly better size, first fit never does.
   */
  predicate Displaces(s: Strategy, cand: int, cur: int) {
    match s
    case FirstFit => false
    case BestFit => cand < cur
    case WorstFit => cand > cur
  }

  /** The choice of strategy `s` after scanning all of `rs` from left to right. */
  function Choose(rs: seq<Region>, request: int, s: Strategy): (r: Option<nat>)
    ensures r.Some? ==> r.value < |rs|
  {
    if rs == [] then None
    else
      var prev := Choose(rs[..|rs| - 1], request, s);
      var k := |rs| - 1;
      if Fits(rs[k], request) && (prev.None? || Displaces(s, rs[k].size, rs[prev.value].size))
      then Some(k)
      else prev
  }

  /** The choice for a strategy given by name; an unknown name chooses nothing. */
  function ChooseByName(rs: seq<Region>, request: int, name: string): (r: Option<nat>)
    ensures ParseStrategy(name).None? ==> r.None?
    ensures ParseStrategy(name).Some? ==> IsChoice(rs, request, ParseStrategy(name).value, r)
  {
    match ParseStrategy(name)
    case None => None
    case Some(s) => ChooseIsChoice(rs, request, s); Choose(rs, request, s)
  }

  /**
   * The independent description of a correct choice: `None` exactly when no region fits;
   * otherwise a fitting index that is the lowest fitting one (first fit), or of least
   * size with ties to the lowest index (best fit), or of greatest size with ties to the
   * lowest index (worst fit).
   */
  ghost predicate IsChoice(rs: seq<Region>, request: int, s: Strategy, r: Option<nat>) {
    match r
    case None => forall j :: 0 <= j < |rs| ==> !Fits(rs[j], request)
    case Some(i) =>
      && i < |rs|
      && Fits(rs[i], request)
      && match s
         case FirstFit =>
           forall j :: 0 <= j < i ==> !Fits(rs[j], request)
         case BestFit =>
           && (forall j :: 0 <= j < |rs| && Fits(rs[j], request) ==> rs[i].size <= rs[j].size)
           && (forall j :: 0 <= j < i && Fits(rs[j], request) ==> rs[i].size < rs[j].size)
         case WorstFit =>
           && (forall j :: 0 <= j < |rs| && Fits(rs[j], request) ==> rs[i].size >= rs[j].size)
           && (forall j :: 0 <= j < i && Fits(rs[j], request) ==> rs[i].size > rs[j].size)
  }

  /** The left-to-right scan makes a correct choice. */
  lemma {:induction false} ChooseIsChoice(rs: seq<Region>, request: int, s: Strategy)
    ensures IsChoice(rs, request, s, Choose(rs, request, s))
  {
    if rs != [] {
      var init := rs[..|rs| - 1];
      ChooseIsChoice(init, request, s);
      assert forall j :: 0 <= j < |init| ==> init[j] == rs[j];
    }
  }

  /** A correct choice is unique, so the description above determines the selectors. */
  lemma ChoiceIsUnique(rs: seq<Region>, request: int, s: Strategy, r1: Option<nat>, r2: Option<nat>)
    requires IsChoice(rs, request, s, r1) && IsChoice(rs, request, s, r2)
    ensures r1 == r2
  {
  }

  /**
   * The selector loops of `_find_partition` / `_find_block`: first fit returns at the first
   * fitting region; best and worst fit keep the best index and size seen so far.
   */
  method FindFit(rs: seq<Region>, request: int, strategy: string) returns (r: Option<nat>)
    ensures r == ChooseByName(rs, request, strategy)
    ensures ParseStrategy(strategy).None? ==> r.None?
    ensures ParseStrategy(strategy).Some? ==> IsChoice(rs, request, ParseStrategy(strategy).value, r)
  {
    if strategy == "first_fit" {
      for i := 0 to |rs|
        invariant forall j :: 0 <= j < i ==> !Fits(rs[j], request)
      {
        if rs[i].free && rs[i].size >= request {
          r := Some(i);
          ChooseIsChoice(rs, request, FirstFit);
          ChoiceIsUnique(rs, request, FirstFit, r, Choose(rs, request, FirstFit));
          return;
        }
      }
      r := None;
      ChooseIsChoice(rs, request, FirstFit);
      ChoiceIsUnique(rs, request, FirstFit, r, Choose(rs, request, FirstFit));
    } else if strategy == "best_fit" || strategy == "worst_fit" {
      var s := if strategy == "best_fit" then BestFit else WorstFit;
      var best: Option<nat> := None;
      var bestSize: int := 0;
      for i := 0 to |rs|
        invariant best == Choose(rs[..i], request, s)
        invariant best.Some? ==> best.value < i && bestSize == rs[best.value].size
      {
        assert rs[..i + 1][..i] == rs[..i];
        if rs[i].free && rs[i].size >= request {
          var better := if s == BestFit then rs[i].size < bestSize else rs[i].size > bestSize;
          if best.None? || better {
            best := Some(i);
            bestSize := rs[i].size;
          }
        }
      }
      assert rs[..|rs|] == rs;
      r := best;
    } else {
      r := None;
    }
  }
}
