/**
 * `BuddySystem`: a binary buddy allocator over a power-of-two memory. Free blocks are kept
 * in one bucket per block size; a block of size `2^k` is said to have order `k`, and
 * bucket `k` lists, in order, the start addresses of the free blocks of that size.
 */
module BuddyAllocator {
  import opened Common

  function Pow2(k: nat): (p: nat)
    ensures p >= 1
  {
    if k == 0 then 1 else 2 * Pow2(k - 1)
  }

  lemma {:induction false} Pow2Monotone(i: nat, k: nat)
    requires i <= k
    ensures Pow2(i) <= Pow2(k)
    decreases k
  {
    if i < k {
      Pow2Monotone(i, k - 1);
    }
  }

  /** Comparing two powers of two compares their exponents. */
  lemma Pow2Order(i: nat, k: nat)
    ensures Pow2(i) <= Pow2(k) <==> i <= k
  {
    if i <= k {
      Pow2Monotone(i, k);
    } else {
      Pow2Monotone(k + 1, i);
    }
  }

  /** Python's `int.bit_length` on a non-negative number: the count of its binary digits. */
  function BitLength(n: nat): nat {
    if n == 0 then 0 else 1 + BitLength(n / 2)
  }

  /** `n` needs exactly `BitLength(n)` binary digits. */
  lemma {:induction false} BitLengthBounds(n: nat)
    ensures n < Pow2(BitLength(n))
    ensures n > 0 ==> Pow2(BitLength(n) - 1) <= n
  {
    if n > 0 {
      BitLengthBounds(n / 2);
    }
  }

  function Abs(x: int): nat {
    if x < 0 then -x else x
  }

  /** The order of `_next_power_of_two(x)`: `(x - 1).bit_length()`, which ignores the sign. */
  function RoundedOrder(x: int): nat {
    BitLength(Abs(x - 1))
  }

  /** `_next_power_of_two(x)`, that is `1 << (x - 1).bit_length()`. */
  function NextPowerOfTwo(x: int): nat {
    Pow2(RoundedOrder(x))
  }

  /** For `x >= 1` the rounded size is the least power of two that is at least `x`. */
  lemma NextPowerOfTwoIsLeast(x: int)
    requires x >= 1
    ensures x <= NextPowerOfTwo(x)
    ensures forall k: nat :: x <= Pow2(k) ==> NextPowerOfTwo(x) <= Pow2(k)
  {
    var j := RoundedOrder(x);
    BitLengthBounds(x - 1);
    forall k: nat | x <= Pow2(k) ensures Pow2(j) <= Pow2(k) {
      if k < j {
        Pow2Monotone(k, j - 1);
      } else {
        Pow2Monotone(j, k);
      }
    }
  }

  /** Rounded sizes: 1, 5, 8, 9 become 1, 8, 8, 16; 0 becomes 2 because `(-1).bit_length()` is 1. */
  lemma NextPowerOfTwoExamples()
    ensures NextPowerOfTwo(1) == 1 && NextPowerOfTwo(5) == 8 && NextPowerOfTwo(8) == 8
    ensures NextPowerOfTwo(9) == 16 && NextPowerOfTwo(0) == 2
  {
    assert BitLength(4) == 3 && BitLength(7) == 3 && BitLength(8) == 4;
  }

  /** Whether `n` is a power of two. */
  predicate IsPowerOfTwo(n: nat) {
    n >= 1 && Pow2(BitLength(n) - 1) == n
  }

  /** Python's `^` on non-negative integers, bit by bit. */
  function Xor(a: nat, b: nat): nat
    decreases a + b
  {
    if a == 0 then b
    else if b == 0 then a
    else 2 * Xor(a / 2, b / 2) + (if a % 2 == b % 2 then 0 else 1)
  }

  /** Whether the `k` lowest bits of `a` are zero, so that `a` may start a block of order `k`. */
  predicate Aligned(a: nat, k: nat) {
    k == 0 || (a % 2 == 0 && Aligned(a / 2, k - 1))
  }

  lemma {:induction false} AlignedZero(k: nat)
    ensures Aligned(0, k)
  {
    if k > 0 {
      AlignedZero(k - 1);
    }
  }

  /** An address aligned to an order is aligned to every smaller order. */
  lemma {:induction false} AlignedWeaken(a: nat, i: nat, k: nat)
    requires i <= k && Aligned(a, k)
    ensures Aligned(a, i)
    decreases k
  {
    if i > 0 {
      AlignedWeaken(a / 2, i - 1, k - 1);
    }
  }

  /** The upper half of a block of order `k + 1` starts at an address of order exactly `k`. */
  lemma {:induction false} AlignedUpperHalf(a: nat, k: nat)
    requires Aligned(a, k + 1)
    ensures Aligned(a + Pow2(k), k) && !Aligned(a + Pow2(k), k + 1)
  {
    if k > 0 {
      assert (a + Pow2(k)) / 2 == a / 2 + Pow2(k - 1);
      AlignedUpperHalf(a / 2, k - 1);
    }
  }

  /**
   * The buddy of the block of order `k` at `a` is `a ^ 2^k`: the next block when `a` starts
   * a block of order `k + 1`, the previous one (which then does) otherwise.
   */
  lemma {:induction false} XorBuddy(a: nat, k: nat)
    requires Aligned(a, k)
    ensures var buddy := Xor(a, Pow2(k));
            if Aligned(a, k + 1) then buddy == a + Pow2(k)
            else buddy + Pow2(k) == a && Aligned(buddy, k + 1)
  {
    if a == 0 {
      AlignedZero(k + 1);
    } else if k == 0 {
      var h := a / 2;
      assert Xor(h, 0) == h;
      assert Xor(a, 1) == 2 * h + (if a % 2 == 1 then 0 else 1);
      assert Aligned(a, 1) <==> a % 2 == 0;
      if a % 2 == 1 {
        assert (2 * h) / 2 == h && Aligned(2 * h, 1);
      }
    } else {
      var p := Pow2(k - 1);
      var h := a / 2;
      assert Pow2(k) == 2 * p;
      assert a == 2 * h && (2 * p) / 2 == p;
      var half := Xor(h, p);
      assert Xor(a, 2 * p) == 2 * half;
      assert Aligned(a, k + 1) <==> Aligned(h, k);
      XorBuddy(h, k - 1);
      if !Aligned(h, k) {
        assert (2 * half) / 2 == half && (2 * half) % 2 == 0;
      }
    }
  }

  /** No address occurs twice in a list. */
  predicate NoDup(s: seq<nat>) {
    forall i, j :: 0 <= i < j < |s| ==> s[i] != s[j]
  }

  /** Python's `list.remove`: drops the first occurrence of `x`, if any. */
  function Remove(s: seq<nat>, x: nat): (r: seq<nat>)
    ensures |r| == if x in s then |s| - 1 else |s|
    ensures forall y :: y != x ==> (y in r <==> y in s)
  {
    if s == [] then []
    else if s[0] == x then s[1..]
    else [s[0]] + Remove(s[1..], x)
  }

  /** On a list without repetitions, `remove` deletes every occurrence and creates none. */
  lemma {:induction false} RemoveNoDup(s: seq<nat>, x: nat)
    requires NoDup(s)
    ensures NoDup(Remove(s, x)) && x !in Remove(s, x)
  {
    if s != [] {
      assert NoDup(s[1..]);
      assert s[0] !in s[1..];
      if s[0] != x {
        RemoveNoDup(s[1..], x);
        var rest := Remove(s[1..], x);
        var r := [s[0]] + rest;
        forall i, j | 0 <= i < j < |r| ensures r[i] != r[j] {
          assert r[j] == rest[j - 1] && rest[j - 1] in rest;
          if i > 0 {
            assert r[i] == rest[i - 1];
          }
        }
      }
    }
  }

  /** Removing an address just appended to a list that did not hold it gives the list back. */
  lemma {:induction false} RemoveAppended(s: seq<nat>, x: nat)
    requires x !in s
    ensures Remove(s + [x], x) == s
  {
    if s != [] {
      assert (s + [x])[1..] == s[1..] + [x];
      RemoveAppended(s[1..], x);
    }
  }

  /** A free block: its start address and its order. */
  type Block = (nat, nat)

  /** The free blocks the buckets list. */
  ghost function Blocks(b: seq<seq<nat>>): set<Block> {
    set k, a | 0 <= k < |b| && a in b[k] :: (a, k)
  }

  /** Whether block `p` covers address `x`. */
  ghost predicate Holds(p: Block, x: nat) {
    p.0 <= x < p.0 + Pow2(p.1)
  }

  /** The addresses a block of order `k` at `a` covers. */
  ghost function Span(a: nat, k: nat): set<nat> {
    set x: nat | x < a + Pow2(k) && Holds((a, k), x)
  }

  /** The addresses the blocks of `s` cover. */
  ghost function Cells(s: set<Block>): set<nat> {
    set p, x: nat | p in s && x < p.0 + Pow2(p.1) && Holds(p, x) :: x
  }

  /** The two blocks do not overlap. */
  ghost predicate Apart(p: Block, q: Block) {
    p.0 + Pow2(p.1) <= q.0 || q.0 + Pow2(q.1) <= p.0
  }

  /**
   * The invariant of the free lists of a memory of order `|b| - 1`: no list repeats an
   * address, every free block is aligned to its size and lies inside the memory, and no
   * two free blocks overlap.
   */
  ghost predicate FreeListsValid(b: seq<seq<nat>>) {
    && |b| >= 1
    && (forall k :: 0 <= k < |b| ==> NoDup(b[k]))
    && (forall p :: p in Blocks(b) ==> Aligned(p.0, p.1) && p.0 + Pow2(p.1) <= Pow2(|b| - 1))
    && (forall p, q :: p in Blocks(b) && q in Blocks(b) && p != q ==> Apart(p, q))
  }

  lemma BlocksPush(b: seq<seq<nat>>, k: nat, x: nat)
    requires k < |b|
    ensures Blocks(b[k := b[k] + [x]]) == Blocks(b) + {(x, k)}
  {
    var b' := b[k := b[k] + [x]];
    forall p | p in Blocks(b') ensures p in Blocks(b) + {(x, k)} {
      assert p.0 in b'[p.1];
    }
    forall p | p in Blocks(b) + {(x, k)} ensures p in Blocks(b') {
      assert p.0 in b'[p.1];
    }
  }

  lemma BlocksPop(b: seq<seq<nat>>, k: nat)
    requires k < |b| && b[k] != [] && NoDup(b[k])
    ensures NoDup(b[k][1..])
    ensures Blocks(b[k := b[k][1..]]) == Blocks(b) - {(b[k][0], k)}
  {
    var b' := b[k := b[k][1..]];
    assert b[k] == [b[k][0]] + b[k][1..];
    forall p | p in Blocks(b') ensures p in Blocks(b) - {(b[k][0], k)} {
      assert p.0 in b'[p.1];
    }
    forall p | p in Blocks(b) - {(b[k][0], k)} ensures p in Blocks(b') {
      assert p.0 in b[p.1];
    }
  }

  lemma BlocksRemove(b: seq<seq<nat>>, k: nat, x: nat)
    requires k < |b| && NoDup(b[k])
    ensures NoDup(Remove(b[k], x))
    ensures Blocks(b[k := Remove(b[k], x)]) == Blocks(b) - {(x, k)}
  {
    RemoveNoDup(b[k], x);
    var b' := b[k := Remove(b[k], x)];
    forall p | p in Blocks(b') ensures p in Blocks(b) - {(x, k)} {
      assert p.0 in b'[p.1];
    }
    forall p | p in Blocks(b) - {(x, k)} ensures p in Blocks(b') {
      assert p.0 in b[p.1];
    }
  }

  lemma CellsAdd(s: set<Block>, p: Block)
    ensures Cells(s + {p}) == Cells(s) + Span(p.0, p.1)
  {
    forall x: nat | x in Cells(s + {p}) ensures x in Cells(s) + Span(p.0, p.1) {
      var q :| q in s + {p} && Holds(q, x);
      assert Holds(q, x);
      assert q.0 <= x;
      assert x < q.0 + Pow2(q.1);
      if q != p {
        assert x in Cells(s);
      }
    }
  }

  /** Blocks apart from a block cover none of its addresses. */
  lemma CellsApart(s: set<Block>, p: Block)
    requires forall q :: q in s ==> Apart(q, p)
    ensures Cells(s) !! Span(p.0, p.1)
  {
    forall x | x in Cells(s) ensures x !in Span(p.0, p.1) {
      var q :| q in s && Holds(q, x);
      assert Apart(q, p);
    }
  }

  /** A block of order `k + 1` is its two halves. */
  lemma SpanSplit(a: nat, k: nat)
    ensures Span(a, k + 1) == Span(a, k) + Span(a + Pow2(k), k)
  {
    assert forall x: nat :: Holds((a, k + 1), x) <==> Holds((a, k), x) || Holds((a + Pow2(k), k), x);
  }

  lemma NoDupAppend(s: seq<nat>, x: nat)
    requires NoDup(s) && x !in s
    ensures NoDup(s + [x])
  {
    forall i, j | 0 <= i < j < |s + [x]| ensures (s + [x])[i] != (s + [x])[j] {
      assert (s + [x])[i] == s[i];
      if j < |s| {
        assert (s + [x])[j] == s[j];
      }
    }
  }

  /** Whether a block of order `k` at `a` may be added: aligned, inside the memory, clear of every free block. */
  ghost predicate Releasable(b: seq<seq<nat>>, a: nat, k: nat) {
    && k < |b|
    && Aligned(a, k)
    && a + Pow2(k) <= Pow2(|b| - 1)
    && (forall p :: p in Blocks(b) ==> Apart(p, (a, k)))
  }

  /** Appending a releasable block to its bucket keeps the free lists valid. */
  lemma AddBlockKeepsValid(b: seq<seq<nat>>, k: nat, x: nat)
    requires FreeListsValid(b) && Releasable(b, x, k)
    ensures FreeListsValid(b[k := b[k] + [x]])
    ensures Blocks(b[k := b[k] + [x]]) == Blocks(b) + {(x, k)}
  {
    assert x in b[k] ==> (x, k) in Blocks(b);
    assert !Apart((x, k), (x, k));
    NoDupAppend(b[k], x);
    BlocksPush(b, k, x);
  }

  /** Taking the front address off a bucket keeps the free lists valid. */
  lemma PopBlockKeepsValid(b: seq<seq<nat>>, k: nat)
    requires FreeListsValid(b) && k < |b| && b[k] != []
    ensures FreeListsValid(b[k := b[k][1..]])
    ensures Blocks(b[k := b[k][1..]]) == Blocks(b) - {(b[k][0], k)}
  {
    BlocksPop(b, k);
  }

  /** Removing an address from a bucket keeps the free lists valid. */
  lemma RemoveBlockKeepsValid(b: seq<seq<nat>>, k: nat, x: nat)
    requires FreeListsValid(b) && k < |b|
    ensures FreeListsValid(b[k := Remove(b[k], x)])
    ensures Blocks(b[k := Remove(b[k], x)]) == Blocks(b) - {(x, k)}
  {
    BlocksRemove(b, k, x);
  }

  /** The lowest order, from `k` on and not below `j`, whose bucket is non-empty. */
  function FirstBucket(b: seq<seq<nat>>, j: nat, k: nat): (r: Option<nat>)
    ensures r.Some? ==> k <= r.value < |b| && j <= r.value && b[r.value] != []
    decreases |b| - k
  {
    if k >= |b| then None
    else if k >= j && b[k] != [] then Some(k)
    else FirstBucket(b, j, k + 1)
  }

  /** `FirstBucket` skips only empty buckets, and finds nothing only when all sufficient ones are empty. */
  lemma {:induction false} FirstBucketIsLowest(b: seq<seq<nat>>, j: nat, k: nat)
    ensures match FirstBucket(b, j, k)
            case None => forall i :: k <= i < |b| && j <= i ==> b[i] == []
            case Some(m) => forall i :: k <= i < m && j <= i ==> b[i] == []
    decreases |b| - k
  {
    if k < |b| && !(k >= j && b[k] != []) {
      FirstBucketIsLowest(b, j, k + 1);
    }
  }

  /**
   * The split loop of `allocate`: halving a block of order `k` at `a` down to order `j`,
   * each upper half `a + 2^(k-1)`, ..., `a + 2^j` joins the back of its bucket.
   */
  function SplitDown(b: seq<seq<nat>>, a: nat, k: nat, j: nat): (r: seq<seq<nat>>)
    requires j <= k < |b|
    ensures |r| == |b|
    decreases k - j
  {
    if k == j then b
    else SplitDown(b[k - 1 := b[k - 1] + [a + Pow2(k - 1)]], a, k - 1, j)
  }

  /** One halving, then the rest of the split. */
  lemma SplitDownUnfold(b: seq<seq<nat>>, a: nat, k: nat, j: nat)
    requires j < k < |b|
    ensures SplitDown(b, a, k, j) == SplitDown(b[k - 1 := b[k - 1] + [a + Pow2(k - 1)]], a, k - 1, j)
  {
  }

  /** The address `allocate` returns for a request of rounded order `j`. */
  function AllocatedAddress(b: seq<seq<nat>>, j: nat): Option<nat> {
    match FirstBucket(b, j, 0)
    case None => None
    case Some(k) => Some(b[k][0])
  }

  /** The free lists after `allocate` for a request of rounded order `j`. */
  function AfterAllocate(b: seq<seq<nat>>, j: nat): (r: seq<seq<nat>>)
    ensures |r| == |b|
  {
    match FirstBucket(b, j, 0)
    case None => b
    case Some(k) => SplitDown(b[k := b[k][1..]], b[k][0], k, j)
  }

  /**
   * The merge loop of `deallocate` from order `k`: while the order is inside the memory,
   * a free buddy `a ^ 2^k` is taken out of its bucket and the merged block moves one order
   * up; otherwise the block joins the back of its bucket. A block whose order exceeds the
   * memory is dropped, as the loop then never runs.
   */
  function Coalesce(b: seq<seq<nat>>, a: nat, k: nat): (r: seq<seq<nat>>)
    ensures |r| == |b|
    decreases |b| - k
  {
    if k >= |b| then b
    else
      var buddy := Xor(a, Pow2(k));
      if buddy in b[k] then Coalesce(b[k := Remove(b[k], buddy)], if a <= buddy then a else buddy, k + 1)
      else b[k := b[k] + [a]]
  }

  /**
   * One halving: the upper half of a releasable block of order `k` joins bucket `k - 1`,
   * the free lists stay valid and the lower half is releasable.
   */
  lemma SplitStep(b: seq<seq<nat>>, a: nat, k: nat)
    requires 0 < k < |b| && FreeListsValid(b) && Releasable(b, a, k)
    ensures FreeListsValid(b[k - 1 := b[k - 1] + [a + Pow2(k - 1)]])
    ensures Releasable(b[k - 1 := b[k - 1] + [a + Pow2(k - 1)]], a, k - 1)
  {
    assert Aligned(a + Pow2(k - 1), k - 1) && Aligned(a, k - 1) by {
      AlignedUpperHalf(a, k - 1);
      AlignedWeaken(a, k - 1, k);
    }
    HalvesApart(Blocks(b), a, k);
    AddUpperHalf(b, a, a + Pow2(k - 1), k - 1);
  }

  /**
   * Adding a releasable block `y` of order `k` to its bucket keeps the free lists valid and
   * keeps a block `x` below it, clear of the lists, releasable.
   */
  lemma AddUpperHalf(b: seq<seq<nat>>, x: nat, y: nat, k: nat)
    requires FreeListsValid(b) && Releasable(b, y, k) && Releasable(b, x, k) && x + Pow2(k) <= y
    ensures FreeListsValid(b[k := b[k] + [y]]) && Releasable(b[k := b[k] + [y]], x, k)
  {
    AddBlockKeepsValid(b, k, y);
  }

  /** Blocks apart from a block of order `k > 0` are apart from both of its halves. */
  lemma HalvesApart(s: set<Block>, a: nat, k: nat)
    requires k > 0 && forall p :: p in s ==> Apart(p, (a, k))
    ensures forall p :: p in s ==> Apart(p, (a, k - 1)) && Apart(p, (a + Pow2(k - 1), k - 1))
  {
    forall p | p in s ensures Apart(p, (a, k - 1)) && Apart(p, (a + Pow2(k - 1), k - 1)) {
      assert Apart(p, (a, k));
    }
  }

  /** The upper half of one halving is a new, aligned block whose buddy is the lower half. */
  lemma SplitStepBuddy(b: seq<seq<nat>>, a: nat, k: nat)
    requires 0 < k < |b| && Aligned(a, k)
    ensures var piece := a + Pow2(k - 1);
            && Blocks(b[k - 1 := b[k - 1] + [piece]]) == Blocks(b) + {(piece, k - 1)}
            && Aligned(piece, k - 1) && BuddyOf((piece, k - 1)) == (a, k - 1)
  {
    var piece := a + Pow2(k - 1);
    BlocksPush(b, k - 1, piece);
    AlignedUpperHalf(a, k - 1);
    XorBuddy(piece, k - 1);
  }

  /** One halving covers, with the lower half, what the lists and the whole block covered. */
  lemma SplitStepCells(b: seq<seq<nat>>, a: nat, k: nat)
    requires 0 < k < |b|
    ensures var b' := b[k - 1 := b[k - 1] + [a + Pow2(k - 1)]];
            Cells(Blocks(b')) + Span(a, k - 1) == Cells(Blocks(b)) + Span(a, k)
  {
    var i := k - 1;
    var piece := a + Pow2(i);
    var b' := b[i := b[i] + [piece]];
    BlocksPush(b, i, piece);
    CellsAdd(Blocks(b), (piece, i));
    SpanSplit(a, i);
    var c', c, lower, upper, whole := Cells(Blocks(b')), Cells(Blocks(b)), Span(a, i), Span(piece, i), Span(a, k);
    assert c' == c + upper;
    assert whole == lower + upper;
    UnionRegroup(c', c, upper, lower, whole);
  }

  /** Regrouping a union: from `d == c + u` and `w == l + u`, `d + l == c + w`. */
  lemma UnionRegroup(d: set<nat>, c: set<nat>, u: set<nat>, l: set<nat>, w: set<nat>)
    requires d == c + u && w == l + u
    ensures d + l == c + w
  {
  }

  /**
   * Splitting a free block of order `k` at `a` down to order `j` keeps the free lists
   * valid, leaves the block of order `j` at `a` clear of them, and covers, with that block,
   * exactly what the lists and the original block covered.
   */
  lemma SplitDownKeepsFreeLists(b: seq<seq<nat>>, a: nat, k: nat, j: nat)
    requires j <= k < |b| && FreeListsValid(b) && Releasable(b, a, k)
    ensures var r := SplitDown(b, a, k, j);
            && FreeListsValid(r)
            && Releasable(r, a, j)
            && Cells(Blocks(r)) + Span(a, j) == Cells(Blocks(b)) + Span(a, k)
  {
    SplitDownKeepsValid(b, a, k, j);
    SplitDownCells(b, a, k, j);
  }

  /** Splitting keeps the free lists valid and leaves the block of order `j` at `a` releasable. */
  lemma {:induction false} SplitDownKeepsValid(b: seq<seq<nat>>, a: nat, k: nat, j: nat)
    requires j <= k < |b| && FreeListsValid(b) && Releasable(b, a, k)
    ensures FreeListsValid(SplitDown(b, a, k, j)) && Releasable(SplitDown(b, a, k, j), a, j)
    decreases k - j
  {
    if k > j {
      var b' := b[k - 1 := b[k - 1] + [a + Pow2(k - 1)]];
      SplitStep(b, a, k);
      SplitDownKeepsValid(b', a, k - 1, j);
      assert SplitDown(b, a, k, j) == SplitDown(b', a, k - 1, j);
    }
  }

  /** Splitting covers, with the block of order `j` at `a`, what the lists and the block of order `k` covered. */
  lemma {:induction false} SplitDownCells(b: seq<seq<nat>>, a: nat, k: nat, j: nat)
    requires j <= k < |b|
    ensures Cells(Blocks(SplitDown(b, a, k, j))) + Span(a, j) == Cells(Blocks(b)) + Span(a, k)
    decreases k - j
  {
    if k > j {
      var b' := b[k - 1 := b[k - 1] + [a + Pow2(k - 1)]];
      SplitDownUnfold(b, a, k, j);
      SplitStepCells(b, a, k);
      SplitDownCells(b', a, k - 1, j);
    }
  }

  /**
   * `allocate` on valid free lists: it finds nothing exactly when every bucket of the
   * rounded order or above is empty, and then changes nothing; otherwise the returned
   * address is aligned to the rounded size, the block there lies inside the memory, is
   * clear of the remaining free blocks, and together with them covers exactly what the
   * free blocks covered before.
   */
  lemma AllocateKeepsFreeLists(b: seq<seq<nat>>, j: nat)
    requires FreeListsValid(b)
    ensures FreeListsValid(AfterAllocate(b, j))
    ensures AllocatedAddress(b, j).None? <==> forall k :: j <= k < |b| ==> b[k] == []
    ensures AllocatedAddress(b, j).None? ==> AfterAllocate(b, j) == b
    ensures AllocatedAddress(b, j).Some? ==>
              var a := AllocatedAddress(b, j).value;
              var r := AfterAllocate(b, j);
              && Releasable(r, a, j)
              && Cells(Blocks(r)) !! Span(a, j)
              && Cells(Blocks(r)) + Span(a, j) == Cells(Blocks(b))
  {
    FirstBucketIsLowest(b, j, 0);
    match FirstBucket(b, j, 0)
    case None =>
    case Some(k) =>
      var a := b[k][0];
      assert (a, k) in Blocks(b);
      var b0 := b[k := b[k][1..]];
      PopBlockKeepsValid(b, k);
      assert Releasable(b0, a, k);
      CellsAdd(Blocks(b0), (a, k));
      assert Blocks(b0) + {(a, k)} == Blocks(b);
      SplitDownKeepsFreeLists(b0, a, k, j);
      CellsApart(Blocks(AfterAllocate(b, j)), (a, j));
  }

  /**
   * `deallocate` of a releasable block keeps the free lists valid and adds exactly the
   * block's addresses to what they cover; the merging never runs past the memory.
   */
  lemma {:induction false} CoalesceKeepsFreeLists(b: seq<seq<nat>>, a: nat, k: nat)
    requires FreeListsValid(b) && Releasable(b, a, k)
    ensures FreeListsValid(Coalesce(b, a, k))
    ensures Cells(Blocks(b)) !! Span(a, k)
    ensures Cells(Blocks(Coalesce(b, a, k))) == Cells(Blocks(b)) + Span(a, k)
    decreases |b| - k
  {
    CellsApart(Blocks(b), (a, k));
    var buddy := Xor(a, Pow2(k));
    if buddy in b[k] {
      MergeWithBuddy(b, a, k);
      var m := if a <= buddy then a else buddy;
      CoalesceKeepsFreeLists(b[k := Remove(b[k], buddy)], m, k + 1);
    } else {
      AddBlockKeepsValid(b, k, a);
      CellsAdd(Blocks(b), (a, k));
    }
  }

  /**
   * The buddy of an aligned block and the block itself make up the block of the next order
   * that starts at the lower of the two.
   */
  lemma BuddyPair(a: nat, k: nat)
    requires Aligned(a, k)
    ensures var buddy := Xor(a, Pow2(k));
            var m := if a <= buddy then a else buddy;
            && Aligned(m, k + 1)
            && ((m == a && buddy == a + Pow2(k)) || (m == buddy && a == buddy + Pow2(k)))
            && Span(m, k + 1) == Span(a, k) + Span(buddy, k)
  {
    XorBuddy(a, k);
    var buddy := Xor(a, Pow2(k));
    var m := if a <= buddy then a else buddy;
    SpanSplit(m, k);
  }

  /**
   * One merge step: when the buddy of a releasable block is free, the merged block of the
   * next order is releasable once the buddy is out of its bucket, and covers the same.
   */
  lemma MergeWithBuddy(b: seq<seq<nat>>, a: nat, k: nat)
    requires FreeListsValid(b) && Releasable(b, a, k) && Xor(a, Pow2(k)) in b[k]
    ensures var buddy := Xor(a, Pow2(k));
            var m := if a <= buddy then a else buddy;
            var b' := b[k := Remove(b[k], buddy)];
            && FreeListsValid(b')
            && Releasable(b', m, k + 1)
            && Cells(Blocks(b')) + Span(m, k + 1) == Cells(Blocks(b)) + Span(a, k)
  {
    var buddy := Xor(a, Pow2(k));
    var m := if a <= buddy then a else buddy;
    BuddyPair(a, k);
    MergeBlocks(b, a, buddy, m, k);
    MergeCells(b, a, buddy, m, k);
  }

  /**
   * Taking the free buddy `y` of a releasable block `x` out of its bucket keeps the free
   * lists valid and makes their union, starting at `m`, releasable.
   */
  lemma MergeBlocks(b: seq<seq<nat>>, x: nat, y: nat, m: nat, k: nat)
    requires FreeListsValid(b) && Releasable(b, x, k) && y in b[k]
    requires Aligned(m, k + 1) && ((m == x && y == x + Pow2(k)) || (m == y && x == y + Pow2(k)))
    ensures var b' := b[k := Remove(b[k], y)];
            FreeListsValid(b') && Releasable(b', m, k + 1)
  {
    assert y + Pow2(k) <= Pow2(|b| - 1) by {
      assert (y, k) in Blocks(b);
    }
    assert m + Pow2(k + 1) <= Pow2(|b| - 1);
    assert k + 1 < |b| by {
      Pow2Order(k + 1, |b| - 1);
    }
    var b' := b[k := Remove(b[k], y)];
    assert FreeListsValid(b') && Blocks(b') == Blocks(b) - {(y, k)} by {
      RemoveBlockKeepsValid(b, k, y);
    }
    MergeApart(Blocks(b), (x, k), (y, k), m, k);
  }

  /**
   * In a set of pairwise apart blocks that are all apart from `x`, every block but `x`'s
   * buddy `y` is apart from the block `x` and `y` make up together.
   */
  lemma MergeApart(s: set<Block>, x: Block, y: Block, m: nat, k: nat)
    requires (x == (m, k) && y == (m + Pow2(k), k)) || (y == (m, k) && x == (m + Pow2(k), k))
    requires y in s
    requires forall p :: p in s ==> Apart(p, x)
    requires forall p, q :: p in s && q in s && p != q ==> Apart(p, q)
    ensures forall p :: p in s - {y} ==> Apart(p, (m, k + 1))
  {
    forall p | p in s - {y} ensures Apart(p, (m, k + 1)) {
      assert Apart(p, x) && Apart(p, y);
    }
  }

  /** Taking the free buddy out and merging covers, with the merged block, what was covered before. */
  lemma MergeCells(b: seq<seq<nat>>, x: nat, y: nat, m: nat, k: nat)
    requires k < |b| && NoDup(b[k]) && y in b[k] && Span(m, k + 1) == Span(x, k) + Span(y, k)
    ensures Cells(Blocks(b[k := Remove(b[k], y)])) + Span(m, k + 1) == Cells(Blocks(b)) + Span(x, k)
  {
    var b' := b[k := Remove(b[k], y)];
    BlocksRemove(b, k, y);
    assert (y, k) in Blocks(b);
    assert Blocks(b') + {(y, k)} == Blocks(b);
    CellsAdd(Blocks(b'), (y, k));
    var d, c, u, l, w := Cells(Blocks(b)), Cells(Blocks(b')), Span(y, k), Span(x, k), Span(m, k + 1);
    assert d == c + u;
    assert w == l + u;
    UnionRegroup(d, c, u, l, w);
  }

  /** Taking the buddy twice gives the block back. */
  lemma BuddyOfBuddy(a: nat, k: nat)
    requires Aligned(a, k)
    ensures Aligned(Xor(a, Pow2(k)), k) && Xor(Xor(a, Pow2(k)), Pow2(k)) == a
  {
    var buddy := Xor(a, Pow2(k));
    XorBuddy(a, k);
    if Aligned(a, k + 1) {
      AlignedUpperHalf(a, k);
      XorBuddy(buddy, k);
    } else {
      AlignedWeaken(buddy, k, k + 1);
      XorBuddy(buddy, k);
    }
  }

  /** The buddy of a free block, as a block of the same order. */
  function BuddyOf(p: Block): Block {
    (Xor(p.0, Pow2(p.1)), p.1)
  }

  /** No free block has its buddy free as well: such pairs are always merged. */
  ghost predicate NoFreeBuddies(s: set<Block>) {
    forall p :: p in s ==> BuddyOf(p) !in s
  }

  /** Adding an aligned block whose buddy is not free keeps buddies apart. */
  lemma AddKeepsNoFreeBuddies(s: set<Block>, p: Block)
    requires NoFreeBuddies(s) && Aligned(p.0, p.1) && BuddyOf(p) !in s
    requires forall q :: q in s ==> Aligned(q.0, q.1)
    ensures NoFreeBuddies(s + {p})
  {
    BuddyOfBuddy(p.0, p.1);
    XorBuddy(p.0, p.1);
    forall q | q in s ensures BuddyOf(q) != p {
      BuddyOfBuddy(q.0, q.1);
    }
  }

  /** Splitting keeps buddies apart: the buddy of each new half is the block still being split. */
  lemma {:induction false} SplitDownKeepsNoFreeBuddies(b: seq<seq<nat>>, a: nat, k: nat, j: nat)
    requires j <= k < |b| && FreeListsValid(b) && Releasable(b, a, k) && NoFreeBuddies(Blocks(b))
    ensures NoFreeBuddies(Blocks(SplitDown(b, a, k, j)))
    decreases k - j
  {
    if k > j {
      var b' := b[k - 1 := b[k - 1] + [a + Pow2(k - 1)]];
      SplitStep(b, a, k);
      SplitStepNoFreeBuddies(b, a, k);
      SplitDownKeepsNoFreeBuddies(b', a, k - 1, j);
      assert SplitDown(b, a, k, j) == SplitDown(b', a, k - 1, j);
    }
  }

  /** One halving keeps buddies apart: the buddy of the new upper half is the lower half, which is not free. */
  lemma SplitStepNoFreeBuddies(b: seq<seq<nat>>, a: nat, k: nat)
    requires 0 < k < |b| && FreeListsValid(b) && Releasable(b, a, k) && NoFreeBuddies(Blocks(b))
    ensures NoFreeBuddies(Blocks(b[k - 1 := b[k - 1] + [a + Pow2(k - 1)]]))
  {
    var piece := a + Pow2(k - 1);
    SplitStepBuddy(b, a, k);
    assert !Apart((a, k - 1), (a, k));
    assert (a, k - 1) !in Blocks(b);
    AddKeepsNoFreeBuddies(Blocks(b), (piece, k - 1));
  }

  /** `allocate` keeps buddies apart. */
  lemma AllocateKeepsNoFreeBuddies(b: seq<seq<nat>>, j: nat)
    requires FreeListsValid(b) && NoFreeBuddies(Blocks(b))
    ensures NoFreeBuddies(Blocks(AfterAllocate(b, j)))
  {
    match FirstBucket(b, j, 0)
    case None =>
    case Some(k) =>
      var a := b[k][0];
      assert (a, k) in Blocks(b);
      var b0 := b[k := b[k][1..]];
      PopBlockKeepsValid(b, k);
      assert Releasable(b0, a, k);
      assert NoFreeBuddies(Blocks(b0));
      SplitDownKeepsNoFreeBuddies(b0, a, k, j);
  }

  /** `allocate` keeps the free lists valid and free of buddy pairs, and hands out a releasable block. */
  lemma AllocateKeepsInvariants(b: seq<seq<nat>>, j: nat)
    requires FreeListsValid(b) && NoFreeBuddies(Blocks(b))
    ensures FreeListsValid(AfterAllocate(b, j)) && NoFreeBuddies(Blocks(AfterAllocate(b, j)))
    ensures AllocatedAddress(b, j).Some? ==> Releasable(AfterAllocate(b, j), AllocatedAddress(b, j).value, j)
  {
    AllocateKeepsFreeLists(b, j);
    AllocateKeepsNoFreeBuddies(b, j);
  }

  /** `deallocate` of a releasable block keeps buddies apart: merging stops only at a non-free buddy. */
  lemma {:induction false} CoalesceKeepsNoFreeBuddies(b: seq<seq<nat>>, a: nat, k: nat)
    requires FreeListsValid(b) && Releasable(b, a, k) && NoFreeBuddies(Blocks(b))
    ensures NoFreeBuddies(Blocks(Coalesce(b, a, k)))
    decreases |b| - k
  {
    var buddy := Xor(a, Pow2(k));
    if buddy in b[k] {
      MergeWithBuddy(b, a, k);
      RemoveBlockKeepsValid(b, k, buddy);
      var m := if a <= buddy then a else buddy;
      CoalesceKeepsNoFreeBuddies(b[k := Remove(b[k], buddy)], m, k + 1);
    } else {
      AddBlockKeepsValid(b, k, a);
      AddKeepsNoFreeBuddies(Blocks(b), (a, k));
    }
  }

  /** `deallocate` of a releasable block keeps both invariants and adds exactly its addresses. */
  lemma CoalesceKeepsInvariants(b: seq<seq<nat>>, a: nat, k: nat)
    requires FreeListsValid(b) && Releasable(b, a, k) && NoFreeBuddies(Blocks(b))
    ensures FreeListsValid(Coalesce(b, a, k)) && NoFreeBuddies(Blocks(Coalesce(b, a, k)))
    ensures Cells(Blocks(Coalesce(b, a, k))) == Cells(Blocks(b)) + Span(a, k)
  {
    CoalesceKeepsFreeLists(b, a, k);
    CoalesceKeepsNoFreeBuddies(b, a, k);
  }

  /** The last halving of a split puts the half of order `j` at the back of bucket `j`. */
  lemma {:induction false} SplitDownLast(b: seq<seq<nat>>, a: nat, k: nat, j: nat)
    requires j < k < |b|
    ensures var s := SplitDown(b, a, k, j + 1);
            s[j] == b[j] && SplitDown(b, a, k, j) == s[j := s[j] + [a + Pow2(j)]]
    decreases k - j
  {
    if k > j + 1 {
      SplitDownLast(b[k - 1 := b[k - 1] + [a + Pow2(k - 1)]], a, k - 1, j);
    }
  }

  /** Releasing the lower half of a split block finds the upper half just appended and merges. */
  lemma CoalesceMergesWithUpperHalf(s: seq<seq<nat>>, a: nat, i: nat)
    requires i < |s| && Aligned(a, i + 1) && a + Pow2(i) !in s[i]
    ensures Coalesce(s[i := s[i] + [a + Pow2(i)]], a, i) == Coalesce(s, a, i + 1)
  {
    var piece := a + Pow2(i);
    var s' := s[i := s[i] + [piece]];
    AlignedWeaken(a, i, i + 1);
    XorBuddy(a, i);
    assert Xor(a, Pow2(i)) == piece && piece in s'[i];
    RemoveAppended(s[i], piece);
    assert s'[i := Remove(s'[i], piece)] == s;
  }

  /** Merging the half of order `i` left by a split gives the lists of the split stopped one order higher. */
  lemma CoalesceUndoesHalving(b: seq<seq<nat>>, a: nat, k: nat, i: nat)
    requires i < k < |b| && Aligned(a, k) && a + Pow2(i) !in b[i]
    ensures Coalesce(SplitDown(b, a, k, i), a, i) == Coalesce(SplitDown(b, a, k, i + 1), a, i + 1)
  {
    var s := SplitDown(b, a, k, i + 1);
    var piece := a + Pow2(i);
    assert SplitDown(b, a, k, i) == s[i := s[i] + [piece]] && s[i] == b[i] by {
      SplitDownLast(b, a, k, i);
    }
    AlignedWeaken(a, i + 1, k);
    CoalesceMergesWithUpperHalf(s, a, i);
  }

  /**
   * Merging the block of order `i` at `a` back up through the halves a split from order
   * `k` left behind gives the same lists as releasing the whole block of order `k`.
   */
  lemma {:induction false} CoalesceUndoesSplit(b: seq<seq<nat>>, a: nat, k: nat, i: nat)
    requires i <= k < |b| && Aligned(a, k)
    requires forall t {:trigger b[t]} :: i <= t < k ==> a + Pow2(t) !in b[t]
    ensures Coalesce(SplitDown(b, a, k, i), a, i) == Coalesce(b, a, k)
    decreases k - i
  {
    if i < k {
      CoalesceUndoesHalving(b, a, k, i);
      CoalesceUndoesSplit(b, a, k, i + 1);
    }
  }

  /**
   * Allocating and then releasing the same block restores the free lists, except that the
   * reused address moves from the front to the back of its bucket.
   */
  lemma AllocateThenDeallocate(b: seq<seq<nat>>, j: nat)
    requires FreeListsValid(b) && NoFreeBuddies(Blocks(b)) && AllocatedAddress(b, j).Some?
    ensures var k := FirstBucket(b, j, 0).value;
            var a := b[k][0];
            Coalesce(AfterAllocate(b, j), a, j) == b[k := b[k][1..] + [a]]
  {
    var k := FirstBucket(b, j, 0).value;
    var a := b[k][0];
    var b0 := b[k := b[k][1..]];
    assert (a, k) in Blocks(b);
    forall t | j <= t < k ensures a + Pow2(t) !in b0[t] {
      Pow2Monotone(t + 1, k);
      var half: Block := (a + Pow2(t), t);
      assert !Apart(half, (a, k));
      assert half.0 in b[half.1] ==> half in Blocks(b);
    }
    CoalesceUndoesSplit(b0, a, k, j);
    assert BuddyOf((a, k)) !in Blocks(b);
    assert forall x :: x in b0[k] ==> x in b[k];
  }

  /** The free lists of a fresh memory of order `n`: only the whole memory is free. */
  lemma InitialFreeLists(n: nat)
    ensures var b := seq(n, _ => []) + [[0]];
            |b| == n + 1 && FreeListsValid(b) && NoFreeBuddies(Blocks(b)) && Blocks(b) == {(0, n)}
  {
    var b: seq<seq<nat>> := seq(n, _ => []) + [[0]];
    forall p | p in Blocks(b) ensures p == (0, n) {
      assert p.0 in b[p.1];
    }
    assert 0 in b[n];
    AlignedZero(n);
    assert Xor(0, Pow2(n)) == Pow2(n);
  }

  class BuddySystem {
    /** The memory size, a power of two. */
    const size: nat
    /** `freeBlocks[k]` lists the free addresses of blocks of size `2^k`, up to the whole memory. */
    var freeBlocks: seq<seq<nat>>

    /** One bucket per order up to the order of the whole memory. */
    ghost predicate Shaped()
      reads this
    {
      |freeBlocks| >= 1 && size == Pow2(|freeBlocks| - 1)
    }

    /** The free lists are well formed and no free block has a free buddy. */
    ghost predicate Valid()
      reads this
    {
      Shaped() && FreeListsValid(freeBlocks) && NoFreeBuddies(Blocks(freeBlocks))
    }

    /** The whole memory is one free block at address 0. */
    constructor (size: nat)
      requires IsPowerOfTwo(size)
      ensures Valid() && this.size == size
      ensures |freeBlocks| == BitLength(size)
      ensures Blocks(freeBlocks) == {(0, |freeBlocks| - 1)}
      ensures freeBlocks == seq(|freeBlocks| - 1, _ => []) + [[0]]
    {
      this.size := size;
      var order := BitLength(size) - 1;
      InitialFreeLists(order);
      freeBlocks := seq(order, _ => []) + [[0]];
    }

    /**
     * Rounds the request up to a power of two, takes the front address of the smallest
     * sufficient non-empty bucket and splits that block down to the rounded size; returns
     * `None` and changes nothing when every sufficient bucket is empty. On valid free
     * lists they stay valid, and the block at the returned address can be handed back to
     * `Deallocate`.
     */
    method Allocate(pid: Pid, request: int) returns (address: Option<nat>)
      requires Shaped()
      modifies this
      ensures Shaped()
      ensures address == AllocatedAddress(old(freeBlocks), RoundedOrder(request))
      ensures freeBlocks == AfterAllocate(old(freeBlocks), RoundedOrder(request))
      ensures old(Valid()) ==> Valid()
      ensures old(Valid()) && address.Some? ==> Releasable(freeBlocks, address.value, RoundedOrder(request))
    {
      var j := RoundedOrder(request);
      var rounded := NextPowerOfTwo(request);
      ghost var valid := Valid();
      for k := 0 to |freeBlocks|
        invariant freeBlocks == old(freeBlocks)
        invariant FirstBucket(freeBlocks, j, 0) == FirstBucket(freeBlocks, j, k)
      {
        var currentSize := Pow2(k);
        Pow2Order(j, k);
        if currentSize >= rounded && freeBlocks[k] != [] {
          var a := freeBlocks[k][0];
          address := Some(a);
          freeBlocks := freeBlocks[k := freeBlocks[k][1..]];
          SplitBlock(a, k, currentSize, rounded, j);
          if valid {
            AllocateKeepsInvariants(old(freeBlocks), j);
          }
          return;
        }
      }
      address := None;
      if valid {
        AllocateKeepsInvariants(old(freeBlocks), j);
      }
    }

    /**
     * The halving loop of `allocate`: while the block of order `k` at `a` is larger than the
     * rounded request, halve it and put its upper half at the back of its bucket.
     */
    method SplitBlock(a: nat, k: nat, blockSize: nat, rounded: nat, ghost j: nat)
      requires j <= k < |freeBlocks| && blockSize == Pow2(k) && rounded == Pow2(j)
      modifies this
      ensures freeBlocks == SplitDown(old(freeBlocks), a, k, j)
    {
      var current := k;
      var currentSize := blockSize;
      Pow2Order(current, j);
      while currentSize > rounded
        invariant j <= current <= k && currentSize == Pow2(current)
        invariant |freeBlocks| == |old(freeBlocks)|
        invariant SplitDown(freeBlocks, a, current, j) == SplitDown(old(freeBlocks), a, k, j)
        invariant currentSize > rounded <==> current > j
        decreases current
      {
        ghost var before := freeBlocks;
        current := current - 1;
        currentSize := currentSize / 2;
        freeBlocks := freeBlocks[current := freeBlocks[current] + [a + currentSize]];
        assert SplitDown(before, a, current + 1, j) == SplitDown(freeBlocks, a, current, j);
        Pow2Order(current, j);
      }
    }

    /**
     * Rounds the size up to a power of two and releases the block at `address`, merging it
     * with its free buddy for as long as there is one. When the free lists are valid and
     * the block is clear of every free block, they stay valid and then cover exactly one
     * more block's worth of addresses.
     */
    method Deallocate(address: nat, request: int)
      requires Shaped()
      modifies this
      ensures Shaped()
      ensures freeBlocks == Coalesce(old(freeBlocks), address, RoundedOrder(request))
      ensures old(Valid() && Releasable(freeBlocks, address, RoundedOrder(request))) ==>
                && Valid()
                && Cells(Blocks(freeBlocks)) == old(Cells(Blocks(freeBlocks))) + Span(address, RoundedOrder(request))
    {
      ghost var target := Coalesce(freeBlocks, address, RoundedOrder(request));
      ghost var releasable := Valid() && Releasable(freeBlocks, address, RoundedOrder(request));
      var k: nat := RoundedOrder(request);
      var blockSize := NextPowerOfTwo(request);
      var a := address;
      while blockSize <= size
        invariant blockSize == Pow2(k) && |freeBlocks| == |old(freeBlocks)|
        invariant Coalesce(freeBlocks, a, k) == target
        decreases |freeBlocks| - k
      {
        Pow2Order(k, |freeBlocks| - 1);
        var buddy := Xor(a, blockSize);
        if buddy in freeBlocks[k] {
          freeBlocks := freeBlocks[k := Remove(freeBlocks[k], buddy)];
          a := if a <= buddy then a else buddy;
          blockSize := blockSize * 2;
          k := k + 1;
        } else {
          freeBlocks := freeBlocks[k := freeBlocks[k] + [a]];
          if releasable {
            CoalesceKeepsInvariants(old(freeBlocks), address, RoundedOrder(request));
          }
          return;
        }
      }
      Pow2Order(k, |freeBlocks| - 1);
      if releasable {
        CoalesceKeepsInvariants(old(freeBlocks), address, RoundedOrder(request));
      }
    }
  }

  /**
   * A round trip: in a memory of 64, a request of 5 is rounded to 8
   * and gets address 0, leaving free blocks 8@8, 16@16 and 32@32; releasing it merges
   * everything back into the single free block 0@64.
   */
  method BuddyExample() {
    assert BitLength(64) == 7;
    var m := new BuddySystem(64);
    assert |m.freeBlocks| == 7;
    assert m.freeBlocks == [[], [], [], [], [], [], [0]];
    assert RoundedOrder(5) == 3;
    ExampleSplit();
    var a := m.Allocate(1, 5);
    assert a == Some(0);
    assert m.freeBlocks == [[], [], [], [8], [16], [32], []];
    ExampleMerge();
    m.Deallocate(0, 5);
    assert m.freeBlocks == [[], [], [], [], [], [], [0]];
  }

  lemma ExampleSplit()
    ensures var b: seq<seq<nat>> := [[], [], [], [], [], [], [0]];
            AllocatedAddress(b, 3) == Some(0) && AfterAllocate(b, 3) == [[], [], [], [8], [16], [32], []]
  {
    var b: seq<seq<nat>> := [[], [], [], [], [], [], [0]];
    assert FirstBucket(b, 3, 6) == Some(6);
    assert FirstBucket(b, 3, 3) == Some(6);
    assert FirstBucket(b, 3, 0) == Some(6);
    var e: seq<seq<nat>> := [[], [], [], [], [], [], []];
    assert b[6][1..] == [];
    assert b[6 := b[6][1..]] == e;
    assert Pow2(3) == 8 && Pow2(4) == 16 && Pow2(5) == 32;
    var s5 := e[5 := [32]];
    var s4 := s5[4 := [16]];
    var s3 := s4[3 := [8]];
    assert e[5] + [0 + Pow2(5)] == [32];
    assert s5[4] + [0 + Pow2(4)] == [16];
    assert s4[3] + [0 + Pow2(3)] == [8];
    assert SplitDown(e, 0, 6, 3) == SplitDown(s5, 0, 5, 3);
    assert SplitDown(s5, 0, 5, 3) == SplitDown(s4, 0, 4, 3);
    assert SplitDown(s4, 0, 4, 3) == s3;
    assert s3 == [[], [], [], [8], [16], [32], []];
  }

  lemma ExampleMerge()
    ensures Coalesce([[], [], [], [8], [16], [32], []], 0, 3) == [[], [], [], [], [], [], [0]]
  {
    assert Pow2(3) == 8 && Pow2(4) == 16 && Pow2(5) == 32 && Pow2(6) == 64;
    var s: seq<seq<nat>> := [[], [], [], [8], [16], [32], []];
    var s4 := s[3 := []];
    var s5 := s4[4 := []];
    var s6 := s5[5 := []];
    assert Remove([8], 8) == [] && Remove([16], 16) == [] && Remove([32], 32) == [];
    assert Coalesce(s, 0, 3) == Coalesce(s4, 0, 4);
    assert Coalesce(s4, 0, 4) == Coalesce(s5, 0, 5);
    assert Coalesce(s5, 0, 5) == Coalesce(s6, 0, 6);
    assert s6[6] + [0] == [0];
    assert Coalesce(s6, 0, 6) == s6[6 := [0]];
    assert s6[6 := [0]] == [[], [], [], [], [], [], [0]];
  }
}
