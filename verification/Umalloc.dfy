/**
 The allocator of user/umalloc.c (section 8.7 of The C Programming Language, 2nd edition):
 `malloc`, `free` and `morecore` over a circular list of free blocks in address order.

 Addresses count `Header`-sized units.  `base`, the empty header the list starts with, is
 static data and lies below the heap.  The ghosts say what the headers in memory represent:
 `blocks`, the list in address order from `base`; `alloc`, the sizes of the blocks handed
 out; `owner`, which block every unit obtained from the system belongs to.
 */
module Umalloc {
  import opened Bytes
  import opened Params

  const HEADER_BYTES := 16
  const MIN_UNITS := 4096
  const MAX_UNITS := 0x800_0000  // a larger request overflows the int argument of sbrk

  datatype Header = Header(ptr: int, size: int)

  type Headers = map<int, Header>

  // ----- The circular list -----

  predicate LinkedAt(hdr: Headers, xs: seq<int>, i: nat) {
    && i < |xs| && xs[i] in hdr
    && hdr[xs[i]].ptr == (if i + 1 < |xs| then xs[i + 1] else xs[0])
  }

  ghost predicate Cycle(hdr: Headers, xs: seq<int>) {
    forall i :: 0 <= i < |xs| ==> LinkedAt(hdr, xs, i)
  }

  /** Ascending addresses without overlap, starting with the empty block at `base`. */
  ghost predicate Ascending(hdr: Headers, xs: seq<int>, base: int) {
    && xs != [] && xs[0] == base && base > 0
    && (forall i :: 0 <= i < |xs| ==> xs[i] in hdr)
    && hdr[base].size == 0
    && (forall i :: 1 <= i < |xs| ==> hdr[xs[i]].size >= 1 && xs[i] > base)
    && (forall i, j :: 0 <= i < j < |xs| ==> xs[i] + hdr[xs[i]].size <= xs[j])
  }

  /** Block i ends before the next one starts, so the two cannot be merged. */
  predicate GapAt(hdr: Headers, xs: seq<int>, i: nat) {
    i + 1 < |xs| && xs[i] in hdr && xs[i] + hdr[xs[i]].size < xs[i + 1]
  }

  ghost predicate Apart(hdr: Headers, xs: seq<int>) {
    forall i :: 0 <= i < |xs| - 1 ==> GapAt(hdr, xs, i)
  }

  // ----- Who owns which unit -----

  predicate Covers(hdr: Headers, b: int, u: int) {
    b in hdr && b <= u < b + hdr[b].size
  }

  /** Block headers of the heap: free ones, and ones handed out. */
  predicate IsBlock(xs: seq<int>, alloc: map<int, int>, base: int, b: int) {
    (b in xs && b != base) || b in alloc
  }

  ghost predicate Owned(hdr: Headers, xs: seq<int>, alloc: map<int, int>, owner: map<int, int>, base: int) {
    && (forall b :: b in alloc ==> b > base && b !in xs && b in hdr && hdr[b].size == alloc[b] >= 1)
    && (forall b, u :: IsBlock(xs, alloc, base, b) && Covers(hdr, b, u) ==> u in owner && owner[u] == b)
    && (forall u :: u in owner ==> IsBlock(xs, alloc, base, owner[u]) && Covers(hdr, owner[u], u))
  }

  ghost predicate Heap(hdr: Headers, xs: seq<int>, alloc: map<int, int>, owner: map<int, int>, base: int) {
    Cycle(hdr, xs) && Ascending(hdr, xs, base) && Owned(hdr, xs, alloc, owner, base)
  }

  // ----- Finding the place of a freed block -----

  /** The last block of the list below the address */
  ghost predicate IsPlace(xs: seq<int>, bp: int, t: nat) {
    t < |xs| && xs[t] < bp && (t + 1 < |xs| ==> bp < xs[t + 1])
  }

  lemma {:induction false} PlaceExists(xs: seq<int>, bp: int, n: nat) returns (t: nat)
    requires 1 <= n <= |xs| && xs[0] < bp && bp !in xs
    requires forall i, j :: 0 <= i < j < |xs| ==> xs[i] < xs[j]
    requires forall i :: n <= i < |xs| ==> bp < xs[i]
    ensures IsPlace(xs, bp, t)
    decreases n
  {
    if xs[n - 1] < bp {
      t := n - 1;
    } else {
      t := PlaceExists(xs, bp, n - 1);
    }
  }

  /** The stopping condition of the search loop in `free` */
  predicate StopsAt(hdr: Headers, p: int, bp: int)
    requires p in hdr
  {
    var next := hdr[p].ptr;
    (bp > p && bp < next) || (p >= next && (bp > p || bp < next))
  }

  lemma StopsAtPlace(hdr: Headers, xs: seq<int>, base: int, bp: int, t: nat, i: nat)
    requires Cycle(hdr, xs) && Ascending(hdr, xs, base) && IsPlace(xs, bp, t) && i < |xs| && bp > base
    ensures xs[i] in hdr && (StopsAt(hdr, xs[i], bp) <==> i == t)
  {
    assert LinkedAt(hdr, xs, i);
    if i + 1 < |xs| {
      assert xs[i] + hdr[xs[i]].size <= xs[i + 1];
    }
  }

  // ----- Linking a freed block in, and merging neighbours -----

  function Linked(hdr: Headers, p: int, bp: int): Headers
    requires p in hdr && bp in hdr
  {
    hdr[bp := Header(hdr[p].ptr, hdr[bp].size)][p := Header(bp, hdr[p].size)]
  }

  function InsertAt(xs: seq<int>, t: nat, bp: int): seq<int>
    requires t < |xs|
  {
    xs[..t + 1] + [bp] + xs[t + 1..]
  }

  /** The freed block overlaps neither neighbour. */
  lemma Neighbours(hdr: Headers, xs: seq<int>, alloc: map<int, int>, owner: map<int, int>, base: int, bp: int, i: nat)
    requires Heap(hdr, xs, alloc, owner, base) && bp in alloc && i < |xs|
    ensures xs[i] < bp ==> xs[i] + hdr[xs[i]].size <= bp
    ensures bp < xs[i] ==> bp + hdr[bp].size <= xs[i]
  {
    assert xs[i] in xs;
    assert IsBlock(xs, alloc, base, bp) && Covers(hdr, bp, bp);
    if i > 0 {
      assert IsBlock(xs, alloc, base, xs[i]) && Covers(hdr, xs[i], xs[i]);
      if xs[i] < bp < xs[i] + hdr[xs[i]].size {
        assert Covers(hdr, xs[i], bp);
      }
      if bp < xs[i] < bp + hdr[bp].size {
        assert Covers(hdr, bp, xs[i]);
      }
    }
  }

  lemma LinkedCycle(hdr: Headers, xs: seq<int>, base: int, bp: int, t: nat)
    requires Cycle(hdr, xs) && Ascending(hdr, xs, base) && IsPlace(xs, bp, t) && bp in hdr && bp !in xs
    ensures Cycle(Linked(hdr, xs[t], bp), InsertAt(xs, t, bp))
  {
    var hdr', xs' := Linked(hdr, xs[t], bp), InsertAt(xs, t, bp);
    assert forall i, j :: 0 <= i < j < |xs| ==> xs[i] != xs[j] by {
      forall i, j | 0 <= i < j < |xs| ensures xs[i] != xs[j] {
        assert xs[i] + hdr[xs[i]].size <= xs[j];
      }
    }
    assert LinkedAt(hdr, xs, t);
    forall i | 0 <= i < |xs'| ensures LinkedAt(hdr', xs', i) {
      if i < t {
        assert LinkedAt(hdr, xs, i);
      } else if i > t + 1 {
        assert LinkedAt(hdr, xs, i - 1);
      }
    }
  }

  lemma Sides(hdr: Headers, xs: seq<int>, base: int, bp: int, t: nat, i: nat)
    requires Ascending(hdr, xs, base) && IsPlace(xs, bp, t) && i < |xs|
    ensures if i <= t then xs[i] < bp else bp < xs[i]
  {
    if i < t {
      assert xs[i] + hdr[xs[i]].size <= xs[t];
    } else if i > t + 1 {
      assert xs[t + 1] + hdr[xs[t + 1]].size <= xs[i];
    }
  }

  lemma InsertAscending(hdr: Headers, hdr': Headers, xs: seq<int>, base: int, bp: int, t: nat)
    requires Ascending(hdr, xs, base) && t < |xs| && bp in hdr && hdr[bp].size >= 1 && bp > base
    requires forall a :: a in hdr ==> a in hdr' && hdr'[a].size == hdr[a].size
    requires forall i :: 0 <= i <= t ==> xs[i] + hdr[xs[i]].size <= bp
    requires forall i :: t < i < |xs| ==> bp + hdr[bp].size <= xs[i]
    ensures Ascending(hdr', InsertAt(xs, t, bp), base)
  {
    var xs' := InsertAt(xs, t, bp);
    forall i | 0 <= i < |xs'| ensures xs'[i] == (if i <= t then xs[i] else if i == t + 1 then bp else xs[i - 1]) {
    }
    forall i, j | 0 <= i < j < |xs'| ensures xs'[i] + hdr'[xs'[i]].size <= xs'[j] {
      if i != t + 1 && j != t + 1 {
        var i0, j0 := if i <= t then i else i - 1, if j <= t then j else j - 1;
        assert xs[i0] + hdr[xs[i0]].size <= xs[j0];
      }
    }
  }

  lemma LinkedAscending(hdr: Headers, xs: seq<int>, alloc: map<int, int>, owner: map<int, int>, base: int, bp: int,
                        t: nat)
    requires Heap(hdr, xs, alloc, owner, base) && Apart(hdr, xs) && bp in alloc && IsPlace(xs, bp, t)
    ensures var hdr', xs' := Linked(hdr, xs[t], bp), InsertAt(xs, t, bp);
            && Ascending(hdr', xs', base)
            && (forall i :: 0 <= i < |xs'| - 1 && i != t && i != t + 1 ==> GapAt(hdr', xs', i))
  {
    var hdr', xs' := Linked(hdr, xs[t], bp), InsertAt(xs, t, bp);
    forall i | 0 <= i < |xs|
      ensures if i <= t then xs[i] + hdr[xs[i]].size <= bp else bp + hdr[bp].size <= xs[i]
    {
      Sides(hdr, xs, base, bp, t, i);
      Neighbours(hdr, xs, alloc, owner, base, bp, i);
    }
    InsertAscending(hdr, hdr', xs, base, bp, t);
    forall i | 0 <= i < |xs'| - 1 && i != t && i != t + 1 ensures GapAt(hdr', xs', i) {
      assert GapAt(hdr, xs, if i < t then i else i - 1);
    }
  }

  lemma LinkedOwned(hdr: Headers, xs: seq<int>, alloc: map<int, int>, owner: map<int, int>, base: int, bp: int, t: nat)
    requires Heap(hdr, xs, alloc, owner, base) && bp in alloc && t < |xs|
    ensures Owned(Linked(hdr, xs[t], bp), InsertAt(xs, t, bp), alloc - {bp}, owner, base)
  {
    var hdr', xs' := Linked(hdr, xs[t], bp), InsertAt(xs, t, bp);
    assert forall a :: a in hdr' <==> a in hdr;
    assert forall a :: a in hdr ==> hdr'[a].size == hdr[a].size;
    assert forall b :: b in xs' <==> b in xs || b == bp by {
      assert xs == xs[..t + 1] + xs[t + 1..];
    }
    assert forall b, u :: Covers(hdr', b, u) == Covers(hdr, b, u);
    assert forall b :: IsBlock(xs', alloc - {bp}, base, b) == IsBlock(xs, alloc, base, b);
  }

  /** Block p swallows the block right behind it. */
  function Merged(hdr: Headers, p: int, q: int): Headers
    requires p in hdr && q in hdr
  {
    hdr[p := Header(hdr[q].ptr, hdr[p].size + hdr[q].size)]
  }

  function Reassign(owner: map<int, int>, q: int, p: int): map<int, int> {
    map u | u in owner :: if owner[u] == q then p else owner[u]
  }

  /** Blocks k and k+1 touch. */
  predicate Touch(hdr: Headers, xs: seq<int>, k: nat) {
    k + 1 < |xs| && xs[k] in hdr && xs[k] + hdr[xs[k]].size == xs[k + 1]
  }

  lemma DistinctBlocks(hdr: Headers, xs: seq<int>, base: int)
    requires Ascending(hdr, xs, base)
    ensures forall i, j :: 0 <= i < j < |xs| ==> xs[i] < xs[j]
  {
    forall i, j | 0 <= i < j < |xs| ensures xs[i] < xs[j] {
      assert xs[i] + hdr[xs[i]].size <= xs[j];
    }
  }

  lemma MergedCycle(hdr: Headers, xs: seq<int>, base: int, k: nat)
    requires Cycle(hdr, xs) && Ascending(hdr, xs, base) && Touch(hdr, xs, k)
    ensures Cycle(Merged(hdr, xs[k], xs[k + 1]), Without(xs, k + 1))
  {
    var hdr', xs' := Merged(hdr, xs[k], xs[k + 1]), Without(xs, k + 1);
    DistinctBlocks(hdr, xs, base);
    assert LinkedAt(hdr, xs, k + 1);
    forall i | 0 <= i < |xs'| ensures LinkedAt(hdr', xs', i) {
      if i < k {
        assert LinkedAt(hdr, xs, i);
      } else if i > k {
        assert LinkedAt(hdr, xs, i + 1);
      }
    }
  }

  lemma MergedAscending(hdr: Headers, xs: seq<int>, base: int, k: nat)
    requires Ascending(hdr, xs, base) && Touch(hdr, xs, k)
    ensures var hdr', xs' := Merged(hdr, xs[k], xs[k + 1]), Without(xs, k + 1);
            Ascending(hdr', xs', base)
  {
    var hdr', xs' := Merged(hdr, xs[k], xs[k + 1]), Without(xs, k + 1);
    DistinctBlocks(hdr, xs, base);
    forall i | 0 <= i < |xs'| ensures xs'[i] == xs[if i <= k then i else i + 1] {
    }
    forall i, j | 0 <= i < j < |xs'| ensures xs'[i] + hdr'[xs'[i]].size <= xs'[j] {
      var i0, j0 := if i < k then i else i + 1, if j <= k then j else j + 1;
      assert xs[i0] + hdr[xs[i0]].size <= xs[j0];
    }
  }

  lemma MergedGap(hdr: Headers, xs: seq<int>, base: int, k: nat, i: nat)
    requires Ascending(hdr, xs, base) && Touch(hdr, xs, k) && GapAt(hdr, xs, i)
    ensures i != k && GapAt(Merged(hdr, xs[k], xs[k + 1]), Without(xs, k + 1), if i < k then i else i - 1)
  {
    DistinctBlocks(hdr, xs, base);
  }

  lemma MergedOwned(hdr: Headers, xs: seq<int>, alloc: map<int, int>, owner: map<int, int>, base: int, k: nat)
    requires Heap(hdr, xs, alloc, owner, base) && Touch(hdr, xs, k)
    ensures Owned(Merged(hdr, xs[k], xs[k + 1]), Without(xs, k + 1), alloc, Reassign(owner, xs[k + 1], xs[k]), base)
  {
    var p, q := xs[k], xs[k + 1];
    var hdr', xs', owner' := Merged(hdr, p, q), Without(xs, k + 1), Reassign(owner, q, p);
    DistinctBlocks(hdr, xs, base);
    assert forall b :: b in xs <==> b in xs' || b == q by {
      assert xs == xs[..k + 1] + [q] + xs[k + 2..];
    }
    assert q !in xs';
    assert p in xs && q in xs;
    forall b, u | IsBlock(xs', alloc, base, b) && Covers(hdr', b, u) ensures u in owner' && owner'[u] == b {
      assert IsBlock(xs, alloc, base, b);
      if b == p && u >= q {
        assert IsBlock(xs, alloc, base, q) && Covers(hdr, q, u);
      } else {
        assert Covers(hdr, b, u);
      }
    }
    forall u | u in owner' ensures IsBlock(xs', alloc, base, owner'[u]) && Covers(hdr', owner'[u], u) {
      assert IsBlock(xs, alloc, base, owner[u]) && Covers(hdr, owner[u], u);
    }
  }

  lemma MergedHeap(hdr: Headers, xs: seq<int>, alloc: map<int, int>, owner: map<int, int>, base: int, k: nat)
    requires Heap(hdr, xs, alloc, owner, base) && Touch(hdr, xs, k)
    ensures var hdr', xs' := Merged(hdr, xs[k], xs[k + 1]), Without(xs, k + 1);
            Heap(hdr', xs', alloc, Reassign(owner, xs[k + 1], xs[k]), base)
  {
    hide Cycle, Ascending, Owned;
    MergedCycle(hdr, xs, base, k);
    MergedAscending(hdr, xs, base, k);
    MergedOwned(hdr, xs, alloc, owner, base, k);
  }

  /** A heap whose neighbouring blocks are apart except perhaps at positions lo to hi. */
  ghost predicate HeapExcept(h: Layout, alloc: map<int, int>, base: int, lo: int, hi: int) {
    && Heap(h.hdr, h.xs, alloc, h.owner, base)
    && forall i :: 0 <= i < |h.xs| - 1 && !(lo <= i <= hi) ==> GapAt(h.hdr, h.xs, i)
  }

  datatype Layout = Layout(hdr: Headers, xs: seq<int>, owner: map<int, int>)

  /** Blocks k and k+1 merged if they touch. */
  ghost function Coalesced(h: Layout, k: nat): Layout {
    if Touch(h.hdr, h.xs, k) && h.xs[k + 1] in h.hdr then
      Layout(Merged(h.hdr, h.xs[k], h.xs[k + 1]), Without(h.xs, k + 1), Reassign(h.owner, h.xs[k + 1], h.xs[k]))
    else
      h
  }

  lemma TouchOrGap(h: Layout, alloc: map<int, int>, base: int, k: nat)
    requires Heap(h.hdr, h.xs, alloc, h.owner, base) && k + 1 < |h.xs|
    ensures h.xs[k] in h.hdr && h.xs[k + 1] in h.hdr
    ensures Touch(h.hdr, h.xs, k) <==> !GapAt(h.hdr, h.xs, k)
  {
    assert h.xs[k] + h.hdr[h.xs[k]].size <= h.xs[k + 1];
  }

  lemma CoalesceKeeps(h: Layout, alloc: map<int, int>, base: int, lo: int, k: nat)
    requires HeapExcept(h, alloc, base, lo, k)
    ensures HeapExcept(Coalesced(h, k), alloc, base, lo, k - 1)
    ensures Coalesced(h, k).owner.Keys == h.owner.Keys
    ensures forall u, v :: u in h.owner && v in h.owner && h.owner[u] == h.owner[v]
              ==> Coalesced(h, k).owner[u] == Coalesced(h, k).owner[v]
  {
    hide Cycle, Ascending, Owned, GapAt, Merged;
    var h' := Coalesced(h, k);
    if k + 1 < |h.xs| {
      TouchOrGap(h, alloc, base, k);
      if Touch(h.hdr, h.xs, k) {
        MergedHeap(h.hdr, h.xs, alloc, h.owner, base, k);
        forall i | 0 <= i < |h'.xs| - 1 && !(lo <= i <= k - 1) ensures GapAt(h'.hdr, h'.xs, i) {
          MergedGap(h.hdr, h.xs, base, k, if i < k then i else i + 1);
        }
      }
    }
  }

  /** The headers after `free` has linked bp behind p and merged what touches. */
  function Released(hdr: Headers, p: int, bp: int): Headers
    requires p in hdr && bp in hdr && hdr[p].ptr in hdr
  {
    var next := hdr[p].ptr;
    var hdr1 := if bp + hdr[bp].size == next
                then hdr[bp := Header(hdr[next].ptr, hdr[bp].size + hdr[next].size)]
                else hdr[bp := Header(next, hdr[bp].size)];
    if p + hdr1[p].size == bp
    then hdr1[p := Header(hdr1[bp].ptr, hdr1[p].size + hdr1[bp].size)]
    else hdr1[p := Header(bp, hdr1[p].size)]
  }

  /** The same, one step at a time: link, merge with the next block, merge with the previous one. */
  ghost function FreedLayout(h: Layout, t: nat, bp: int): Layout
    requires t < |h.xs| && h.xs[t] in h.hdr && bp in h.hdr
  {
    var linked := Layout(Linked(h.hdr, h.xs[t], bp), InsertAt(h.xs, t, bp), h.owner);
    Coalesced(Coalesced(linked, t + 1), t)
  }

  lemma AllocatedHeader(h: Layout, alloc: map<int, int>, base: int, t: nat, bp: int)
    requires Heap(h.hdr, h.xs, alloc, h.owner, base) && bp in alloc && t < |h.xs|
    ensures h.xs[t] in h.hdr && bp in h.hdr && bp !in h.xs && bp > base && h.hdr[bp].size >= 1
    ensures h.hdr[h.xs[t]].ptr in h.hdr
  {
    assert LinkedAt(h.hdr, h.xs, t);
  }

  lemma AllocatedUnits(h: Layout, alloc: map<int, int>, base: int, bp: int)
    requires Heap(h.hdr, h.xs, alloc, h.owner, base) && bp in alloc
    ensures forall u :: Covers(h.hdr, bp, u) ==> u in h.owner && h.owner[u] == bp
    ensures bp in h.owner && h.owner[bp] == bp
  {
    assert IsBlock(h.xs, alloc, base, bp);
    assert Covers(h.hdr, bp, bp);
  }

  /** Doing the steps at once, as `free` does, gives the same headers. */
  lemma ReleasedIsFreed(h: Layout, alloc: map<int, int>, base: int, t: nat, bp: int)
    requires Heap(h.hdr, h.xs, alloc, h.owner, base) && bp in alloc && IsPlace(h.xs, bp, t)
    ensures t < |h.xs| && h.xs[t] in h.hdr && bp in h.hdr && h.hdr[h.xs[t]].ptr in h.hdr
    ensures Released(h.hdr, h.xs[t], bp) == FreedLayout(h, t, bp).hdr
  {
    AllocatedHeader(h, alloc, base, t, bp);
    DistinctBlocks(h.hdr, h.xs, base);
    assert LinkedAt(h.hdr, h.xs, t);
    hide Cycle, Ascending, Owned;
    var p, next := h.xs[t], h.hdr[h.xs[t]].ptr;
    var linked := Layout(Linked(h.hdr, p, bp), InsertAt(h.xs, t, bp), h.owner);
    assert linked.xs[t] == p && linked.xs[t + 1] == bp;
    assert t + 1 < |h.xs| ==> linked.xs[t + 2] == next;
    var up := Coalesced(linked, t + 1);
    assert Touch(linked.hdr, linked.xs, t + 1) <==> bp + h.hdr[bp].size == next;
    assert up.xs[t] == p && up.xs[t + 1] == bp;
    assert Touch(up.hdr, up.xs, t) <==> p + h.hdr[p].size == bp;
  }

  /** After freeing bp, every free block is the one that holds bp or is as it was. */
  ghost predicate OthersAsBefore(h: Layout, h': Layout, bp: int) {
    forall b :: b in h'.xs ==> BlockAsBefore(h, h', bp, b)
  }

  ghost predicate BlockAsBefore(h: Layout, h': Layout, bp: int, b: int) {
    || (bp in h'.owner && h'.owner[bp] == b)
    || (b in h.xs && b in h.hdr && b in h'.hdr && h'.hdr[b].size == h.hdr[b].size)
  }

  lemma CoalescedOthers(h0: Layout, h: Layout, alloc: map<int, int>, base: int, lo: int, k: nat, bp: int)
    requires HeapExcept(h, alloc, base, lo, k) && OthersAsBefore(h0, h, bp) && bp in h.owner
    requires Touch(h.hdr, h.xs, k) ==> h.owner[bp] == h.xs[k] || h.owner[bp] == h.xs[k + 1]
    ensures OthersAsBefore(h0, Coalesced(h, k), bp)
  {
    var h' := Coalesced(h, k);
    if Touch(h.hdr, h.xs, k) {
      TouchOrGap(h, alloc, base, k);
      HeapDistinct(h, alloc, base);
      hide Cycle, Ascending, Owned, GapAt;
      assert h.xs[k + 1] != h.xs[k];
      forall b | b in h'.xs ensures BlockAsBefore(h0, h', bp, b) {
        assert b in h.xs;
        assert BlockAsBefore(h0, h, bp, b);
      }
    }
  }

  lemma FreedOthers(h: Layout, alloc: map<int, int>, base: int, t: nat, bp: int)
    requires Heap(h.hdr, h.xs, alloc, h.owner, base) && Apart(h.hdr, h.xs) && bp in alloc && IsPlace(h.xs, bp, t)
    requires h.xs[t] in h.hdr && bp in h.hdr
    ensures OthersAsBefore(h, FreedLayout(h, t, bp), bp)
  {
    AllocatedUnits(h, alloc, base, bp);
    AllocatedHeader(h, alloc, base, t, bp);
    LinkedHeap(h, alloc, base, t, bp);
    var linked := Layout(Linked(h.hdr, h.xs[t], bp), InsertAt(h.xs, t, bp), h.owner);
    assert OthersAsBefore(h, linked, bp) by {
      AscendingHeaders(h, alloc, base);
      forall b | b in linked.xs ensures BlockAsBefore(h, linked, bp, b) {
        assert b in h.xs || b == bp;
      }
    }
    hide Heap, Apart, GapAt, Covers, OthersAsBefore;
    assert linked.xs[t + 1] == bp && linked.xs[t] == h.xs[t];
    CoalescedOthers(h, linked, alloc - {bp}, base, t, t + 1, bp);
    CoalesceKeeps(linked, alloc - {bp}, base, t, t + 1);
    var up := Coalesced(linked, t + 1);
    assert up.xs[t + 1] == bp && up.owner[bp] == bp;
    CoalescedOthers(h, up, alloc - {bp}, base, t, t, bp);
  }

  lemma AscendingHeaders(h: Layout, alloc: map<int, int>, base: int)
    requires Heap(h.hdr, h.xs, alloc, h.owner, base)
    ensures forall b :: b in h.xs ==> b in h.hdr
  {
  }

  lemma FreedHeap(h: Layout, alloc: map<int, int>, base: int, t: nat, bp: int)
    requires Heap(h.hdr, h.xs, alloc, h.owner, base) && Apart(h.hdr, h.xs) && bp in alloc && IsPlace(h.xs, bp, t)
    ensures t < |h.xs| && h.xs[t] in h.hdr && bp in h.hdr
    ensures var h' := FreedLayout(h, t, bp);
            && Heap(h'.hdr, h'.xs, alloc - {bp}, h'.owner, base) && Apart(h'.hdr, h'.xs)
            && h'.owner.Keys == h.owner.Keys
            && h.xs[t] in h'.xs
            && (forall u :: Covers(h.hdr, bp, u) ==> u in h'.owner && bp in h'.owner && h'.owner[u] == h'.owner[bp])
  {
    hide Heap, Apart, GapAt, Covers, Linked, InsertAt, Coalesced;
    AllocatedUnits(h, alloc, base, bp);
    AllocatedHeader(h, alloc, base, t, bp);
    var linked := Layout(Linked(h.hdr, h.xs[t], bp), InsertAt(h.xs, t, bp), h.owner);
    LinkedHeap(h, alloc, base, t, bp);
    CoalesceKeeps(linked, alloc - {bp}, base, t, t + 1);
    CoalesceKeeps(Coalesced(linked, t + 1), alloc - {bp}, base, t, t);
    AllApart(FreedLayout(h, t, bp), alloc - {bp}, base, t);
    FreedKeepsPlace(h, t, bp);
  }

  lemma LinkedHeap(h: Layout, alloc: map<int, int>, base: int, t: nat, bp: int)
    requires Heap(h.hdr, h.xs, alloc, h.owner, base) && Apart(h.hdr, h.xs) && bp in alloc && IsPlace(h.xs, bp, t)
    requires h.xs[t] in h.hdr && bp in h.hdr && bp !in h.xs
    ensures HeapExcept(Layout(Linked(h.hdr, h.xs[t], bp), InsertAt(h.xs, t, bp), h.owner), alloc - {bp}, base, t, t + 1)
  {
    hide Cycle, Ascending, Owned, GapAt, Apart, Linked, InsertAt;
    LinkedCycle(h.hdr, h.xs, base, bp, t);
    LinkedAscending(h.hdr, h.xs, alloc, h.owner, base, bp, t);
    LinkedOwned(h.hdr, h.xs, alloc, h.owner, base, bp, t);
  }

  lemma AllApart(h: Layout, alloc: map<int, int>, base: int, t: nat)
    requires HeapExcept(h, alloc, base, t, t - 1)
    ensures Heap(h.hdr, h.xs, alloc, h.owner, base) && Apart(h.hdr, h.xs)
  {
  }

  lemma FreedKeepsPlace(h: Layout, t: nat, bp: int)
    requires t < |h.xs| && h.xs[t] in h.hdr && bp in h.hdr
    ensures h.xs[t] in FreedLayout(h, t, bp).xs
  {
    var linked := Layout(Linked(h.hdr, h.xs[t], bp), InsertAt(h.xs, t, bp), h.owner);
    hide Linked, Merged, Reassign;
    var up := Coalesced(linked, t + 1);
    assert t < |up.xs| && up.xs[t] == h.xs[t];
    assert FreedLayout(h, t, bp).xs[t] == h.xs[t];
  }

  // ----- Handing a block out -----

  /** Block k leaves the list whole: its predecessor is linked to its successor. */
  ghost function Unlinked(h: Layout, k: nat): Layout
    requires 1 <= k < |h.xs| && h.xs[k - 1] in h.hdr && h.xs[k] in h.hdr
  {
    var prev := h.xs[k - 1];
    h.(hdr := h.hdr[prev := Header(h.hdr[h.xs[k]].ptr, h.hdr[prev].size)], xs := Without(h.xs, k))
  }

  lemma UnlinkedCycle(h: Layout, base: int, k: nat)
    requires Cycle(h.hdr, h.xs) && Ascending(h.hdr, h.xs, base) && 1 <= k < |h.xs|
    ensures h.xs[k - 1] in h.hdr && h.xs[k] in h.hdr
    ensures Cycle(Unlinked(h, k).hdr, Unlinked(h, k).xs)
  {
    var h' := Unlinked(h, k);
    DistinctBlocks(h.hdr, h.xs, base);
    assert LinkedAt(h.hdr, h.xs, k);
    hide Ascending;
    forall i | 0 <= i < |h'.xs| ensures LinkedAt(h'.hdr, h'.xs, i) {
      if i < k - 1 {
        assert LinkedAt(h.hdr, h.xs, i);
      } else if i >= k {
        assert LinkedAt(h.hdr, h.xs, i + 1);
      }
    }
  }

  lemma UnlinkedAscending(h: Layout, base: int, k: nat)
    requires Ascending(h.hdr, h.xs, base) && Apart(h.hdr, h.xs) && 1 <= k < |h.xs|
    ensures h.xs[k - 1] in h.hdr && h.xs[k] in h.hdr
    ensures var h' := Unlinked(h, k);
            Ascending(h'.hdr, h'.xs, base) && Apart(h'.hdr, h'.xs)
  {
    var h' := Unlinked(h, k);
    assert forall a :: a in h.hdr ==> a in h'.hdr && h'.hdr[a].size == h.hdr[a].size;
    forall i | 0 <= i < |h'.xs| ensures h'.xs[i] == h.xs[if i < k then i else i + 1] {
    }
    forall i, j | 0 <= i < j < |h'.xs| ensures h'.xs[i] + h'.hdr[h'.xs[i]].size <= h'.xs[j] {
      var i0, j0 := if i < k then i else i + 1, if j < k then j else j + 1;
      assert h.xs[i0] + h.hdr[h.xs[i0]].size <= h.xs[j0];
    }
    forall i | 0 <= i < |h'.xs| - 1 ensures GapAt(h'.hdr, h'.xs, i) {
      UnlinkedGap(h, k, i);
    }
  }

  lemma UnlinkedGap(h: Layout, k: nat, i: nat)
    requires Apart(h.hdr, h.xs) && 1 <= k < |h.xs| && i < |h.xs| - 2
    requires h.xs[k - 1] in h.hdr && h.xs[k] in h.hdr && h.hdr[h.xs[k]].size >= 0
    ensures GapAt(Unlinked(h, k).hdr, Unlinked(h, k).xs, i)
  {
    var h' := Unlinked(h, k);
    assert GapAt(h.hdr, h.xs, if i < k then i else i + 1);
    if i == k - 1 {
      assert GapAt(h.hdr, h.xs, k);
    }
  }

  lemma UnlinkedHeap(h: Layout, alloc: map<int, int>, base: int, k: nat)
    requires Heap(h.hdr, h.xs, alloc, h.owner, base) && Apart(h.hdr, h.xs) && 1 <= k < |h.xs|
    ensures h.xs[k - 1] in h.hdr && h.xs[k] in h.hdr
    ensures var h' := Unlinked(h, k);
            && Heap(h'.hdr, h'.xs, alloc[h.xs[k] := h.hdr[h.xs[k]].size], h'.owner, base)
            && Apart(h'.hdr, h'.xs)
            && h.xs[k - 1] in h'.xs
  {
    UnlinkedCycle(h, base, k);
    UnlinkedAscending(h, base, k);
    BaseFirst(h.hdr, h.xs, base, k);
    HeapDistinct(h, alloc, base);
    hide Cycle, Ascending, Apart, Owned;
    UnlinkedOwned(h, alloc, base, k);
    assert Unlinked(h, k).xs[k - 1] == h.xs[k - 1];
  }

  lemma UnlinkedOwned(h: Layout, alloc: map<int, int>, base: int, k: nat)
    requires Owned(h.hdr, h.xs, alloc, h.owner, base) && 1 <= k < |h.xs|
    requires h.xs[k - 1] in h.hdr && h.xs[k] in h.hdr && h.xs[k] > base && h.hdr[h.xs[k]].size >= 1
    requires forall i, j :: 0 <= i < j < |h.xs| ==> h.xs[i] != h.xs[j]
    ensures var h' := Unlinked(h, k);
            Owned(h'.hdr, h'.xs, alloc[h.xs[k] := h.hdr[h.xs[k]].size], h'.owner, base)
  {
    var h', b := Unlinked(h, k), h.xs[k];
    var alloc' := alloc[b := h.hdr[b].size];
    assert forall a :: a in h.xs <==> a in h'.xs || a == b by {
      assert h.xs == h.xs[..k] + [b] + h.xs[k + 1..];
    }
    assert b !in h'.xs;
    assert forall a :: a in h'.hdr <==> a in h.hdr;
    assert forall a :: a in h.hdr ==> h'.hdr[a].size == h.hdr[a].size;
    assert forall a, u :: Covers(h'.hdr, a, u) == Covers(h.hdr, a, u);
    assert forall a :: IsBlock(h'.xs, alloc', base, a) == IsBlock(h.xs, alloc, base, a);
  }

  lemma BaseFirst(hdr: Headers, xs: seq<int>, base: int, k: nat)
    requires Ascending(hdr, xs, base) && 1 <= k < |xs|
    ensures xs[0] == base && xs[k] in hdr && xs[k] > base && hdr[xs[k]].size >= 1
  {
  }

  /** Block k keeps its head; the last n units become a block of their own. */
  ghost function SplitOff(h: Layout, k: nat, n: nat): Layout
    requires k < |h.xs| && h.xs[k] in h.hdr
  {
    var p := h.xs[k];
    var q := p + h.hdr[p].size - n;
    h.(hdr := Tailed(h.hdr, p, n),
       owner := map u | u in h.owner :: if h.owner[u] == p && u >= q then q else h.owner[u])
  }

  function Tailed(hdr: Headers, p: int, n: nat): Headers
    requires p in hdr
  {
    var q := p + hdr[p].size - n;
    hdr[p := hdr[p].(size := hdr[p].size - n)][q := Header(if q in hdr then hdr[q].ptr else 0, n)]
  }

  lemma TailFree(h: Layout, alloc: map<int, int>, base: int, k: nat, n: nat)
    requires Heap(h.hdr, h.xs, alloc, h.owner, base) && 1 <= k < |h.xs|
    requires h.xs[k] in h.hdr && 1 <= n < h.hdr[h.xs[k]].size
    ensures var q := h.xs[k] + h.hdr[h.xs[k]].size - n;
            q > base && q !in h.xs && q !in alloc && !IsBlock(h.xs, alloc, base, q)
  {
    var p := h.xs[k];
    var q := p + h.hdr[p].size - n;
    BaseFirst(h.hdr, h.xs, base, k);
    assert IsBlock(h.xs, alloc, base, p) && Covers(h.hdr, p, q);
    if q in alloc {
      assert IsBlock(h.xs, alloc, base, q) && Covers(h.hdr, q, q);
    }
    if q in h.xs {
      var i :| 0 <= i < |h.xs| && h.xs[i] == q;
      assert i != 0 && IsBlock(h.xs, alloc, base, q) && Covers(h.hdr, q, q);
    }
  }

  lemma SplitList(h: Layout, base: int, k: nat, n: nat)
    requires Cycle(h.hdr, h.xs) && Ascending(h.hdr, h.xs, base) && Apart(h.hdr, h.xs) && 1 <= k < |h.xs|
    requires h.xs[k] in h.hdr && 1 <= n < h.hdr[h.xs[k]].size && h.xs[k] + h.hdr[h.xs[k]].size - n !in h.xs
    ensures var h' := SplitOff(h, k, n);
            Cycle(h'.hdr, h.xs) && Ascending(h'.hdr, h.xs, base) && Apart(h'.hdr, h.xs)
  {
    var h' := SplitOff(h, k, n);
    assert forall i :: 0 <= i < |h.xs| ==>
             h.xs[i] in h.hdr && h.xs[i] in h'.hdr && h'.hdr[h.xs[i]].ptr == h.hdr[h.xs[i]].ptr;
    assert forall i :: 0 <= i < |h.xs| ==> h'.hdr[h.xs[i]].size <= h.hdr[h.xs[i]].size;
    forall i | 0 <= i < |h.xs| ensures LinkedAt(h'.hdr, h.xs, i) {
      assert LinkedAt(h.hdr, h.xs, i);
    }
    forall i | 0 <= i < |h.xs| - 1 ensures GapAt(h'.hdr, h.xs, i) {
      assert GapAt(h.hdr, h.xs, i);
    }
    forall i, j | 0 <= i < j < |h.xs| ensures h.xs[i] + h'.hdr[h.xs[i]].size <= h.xs[j] {
      assert h.xs[i] + h.hdr[h.xs[i]].size <= h.xs[j];
    }
    BaseFirst(h.hdr, h.xs, base, k);
  }

  lemma SplitOwned(h: Layout, alloc: map<int, int>, base: int, k: nat, n: nat)
    requires Owned(h.hdr, h.xs, alloc, h.owner, base) && k < |h.xs| && h.xs[k] != base
    requires h.xs[k] in h.hdr && 1 <= n < h.hdr[h.xs[k]].size
    requires var q := h.xs[k] + h.hdr[h.xs[k]].size - n; q > base && q !in h.xs && q !in alloc
    ensures var h', q := SplitOff(h, k, n), h.xs[k] + h.hdr[h.xs[k]].size - n;
            Owned(h'.hdr, h.xs, alloc[q := n], h'.owner, base)
  {
    var p := h.xs[k];
    var h', q := SplitOff(h, k, n), p + h.hdr[p].size - n;
    var alloc' := alloc[q := n];
    assert IsBlock(h.xs, alloc, base, p);
    forall b, u | IsBlock(h.xs, alloc', base, b) && Covers(h'.hdr, b, u) ensures u in h'.owner && h'.owner[u] == b {
      if b == q {
        assert Covers(h.hdr, p, u);
      } else {
        assert IsBlock(h.xs, alloc, base, b) && Covers(h.hdr, b, u);
      }
    }
    forall u | u in h'.owner ensures IsBlock(h.xs, alloc', base, h'.owner[u]) && Covers(h'.hdr, h'.owner[u], u) {
      assert IsBlock(h.xs, alloc, base, h.owner[u]) && Covers(h.hdr, h.owner[u], u);
    }
  }

  lemma SplitHeap(h: Layout, alloc: map<int, int>, base: int, k: nat, n: nat)
    requires Heap(h.hdr, h.xs, alloc, h.owner, base) && Apart(h.hdr, h.xs) && 1 <= k < |h.xs|
    requires h.xs[k] in h.hdr && 1 <= n < h.hdr[h.xs[k]].size
    ensures var h', q := SplitOff(h, k, n), h.xs[k] + h.hdr[h.xs[k]].size - n;
            && Heap(h'.hdr, h.xs, alloc[q := n], h'.owner, base) && Apart(h'.hdr, h.xs)
            && h'.owner.Keys == h.owner.Keys && q !in alloc
  {
    TailFree(h, alloc, base, k, n);
    BaseFirst(h.hdr, h.xs, base, k);
    hide Cycle, Ascending, Owned, Apart, Tailed;
    SplitList(h, base, k, n);
    SplitOwned(h, alloc, base, k, n);
  }

  // ----- Memory from the system -----

  ghost function Grown(h: Layout, hp: int, nu: int): Layout {
    h.(hdr := h.hdr[hp := Header(if hp in h.hdr then h.hdr[hp].ptr else 0, nu)],
       owner := h.owner + (map u | hp <= u < hp + nu && WithinBlock(hp, nu, u) :: hp))
  }

  predicate WithinBlock(b: int, n: int, u: int) {
    b <= u < b + n
  }

  /** Everything the allocator has obtained lies below the break. */
  ghost predicate Below(owner: map<int, int>, base: int, brk: int) {
    base < brk && forall u :: u in owner ==> u < brk
  }

  lemma BelowTop(owner: map<int, int>, base: int, top: int)
    requires Below(owner, base, top)
    ensures base < top
  {
  }

  lemma BlocksBelow(h: Layout, alloc: map<int, int>, base: int, brk: int)
    requires Heap(h.hdr, h.xs, alloc, h.owner, base) && Below(h.owner, base, brk)
    ensures forall i :: 0 <= i < |h.xs| ==> h.xs[i] < brk
    ensures forall b :: b in alloc ==> b < brk
  {
    forall i | 0 <= i < |h.xs| ensures h.xs[i] < brk {
      if i > 0 {
        BaseFirst(h.hdr, h.xs, base, i);
        assert IsBlock(h.xs, alloc, base, h.xs[i]) && Covers(h.hdr, h.xs[i], h.xs[i]);
      }
    }
    forall b | b in alloc ensures b < brk {
      assert IsBlock(h.xs, alloc, base, b) && Covers(h.hdr, b, b);
    }
  }

  lemma SameList(hdr: Headers, hdr': Headers, xs: seq<int>, base: int)
    requires Cycle(hdr, xs) && Ascending(hdr, xs, base) && Apart(hdr, xs)
    requires forall i :: 0 <= i < |xs| && xs[i] in hdr ==> xs[i] in hdr' && hdr'[xs[i]] == hdr[xs[i]]
    ensures Cycle(hdr', xs) && Ascending(hdr', xs, base) && Apart(hdr', xs)
  {
    forall i | 0 <= i < |xs| ensures LinkedAt(hdr', xs, i) {
      assert LinkedAt(hdr, xs, i);
    }
    forall i | 0 <= i < |xs| - 1 ensures GapAt(hdr', xs, i) {
      assert GapAt(hdr, xs, i);
    }
  }

  lemma GrownOwned(h: Layout, alloc: map<int, int>, base: int, hp: int, nu: int)
    requires Owned(h.hdr, h.xs, alloc, h.owner, base)
    requires hp > base && hp !in h.xs && hp !in alloc && nu >= 1
    requires forall u :: u in h.owner ==> u < hp
    ensures var h' := Grown(h, hp, nu);
            Owned(h'.hdr, h.xs, alloc[hp := nu], h'.owner, base)
  {
    var h', alloc' := Grown(h, hp, nu), alloc[hp := nu];
    forall b, u | IsBlock(h.xs, alloc', base, b) && Covers(h'.hdr, b, u) ensures u in h'.owner && h'.owner[u] == b {
      if b != hp {
        assert IsBlock(h.xs, alloc, base, b) && Covers(h.hdr, b, u);
      } else {
        assert WithinBlock(hp, nu, u);
      }
    }
    forall u | u in h'.owner ensures IsBlock(h.xs, alloc', base, h'.owner[u]) && Covers(h'.hdr, h'.owner[u], u) {
      if u in h.owner {
        assert IsBlock(h.xs, alloc, base, h.owner[u]) && Covers(h.hdr, h.owner[u], u);
      }
    }
  }

  lemma GrownHeap(h: Layout, alloc: map<int, int>, base: int, brk: int, hp: int, nu: int)
    requires Heap(h.hdr, h.xs, alloc, h.owner, base) && Apart(h.hdr, h.xs) && Below(h.owner, base, brk)
    requires hp >= brk && nu >= 1
    ensures var h' := Grown(h, hp, nu);
            && Heap(h'.hdr, h.xs, alloc[hp := nu], h'.owner, base) && Apart(h'.hdr, h.xs)
            && Below(h'.owner, base, hp + nu) && hp !in alloc && hp !in h.owner
            && h'.owner.Keys >= h.owner.Keys
  {
    hide Cycle, Ascending, Apart, Owned;
    BlocksBelow(h, alloc, base, brk);
    SameList(h.hdr, Grown(h, hp, nu).hdr, h.xs, base);
    GrownOwned(h, alloc, base, hp, nu);
  }

  // ----- What a well-formed heap promises its users -----

  /** A block in use overlaps no other block, in use or free. */
  lemma BlocksDisjoint(h: Layout, alloc: map<int, int>, base: int, a: int, b: int)
    requires Heap(h.hdr, h.xs, alloc, h.owner, base) && a in alloc && b != a && IsBlock(h.xs, alloc, base, b)
    ensures b in h.hdr && (a + alloc[a] <= b || b + h.hdr[b].size <= a)
  {
    assert IsBlock(h.xs, alloc, base, a);
    if b in h.xs {
      var i :| 0 <= i < |h.xs| && h.xs[i] == b;
      assert i != 0 || b in alloc;
    }
    assert Covers(h.hdr, a, a) && Covers(h.hdr, b, b);
    if a < b < a + alloc[a] {
      assert Covers(h.hdr, a, b);
    } else if b < a < b + h.hdr[b].size {
      assert Covers(h.hdr, b, a);
    }
  }

  /** What a program stores in the units after the header of a block it was given cannot
      damage the heap: no header the allocator relies on is there. */
  lemma PayloadIsOutside(h: Layout, alloc: map<int, int>, base: int, b: int, u: int, junk: Header)
    requires Heap(h.hdr, h.xs, alloc, h.owner, base) && Apart(h.hdr, h.xs)
    requires b in alloc && b < u < b + alloc[b]
    ensures var hdr' := h.hdr[u := junk];
            Heap(hdr', h.xs, alloc, h.owner, base) && Apart(hdr', h.xs)
  {
    var hdr' := h.hdr[u := junk];
    assert IsBlock(h.xs, alloc, base, b) && Covers(h.hdr, b, u);
    assert forall c :: IsBlock(h.xs, alloc, base, c) ==> c != u && c in h.hdr by {
      forall c | IsBlock(h.xs, alloc, base, c) ensures c != u && c in h.hdr {
        if c in h.xs && c != base {
          var i :| 0 <= i < |h.xs| && h.xs[i] == c;
          BaseFirst(h.hdr, h.xs, base, i);
        }
        assert Covers(h.hdr, c, c);
      }
    }
    forall i | 0 <= i < |h.xs| && h.xs[i] in h.hdr ensures h.xs[i] in hdr' && hdr'[h.xs[i]] == h.hdr[h.xs[i]] {
      if i > 0 {
        BaseFirst(h.hdr, h.xs, base, i);
        assert IsBlock(h.xs, alloc, base, h.xs[i]);
      }
    }
    SameList(h.hdr, hdr', h.xs, base);
    hide Cycle, Ascending, Apart;
    assert forall c, v :: IsBlock(h.xs, alloc, base, c) ==> Covers(hdr', c, v) == Covers(h.hdr, c, v);
    assert forall c :: c in alloc ==> IsBlock(h.xs, alloc, base, c);
  }

  function Units(nbytes: nat): int {
    (nbytes + HEADER_BYTES - 1) / HEADER_BYTES + 1
  }

  /** The bytes asked of sbrk, whose parameter is a 32-bit int */
  function SbrkArgument(nu: nat): int {
    var low := nu * HEADER_BYTES % U32;
    if low < 0x8000_0000 then low else low - U32
  }

  /** The break after `sbrk`; a process is not shrunk below nothing, but left as it is. */
  function NewBreak(brk: int, arg: int): int {
    var b := brk + arg / HEADER_BYTES;
    if b < 0 then brk else b
  }

  function Succ(i: nat, n: nat): nat {
    if i + 1 < n then i + 1 else 0
  }

  lemma InList(h: Layout, alloc: map<int, int>, base: int, i: nat)
    requires Heap(h.hdr, h.xs, alloc, h.owner, base) && i < |h.xs|
    ensures h.xs[i] in h.hdr && h.hdr[h.xs[i]].ptr == h.xs[Succ(i, |h.xs|)] && h.xs[Succ(i, |h.xs|)] in h.hdr
  {
    assert LinkedAt(h.hdr, h.xs, i);
  }

  lemma HeapDistinct(h: Layout, alloc: map<int, int>, base: int)
    requires Heap(h.hdr, h.xs, alloc, h.owner, base)
    ensures forall i, j :: 0 <= i < j < |h.xs| ==> h.xs[i] != h.xs[j]
  {
    DistinctBlocks(h.hdr, h.xs, base);
  }

  lemma BaseEmpty(h: Layout, alloc: map<int, int>, base: int)
    requires Heap(h.hdr, h.xs, alloc, h.owner, base)
    ensures h.xs != [] && h.xs[0] == base && base in h.hdr && h.hdr[base].size == 0
  {
  }

  lemma BlockPositive(h: Layout, alloc: map<int, int>, base: int, p: int)
    requires Heap(h.hdr, h.xs, alloc, h.owner, base) && p in h.xs && base > 0
    ensures p > 0
  {
    var i :| 0 <= i < |h.xs| && h.xs[i] == p;
    if i > 0 {
      BaseFirst(h.hdr, h.xs, base, i);
    }
  }

  /** Some free block holds the n units from u on. */
  ghost predicate FreeHolds(hdr: Headers, xs: seq<int>, u: int, n: int) {
    exists k :: 1 <= k < |xs| && xs[k] in hdr && xs[k] <= u && u + n <= xs[k] + hdr[xs[k]].size
  }

  lemma FreedHolds(h: Layout, alloc: map<int, int>, base: int, t: nat, bp: int)
    requires Heap(h.hdr, h.xs, alloc, h.owner, base) && Apart(h.hdr, h.xs) && bp in alloc && IsPlace(h.xs, bp, t)
    requires h.xs[t] in h.hdr && bp in h.hdr
    ensures FreeHolds(FreedLayout(h, t, bp).hdr, FreedLayout(h, t, bp).xs, bp, alloc[bp])
  {
    var h', alloc' := FreedLayout(h, t, bp), alloc - {bp};
    FreedHeap(h, alloc, base, t, bp);
    assert h.xs[t] in h.xs;
    var v := bp + alloc[bp] - 1;
    assert Covers(h.hdr, bp, bp) && Covers(h.hdr, bp, v);
    AllocatedUnits(h, alloc, base, bp);
    hide Cycle, Ascending, Apart;
    var b := h'.owner[bp];
    assert b == bp || b == h.xs[t];
    assert IsBlock(h'.xs, alloc', base, b) && Covers(h'.hdr, b, bp) && Covers(h'.hdr, b, v);
    var k :| 0 <= k < |h'.xs| && h'.xs[k] == b;
    BaseEmpty(h', alloc', base);
    assert k != 0;
  }

  /** Some free block has at least n units. */
  ghost predicate SomeFits(hdr: Headers, xs: seq<int>, n: int) {
    exists k :: 1 <= k < |xs| && xs[k] in hdr && hdr[xs[k]].size >= n
  }

  /** Every block passed on the way round from freep to block k is too small. */
  ghost predicate FirstFit(hdr: Headers, xs: seq<int>, freep: int, k: nat, n: int) {
    exists f :: 0 <= f < |xs| && xs[f] == freep
      && forall j :: 0 <= j < |xs| && (if f < k then f < j < k else j > f || j < k) && xs[j] in hdr ==>
           hdr[xs[j]].size < n
  }

  lemma HoldsFits(hdr: Headers, xs: seq<int>, u: int, n: int, n': int)
    requires FreeHolds(hdr, xs, u, n) && n' <= n
    ensures SomeFits(hdr, xs, n')
  {
    var k :| 1 <= k < |xs| && xs[k] in hdr && xs[k] <= u && u + n <= xs[k] + hdr[xs[k]].size;
    assert hdr[xs[k]].size >= n';
  }

  lemma UnlinkedIs(h: Layout, alloc: map<int, int>, base: int, k: nat)
    requires Heap(h.hdr, h.xs, alloc, h.owner, base) && 1 <= k < |h.xs|
    ensures h.xs[k - 1] in h.hdr && h.xs[k] in h.hdr && h.xs[k] !in alloc && h.xs[k - 1] in h.xs
    ensures Unlinked(h, k).owner == h.owner && Unlinked(h, k).xs == Without(h.xs, k)
    ensures Unlinked(h, k).hdr == h.hdr[h.xs[k - 1] := Header(h.hdr[h.xs[k]].ptr, h.hdr[h.xs[k - 1]].size)]
  {
    assert h.xs[k] in h.xs;
  }

  lemma SplitIs(h: Layout, k: nat, n: nat)
    requires k < |h.xs| && h.xs[k] in h.hdr
    ensures SplitOff(h, k, n).hdr == Tailed(h.hdr, h.xs[k], n)
  {
  }

  ghost function UnitsOf(b: int, n: int): set<int> {
    set u | b <= u < b + n && WithinBlock(b, n, u)
  }

  lemma GrownIs(h: Layout, hp: int, nu: int)
    ensures Grown(h, hp, nu).xs == h.xs
    ensures Grown(h, hp, nu).owner.Keys == h.owner.Keys + UnitsOf(hp, nu)
    ensures Grown(h, hp, nu).hdr == h.hdr[hp := Header(if hp in h.hdr then h.hdr[hp].ptr else 0, nu)]
  {
  }

  lemma EmptyHeap(hdr: Headers, base: int)
    requires base > 0 && base in hdr && hdr[base] == Header(base, 0)
    ensures Heap(hdr, [base], map[], map[], base) && Apart(hdr, [base])
  {
  }

  /** The request reaches sbrk unchanged exactly when it is below 2 GiB; otherwise less is asked. */
  lemma SbrkArgumentExact(nu: nat)
    requires nu <= Units(U32 - 1)
    ensures SbrkArgument(nu) / HEADER_BYTES <= nu
    ensures SbrkArgument(nu) / HEADER_BYTES == nu <==> nu < MAX_UNITS
    ensures SbrkArgument(nu) == nu * HEADER_BYTES <==> nu < MAX_UNITS
    ensures -0x8000_0000 <= SbrkArgument(nu) < 0x8000_0000 && (nu * 16 - SbrkArgument(nu)) % 0x1_0000_0000 == 0
  {
  }

  /** So the break moves past the new memory exactly for a request below 2 GiB. */
  lemma BreakMoves(hp: nat, nu: nat)
    requires nu <= Units(U32 - 1)
    ensures hp + nu <= NewBreak(hp, SbrkArgument(nu)) <==> nu < MAX_UNITS
    ensures nu < MAX_UNITS ==> NewBreak(hp, SbrkArgument(nu)) == hp + nu
  {
    SbrkArgumentExact(nu);
  }

  /** The largest request: sbrk is asked for 16 bytes. */
  lemma LargestRequestWraps()
    ensures SbrkArgument(Units(U32 - 1)) == HEADER_BYTES
  {
  }

  /** Every block with n units ends at the top of memory. */
  ghost predicate FitsAtTop(hdr: Headers, xs: seq<int>, n: int, top: int) {
    forall k :: 1 <= k < |xs| && xs[k] in hdr && hdr[xs[k]].size >= n ==> xs[k] + hdr[xs[k]].size == top
  }

  lemma SmallBefore(h: Layout, alloc: map<int, int>, base: int, n: int, b: int)
    requires Heap(h.hdr, h.xs, alloc, h.owner, base) && !SomeFits(h.hdr, h.xs, n) && b != base
    ensures b in h.xs && b in h.hdr ==> h.hdr[b].size < n
  {
    BaseEmpty(h, alloc, base);
    if b in h.xs {
      var i :| 0 <= i < |h.xs| && h.xs[i] == b;
    }
  }

  /** The block with the new memory ends where that ends. */
  lemma EndsAtTop(h: Layout, alloc: map<int, int>, base: int, hp: int, nu: int)
    requires Heap(h.hdr, h.xs, alloc, h.owner, base) && Below(h.owner, base, hp + nu) && nu >= 1
    requires FreeHolds(h.hdr, h.xs, hp, nu)
    ensures hp in h.owner && h.owner[hp] in h.hdr && h.owner[hp] + h.hdr[h.owner[hp]].size == hp + nu
  {
    var k :| 1 <= k < |h.xs| && h.xs[k] in h.hdr && h.xs[k] <= hp && hp + nu <= h.xs[k] + h.hdr[h.xs[k]].size;
    var b := h.xs[k];
    BaseFirst(h.hdr, h.xs, base, k);
    var last := b + h.hdr[b].size - 1;
    assert IsBlock(h.xs, alloc, base, b) && Covers(h.hdr, b, hp) && Covers(h.hdr, b, last);
  }

  /** If nothing was large enough before, only the block with the new memory can be. */
  lemma OnlyTopFits(h: Layout, alloc: map<int, int>, grown: Layout, h': Layout, base: int, hp: int, nu: int, n: int)
    requires grown == Grown(h, hp, nu) && nu >= 1 && hp !in h.xs && Heap(h.hdr, h.xs, alloc, h.owner, base)
    requires OthersAsBefore(grown, h', hp) && Heap(h'.hdr, h'.xs, alloc, h'.owner, base) &&
             Below(h'.owner, base, hp + nu)
    requires FreeHolds(h'.hdr, h'.xs, hp, nu)
    ensures !SomeFits(h.hdr, h.xs, n) ==> FitsAtTop(h'.hdr, h'.xs, n, hp + nu)
  {
    EndsAtTop(h', alloc, base, hp, nu);
    if !SomeFits(h.hdr, h.xs, n) {
      forall k | 1 <= k < |h'.xs| && h'.xs[k] in h'.hdr && h'.hdr[h'.xs[k]].size >= n
        ensures h'.xs[k] + h'.hdr[h'.xs[k]].size == hp + nu {
        BaseFirst(h'.hdr, h'.xs, base, k);
        SmallBefore(h, alloc, base, n, h'.xs[k]);
        assert BlockAsBefore(grown, h', hp, h'.xs[k]);
      }
    }
  }

  // ----- Sizes are 32-bit -----

  predicate EndsAt(h: Layout, f: int, bp: int) {
    f in h.xs && f in h.hdr && f + h.hdr[f].size == bp
  }

  /** The units of a block and of the free blocks on either side that touch it */
  ghost function Joined(h: Layout, bp: int): int
    requires bp in h.hdr
  {
    var end := bp + h.hdr[bp].size;
    h.hdr[bp].size
    + (if end in h.xs && end in h.hdr then h.hdr[end].size else 0)
    + (if exists f :: EndsAt(h, f, bp) then var f :| EndsAt(h, f, bp); h.hdr[f].size else 0)
  }

  /** The only free block that can touch it from below is the one before its place. */
  lemma TouchesBelow(h: Layout, alloc: map<int, int>, base: int, t: nat, bp: int, f: int)
    requires Heap(h.hdr, h.xs, alloc, h.owner, base) && bp in alloc && IsPlace(h.xs, bp, t) && EndsAt(h, f, bp)
    ensures f == h.xs[t]
  {
    var i :| 0 <= i < |h.xs| && h.xs[i] == f;
    DistinctBlocks(h.hdr, h.xs, base);
  }

  /** And from above, the one behind its place, to which that one points. */
  lemma TouchesAbove(h: Layout, alloc: map<int, int>, base: int, t: nat, bp: int)
    requires Heap(h.hdr, h.xs, alloc, h.owner, base) && bp in alloc && IsPlace(h.xs, bp, t)
    ensures h.xs[t] in h.hdr && bp in h.hdr &&
            (bp + h.hdr[bp].size in h.xs <==> bp + h.hdr[bp].size == h.hdr[h.xs[t]].ptr)
  {
    AllocatedHeader(h, alloc, base, t, bp);
    assert LinkedAt(h.hdr, h.xs, t);
    DistinctBlocks(h.hdr, h.xs, base);
    var end := bp + h.hdr[bp].size;
    if end in h.xs {
      var i :| 0 <= i < |h.xs| && h.xs[i] == end;
      assert i > t;
      BaseFirst(h.hdr, h.xs, base, t + 1);
      BlocksDisjoint(h, alloc, base, bp, h.xs[t + 1]);
      assert i == t + 1;
    }
  }

  /** The block given back ends up in one that has them all. */
  lemma FreedJoined(h: Layout, alloc: map<int, int>, base: int, t: nat, bp: int)
    requires Heap(h.hdr, h.xs, alloc, h.owner, base) && Apart(h.hdr, h.xs) && bp in alloc && IsPlace(h.xs, bp, t)
    ensures h.xs[t] in h.hdr && bp in h.hdr
    ensures var h' := FreedLayout(h, t, bp);
            && bp in h'.owner && h'.owner[bp] in h'.hdr && h'.hdr[h'.owner[bp]].size == Joined(h, bp)
  {
    AllocatedHeader(h, alloc, base, t, bp);
    AllocatedUnits(h, alloc, base, bp);
    ReleasedIsFreed(h, alloc, base, t, bp);
    TouchesAbove(h, alloc, base, t, bp);
    assert h.xs[t] in h.xs;
    if f :| EndsAt(h, f, bp) {
      TouchesBelow(h, alloc, base, t, bp, f);
    }
    FreedOwner(h, alloc, base, t, bp);
  }

  lemma FreedOwner(h: Layout, alloc: map<int, int>, base: int, t: nat, bp: int)
    requires Heap(h.hdr, h.xs, alloc, h.owner, base) && bp in alloc && IsPlace(h.xs, bp, t)
    requires h.xs[t] in h.hdr && bp in h.hdr && bp in h.owner && h.owner[bp] == bp
    ensures var h' := FreedLayout(h, t, bp);
            bp in h'.owner && h'.owner[bp] == if EndsAt(h, h.xs[t], bp) then h.xs[t] else bp
  {
    DistinctBlocks(h.hdr, h.xs, base);
    assert LinkedAt(h.hdr, h.xs, t);
    AllocatedHeader(h, alloc, base, t, bp);
    hide Cycle, Ascending, Owned;
    var p := h.xs[t];
    var linked := Layout(Linked(h.hdr, p, bp), InsertAt(h.xs, t, bp), h.owner);
    assert linked.xs[t] == p && linked.xs[t + 1] == bp;
    var up := Coalesced(linked, t + 1);
    assert up.xs[t] == p && up.xs[t + 1] == bp && up.owner[bp] == bp && p in up.hdr && up.hdr[p].size == h.hdr[p].size;
    assert Touch(up.hdr, up.xs, t) <==> EndsAt(h, p, bp);
  }

  /** Every block's size fits its 32-bit field. */
  ghost predicate Fit(h: Layout, alloc: map<int, int>) {
    forall b :: b in h.xs || b in alloc ==> b in h.hdr && 0 <= h.hdr[b].size < U32
  }

  /** After a block is given back all sizes fit if they did before and this one does. */
  lemma JoinedFits(h: Layout, h': Layout, alloc: map<int, int>, base: int, bp: int)
    requires Heap(h.hdr, h.xs, alloc, h.owner, base) && bp in alloc && bp in h.hdr && OthersAsBefore(h, h', bp)
    requires Heap(h'.hdr, h'.xs, alloc - {bp}, h'.owner, base)
    requires bp in h'.owner && h'.owner[bp] in h'.hdr && h'.hdr[h'.owner[bp]].size == Joined(h, bp)
    ensures Fit(h, alloc) ==> (Fit(h', alloc - {bp}) <==> Joined(h, bp) < U32)
  {
    hide Joined, Cycle, Ascending;
    var b := h'.owner[bp];
    assert IsBlock(h'.xs, alloc - {bp}, base, b) && Covers(h'.hdr, b, bp);
    if Fit(h, alloc) && Joined(h, bp) < U32 {
      forall c | c in h'.xs || c in alloc - {bp} ensures c in h'.hdr && 0 <= h'.hdr[c].size < U32 {
        if c in h'.xs {
          assert BlockAsBefore(h, h', bp, c);
        }
      }
    }
  }

  /** As long as the allocator's memory spans at most 2^32 units, block sizes fit their field. */
  lemma SpanFits(h: Layout, alloc: map<int, int>, base: int, top: int, b: int)
    requires Heap(h.hdr, h.xs, alloc, h.owner, base) && Below(h.owner, base, top) && top - base <= U32
    requires b in h.xs || b in alloc
    ensures b in h.hdr && 0 <= h.hdr[b].size < U32
  {
    BaseEmpty(h, alloc, base);
    if b != base {
      if b in h.xs {
        var i :| 0 <= i < |h.xs| && h.xs[i] == b;
        BaseFirst(h.hdr, h.xs, base, i);
      }
      assert IsBlock(h.xs, alloc, base, b) && Covers(h.hdr, b, b + h.hdr[b].size - 1);
    }
  }

  /** When nothing is in use and the memory is in one piece, it is one free block. */
  lemma OneBlock(h: Layout, base: int, lo: int, n: int)
    requires Heap(h.hdr, h.xs, map[], h.owner, base) && Apart(h.hdr, h.xs) && h.owner.Keys == UnitsOf(lo, n) && n >= 1
    ensures h.xs == [base, lo] && lo in h.hdr && h.hdr[lo].size == n
  {
    BaseEmpty(h, map[], base);
    var k := FreeBlockOf(h, base, lo, n, lo);
    BaseFirst(h.hdr, h.xs, base, 1);
    var b := h.xs[1];
    var end := b + h.hdr[b].size;
    assert IsBlock(h.xs, map[], base, b) && Covers(h.hdr, b, b) && Covers(h.hdr, b, end - 1);
    if |h.xs| > 2 {
      assert GapAt(h.hdr, h.xs, 1);
      BaseFirst(h.hdr, h.xs, base, 2);
      assert IsBlock(h.xs, map[], base, h.xs[2]) && Covers(h.hdr, h.xs[2], h.xs[2]);
      k := FreeBlockOf(h, base, lo, n, end);
    }
    k := FreeBlockOf(h, base, lo, n, lo + n - 1);
  }

  lemma FreeBlockOf(h: Layout, base: int, lo: int, n: int, u: int) returns (k: nat)
    requires Heap(h.hdr, h.xs, map[], h.owner, base) && h.owner.Keys == UnitsOf(lo, n) && lo <= u < lo + n
    ensures 1 <= k < |h.xs| && h.xs[k] in h.hdr && h.xs[k] <= u < h.xs[k] + h.hdr[h.xs[k]].size
  {
    assert u in UnitsOf(lo, n);
    BaseEmpty(h, map[], base);
    var b := h.owner[u];
    k :| 0 <= k < |h.xs| && h.xs[k] == b;
  }

  const BIG := MAX_UNITS - 1  // units of the largest request that `sbrk` gets unchanged

  /** The blocks of k such requests in a row */
  function Row(lo: int, k: nat): (m: map<int, int>)
    ensures forall b :: b in m ==> lo <= b < lo + k * BIG && m[b] == BIG
    ensures k > 0 ==> lo + (k - 1) * BIG in m
  {
    if k == 0 then map[] else Row(lo, k - 1)[lo + (k - 1) * BIG := BIG]
  }

  lemma RowLast(lo: int, k: nat)
    requires k > 0
    ensures Row(lo, k) - {lo + (k - 1) * BIG} == Row(lo, k - 1)
  {
  }

  lemma {:induction false} RowCovers(lo: int, k: nat, u: int) returns (b: int)
    requires lo <= u < lo + k * BIG
    ensures b in Row(lo, k) && b <= u < b + BIG
  {
    if u >= lo + (k - 1) * BIG {
      b := lo + (k - 1) * BIG;
    } else {
      b := RowCovers(lo, k - 1, u);
    }
  }

  /** Between them nothing is free. */
  lemma RowFull(h: Layout, base: int, lo: int, k: nat)
    requires Heap(h.hdr, h.xs, Row(lo, k), h.owner, base) && h.owner.Keys == UnitsOf(lo, k * BIG)
    ensures !SomeFits(h.hdr, h.xs, 1)
  {
    hide Row;
    if i :| 1 <= i < |h.xs| && h.xs[i] in h.hdr && h.hdr[h.xs[i]].size >= 1 {
      BaseFirst(h.hdr, h.xs, base, i);
      var u := h.xs[i];
      assert IsBlock(h.xs, Row(lo, k), base, u) && Covers(h.hdr, u, u);
      assert u in UnitsOf(lo, k * BIG);
      var b := RowCovers(lo, k, u);
      BlocksDisjoint(h, Row(lo, k), base, b, u);
    }
  }

  lemma UnitsNext(lo: int, n: nat, m: nat)
    ensures UnitsOf(lo, n) + UnitsOf(lo + n, m) == UnitsOf(lo, n + m)
  {
  }

  /** Requests just below 2 GiB, 33 of them, and then all given back: the sizes of the blocks add up
      to a free block of more than 2^32 units, which its size field cannot hold. */
  method SizeOverflows(base: int, brk: int) returns (size: int)
    requires 0 < base < brk
    ensures size >= U32
  {
    hide Heap, Apart, Below, SomeFits, Row, UnitsOf;
    var a := new Allocator(base, brk);
    var k := 0;
    EmptyRow(brk);
    while k < 33
      invariant 0 <= k <= 33 && a.base == base && fresh(a)
      invariant a.Valid() && a.Obtained() && a.brk == brk + k * BIG && (k > 0 ==> a.freep != 0)
      invariant a.alloc == Row(brk, k) && a.owner.Keys == UnitsOf(brk, k * BIG)
    {
      NothingFits(a, brk, k);
      var r, clash := a.Malloc((BIG - 1) * HEADER_BYTES, true, 0);
      UnitsNext(brk, k * BIG, BIG);
      RowNext(brk, k);
      k := k + 1;
    }
    while k > 0
      invariant 0 <= k <= 33 && a.base == base && fresh(a)
      invariant a.Valid() && a.freep != 0 && a.alloc == Row(brk, k) && a.owner.Keys == UnitsOf(brk, 33 * BIG)
    {
      RowLast(brk, k);
      a.Free(brk + (k - 1) * BIG + 1);
      k := k - 1;
    }
    EmptyRow(brk);
    OneBlock(a.Now(), base, brk, 33 * BIG);
    size := a.hdr[brk].size;
  }

  lemma EmptyRow(lo: int)
    ensures Row(lo, 0) == map[] && UnitsOf(lo, 0) == {}
  {
  }

  lemma RowNext(lo: int, k: nat)
    ensures Row(lo, k + 1) == Row(lo, k)[lo + k * BIG := BIG]
  {
  }

  lemma NothingFits(a: Allocator, lo: int, k: nat)
    requires a.Valid() && (k > 0 ==> a.freep != 0) && a.alloc == Row(lo, k) && a.owner.Keys == UnitsOf(lo, k * BIG)
    ensures !a.CanFit(BIG)
  {
    if a.freep != 0 {
      RowFull(a.Now(), a.base, lo, k);
    }
  }

  /** The largest request, to a new process: one unit is obtained, and the block handed out ends far
      beyond it. */
  method LargestMalloc(base: int, brk: int) returns (r: int, end: int)
    requires 0 < base < brk
    ensures r == brk + 1 && end == brk + 1 && r - 1 + Units(U32 - 1) > end
  {
    hide Heap, Apart, Below, SomeFits;
    var a := new Allocator(base, brk);
    var clash;
    r, clash := a.Malloc(U32 - 1, true, 0);
    end := a.brk;
  }

  class Allocator {
    const base: int
    var freep: int  // 0 until the first malloc
    var hdr: Headers
    var brk: int
    ghost var blocks: seq<int>
    ghost var alloc: map<int, int>
    ghost var owner: map<int, int>
    var top: int  // the end of what the allocator takes to be its memory; the C code has no such variable

    ghost function Now(): Layout
      reads this
    {
      Layout(hdr, blocks, owner)
    }

    ghost predicate Valid()
      reads this
    {
      && base > 0
      && Below(owner, base, top)
      && if freep == 0 then alloc == map[] && owner == map[]
         else Heap(hdr, blocks, alloc, owner, base) && Apart(hdr, blocks) && freep in blocks
    }

    /** All that memory has been obtained from the system. */
    ghost predicate Obtained()
      reads this
    {
      top <= brk
    }

    ghost predicate SizesFit()
      reads this
    {
      Fit(Now(), alloc)
    }

    lemma AllFit()
      requires Valid() && freep != 0 && top - base <= U32
      ensures SizesFit()
    {
      hide Heap, Apart, Below;
      forall b | b in blocks || b in alloc ensures b in hdr && 0 <= hdr[b].size < U32 {
        SpanFits(Now(), alloc, base, top, b);
      }
    }

    constructor (base: int, brk: int)
      requires 0 < base < brk
      ensures Valid() && Obtained() && freep == 0 && alloc == map[] && owner == map[]
      ensures this.base == base && this.brk == brk
    {
      this.base, this.brk := base, brk;
      freep, hdr := 0, map[];
      blocks, alloc, owner, top := [], map[], map[], brk;
    }

    ghost predicate CanFit(nunits: int)
      reads this
    {
      freep != 0 && SomeFits(hdr, blocks, nunits)
    }

    /** The search loop of `free`: it always ends, at the last free block below the address. */
    method FindPlace(bp: int) returns (p: int, ghost t: nat)
      requires Valid() && bp in alloc
      ensures IsPlace(blocks, bp, t) && p == blocks[t]
      ensures p in blocks && p < bp && forall i :: 0 <= i < |blocks| ==> blocks[i] <= p || blocks[i] > bp
    {
      hide Apart, Below, Ascending, Owned;
      BaseEmpty(Now(), alloc, base);
      AllocatedHeader(Now(), alloc, base, 0, bp);
      DistinctBlocks(hdr, blocks, base);
      t := PlaceExists(blocks, bp, |blocks|);
      p := freep;
      ghost var i :| 0 <= i < |blocks| && blocks[i] == freep;
      StopsAtPlace(hdr, blocks, base, bp, t, i);
      while !(bp > p && bp < hdr[p].ptr)
        invariant 0 <= i < |blocks| && p == blocks[i] && p in hdr
        invariant StopsAt(hdr, p, bp) <==> i == t
        decreases if i <= t then t - i else |blocks| - i + t
      {
        if p >= hdr[p].ptr && (bp > p || bp < hdr[p].ptr) {
          break;
        }
        assert LinkedAt(hdr, blocks, i);
        p := hdr[p].ptr;
        i := if i + 1 < |blocks| then i + 1 else 0;
        StopsAtPlace(hdr, blocks, base, bp, t, i);
      }
    }

    /** Gives a block back: exactly that block is no longer in use, every unit is still
        accounted for, and the units given back lie in one free block. */
    method Free(ap: int)
      requires Valid() && ap - 1 in alloc
      modifies this
      ensures Valid() && freep != 0 && brk == old(brk) && top == old(top)
      ensures OthersAsBefore(old(Now()), Now(), ap - 1)
      ensures alloc == old(alloc) - {ap - 1}
      ensures owner.Keys == old(owner.Keys)
      ensures FreeHolds(hdr, blocks, ap - 1, old(alloc)[ap - 1])
      ensures freep in old(blocks) && freep < ap - 1
      ensures forall i :: 0 <= i < |old(blocks)| ==> old(blocks)[i] <= freep || old(blocks)[i] > ap - 1
      ensures top - base <= U32 ==> SizesFit()
      ensures old(SizesFit()) && ap - 1 in old(hdr) ==> (SizesFit() <==> Joined(old(Now()), ap - 1) < U32)
    {
      hide Heap, Apart, FreedLayout, FreeHolds, Covers, IsPlace, OthersAsBefore, Joined;
      var bp := ap - 1;
      var p;
      ghost var t;
      p, t := FindPlace(bp);
      ghost var h := Now();
      FreedHeap(h, alloc, base, t, bp);
      FreedHolds(h, alloc, base, t, bp);
      FreedOthers(h, alloc, base, t, bp);
      FreedJoined(h, alloc, base, t, bp);
      JoinedFits(h, FreedLayout(h, t, bp), alloc, base, bp);
      ReleasedIsFreed(h, alloc, base, t, bp);
      BlockPositive(h, alloc, base, p);
      var m := hdr;
      var next := m[p].ptr;
      if bp + m[bp].size == next {
        m := m[bp := Header(m[next].ptr, m[bp].size + m[next].size)];
      } else {
        m := m[bp := Header(next, m[bp].size)];
      }
      if p + m[p].size == bp {
        m := m[p := Header(m[bp].ptr, m[p].size + m[bp].size)];
      } else {
        m := m[p := Header(bp, m[p].size)];
      }
      assert m == Released(h.hdr, p, bp);
      hide Released;
      hdr, freep := m, p;
      ghost var h' := FreedLayout(h, t, bp);
      blocks, owner, alloc := h'.xs, h'.owner, alloc - {bp};
      if top - base <= U32 {
        AllFit();
      }
    }

    /** One pass over the list, from the block after `freep` round to `freep`: first fit. */
    method Scan(nunits: int) returns (found: bool, prevp: int, p: int, ghost k: nat)
      requires Valid() && freep != 0 && nunits >= 1
      ensures found <==> SomeFits(hdr, blocks, nunits)
      ensures found ==>
                1 <= k < |blocks| && p == blocks[k] && prevp == blocks[k - 1] && p in hdr && hdr[p].size >= nunits
      ensures found ==> FirstFit(hdr, blocks, freep, k, nunits)
    {
      hide Heap, Apart;
      ghost var f :| 0 <= f < |blocks| && blocks[f] == freep;
      ghost var i := f;
      ghost var wrapped := false;
      InList(Now(), alloc, base, f);
      BaseEmpty(Now(), alloc, base);
      HeapDistinct(Now(), alloc, base);
      prevp := freep;
      p := hdr[prevp].ptr;
      k := Succ(f, |blocks|);
      found := true;
      while hdr[p].size < nunits
        invariant 0 <= i < |blocks| && k == Succ(i, |blocks|) && prevp == blocks[i] && p == blocks[k] && p in hdr
        invariant if wrapped then i < f else f <= i
        invariant forall j :: 0 <= j < |blocks| && (if wrapped then j > f || j <= i else f < j <= i) && blocks[j] in hdr
                    ==> hdr[blocks[j]].size < nunits
        decreases if wrapped then f - i else |blocks| - i + f
      {
        if p == freep {
          found := false;
          assert k == f;
          return;
        }
        InList(Now(), alloc, base, k);
        prevp := p;
        p := hdr[p].ptr;
        wrapped := wrapped || k == 0;
        i := k;
        k := Succ(k, |blocks|);
      }
    }

    /** Hands out block k, whole if it fits exactly, otherwise its last nunits. */
    method Take(prevp: int, p: int, nunits: nat, ghost k: nat) returns (r: int)
      requires Valid() && freep != 0 && nunits >= 1
      requires 1 <= k < |blocks| && p == blocks[k] && prevp == blocks[k - 1] && p in hdr && hdr[p].size >= nunits
      modifies this
      ensures Valid() && freep == prevp != 0 && brk == old(brk) && top == old(top) && owner.Keys == old(owner.Keys)
      ensures r - 1 !in old(alloc) && r > 1 && alloc == old(alloc)[r - 1 := nunits]
      ensures r - 1 == p + old(hdr)[p].size - nunits
      ensures blocks == if old(hdr)[p].size == nunits then Without(old(blocks), k) else old(blocks)
    {
      hide Heap, Apart, Unlinked, SplitOff;
      ghost var h := Now();
      UnlinkedHeap(h, alloc, base, k);
      UnlinkedIs(h, alloc, base, k);
      BlockPositive(h, alloc, base, p);
      BlockPositive(h, alloc, base, prevp);
      var q := p;
      if hdr[p].size == nunits {
        hdr := hdr[prevp := Header(hdr[p].ptr, hdr[prevp].size)];
        blocks := Unlinked(h, k).xs;
      } else {
        SplitHeap(h, alloc, base, k, nunits);
        SplitIs(h, k, nunits);
        q := p + hdr[p].size - nunits;
        hdr := Tailed(hdr, p, nunits);
        owner := SplitOff(h, k, nunits).owner;
      }
      alloc := alloc[q := nunits];
      freep := prevp;
      r := q + 1;
    }

    /** Asks the system for memory; what is granted starts `gap` units above the break.  It is as
        much as asked for if and only if the request is below 2 GiB.  If the break is below what the
        allocator takes to be its memory, what is granted may be memory it has in use, a `clash`. */
    method Morecore(nunits: nat, granted: bool, gap: nat) returns (ok: bool, clash: bool)
      requires Valid() && freep != 0 && 1 <= nunits <= Units(U32 - 1)
      modifies this
      ensures Valid() && freep != 0 && alloc == old(alloc)
      ensures clash == (granted && old(brk) + gap < old(top)) && ok == (granted && !clash)
      ensures ok ==> SomeFits(hdr, blocks, nunits)
      ensures ok && !old(SomeFits(hdr, blocks, nunits)) ==> FitsAtTop(hdr, blocks, nunits, top)
      ensures var n := Max(nunits, MIN_UNITS);
              if ok then
                && owner.Keys == old(owner.Keys) + UnitsOf(old(brk) + gap, n) && top == old(brk) + gap + n
                && brk == NewBreak(old(brk) + gap, SbrkArgument(n)) && (Obtained() <==> nunits < MAX_UNITS)
                && (nunits < 0x800_0000 ==> brk == old(brk) + gap + n)
              else
                brk == old(brk) && top == old(top) && owner == old(owner) && hdr == old(hdr) && blocks == old(blocks)
    {
      hide Heap, Apart, Grown, FreeHolds, SomeFits, Below, FitsAtTop, OthersAsBefore, NewBreak, SbrkArgument, UnitsOf,
           Joined, Fit;
      var nu := nunits;
      if nu < MIN_UNITS {
        nu := MIN_UNITS;
      }
      clash := granted && brk + gap < top;
      if !granted || clash {
        return false, clash;
      }
      var bytes := SbrkArgument(nu);
      var hp := brk + gap;
      BelowTop(owner, base, top);
      BreakMoves(hp, nu);
      ghost var h, before := Now(), alloc;
      BlocksBelow(h, alloc, base, top);
      assert hp !in h.xs;
      GrownHeap(h, alloc, base, top, hp, nu);
      GrownIs(h, hp, nu);
      hdr := hdr[hp := Header(if hp in hdr then hdr[hp].ptr else 0, nu)];
      brk := NewBreak(hp, bytes);
      owner, alloc, top := Grown(h, hp, nu).owner, alloc[hp := nu], hp + nu;
      assert alloc - {hp} == before;
      ghost var grown := Now();
      Free(hp + 1);
      HoldsFits(hdr, blocks, hp, nu, nunits);
      OnlyTopFits(h, alloc, grown, Now(), base, hp, nu, nunits);
      ok := true;
    }

    /** Returns memory no one else is using, or 0: exactly when no free block is large enough and
        the system gives none.  The memory has been obtained from the system if and only if the
        request is below 2 GiB or a free block was large enough.  After a request that was not, the
        system may give memory that is in use: the allocator takes it for new, a `clash`, and what
        follows is not modelled. */
    method Malloc(nbytes: nat, granted: bool, gap: nat) returns (r: int, clash: bool)
      requires Valid() && nbytes < U32
      modifies this
      ensures Valid() && freep != 0 && (Units(nbytes) - 2) * 16 < nbytes <= (Units(nbytes) - 1) * 16
      ensures clash <==> granted && !old(CanFit(Units(nbytes))) && old(brk) + gap < old(top)
      ensures r == 0 <==> clash || (!granted && !old(CanFit(Units(nbytes))))
      ensures r == 0 ==> alloc == old(alloc)
      ensures r != 0 ==> r - 1 !in old(alloc) && alloc == old(alloc)[r - 1 := Units(nbytes)]
      ensures r == 0 || old(CanFit(Units(nbytes))) ==>
                owner.Keys == old(owner.Keys) && brk == old(brk) && top == old(top)
      ensures r != 0 && !old(CanFit(Units(nbytes))) ==>
                var n := Max(Units(nbytes), MIN_UNITS);
                && owner.Keys == old(owner.Keys) + UnitsOf(old(brk) + gap, n)
                && top == old(brk) + gap + n == r - 1 + Units(nbytes) &&
                   brk == NewBreak(old(brk) + gap, SbrkArgument(n))
                && (r - 1 + Units(nbytes) <= brk <==> Units(nbytes) < MAX_UNITS)
                && (Units(nbytes) < 0x800_0000 ==> brk == old(brk) + gap + n)
      ensures top - base <= U32 ==> SizesFit()
    {
      hide Heap, Apart, Below, SbrkArgument, UnitsOf, FirstFit, Max, Now;
      var nunits := (nbytes + HEADER_BYTES - 1) / HEADER_BYTES + 1;
      if freep == 0 {
        freep := base;
        hdr := hdr[base := Header(base, 0)];
        blocks := [base];
        EmptyHeap(hdr, base);
      }
      assert SomeFits(hdr, blocks, nunits) <==> old(CanFit(nunits));
      hide SomeFits, CanFit;
      var found, prevp, p;
      ghost var k;
      clash := false;
      found, prevp, p, k := Scan(nunits);
      if !found {
        var ok;
        ok, clash := Morecore(nunits, granted, gap);
        if !ok {
          if top - base <= U32 {
            AllFit();
          }
          return 0, clash;
        }
        found, prevp, p, k := Scan(nunits);
      }
      r := Take(prevp, p, nunits, k);
      if top - base <= U32 {
        AllFit();
      }
    }
  }
}
