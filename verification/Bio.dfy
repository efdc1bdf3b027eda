/**
 The buffer cache of kernel/bio.c: NBUF buffers on a doubly linked list in order of last
 use, recycled from the least recently used end unless their reference count is positive.

 Besides the fields of the C structures the class keeps four ghosts: `order`, the list the
 links represent; `pinned`, which buffer holds each block the log has pinned; `view`, the
 latest logical content of every block; and `trace`, all block writes issued to the disk.
 A method is one atomic step of the thread that holds the locks it needs; a process that has to
 wait for a buffer's lock goes on with `Acquire` or `Resume` at any later time the lock is free.
 */
module Bio {
  import opened Bytes
  import opened CrashLog
  import opened Params

  const ROOTDEV := 1

  /** `waiting` counts the processes that have their reference and are in `acquiresleep`. */
  datatype Buf = Buf(valid: bool, dev: nat, blockno: nat, refcnt: nat, locked: bool, waiting: nat, data: Block)

  // ----- The linked list -----

  /** Walking the list from the head (number NBUF) and back to it. */
  function Closed(xs: seq<nat>): seq<nat> {
    [NBUF] + xs + [NBUF]
  }

  /** Positions i and i+1 of the walk `r` are linked both ways. */
  predicate Linked(next: seq<nat>, prev: seq<nat>, r: seq<nat>, i: nat) {
    && |next| == |prev| == NBUF + 1
    && i + 1 < |r| && r[i] <= NBUF && r[i + 1] <= NBUF
    && next[r[i]] == r[i + 1] && prev[r[i + 1]] == r[i]
  }

  predicate Members(xs: seq<nat>) {
    && (forall i :: 0 <= i < |xs| ==> xs[i] < NBUF)
    && (forall i, j :: 0 <= i < j < |xs| ==> xs[i] != xs[j])
  }

  ghost predicate Ring(next: seq<nat>, prev: seq<nat>, xs: seq<nat>) {
    && |next| == |prev| == NBUF + 1
    && Members(xs)
    && forall i :: 0 <= i <= |xs| ==> Linked(next, prev, Closed(xs), i)
  }

  lemma Position(xs: seq<nat>, b: nat) returns (p: nat)
    requires b in xs
    ensures p < |xs| && xs[p] == b
  {
    p :| 0 <= p < |xs| && xs[p] == b;
  }

  lemma Unlink(next: seq<nat>, prev: seq<nat>, xs: seq<nat>, p: nat)
    requires Ring(next, prev, xs) && p < |xs|
    ensures var b := xs[p];
            && next[b] <= NBUF && prev[b] <= NBUF
            && Ring(next[prev[b] := next[b]], prev[next[b] := prev[b]], Without(xs, p))
  {
    var b, r := xs[p], Closed(xs);
    assert r[p + 1] == b;
    assert Linked(next, prev, r, p) && Linked(next, prev, r, p + 1);
    var ys := Without(xs, p);
    var s := Closed(ys);
    var next', prev' := next[prev[b] := next[b]], prev[next[b] := prev[b]];
    forall i | 0 <= i <= |ys| ensures Linked(next', prev', s, i) {
      if i < p {
        assert s[i] == r[i] && s[i + 1] == r[i + 1] && Linked(next, prev, r, i);
      } else if i > p {
        assert s[i] == r[i + 1] && s[i + 1] == r[i + 2] && Linked(next, prev, r, i + 1);
      } else {
        assert s[i] == r[p] && s[i + 1] == r[p + 2];
      }
    }
  }

  lemma LinkFront(next: seq<nat>, prev: seq<nat>, xs: seq<nat>, b: nat)
    requires Ring(next, prev, xs) && b < NBUF && b !in xs
    ensures next[NBUF] <= NBUF
    ensures Ring(next[b := next[NBUF]][NBUF := b], prev[b := NBUF][next[NBUF] := b], [b] + xs)
  {
    var r, s := Closed(xs), Closed([b] + xs);
    assert Linked(next, prev, r, 0);
    var next', prev' := next[b := next[NBUF]][NBUF := b], prev[b := NBUF][next[NBUF] := b];
    forall i | 0 <= i <= |xs| + 1 ensures Linked(next', prev', s, i) {
      if i >= 1 {
        assert s[i + 1] == r[i] && Linked(next, prev, r, i - 1);
        if i >= 2 {
          assert s[i] == r[i - 1];
        }
      }
    }
  }

  // ----- The invariants -----

  predicate Holds(buf: Buf, dev: nat, blockno: nat) {
    buf.dev == dev && buf.blockno == blockno
  }

  /** The list threads all the buffers. */
  ghost predicate AllListed(next: seq<nat>, prev: seq<nat>, order: seq<nat>) {
    Ring(next, prev, order) && forall b :: 0 <= b < NBUF ==> b in order
  }

  /** No block of a nonzero device is cached twice (all buffers start as block 0 of device 0). */
  ghost predicate Unique(bufs: seq<Buf>) {
    forall i, j :: 0 <= i < j < |bufs| && bufs[i].dev != 0 ==> !Holds(bufs[i], bufs[j].dev, bufs[j].blockno)
  }

  predicate HoldsOneOf(buf: Buf, blocks: seq<int>) {
    buf.dev == ROOTDEV && buf.blockno in blocks
  }

  /** No buffer has more references than before, and the same buffers are locked, with the same
      contents, except that holders of these blocks may have left. */
  ghost predicate Calmer(bufs: seq<Buf>, bufs': seq<Buf>, blocks: seq<int>) {
    && |bufs| == |bufs'|
    && forall i :: 0 <= i < |bufs| ==>
         && bufs'[i].refcnt <= bufs[i].refcnt
         && (bufs'[i].locked ==> bufs[i].locked && bufs'[i] == bufs[i].(refcnt := bufs'[i].refcnt))
         && (bufs[i].locked && !HoldsOneOf(bufs[i], blocks) ==> bufs'[i].locked)
  }

  lemma CalmerSame(bufs: seq<Buf>, blocks: seq<int>)
    ensures Calmer(bufs, bufs, blocks)
  {
  }

  lemma CalmerTrans(a: seq<Buf>, b: seq<Buf>, c: seq<Buf>, some: seq<int>, blocks: seq<int>)
    requires Calmer(a, b, blocks) && Calmer(b, c, some) && forall x :: x in some ==> x in blocks
    ensures Calmer(a, c, blocks)
  {
  }

  /** Whoever holds one of these blocks only reads it. */
  ghost predicate OnlyRead(bufs: seq<Buf>, view: Disk, blocks: seq<int>) {
    forall i :: 0 <= i < |bufs| && bufs[i].locked && HoldsOneOf(bufs[i], blocks) ==>
      bufs[i].valid && bufs[i].blockno < |view| && bufs[i].data == view[bufs[i].blockno]
  }

  /** Some buffer can be recycled. */
  ghost predicate SomeUnused(bufs: seq<Buf>) {
    exists i :: 0 <= i < |bufs| && bufs[i].refcnt == 0
  }

  ghost predicate AllUnused(bufs: seq<Buf>) {
    forall i :: 0 <= i < |bufs| ==> bufs[i].refcnt == 0
  }

  lemma StillUnused(bufs: seq<Buf>, bufs': seq<Buf>, blocks: seq<int>)
    requires Calmer(bufs, bufs', blocks)
    ensures SomeUnused(bufs) ==> SomeUnused(bufs')
    ensures AllUnused(bufs) ==> AllUnused(bufs')
  {
  }

  /** A buffer can be had for the block: the one that has it, or one without references. */
  ghost predicate Obtainable(bufs: seq<Buf>, blockno: nat) {
    exists i :: 0 <= i < |bufs| && (Holds(bufs[i], ROOTDEV, blockno) || bufs[i].refcnt == 0)
  }

  /** All buffers behind `b` in the list are in use. */
  ghost predicate LastUnused(bufs: seq<Buf>, order: seq<nat>, b: nat) {
    && Members(order) && |bufs| == NBUF
    && exists p :: 0 <= p < |order| && order[p] == b
                   && forall q :: p < q < |order| ==> bufs[order[q]].refcnt > 0
  }

  function Bit(b: bool): nat {
    if b then 1 else 0
  }

  predicate IsPin(bufs: seq<Buf>, pinned: map<nat, nat>, i: nat)
    requires i < |bufs|
  {
    bufs[i].dev == ROOTDEV && bufs[i].blockno in pinned && pinned[bufs[i].blockno] == i
  }

  /** A reference count is one for the lock holder, one for the log's pin, one for each waiter. */
  ghost predicate Counted(bufs: seq<Buf>, pinned: map<nat, nat>) {
    forall i :: 0 <= i < |bufs| ==>
      bufs[i].refcnt == Bit(bufs[i].locked) + Bit(IsPin(bufs, pinned, i)) + bufs[i].waiting
  }

  /** Pinned blocks are cached, with valid contents. */
  ghost predicate Pinned(bufs: seq<Buf>, pinned: map<nat, nat>) {
    forall b :: b in pinned ==> pinned[b] < |bufs| && Holds(bufs[pinned[b]], ROOTDEV, b) && bufs[pinned[b]].valid
  }

  /** Unlocked valid buffers hold the latest content; unpinned blocks have it on disk. */
  ghost predicate Agrees(bufs: seq<Buf>, pinned: map<nat, nat>, disk: Disk, view: Disk)
    requires |view| == |disk|
  {
    && (forall i :: 0 <= i < |bufs| && bufs[i].dev == ROOTDEV ==> bufs[i].blockno < |disk|)
    && (forall i :: 0 <= i < |bufs| && bufs[i].dev == ROOTDEV && bufs[i].valid && !bufs[i].locked ==>
          bufs[i].data == view[bufs[i].blockno])
    && (forall b :: 0 <= b < |disk| && b !in pinned ==> disk[b] == view[b])
  }

  class BufferCache {
    var bufs: seq<Buf>
    var next: seq<nat>  // entry NBUF is the list head
    var prev: seq<nat>
    var disk: Disk
    ghost var order: seq<nat>
    ghost var pinned: map<nat, nat>
    ghost var view: Disk
    ghost var trace: seq<Write>

    ghost predicate Valid()
      reads this
    {
      && |bufs| == NBUF && |view| == |disk|
      && AllListed(next, prev, order)
      && Unique(bufs)
      && Counted(bufs, pinned)
      && Pinned(bufs, pinned)
      && Agrees(bufs, pinned, disk, view)
    }

    /** Somebody holds the lock of the buffer with this block. */
    ghost predicate Held(dev: nat, blockno: nat)
      reads this
    {
      exists i :: 0 <= i < |bufs| && Holds(bufs[i], dev, blockno) && bufs[i].locked
    }

    /** `binit`, on zeroed memory and a disk with the given contents */
    constructor (contents: Disk)
      ensures Valid() && disk == contents && view == contents
      ensures pinned == map[] && trace == []
      ensures AllUnused(bufs) && forall i :: 0 <= i < NBUF ==> !bufs[i].locked && bufs[i].waiting == 0
    {
      bufs := seq(NBUF, i => Buf(false, 0, 0, 0, false, 0, Block(seq(BLOCK_WORDS, j => 0))));
      disk, view := contents, contents;
      pinned, trace := map[], [];
      var nx: seq<nat>, pv: seq<nat> := seq(NBUF + 1, i => NBUF), seq(NBUF + 1, i => NBUF);
      ghost var xs: seq<nat> := [];
      var b := 0;
      while b < NBUF
        invariant 0 <= b <= NBUF
        invariant Ring(nx, pv, xs)
        invariant forall i :: i in xs <==> 0 <= i < b
      {
        LinkFront(nx, pv, xs, b);
        nx := nx[b := nx[NBUF]];
        pv := pv[b := NBUF];
        pv := pv[nx[NBUF] := b];
        nx := nx[NBUF := b];
        xs := [b] + xs;
        b := b + 1;
      }
      next, prev, order := nx, pv, xs;
    }

    /** The first scan of `bget`: the buffer that caches the block, or NBUF. */
    method Lookup(dev: nat, blockno: nat) returns (b: nat)
      requires Valid()
      ensures b <= NBUF
      ensures b < NBUF ==> Holds(bufs[b], dev, blockno)
      ensures b == NBUF ==> forall i :: 0 <= i < NBUF ==> !Holds(bufs[i], dev, blockno)
    {
      ghost var p := 0;
      assert Linked(next, prev, Closed(order), 0);
      b := next[NBUF];
      while b != NBUF
        invariant 0 <= p <= |order| && b == Closed(order)[p + 1]
        invariant forall q :: 0 <= q < p ==> !Holds(bufs[order[q]], dev, blockno)
        decreases |order| - p
      {
        if bufs[b].dev == dev && bufs[b].blockno == blockno {
          return;
        }
        p := p + 1;
        assert Linked(next, prev, Closed(order), p);
        b := next[b];
      }
      forall i | 0 <= i < NBUF ensures !Holds(bufs[i], dev, blockno) {
        ghost var q := Position(order, i);
      }
    }

    /** The second scan of `bget`: the least recently used buffer without references, or NBUF. */
    method LeastRecentUnused() returns (b: nat)
      requires Valid()
      ensures b <= NBUF
      ensures b < NBUF ==> bufs[b].refcnt == 0 && LastUnused(bufs, order, b)
      ensures b == NBUF ==> forall i :: 0 <= i < NBUF ==> bufs[i].refcnt > 0
    {
      ghost var p := |order| - 1;
      assert Linked(next, prev, Closed(order), |order|);
      b := prev[NBUF];
      while b != NBUF
        invariant -1 <= p < |order| && b == Closed(order)[p + 1]
        invariant forall q :: p < q < |order| ==> bufs[order[q]].refcnt > 0
        decreases p
      {
        if bufs[b].refcnt == 0 {
          return;
        }
        assert Linked(next, prev, Closed(order), p);
        p := p - 1;
        b := prev[b];
      }
      forall i | 0 <= i < NBUF ensures bufs[i].refcnt > 0 {
        ghost var q := Position(order, i);
      }
    }

    /**
     `bget` under `bcache.lock`: a reference to the buffer that caches the block, or else to the
     least recently used buffer without references, now assigned to the block; `ok` is false for
     the panic when there is neither.
     */
    method Reference(dev: nat, blockno: nat) returns (b: nat, ok: bool)
      requires Valid() && dev != 0
      requires dev == ROOTDEV ==> blockno < |disk|
      modifies this`bufs
      ensures Valid()
      ensures ok ==> b < NBUF && bufs[b].waiting > 0 && Holds(bufs[b], dev, blockno)
      ensures ok && Holds(old(bufs)[b], dev, blockno) ==>
                var was := old(bufs)[b];
                bufs == old(bufs)[b := was.(refcnt := was.refcnt + 1, waiting := was.waiting + 1)]
      ensures ok && !Holds(old(bufs)[b], dev, blockno) ==>
                && bufs == old(bufs)[b := Buf(false, dev, blockno, 1, false, 1, old(bufs)[b].data)]
                && (forall i :: 0 <= i < NBUF ==> !Holds(old(bufs)[i], dev, blockno))
                && old(bufs)[b].refcnt == 0 && LastUnused(old(bufs), order, b)
      ensures !ok ==> bufs == old(bufs)
      ensures !ok <==> forall i :: 0 <= i < NBUF ==> !Holds(old(bufs)[i], dev, blockno) && old(bufs)[i].refcnt > 0
    {
      hide Unique, Counted, Pinned, Agrees, AllListed, LastUnused;
      b := Lookup(dev, blockno);
      if b != NBUF {
        Hit(bufs, pinned, disk, view, b);
        bufs := bufs[b := bufs[b].(refcnt := bufs[b].refcnt + 1, waiting := bufs[b].waiting + 1)];
        return b, true;
      }
      b := LeastRecentUnused();
      if b != NBUF {
        Miss(bufs, pinned, disk, view, b, dev, blockno);
        bufs := bufs[b := Buf(false, dev, blockno, 1, false, 1, bufs[b].data)];
        return b, true;
      }
      ok := false;
    }

    /** `acquiresleep` when the lock is free */
    method Acquire(b: nat)
      requires Valid() && b < NBUF && bufs[b].waiting > 0 && !bufs[b].locked
      modifies this`bufs
      ensures Valid()
      ensures bufs == old(bufs)[b := old(bufs)[b].(locked := true, waiting := old(bufs)[b].waiting - 1)]
    {
      Take(bufs, pinned, disk, view, b);
      bufs := bufs[b := bufs[b].(locked := true, waiting := bufs[b].waiting - 1)];
    }

    /**
     `bget`: a locked buffer for the block.  If another process holds the buffer, the caller
     `waits`, with a reference that keeps the buffer from being recycled.
     */
    method Bget(dev: nat, blockno: nat) returns (b: nat, ok: bool, waits: bool)
      requires Valid() && dev != 0
      requires dev == ROOTDEV ==> blockno < |disk|
      modifies this`bufs
      ensures Valid()
      ensures ok ==> b < NBUF && bufs[b].locked && Holds(bufs[b], dev, blockno)
      ensures waits <==> ok && old(Held(dev, blockno))
      ensures waits ==> var was := old(bufs)[b];
                        bufs == old(bufs)[b := was.(refcnt := was.refcnt + 1, waiting := was.waiting + 1)]
      ensures ok && !waits && Holds(old(bufs)[b], dev, blockno) ==>
                bufs == old(bufs)[b := old(bufs)[b].(refcnt := old(bufs)[b].refcnt + 1, locked := true)]
      ensures ok && !waits && !Holds(old(bufs)[b], dev, blockno) ==>
                && bufs == old(bufs)[b := Buf(false, dev, blockno, 1, true, 0, old(bufs)[b].data)]
                && (forall i :: 0 <= i < NBUF ==> !Holds(old(bufs)[i], dev, blockno))
                && old(bufs)[b].refcnt == 0 && LastUnused(old(bufs), order, b)
      ensures !ok ==> bufs == old(bufs)
      ensures !ok <==> forall i :: 0 <= i < NBUF ==> !Holds(old(bufs)[i], dev, blockno) && old(bufs)[i].refcnt > 0
    {
      hide Counted, Pinned, Agrees, AllListed, LastUnused;
      ghost var before := bufs;
      b, ok := Reference(dev, blockno);
      waits := ok && bufs[b].locked;
      if ok {
        HeldAt(before, dev, blockno, b);
        if !waits {
          Acquire(b);
        }
      }
    }

    /** `bread`: a locked buffer with the latest content of the block, unless the caller waits. */
    method Bread(dev: nat, blockno: nat) returns (b: nat, ok: bool, waits: bool)
      requires Valid() && dev == ROOTDEV && blockno < |disk|
      modifies this`bufs
      ensures Valid()
      ensures ok <==> Obtainable(old(bufs), blockno)
      ensures !ok ==> bufs == old(bufs)
      ensures waits <==> ok && old(Held(dev, blockno))
      ensures ok ==> b < NBUF && Holds(bufs[b], dev, blockno) && bufs[b].locked && bufs == old(bufs)[b := bufs[b]]
      ensures ok ==> bufs[b].refcnt == old(bufs)[b].refcnt + 1
      ensures ok && !Holds(old(bufs)[b], dev, blockno) ==> LastUnused(old(bufs), order, b)
      ensures waits ==> bufs[b] == old(bufs)[b].(refcnt := bufs[b].refcnt, waiting := old(bufs)[b].waiting + 1)
      ensures ok && !waits ==> !old(bufs)[b].locked && bufs[b].valid && bufs[b].data == view[blockno]
      ensures ok && !waits ==> bufs[b].waiting == old(bufs)[b].waiting
    {
      hide Unique, Pinned, AllListed, LastUnused;
      b, ok, waits := Bget(dev, blockno);
      if ok && !waits {
        ReadIn(b);
      }
    }

    /** The second half of `bread`: the content, from the disk if the buffer has none yet */
    method ReadIn(b: nat)
      requires Valid() && b < NBUF && bufs[b].locked && bufs[b].dev == ROOTDEV
      requires bufs[b].valid ==> bufs[b].data == view[bufs[b].blockno]
      modifies this`bufs
      ensures Valid() && bufs[b].dev == ROOTDEV && bufs[b].valid && bufs[b].data == view[bufs[b].blockno]
      ensures bufs == old(bufs)[b := old(bufs)[b].(valid := true, data := bufs[b].data)]
    {
      if !bufs[b].valid {
        Fill(bufs, pinned, disk, view, b);
        bufs := bufs[b := bufs[b].(data := disk[bufs[b].blockno], valid := true)];
      }
    }

    /** `bread` once the lock is free: the buffer waited for still has the block, and gives its
        latest content. */
    method Resume(b: nat)
      requires Valid() && b < NBUF && bufs[b].waiting > 0 && !bufs[b].locked && bufs[b].dev == ROOTDEV
      modifies this`bufs
      ensures Valid() && bufs[b].dev == ROOTDEV && bufs[b].locked && bufs[b].valid &&
              bufs[b].data == view[bufs[b].blockno]
      ensures var was := old(bufs)[b];
              bufs ==
              old(bufs)[b := was.(locked := true, waiting := was.waiting - 1, valid := true, data := bufs[b].data)]
    {
      Acquire(b);
      ReadIn(b);
    }

    /** `bread` when the holder of the buffer, if there is one, only reads: the caller goes on when it
        has left. */
    method Fetch(blockno: nat) returns (b: nat, ok: bool)
      requires Valid() && blockno < |disk| && OnlyRead(bufs, view, [blockno])
      modifies this`bufs, this`next, this`prev, this`order
      ensures Valid()
      ensures ok <==> Obtainable(old(bufs), blockno)
      ensures !ok ==> bufs == old(bufs)
      ensures ok ==> b < NBUF && bufs[b].locked && bufs[b].valid && bufs[b].data == view[blockno]
      ensures ok ==> Holds(bufs[b], ROOTDEV, blockno) && bufs == old(bufs)[b := bufs[b]]
      ensures ok ==> bufs[b].refcnt <= old(bufs)[b].refcnt + 1
      ensures ok && old(bufs)[b].locked ==> Holds(old(bufs)[b], ROOTDEV, blockno)
    {
      hide Unique, Counted, Pinned, Agrees, AllListed, LastUnused;
      var waits;
      b, ok, waits := Bread(ROOTDEV, blockno);
      if waits {
        Brelse(b);
        Resume(b);
      }
    }

    /** The caller's update of a buffer it holds. */
    method SetData(b: nat, data: Block)
      requires Valid() && b < NBUF && bufs[b].locked
      modifies this`bufs
      ensures Valid()
      ensures bufs == old(bufs)[b := old(bufs)[b].(data := data)]
    {
      bufs := bufs[b := bufs[b].(data := data)];
    }

    /** `bwrite` */
    method Bwrite(b: nat)
      requires Valid() && b < NBUF && bufs[b].locked && bufs[b].dev == ROOTDEV
      modifies this`disk, this`view, this`trace
      ensures Valid()
      ensures var w := Write(bufs[b].blockno, bufs[b].data);
              disk == Store(old(disk), w) && view == Store(old(view), w) && trace == old(trace) + [w]
    {
      disk := disk[bufs[b].blockno := bufs[b].data];
      view := view[bufs[b].blockno := bufs[b].data];
      trace := trace + [Write(bufs[b].blockno, bufs[b].data)];
    }

    /** `brelse`: give the buffer back; if nobody else needs it, it is now the most recently used. */
    method Brelse(b: nat)
      requires Valid() && b < NBUF && bufs[b].locked
      requires bufs[b].dev == ROOTDEV && bufs[b].valid ==> bufs[b].data == view[bufs[b].blockno]
      modifies this`bufs, this`next, this`prev, this`order
      ensures Valid()
      ensures bufs == old(bufs)[b := old(bufs)[b].(refcnt := old(bufs)[b].refcnt - 1, locked := false)]
      ensures bufs[b].refcnt > 0 ==> order == old(order)
      ensures bufs[b].refcnt == 0 ==>
                exists p :: 0 <= p < |old(order)| && old(order)[p] == b && order == [b] + Without(old(order), p)
    {
      hide Unique, Counted, Pinned, Agrees;
      Release(bufs, pinned, disk, view, b);
      bufs := bufs[b := bufs[b].(refcnt := bufs[b].refcnt - 1, locked := false)];
      if bufs[b].refcnt == 0 {
        ghost var p := MoveToFront(next, prev, order, b);
        var nx, pv := next[b], prev[b];
        prev := prev[nx := pv];
        next := next[pv := nx];
        next := next[b := next[NBUF]];
        prev := prev[b := NBUF];
        prev := prev[next[NBUF] := b];
        next := next[NBUF := b];
        order := [b] + Without(order, p);
      }
    }

    /** The content of a locked buffer of a pinned block becomes the block's latest content. */
    ghost method Publish(b: nat)
      requires Valid() && b < NBUF && bufs[b].locked && IsPin(bufs, pinned, b)
      modifies this`view
      ensures Valid()
      ensures view == old(view)[bufs[b].blockno := bufs[b].data]
    {
      view := view[bufs[b].blockno := bufs[b].data];
    }

    /** `bpin`, by the log, of a block it has not pinned yet */
    method Bpin(b: nat)
      requires Valid() && b < NBUF && bufs[b].locked && bufs[b].valid
      requires bufs[b].dev == ROOTDEV && bufs[b].blockno !in pinned
      modifies this`bufs, this`pinned
      ensures Valid()
      ensures pinned == old(pinned)[bufs[b].blockno := b]
      ensures bufs == old(bufs)[b := old(bufs)[b].(refcnt := old(bufs)[b].refcnt + 1)]
    {
      bufs := bufs[b := bufs[b].(refcnt := bufs[b].refcnt + 1)];
      pinned := pinned[bufs[b].blockno := b];
    }

    /** `bunpin`, by the log, once the block is installed */
    method Bunpin(b: nat)
      requires Valid() && b < NBUF && bufs[b].locked && IsPin(bufs, pinned, b)
      requires disk[bufs[b].blockno] == view[bufs[b].blockno]
      modifies this`bufs, this`pinned
      ensures Valid()
      ensures pinned == old(pinned) - {bufs[b].blockno}
      ensures bufs == old(bufs)[b := old(bufs)[b].(refcnt := old(bufs)[b].refcnt - 1)]
    {
      bufs := bufs[b := bufs[b].(refcnt := bufs[b].refcnt - 1)];
      pinned := pinned - {bufs[b].blockno};
    }
  }

  // ----- Taking and releasing buffers keeps the invariants -----

  /** The link updates of `brelse` */
  lemma MoveToFront(next: seq<nat>, prev: seq<nat>, order: seq<nat>, b: nat) returns (p: nat)
    requires AllListed(next, prev, order) && b < NBUF
    ensures p < |order| && order[p] == b
    ensures next[b] <= NBUF && prev[b] <= NBUF
    ensures var n1, p1 := next[prev[b] := next[b]], prev[next[b] := prev[b]];
            && n1[NBUF] <= NBUF
            && AllListed(n1[b := n1[NBUF]][NBUF := b], p1[b := NBUF][n1[NBUF] := b], [b] + Without(order, p))
  {
    assert b in order;
    p := Position(order, b);
    var rest := Without(order, p);
    Unlink(next, prev, order, p);
    assert b !in rest;
    LinkFront(next[prev[b] := next[b]], prev[next[b] := prev[b]], rest, b);
    forall i | 0 <= i < NBUF ensures i in [b] + rest {
      if i != b {
        assert i in order;
        var q := Position(order, i);
        assert rest[if q < p then q else q - 1] == i;
      }
    }
  }

  lemma Fill(bufs: seq<Buf>, pinned: map<nat, nat>, disk: Disk, view: Disk, b: nat)
    requires |bufs| == NBUF && |view| == |disk|
    requires Unique(bufs) && Counted(bufs, pinned) && Pinned(bufs, pinned) && Agrees(bufs, pinned, disk, view)
    requires b < NBUF && bufs[b].locked && !bufs[b].valid && bufs[b].dev == ROOTDEV
    ensures disk[bufs[b].blockno] == view[bufs[b].blockno]
    ensures var bufs' := bufs[b := bufs[b].(data := disk[bufs[b].blockno], valid := true)];
            Unique(bufs') && Counted(bufs', pinned) && Pinned(bufs', pinned) && Agrees(bufs', pinned, disk, view)
  {
  }

  lemma OnDisk(bufs: seq<Buf>, pinned: map<nat, nat>, disk: Disk, view: Disk, b: nat)
    requires |view| == |disk| && Agrees(bufs, pinned, disk, view)
    requires b < |disk| && b !in pinned
    ensures disk[b] == view[b]
  {
  }

  lemma AllOnDisk(bufs: seq<Buf>, pinned: map<nat, nat>, disk: Disk, view: Disk)
    requires |view| == |disk| && Agrees(bufs, pinned, disk, view) && pinned == map[]
    ensures disk == view
  {
  }

  lemma Release(bufs: seq<Buf>, pinned: map<nat, nat>, disk: Disk, view: Disk, b: nat)
    requires |bufs| == NBUF && |view| == |disk|
    requires Unique(bufs) && Counted(bufs, pinned) && Pinned(bufs, pinned) && Agrees(bufs, pinned, disk, view)
    requires b < NBUF && bufs[b].locked
    requires bufs[b].dev == ROOTDEV && bufs[b].valid ==> bufs[b].data == view[bufs[b].blockno]
    ensures bufs[b].refcnt > 0
    ensures var bufs' := bufs[b := bufs[b].(refcnt := bufs[b].refcnt - 1, locked := false)];
            Unique(bufs') && Counted(bufs', pinned) && Pinned(bufs', pinned) && Agrees(bufs', pinned, disk, view)
  {
  }

  lemma Hit(bufs: seq<Buf>, pinned: map<nat, nat>, disk: Disk, view: Disk, b: nat)
    requires |bufs| == NBUF && |view| == |disk|
    requires Unique(bufs) && Counted(bufs, pinned) && Pinned(bufs, pinned) && Agrees(bufs, pinned, disk, view)
    requires b < NBUF
    ensures var bufs' := bufs[b := bufs[b].(refcnt := bufs[b].refcnt + 1, waiting := bufs[b].waiting + 1)];
            Unique(bufs') && Counted(bufs', pinned) && Pinned(bufs', pinned) && Agrees(bufs', pinned, disk, view)
  {
  }

  lemma Take(bufs: seq<Buf>, pinned: map<nat, nat>, disk: Disk, view: Disk, b: nat)
    requires |bufs| == NBUF && |view| == |disk|
    requires Unique(bufs) && Counted(bufs, pinned) && Pinned(bufs, pinned) && Agrees(bufs, pinned, disk, view)
    requires b < NBUF && bufs[b].waiting > 0 && !bufs[b].locked
    ensures var bufs' := bufs[b := bufs[b].(locked := true, waiting := bufs[b].waiting - 1)];
            Unique(bufs') && Counted(bufs', pinned) && Pinned(bufs', pinned) && Agrees(bufs', pinned, disk, view)
  {
  }

  /** The buffer of a block is the one whose lock matters. */
  lemma HeldAt(bufs: seq<Buf>, dev: nat, blockno: nat, b: nat)
    requires |bufs| == NBUF && Unique(bufs) && b < NBUF && dev != 0
    requires Holds(bufs[b], dev, blockno) || forall i :: 0 <= i < NBUF ==> !Holds(bufs[i], dev, blockno)
    ensures (exists i :: 0 <= i < |bufs| && Holds(bufs[i], dev, blockno) && bufs[i].locked)
            <==> Holds(bufs[b], dev, blockno) && bufs[b].locked
  {
  }

  lemma Miss(bufs: seq<Buf>, pinned: map<nat, nat>, disk: Disk, view: Disk, b: nat, dev: nat, blockno: nat)
    requires |bufs| == NBUF && |view| == |disk|
    requires Unique(bufs) && Counted(bufs, pinned) && Pinned(bufs, pinned) && Agrees(bufs, pinned, disk, view)
    requires b < NBUF && bufs[b].refcnt == 0 && dev != 0
    requires dev == ROOTDEV ==> blockno < |disk|
    requires forall i :: 0 <= i < NBUF ==> !Holds(bufs[i], dev, blockno)
    ensures var bufs' := bufs[b := Buf(false, dev, blockno, 1, false, 1, bufs[b].data)];
            Unique(bufs') && Counted(bufs', pinned) && Pinned(bufs', pinned) && Agrees(bufs', pinned, disk, view)
    ensures dev == ROOTDEV ==> blockno !in pinned
  {
    assert !IsPin(bufs, pinned, b);
  }
}
