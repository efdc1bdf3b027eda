/**
 The logging code of kernel/log.c on top of the buffer cache.

 A panic (no buffer left, or a misuse of the log) is an `ok` result of false: the kernel
 stops there, so only the disk and the trace of block writes matter after it.
 */
module Log {
  import opened Bio
  import opened Bytes
  import opened CrashLog
  import opened Params

  ghost function Contents(view: Disk, blocks: seq<int>): (data: seq<Block>)
    requires forall i :: 0 <= i < |blocks| ==> 0 <= blocks[i] < |view|
    ensures |data| == |blocks| && forall i :: 0 <= i < |blocks| ==> data[i] == view[blocks[i]]
  {
    seq(|blocks|, i requires 0 <= i < |blocks| => view[blocks[i]])
  }

  /** Nobody holds a buffer of the log area. */
  ghost predicate NobodyHolds(bufs: seq<Buf>, start: nat, size: nat) {
    forall i :: 0 <= i < |bufs| && bufs[i].locked && bufs[i].dev == ROOTDEV ==> IsHome(start, size, bufs[i].blockno)
  }

  lemma StillNobody(bufs: seq<Buf>, bufs': seq<Buf>, start: nat, size: nat, blocks: seq<int>)
    requires NobodyHolds(bufs, start, size) && Calmer(bufs, bufs', blocks)
    ensures NobodyHolds(bufs', start, size)
  {
  }

  lemma StillOnlyRead(bufs: seq<Buf>, bufs': seq<Buf>, view: Disk, view': Disk, some: seq<int>, blocks: seq<int>)
    requires OnlyRead(bufs, view, blocks) && Calmer(bufs, bufs', some) && |view'| == |view|
    requires forall b :: b in blocks && 0 <= b < |view| ==> view'[b] == view[b]
    ensures OnlyRead(bufs', view', blocks)
  {
  }

  lemma SomeOnlyRead(bufs: seq<Buf>, view: Disk, some: seq<int>, blocks: seq<int>)
    requires OnlyRead(bufs, view, blocks) && forall b :: b in some ==> b in blocks
    ensures OnlyRead(bufs, view, some)
  {
  }

  lemma StillRead(bufs: seq<Buf>, bufs': seq<Buf>, view: Disk, b: nat, blockno: int)
    requires OnlyRead(bufs, view, [blockno]) && b < |bufs| == |bufs'| && bufs' == bufs[b := bufs'[b]]
    requires bufs'[b].blockno != blockno
    ensures OnlyRead(bufs', view, [blockno])
  {
  }

  lemma UnheldAt(bufs: seq<Buf>, start: nat, size: nat, b: nat)
    requires NobodyHolds(bufs, start, size) && b < |bufs| && bufs[b].dev == ROOTDEV
    requires start <= bufs[b].blockno <= start + LOGBLOCKS
    ensures !bufs[b].locked
  {
  }

  lemma LogUnheld(bufs: seq<Buf>, view: Disk, start: nat, size: nat, b: nat)
    requires NobodyHolds(bufs, start, size) && start <= b <= start + LOGBLOCKS
    ensures OnlyRead(bufs, view, [b])
  {
  }

  /** A pinned block is cached. */
  lemma PinObtainable(bufs: seq<Buf>, pinned: map<nat, nat>, b: nat)
    requires Pinned(bufs, pinned) && b in pinned
    ensures Obtainable(bufs, b)
  {
  }

  /** What `bread` makes of a buffer */
  predicate Fetched(view: Disk, blockno: nat, was: Buf, buf: Buf) {
    && buf.locked && buf.valid && Holds(buf, ROOTDEV, blockno) && blockno < |view| && buf.data == view[blockno]
    && buf.refcnt <= was.refcnt + 1 && (was.locked ==> Holds(was, ROOTDEV, blockno))
  }

  lemma CalmerTwo(bufs: seq<Buf>, bufs': seq<Buf>, a: nat, b: nat, blockno: int)
    requires a < |bufs| == |bufs'| && b < |bufs| && bufs' == bufs[a := bufs'[a]][b := bufs'[b]]
    requires !bufs[a].locked && !bufs'[a].locked && bufs'[a].refcnt <= bufs[a].refcnt
    requires (bufs[b].locked ==> HoldsOneOf(bufs[b], [blockno])) && !bufs'[b].locked
    requires bufs'[b].refcnt <= bufs[b].refcnt
    ensures Calmer(bufs, bufs', [blockno])
  {
  }

  /** Some buffer can be had for any block; if all are unused, even after one is taken. */
  lemma UnusedObtainable(bufs: seq<Buf>, blockno: nat)
    requires |bufs| == NBUF
    ensures AllUnused(bufs) ==> SomeUnused(bufs)
    ensures SomeUnused(bufs) ==> Obtainable(bufs, blockno)
  {
    assert AllUnused(bufs) ==> bufs[0].refcnt == 0;
  }

  lemma PinsNone()
    ensures Pins(map[], []) && Distinct([])
  {
  }

  /** With the transaction installed the disk has the latest contents. */
  lemma PendingInstalled(start: nat, bufs: seq<Buf>, pinned: map<nat, nat>, disk: Disk, view: Disk, t: Txn)
    requires |view| == |disk| && Agrees(bufs, pinned, disk, view) && Pins(pinned, t.blocks)
    requires GoodTxn(start, |disk|, t) && forall i :: 0 <= i < |t.blocks| ==> t.data[i] == view[t.blocks[i]]
    ensures SameHome(start, Install(disk, t), view)
  {
    hide Install;
    InstallAll(start, disk, t);
    var d' := Install(disk, t);
    forall b | IsHome(start, |disk|, b) ensures d'[b] == view[b] {
      if b in t.blocks {
        var i :| 0 <= i < |t.blocks| && t.blocks[i] == b;
      } else {
        OnDisk(bufs, pinned, disk, view, b);
      }
    }
  }

  /** Nobody has a reference to the block's buffer, if it has one. */
  ghost predicate Unreferenced(bufs: seq<Buf>, blockno: nat) {
    forall i :: 0 <= i < |bufs| && Holds(bufs[i], ROOTDEV, blockno) ==> bufs[i].refcnt == 0
  }

  lemma UnreferencedUnobtainable(bufs: seq<Buf>, blockno: nat)
    ensures Unreferenced(bufs, blockno) && !SomeUnused(bufs) ==> !Obtainable(bufs, blockno)
  {
  }

  /** With all buffers unused, a second one can be had. */
  lemma SecondObtainable(bufs: seq<Buf>, buf: Buf, b: nat, blockno: nat)
    requires |bufs| == NBUF && AllUnused(bufs) && b < NBUF
    ensures Obtainable(bufs[b := buf], blockno)
  {
    var i := if b == 0 then 1 else 0;
    assert bufs[b := buf][i].refcnt == 0;
  }

  /** Nobody holds a buffer or waits for one. */
  ghost predicate Idle(bufs: seq<Buf>) {
    forall i :: 0 <= i < |bufs| ==> !bufs[i].locked && bufs[i].waiting == 0
  }

  lemma IdleQuiet(bufs: seq<Buf>, view: Disk, start: nat, size: nat, blocks: seq<int>)
    requires Idle(bufs)
    ensures NobodyHolds(bufs, start, size) && OnlyRead(bufs, view, blocks)
  {
  }

  /** Then fewer than NBUF logged blocks leave a buffer. */
  lemma OneLeft(bufs: seq<Buf>, pinned: map<nat, nat>, blocks: seq<int>)
    requires |bufs| == NBUF && Idle(bufs) && Counted(bufs, pinned) && Unique(bufs) && Pins(pinned, blocks)
    requires |blocks| < NBUF
    ensures SomeUnused(bufs)
  {
    if !SomeUnused(bufs) {
      var where: seq<int> := [];
      while |where| < NBUF
        invariant |where| <= NBUF
        invariant forall i :: 0 <= i < |where| ==> 0 <= where[i] < |blocks| && blocks[where[i]] == bufs[i].blockno
      {
        var i := |where|;
        assert bufs[i].refcnt > 0;
        assert IsPin(bufs, pinned, i);
        var k :| 0 <= k < |blocks| && blocks[k] == bufs[i].blockno;
        where := where + [k];
      }
      forall i, j | 0 <= i < j < NBUF ensures where[i] != where[j] {
        assert IsPin(bufs, pinned, i) && IsPin(bufs, pinned, j);
      }
      Pigeonhole(where, |blocks|);
    }
  }

  /** If LOGBLOCKS blocks are pinned, there is no buffer left, because NBUF is LOGBLOCKS. */
  lemma FullLog(bufs: seq<Buf>, pinned: map<nat, nat>, blocks: seq<int>, blockno: nat)
    requires |bufs| == NBUF && Pinned(bufs, pinned) && Counted(bufs, pinned) && Pins(pinned, blocks)
    requires Distinct(blocks) && |blocks| == LOGBLOCKS && blockno !in blocks
    ensures !Obtainable(bufs, blockno)
  {
    var at: seq<int> := seq(NBUF, k requires 0 <= k < NBUF => var b: nat := blocks[k]; pinned[b]);
    assert forall k :: 0 <= k < NBUF ==> blocks[k] in pinned && Holds(bufs[at[k]], ROOTDEV, blocks[k]);
    forall i | 0 <= i < NBUF ensures !Holds(bufs[i], ROOTDEV, blockno) && bufs[i].refcnt > 0 {
      if i !in at {
        Pigeonhole(at + [i], NBUF);
      }
      var k :| 0 <= k < NBUF && at[k] == i;
      assert IsPin(bufs, pinned, i);
    }
  }

  /** The pinned blocks are exactly these. */
  ghost predicate Pins(pinned: map<nat, nat>, blocks: seq<int>) {
    && (forall i :: 0 <= i < |blocks| ==> blocks[i] in pinned)
    && (forall b :: b in pinned ==> b in blocks)
  }

  lemma UnpinFirst(pinned: map<nat, nat>, blocks: seq<int>)
    requires Pins(pinned, blocks) && Distinct(blocks) && blocks != []
    ensures Pins(pinned - {blocks[0]}, blocks[1..])
  {
    forall b | b in pinned && b != blocks[0] ensures b in blocks[1..] {
      var i :| 0 <= i < |blocks| && blocks[i] == b;
      assert blocks[1..][i - 1] == b;
    }
  }

  lemma LogNotPinned(pinned: map<nat, nat>, start: nat, size: nat, blocks: seq<int>, from: nat, b: nat)
    requires from <= |blocks| && Pins(pinned, blocks[from..]) && GoodBlocks(start, size, blocks)
    requires start <= b <= start + LOGBLOCKS
    ensures b !in pinned
  {
  }

  lemma NextPin(pinned: map<nat, nat>, start: nat, size: nat, header: seq<int>, tail: nat)
    requires tail < |header| && GoodBlocks(start, size, header) && Pins(pinned, header[tail..])
    ensures start + tail + 1 !in pinned && header[tail] in pinned
    ensures Pins(pinned - {header[tail]}, header[tail + 1..])
  {
    LogNotPinned(pinned, start, size, header, tail, start + tail + 1);
    assert header[tail..][0] == header[tail];
    UnpinFirst(pinned, header[tail..]);
    assert header[tail..][1..] == header[tail + 1..];
  }

  lemma LaterDistinct(header: seq<int>, tail: nat)
    requires Distinct(header) && tail < |header|
    ensures header[tail] !in header[tail + 1..] && header[tail..][0] == header[tail]
    ensures forall b :: b in header[tail + 1..] ==> b in header[tail..]
  {
    forall b | b in header[tail + 1..] ensures b in header[tail..] {
      var i :| 0 <= i < |header[tail + 1..]| && header[tail + 1..][i] == b;
      assert header[tail..][i + 1] == b;
    }
  }

  /** One block of the header further on */
  lemma AfterOne(first: seq<Buf>, bufs: seq<Buf>, bufs': seq<Buf>, view: Disk, view': Disk, header: seq<int>, tail: nat)
    requires Distinct(header) && tail < |header| && Calmer(first, bufs, header)
    requires Calmer(bufs, bufs', [header[tail]]) && OnlyRead(bufs, view, header[tail..])
    requires |view'| == |view| && forall b :: 0 <= b < |view| && b != header[tail] ==> view'[b] == view[b]
    ensures Calmer(first, bufs', header) && OnlyRead(bufs', view', header[tail + 1..])
    ensures SomeUnused(bufs) ==> SomeUnused(bufs')
    ensures AllUnused(bufs) ==> AllUnused(bufs')
  {
    hide Calmer, OnlyRead, SomeUnused, AllUnused, Distinct;
    StillUnused(bufs, bufs', [header[tail]]);
    LaterDistinct(header, tail);
    SomeOnlyRead(bufs, view, header[tail + 1..], header[tail..]);
    StillOnlyRead(bufs, bufs', view, view', [header[tail]], header[tail + 1..]);
    CalmerTrans(first, bufs, bufs', [header[tail]], header);
  }

  lemma NoPins(pinned: map<nat, nat>, blocks: seq<int>)
    requires Pins(pinned, blocks) && blocks == []
    ensures pinned == map[]
  {
    assert pinned.Keys == {};
  }

  /** A block's pin and a buffer that holds it are the same buffer. */
  lemma SoleHolder(bufs: seq<Buf>, pinned: map<nat, nat>, b: nat)
    requires |bufs| == NBUF && Unique(bufs) && Pinned(bufs, pinned)
    requires b < NBUF && bufs[b].dev == ROOTDEV && bufs[b].blockno in pinned
    ensures IsPin(bufs, pinned, b)
  {
    var i := pinned[bufs[b].blockno];
    assert Holds(bufs[i], ROOTDEV, bufs[b].blockno);
  }

  /** Going on from a disk that was written ahead, with more writes that are */
  lemma StillAhead(start: nat, first: Disk, trace: seq<Write>, ws: seq<Write>, k: nat)
    requires start < |first| && WriteAhead(start, first, trace) && WriteAhead(start, Apply(first, trace), ws) &&
             k <= |ws|
    ensures WriteAhead(start, first, trace + ws[..k]) &&
            Apply(first, trace + ws[..k]) == Apply(Apply(first, trace), ws[..k])
  {
    hide Apply;
    AheadPrefix(start, Apply(first, trace), ws, k);
    AheadConcat(start, first, trace, ws[..k]);
  }

  class Log {
    const cache: BufferCache
    const start: nat
    var outstanding: nat
    var committing: bool
    var n: nat           // lh.n
    var block: seq<int>  // lh.block
    ghost const first: Disk  // the disk when the cache was new

    /** Every write since then followed the write-ahead rule. */
    ghost predicate Ahead()
      reads this, cache
    {
      && |first| == |cache.disk| && start < |first|
      && cache.disk == Apply(first, cache.trace) && WriteAhead(start, first, cache.trace)
    }

    ghost function Header(): seq<int>
      reads this
      requires n <= |block|
    {
      block[..n]
    }

    /** The in-memory header fits the log and the cache. */
    ghost predicate Loaded()
      reads this, cache
    {
      && cache.Valid()
      && FitsLog(start, cache.disk)
      && |block| == LOGBLOCKS && n <= LOGBLOCKS
      && GoodBlocks(start, |cache.disk|, Header())
    }

    ghost predicate Valid()
      reads this, cache
    {
      Loaded() && Pins(cache.pinned, Header()) && EmptyLog(start, cache.disk)
    }

    /** No operation holds a block of the transaction or of the log; others may be reading blocks of
        the transaction, and the log waits for them. */
    ghost predicate Quiet()
      reads this, cache
      requires n <= |block|
    {
      NobodyHolds(cache.bufs, start, |cache.disk|) && OnlyRead(cache.bufs, cache.view, Header())
    }

    /** The latest contents of the blocks in the header */
    ghost function Pending(): (t: Txn)
      reads this, cache
      requires Loaded()
      ensures GoodTxn(start, |cache.disk|, t)
    {
      Txn(Header(), Contents(cache.view, Header()))
    }

    constructor (cache: BufferCache, start: nat)
      requires cache.Valid() && FitsLog(start, cache.disk) && cache.pinned == map[] && cache.trace == []
      ensures this.cache == cache && this.start == start && Ahead() && first == cache.disk
      ensures Loaded() && Pins(cache.pinned, Header()) && outstanding == 0 && !committing && n == 0
    {
      this.cache, this.start, first := cache, start, cache.disk;
      outstanding, committing, n := 0, false, 0;
      block := seq(LOGBLOCKS, i => 0);
    }

    /** `log_write`: the block joins the running transaction, once. */
    method LogWrite(b: nat) returns (ok: bool)
      requires Valid() && b < NBUF
      requires cache.bufs[b].locked && cache.bufs[b].valid && cache.bufs[b].dev == ROOTDEV
      requires IsHome(start, |cache.disk|, cache.bufs[b].blockno)
      modifies this`n, this`block, cache`bufs, cache`pinned, cache`view
      ensures ok <==> old(n) < LOGBLOCKS && outstanding >= 1
      ensures ok ==> Valid()
      ensures ok ==> var blockno := old(cache.bufs)[b].blockno;
                     && cache.view == old(cache.view)[blockno := old(cache.bufs)[b].data]
                     && Header() == (if blockno in old(Header()) then old(Header()) else old(Header()) + [blockno])
                     && cache.bufs == old(cache.bufs)[b := old(cache.bufs)[b].(refcnt := cache.bufs[b].refcnt)]
    {
      hide AllListed, Unique, Counted, Pinned, Agrees;
      if n >= LOGBLOCKS || outstanding < 1 {
        return false;
      }
      var blockno := cache.bufs[b].blockno;
      var i := FindLogged(blockno);
      ghost var header := Header();
      block := block[i := blockno];
      if i == n {
        assert blockno !in cache.pinned;
        cache.Bpin(b);
        n := n + 1;
        assert Header() == header + [blockno];
      } else {
        assert Header() == header && header[i] == blockno;
        SoleHolder(cache.bufs, cache.pinned, b);
      }
      cache.Publish(b);
      ok := true;
    }

    /** How file system code changes a block: `bread`, the change, `log_write`, `brelse` */
    method Update(blockno: nat, data: Block)
      requires Valid() && outstanding >= 1 && n < LOGBLOCKS && Idle(cache.bufs) && IsHome(start, |cache.disk|, blockno)
      modifies this`n, this`block, cache`bufs, cache`next, cache`prev, cache`order, cache`pinned, cache`view
      ensures Valid() && Idle(cache.bufs) && cache.view == old(cache.view)[blockno := data]
      ensures Header() == (if blockno in old(Header()) then old(Header()) else old(Header()) + [blockno])
    {
      hide AllListed, Unique, Counted, Pinned, Agrees, Pins, Distinct;
      OneLeft(cache.bufs, cache.pinned, Header());
      UnusedObtainable(cache.bufs, blockno);
      var b, ok, waits := cache.Bread(ROOTDEV, blockno);
      cache.SetData(b, data);
      ok := LogWrite(b);
      cache.Brelse(b);
    }

    /** The search loop of `log_write` */
    method FindLogged(blockno: int) returns (i: nat)
      requires n <= |block|
      ensures i <= n && (i < n ==> block[i] == blockno)
      ensures forall j :: 0 <= j < i ==> block[j] != blockno
    {
      i := 0;
      while i < n && block[i] != blockno
        invariant 0 <= i <= n
        invariant forall j :: 0 <= j < i ==> block[j] != blockno
      {
        i := i + 1;
      }
    }

    /** The two `bread`s at the start of each iteration of `write_log` and `install_trans` */
    method FetchBoth(first: nat, second: nat) returns (a: nat, b: nat, ok: bool)
      requires cache.Valid() && first < |cache.disk| && second < |cache.disk| && first != second
      requires OnlyRead(cache.bufs, cache.view, [first]) && OnlyRead(cache.bufs, cache.view, [second])
      modifies cache`bufs, cache`next, cache`prev, cache`order
      ensures cache.Valid()
      ensures !Obtainable(old(cache.bufs), first) ==> !ok
      ensures SomeUnused(old(cache.bufs)) && second in cache.pinned ==> ok
      ensures AllUnused(old(cache.bufs)) ==> ok
      ensures ok ==> a < NBUF && b < NBUF && a != b
      ensures ok ==> cache.bufs == old(cache.bufs)[a := cache.bufs[a]][b := cache.bufs[b]]
      ensures ok ==> Fetched(cache.view, first, old(cache.bufs)[a], cache.bufs[a])
      ensures ok ==> Fetched(cache.view, second, old(cache.bufs)[b], cache.bufs[b])
    {
      hide AllListed, Unique, Counted, Pinned, Agrees, OnlyRead, Obtainable, SomeUnused, AllUnused;
      UnusedObtainable(cache.bufs, first);
      b := 0;
      a, ok := cache.Fetch(first);
      if !ok { return; }
      if second in cache.pinned {
        PinObtainable(cache.bufs, cache.pinned, second);
      } else if AllUnused(old(cache.bufs)) {
        SecondObtainable(old(cache.bufs), cache.bufs[a], a, second);
      }
      StillRead(old(cache.bufs), cache.bufs, cache.view, a, second);
      b, ok := cache.Fetch(second);
    }

    /** Copies one held buffer into another, and writes that. */
    method CopyBlock(from: nat, to: nat)
      requires cache.Valid() && from < NBUF && to < NBUF && from != to
      requires cache.bufs[from].locked && cache.bufs[to].locked && cache.bufs[to].dev == ROOTDEV
      modifies cache`bufs, cache`disk, cache`view, cache`trace
      ensures cache.Valid()
      ensures cache.bufs == old(cache.bufs)[to := old(cache.bufs)[to].(data := cache.bufs[from].data)]
      ensures var w := Write(cache.bufs[to].blockno, cache.bufs[from].data);
              && cache.disk == Store(old(cache.disk), w) && cache.view == Store(old(cache.view), w)
              && cache.trace == old(cache.trace) + [w]
    {
      hide AllListed, Unique, Counted, Pinned, Agrees;
      cache.SetData(to, cache.bufs[from].data);
      cache.Bwrite(to);
    }

    method ReleaseBoth(a: nat, b: nat)
      requires cache.Valid() && a < NBUF && b < NBUF && a != b && cache.bufs[a].locked && cache.bufs[b].locked
      requires cache.bufs[a].blockno < |cache.view| && cache.bufs[a].data == cache.view[cache.bufs[a].blockno]
      requires cache.bufs[b].blockno < |cache.view| && cache.bufs[b].data == cache.view[cache.bufs[b].blockno]
      modifies cache`bufs, cache`next, cache`prev, cache`order
      ensures cache.Valid() && old(cache.bufs)[a].refcnt > 0 && old(cache.bufs)[b].refcnt > 0
      ensures var x, y := old(cache.bufs)[a], old(cache.bufs)[b];
              cache.bufs == old(cache.bufs)[a := x.(refcnt := x.refcnt - 1, locked := false)]
                                           [b := y.(refcnt := y.refcnt - 1, locked := false)]
    {
      hide AllListed, Unique, Counted, Pinned, Agrees;
      cache.Brelse(a);
      cache.Brelse(b);
    }

    /** One iteration of `write_log` */
    method LogOne(tail: nat) returns (ok: bool)
      requires cache.Valid() && tail < n <= LOGBLOCKS == |block| && FitsLog(start, cache.disk)
      requires IsHome(start, |cache.disk|, block[tail])
      requires Quiet()
      modifies cache`bufs, cache`next, cache`prev, cache`order, cache`disk, cache`view, cache`trace
      ensures !ok ==> cache.disk == old(cache.disk) && cache.trace == old(cache.trace)
      ensures SomeUnused(old(cache.bufs)) && block[tail] in cache.pinned ==> ok
      ensures !Obtainable(old(cache.bufs), start + tail + 1) ==> !ok
      ensures ok ==> var w := Write(start + tail + 1, old(cache.view)[block[tail]]);
                     && cache.disk == Store(old(cache.disk), w)
                     && cache.view == Store(old(cache.view), w)
                     && cache.trace == old(cache.trace) + [w]
                     && cache.Valid() && Calmer(old(cache.bufs), cache.bufs, [block[tail]])
    {
      hide AllListed, Unique, Counted, Pinned, Agrees, Calmer, OnlyRead, NobodyHolds, Obtainable, SomeUnused;
      var to, from;
      LogUnheld(cache.bufs, cache.view, start, |cache.disk|, start + tail + 1);
      SomeOnlyRead(cache.bufs, cache.view, [block[tail]], Header());
      to, from, ok := FetchBoth(start + tail + 1, block[tail]);
      if !ok { return; }
      CopyBlock(from, to);
      ReleaseBoth(from, to);
      if old(cache.bufs)[to].locked {
        UnheldAt(old(cache.bufs), start, |cache.disk|, to);
      }
      CalmerTwo(old(cache.bufs), cache.bufs, to, from, block[tail]);
    }

    /** `write_log` */
    method WriteLog() returns (ok: bool, ghost k: nat)
      requires Loaded() && Quiet()
      modifies cache`bufs, cache`next, cache`prev, cache`order, cache`disk, cache`view, cache`trace
      ensures var ws := LogWrites(start, old(Pending()).data);
              && k <= |ws| && (ok ==> k == |ws|)
              && cache.trace == old(cache.trace) + ws[..k]
              && cache.disk == Apply(old(cache.disk), ws[..k])
      ensures ok ==> cache.Valid() && Calmer(old(cache.bufs), cache.bufs, Header())
      ensures ok ==> SameHome(start, cache.view, old(cache.view))
      ensures SomeUnused(old(cache.bufs)) && Pins(cache.pinned, Header()) ==> ok
      ensures n > 0 && !Obtainable(old(cache.bufs), start + 1) ==> !ok && k == 0
    {
      hide AllListed, Unique, Counted, Pinned, Agrees, Apply, Calmer, OnlyRead, NobodyHolds, SomeUnused, Obtainable;
      CalmerSame(cache.bufs, Header());
      ghost var d, t := cache.disk, Pending();
      ghost var ws := LogWrites(start, t.data);
      ApplyNone(d, ws);
      var tail := 0;
      k := 0;
      while tail < n
        invariant 0 <= tail <= n && k == tail
        invariant cache.Valid() && |cache.disk| == |d| && FitsLog(start, cache.disk)
        invariant Calmer(old(cache.bufs), cache.bufs, Header()) && Quiet()
        invariant SomeUnused(old(cache.bufs)) ==> SomeUnused(cache.bufs)
        invariant tail == 0 ==> cache.bufs == old(cache.bufs)
        invariant n > 0 && !Obtainable(old(cache.bufs), start + 1) ==> tail == 0
        invariant SameHome(start, cache.view, old(cache.view))
        invariant cache.trace == old(cache.trace) + ws[..k]
        invariant cache.disk == Apply(d, ws[..k])
      {
        ghost var bufs, view := cache.bufs, cache.view;
        ok := LogOne(tail);
        if !ok { return; }
        StillUnused(bufs, cache.bufs, [block[tail]]);
        StillNobody(bufs, cache.bufs, start, |d|, [block[tail]]);
        StillOnlyRead(bufs, cache.bufs, view, cache.view, [block[tail]], Header());
        CalmerTrans(old(cache.bufs), bufs, cache.bufs, [block[tail]], Header());
        ApplyNext(d, ws, k);
        tail, k := tail + 1, k + 1;
      }
      ok := true;
    }

    /** `write_head` */
    method WriteHead() returns (ok: bool)
      requires cache.Valid() && n <= LOGBLOCKS == |block| && FitsLog(start, cache.disk)
      requires NobodyHolds(cache.bufs, start, |cache.disk|) && start !in cache.pinned
      modifies cache`bufs, cache`next, cache`prev, cache`order, cache`disk, cache`view, cache`trace
      ensures ok <==> Obtainable(old(cache.bufs), start)
      ensures !ok ==> cache.disk == old(cache.disk) && cache.trace == old(cache.trace)
      ensures ok ==> var w := Write(start, EncodeHead(old(cache.disk)[start], Header()));
                     && cache.disk == Store(old(cache.disk), w)
                     && cache.view == Store(old(cache.view), w)
                     && cache.trace == old(cache.trace) + [w]
                     && cache.Valid() && Calmer(old(cache.bufs), cache.bufs, [])
    {
      hide AllListed, Unique, Counted, Pinned, Agrees;
      OnDisk(cache.bufs, cache.pinned, cache.disk, cache.view, start);
      LogUnheld(cache.bufs, cache.view, start, |cache.disk|, start);
      var b;
      b, ok := cache.Fetch(start);
      if !ok { return; }
      var head := FormatHead(cache.bufs[b].data);
      cache.SetData(b, head);
      cache.Bwrite(b);
      cache.Brelse(b);
    }

    /** The loop of `write_head` that fills the header buffer */
    method FormatHead(was: Block) returns (b: Block)
      requires n <= LOGBLOCKS == |block| && |was.words| == BLOCK_WORDS
      ensures b == EncodeHead(was, Header())
    {
      var words := was.words[0 := n];
      var i := 0;
      while i < n
        invariant 0 <= i <= n
        invariant words == [n] + block[..i] + was.words[1 + i..]
      {
        words := words[1 + i := block[i]];
        i := i + 1;
      }
      b := Block(words);
    }

    /** `read_head` */
    method ReadHead() returns (ok: bool)
      requires cache.Valid() && GoodLog(start, cache.disk) && |block| == LOGBLOCKS
      requires n == 0 && NobodyHolds(cache.bufs, start, |cache.disk|) && start !in cache.pinned
      modifies this`n, this`block, cache`bufs, cache`next, cache`prev, cache`order
      ensures ok ==> |block| == LOGBLOCKS && n <= LOGBLOCKS && Header() == DecodeHead(cache.disk[start])
      ensures ok <==> Obtainable(old(cache.bufs), start)
      ensures ok ==> cache.Valid() && Calmer(old(cache.bufs), cache.bufs, [])
    {
      hide AllListed, Unique, Counted, Pinned, Agrees;
      OnDisk(cache.bufs, cache.pinned, cache.disk, cache.view, start);
      LogUnheld(cache.bufs, cache.view, start, |cache.disk|, start);
      var b;
      b, ok := cache.Fetch(start);
      if !ok { return; }
      var words := cache.bufs[b].data.words;
      n := words[0];
      var blocks, i := block, 0;
      while i < n
        invariant 0 <= i <= n && |blocks| == LOGBLOCKS
        invariant blocks[..i] == words[1..1 + i]
      {
        blocks := blocks[i := words[1 + i]];
        i := i + 1;
      }
      block := blocks;
      cache.Brelse(b);
    }

    /** One iteration of `install_trans` */
    method InstallOne(tail: nat, recovering: bool) returns (ok: bool)
      requires cache.Valid() && tail < n <= LOGBLOCKS == |block| && FitsLog(start, cache.disk)
      requires IsHome(start, |cache.disk|, block[tail])
      requires NobodyHolds(cache.bufs, start, |cache.disk|) && OnlyRead(cache.bufs, cache.view, [block[tail]])
      requires start + tail + 1 !in cache.pinned && (recovering || block[tail] in cache.pinned)
      modifies cache`bufs, cache`next, cache`prev, cache`order, cache`disk, cache`view, cache`trace, cache`pinned
      ensures !ok ==> cache.disk == old(cache.disk) && cache.trace == old(cache.trace)
      ensures (if recovering then AllUnused(old(cache.bufs)) else SomeUnused(old(cache.bufs))) ==> ok
      ensures ok ==> var w := Write(block[tail], old(cache.disk)[start + tail + 1]);
                     && cache.disk == Store(old(cache.disk), w)
                     && cache.view == Store(old(cache.view), w)
                     && cache.trace == old(cache.trace) + [w]
                     && cache.pinned == (if recovering then old(cache.pinned) else old(cache.pinned) - {block[tail]})
                     && cache.Valid() && Calmer(old(cache.bufs), cache.bufs, [block[tail]])
    {
      hide AllListed, Unique, Counted, Pinned, Agrees, Calmer, OnlyRead, NobodyHolds, Obtainable, SomeUnused, AllUnused;
      OnDisk(cache.bufs, cache.pinned, cache.disk, cache.view, start + tail + 1);
      LogUnheld(cache.bufs, cache.view, start, |cache.disk|, start + tail + 1);
      var lbuf, dbuf;
      lbuf, dbuf, ok := FetchBoth(start + tail + 1, block[tail]);
      if !ok { return; }
      CopyBlock(lbuf, dbuf);
      if !recovering {
        SoleHolder(cache.bufs, cache.pinned, dbuf);
        cache.Bunpin(dbuf);
      }
      ReleaseBoth(lbuf, dbuf);
      if old(cache.bufs)[lbuf].locked {
        UnheldAt(old(cache.bufs), start, |cache.disk|, lbuf);
      }
      CalmerTwo(old(cache.bufs), cache.bufs, lbuf, dbuf, block[tail]);
    }

    /** `install_trans` */
    method InstallTrans(recovering: bool) returns (ok: bool, ghost k: nat)
      requires Loaded() && Quiet()
      requires if recovering then cache.pinned == map[] else Pins(cache.pinned, Header())
      modifies cache`bufs, cache`next, cache`prev, cache`order, cache`disk, cache`view, cache`trace, cache`pinned
      ensures var ws := InstallWrites(Header(), old(cache.disk)[start + 1..start + 1 + n]);
              && k <= |ws| && (ok ==> k == |ws|)
              && cache.trace == old(cache.trace) + ws[..k]
              && cache.disk == Apply(old(cache.disk), ws[..k])
              && (ok ==> cache.view == Apply(old(cache.view), ws))
      ensures ok ==> cache.Valid() && cache.pinned == map[] && Calmer(old(cache.bufs), cache.bufs, Header())
      ensures (if recovering then AllUnused(old(cache.bufs)) else SomeUnused(old(cache.bufs))) ==> ok
    {
      hide AllListed, Unique, Counted, Pinned, Agrees, Apply, Pins, Distinct, Calmer, OnlyRead, NobodyHolds, AllUnused,
           SomeUnused;
      CalmerSame(cache.bufs, Header());
      ghost var d, v, header := cache.disk, cache.view, Header();
      ghost var ws := InstallWrites(header, d[start + 1..start + 1 + n]);
      ApplyNone(d, ws);
      ApplyNone(v, ws);
      assert header[0..] == header;
      var tail := 0;
      k := 0;
      while tail < n
        invariant 0 <= tail <= n && k == tail
        invariant cache.Valid() && |cache.disk| == |d|
        invariant if recovering then cache.pinned == map[] else Pins(cache.pinned, header[tail..])
        invariant forall b :: start <= b <= start + LOGBLOCKS ==> cache.disk[b] == d[b]
        invariant Calmer(old(cache.bufs), cache.bufs, header) && NobodyHolds(cache.bufs, start, |d|)
        invariant OnlyRead(cache.bufs, cache.view, header[tail..])
        invariant AllUnused(old(cache.bufs)) ==> AllUnused(cache.bufs)
        invariant SomeUnused(old(cache.bufs)) ==> SomeUnused(cache.bufs)
        invariant cache.trace == old(cache.trace) + ws[..k]
        invariant cache.disk == Apply(d, ws[..k]) && cache.view == Apply(v, ws[..k])
      {
        if !recovering {
          NextPin(cache.pinned, start, |d|, header, tail);
        }
        ghost var bufs, view := cache.bufs, cache.view;
        SomeOnlyRead(bufs, view, [block[tail]], header[tail..]);
        ok := InstallOne(tail, recovering);
        if !ok { return; }
        AfterOne(old(cache.bufs), bufs, cache.bufs, view, cache.view, header, tail);
        StillNobody(bufs, cache.bufs, start, |d|, [block[tail]]);
        ApplyNext(d, ws, k);
        ApplyNext(v, ws, k);
        tail, k := tail + 1, k + 1;
      }
      assert ws[..k] == ws;
      if !recovering {
        NoPins(cache.pinned, header[n..]);
      }
      ok := true;
    }

    /** The first half of `commit`, up to and including the commit point */
    method WriteTransaction() returns (ok: bool, ghost k: nat)
      requires Valid() && Quiet() && n > 0
      modifies cache`bufs, cache`next, cache`prev, cache`order, cache`disk, cache`view, cache`trace
      ensures var ws := HeadWrites(start, old(cache.disk), old(Pending()));
              && k <= |ws| && (ok ==> k == |ws|)
              && cache.trace == old(cache.trace) + ws[..k]
              && cache.disk == Apply(old(cache.disk), ws[..k])
      ensures ok ==> cache.Valid() && Calmer(old(cache.bufs), cache.bufs, Header())
      ensures ok ==> SameHome(start, cache.view, old(cache.view))
      ensures SomeUnused(old(cache.bufs)) ==> ok
      ensures !Obtainable(old(cache.bufs), start + 1) ==> !ok && k == 0
    {
      hide AllListed, Unique, Counted, Pinned, Agrees, Apply, Distinct, Pins, Calmer, OnlyRead, NobodyHolds;
      ghost var d, t := cache.disk, Pending();
      ghost var logs, ws := LogWrites(start, t.data), HeadWrites(start, d, t);
      assert Header()[0..] == Header();
      LogNotPinned(cache.pinned, start, |d|, Header(), 0, start);
      ok, k := WriteLog();
      assert ws[..k] == logs[..k];
      if !ok { return; }
      LogPrefix(start, d, t.data, k);
      ghost var bufs := cache.bufs;
      StillUnused(old(cache.bufs), bufs, Header());
      StillNobody(old(cache.bufs), bufs, start, |d|, Header());
      ok := WriteHead();
      if !ok { return; }
      CalmerTrans(old(cache.bufs), bufs, cache.bufs, [], Header());
      ApplyNext(d, ws, k);
      k := k + 1;
    }

    /** The second half of `commit`, and all of `recover_from_log` after `read_head` */
    method InstallAndClear(recovering: bool) returns (ok: bool, ghost k: nat)
      requires Loaded() && Quiet() && GoodLog(start, cache.disk) && Header() == DecodeHead(cache.disk[start])
      requires if recovering then cache.pinned == map[] else Pins(cache.pinned, Header())
      modifies this`n, cache`bufs, cache`next, cache`prev, cache`order, cache`disk, cache`view, cache`trace,
               cache`pinned
      ensures var ws := RecoveryWrites(start, old(cache.disk));
              && k <= |ws| && (ok ==> k == |ws|)
              && cache.trace == old(cache.trace) + ws[..k]
              && cache.disk == Apply(old(cache.disk), ws[..k])
      ensures ok ==> cache.Valid() && cache.pinned == map[] && n == 0
      ensures ok ==> Calmer(old(cache.bufs), cache.bufs, old(Header()))
      ensures ok ==> SameHome(start, cache.view, Install(old(cache.view), Logged(start, old(cache.disk))))
      ensures (if recovering then AllUnused(old(cache.bufs)) else SomeUnused(old(cache.bufs))) ==> ok
    {
      hide AllListed, Unique, Counted, Pinned, Agrees, Apply, Distinct, Pins, EncodeHead, Calmer, OnlyRead, NobodyHolds;
      ghost var d := cache.disk;
      ghost var ws := RecoveryWrites(start, d);
      ok, k := InstallTrans(recovering);
      assert ws[..k] == InstallWrites(Header(), d[start + 1..start + 1 + n])[..k];
      if !ok { return; }
      InstallAll(start, d, Logged(start, d));
      ghost var bufs, header := cache.bufs, Header();
      StillUnused(old(cache.bufs), bufs, header);
      UnusedObtainable(bufs, start);
      StillNobody(old(cache.bufs), bufs, start, |d|, header);
      n := 0;
      ok := WriteHead();
      if !ok { return; }
      CalmerTrans(old(cache.bufs), bufs, cache.bufs, [], header);
      ApplyNext(d, ws, k);
      k := k + 1;
    }

    /**
     `commit` issues the writes `CommitWrites`, all of them or, if it panics for want of
     buffers, the first `k`.  When it completes, home blocks hold their latest contents.
     */
    method Commit() returns (ok: bool, ghost k: nat)
      requires Valid() && Quiet() && Ahead()
      modifies this`n, cache`bufs, cache`next, cache`prev, cache`order, cache`disk, cache`view, cache`trace,
               cache`pinned
      ensures var ws := CommitWrites(start, old(cache.disk), old(Pending()));
              && k <= |ws| && (ok ==> k == |ws|)
              && cache.trace == old(cache.trace) + ws[..k]
              && cache.disk == Apply(old(cache.disk), ws[..k])
      ensures Ahead()
      ensures ok ==> Valid() && n == 0 && Calmer(old(cache.bufs), cache.bufs, old(Header()))
      ensures ok ==> SameHome(start, cache.view, old(cache.view)) && SameHome(start, cache.disk, cache.view)
      ensures old(n == 0 || SomeUnused(cache.bufs)) ==> ok
      ensures old(n > 0 && !Obtainable(cache.bufs, start + 1)) ==> !ok && k == 0
      ensures old(n) == LOGBLOCKS ==> !ok && k == 0
      ensures old(Unreferenced(cache.bufs, start + 1)) ==> (ok <==> old(n == 0 || SomeUnused(cache.bufs)))
      ensures GoodLog(start, cache.disk)
      ensures SameHome(start, Recovered(start, cache.disk), if k > old(n) then old(cache.view) else old(cache.disk))
    {
      hide AllListed, Unique, Counted, Pinned, Agrees, Apply, CommitWrites, Install, WriteAhead, Calmer, OnlyRead,
           NobodyHolds, Obtainable, SomeUnused, Unreferenced, Contents, Pins, RecoveryWrites;
      ghost var d, t, v := cache.disk, Pending(), cache.view;
      PendingInstalled(start, cache.bufs, cache.pinned, d, v, t);
      UnreferencedUnobtainable(cache.bufs, start + 1);
      if n == LOGBLOCKS {
        FullLog(cache.bufs, cache.pinned, Header(), start + 1);
      }
      CommitAhead(start, d, t);
      if n == 0 {
        NoPins(cache.pinned, Header());
        AllOnDisk(cache.bufs, cache.pinned, d, v);
        EmptyCommit(start, d, t);
        CalmerSame(cache.bufs, Header());
        ok, k := true, 0;
      } else {
        ok, k := CommitSome();
      }
      CommitIsAtomic(start, d, t, k);
      StillAhead(start, first, old(cache.trace), CommitWrites(start, d, t), k);
    }

    /** The body of `commit` */
    method CommitSome() returns (ok: bool, ghost k: nat)
      requires Valid() && Quiet() && n > 0
      modifies this`n, cache`bufs, cache`next, cache`prev, cache`order, cache`disk, cache`view, cache`trace,
               cache`pinned
      ensures var ws := CommitWrites(start, old(cache.disk), old(Pending()));
              && k <= |ws| && (ok ==> k == |ws|)
              && cache.trace == old(cache.trace) + ws[..k]
              && cache.disk == Apply(old(cache.disk), ws[..k])
      ensures ok ==> Valid() && n == 0 && Calmer(old(cache.bufs), cache.bufs, old(Header()))
      ensures ok ==> SameHome(start, cache.view, old(cache.view)) && SameHome(start, cache.disk, cache.view)
      ensures old(SomeUnused(cache.bufs)) ==> ok
      ensures old(!Obtainable(cache.bufs, start + 1)) ==> !ok && k == 0
    {
      hide AllListed, Unique, Counted, Pinned, Agrees, Apply, EncodeHead, DecodeHead, NobodyHolds, RecoveryWrites,
           HeadWrites, Calmer, OnlyRead, SomeUnused, Obtainable, CommitWrites, Install, Contents, Distinct, Pins;
      ghost var d, t, v, bufs := cache.disk, Pending(), cache.view, cache.bufs;
      ghost var h := AtHeader(start, d, t);
      ghost var ws, ws' := HeadWrites(start, d, t), RecoveryWrites(start, h);
      CommitSplits(start, d, t);
      ok, k := WriteTransaction();
      ApplyPrefix(d, ws, ws', k);
      if !ok { return; }
      ghost var j, bufs', header := 0, cache.bufs, Header();
      StillUnused(bufs, bufs', header);
      StillNobody(bufs, bufs', start, |d|, header);
      StillOnlyRead(bufs, bufs', v, cache.view, header, header);
      InstallSame(start, v, cache.view, t);
      ok, j := InstallAndClear(false);
      ApplySplit(d, ws, ws', j);
      k := k + j;
      if !ok { return; }
      AllOnDisk(cache.bufs, cache.pinned, cache.disk, cache.view);
      CalmerTrans(bufs, bufs', cache.bufs, header, header);
      PinsNone();
      assert Header() == [];
      assert ws'[..j] == ws';
      RecoveryMeaning(start, h);
    }

    /** `recover_from_log`, right after boot */
    method RecoverFromLog() returns (ok: bool, ghost k: nat)
      requires cache.Valid() && cache.pinned == map[] && GoodLog(start, cache.disk) && Ahead()
      requires n == 0 && |block| == LOGBLOCKS
      requires forall i :: 0 <= i < NBUF ==> !cache.bufs[i].locked
      modifies this`n, this`block
      modifies cache`bufs, cache`next, cache`prev, cache`order, cache`disk, cache`view, cache`trace, cache`pinned
      ensures var ws := RecoveryWrites(start, old(cache.disk));
              && k <= |ws| && (ok ==> k == |ws|)
              && cache.trace == old(cache.trace) + ws[..k]
              && cache.disk == Apply(old(cache.disk), ws[..k])
      ensures Ahead()
      ensures ok ==> Valid() && n == 0 && cache.view == cache.disk == Recovered(start, old(cache.disk))
      ensures old(AllUnused(cache.bufs)) ==> ok && AllUnused(cache.bufs)
    {
      hide AllListed, Unique, Counted, Pinned, Agrees, Apply, EncodeHead, DecodeHead, RecoveryWrites, WriteAhead;
      ghost var d, tr := cache.disk, cache.trace;
      ApplyNone(d, RecoveryWrites(start, d));
      RecoveryAhead(start, d);
      k := 0;
      ghost var bufs := cache.bufs;
      UnusedObtainable(bufs, start);
      ok := ReadHead();
      if !ok { return; }
      ghost var bufs', header := cache.bufs, Header();
      StillUnused(bufs, bufs', []);
      ok, k := InstallAndClear(true);
      StillAhead(start, first, tr, RecoveryWrites(start, d), k);
      if !ok { return; }
      assert RecoveryWrites(start, d)[..k] == RecoveryWrites(start, d);
      RecoveryMeaning(start, d);
      AllOnDisk(cache.bufs, cache.pinned, cache.disk, cache.view);
      StillUnused(bufs', cache.bufs, header);
    }

    /** One round of the loop of `begin_op`; the caller sleeps and retries unless admitted. */
    method BeginOp() returns (admitted: bool)
      requires Valid()
      modifies this`outstanding
      ensures Valid()
      ensures admitted <==> !committing && n + (old(outstanding) + 1) * MAXOPBLOCKS <= LOGBLOCKS
      ensures outstanding == old(outstanding) + (if admitted then 1 else 0)
    {
      if committing {
        return false;
      } else if n + (outstanding + 1) * MAXOPBLOCKS > LOGBLOCKS {
        return false;
      } else {
        outstanding := outstanding + 1;
        return true;
      }
    }

    /** `end_op`: the last operation out commits. */
    method EndOp() returns (ok: bool, ghost k: nat)
      requires Valid() && outstanding >= 1 && Ahead()
      requires outstanding == 1 ==> Quiet()
      modifies this`n, this`outstanding, this`committing
      modifies cache`bufs, cache`next, cache`prev, cache`order, cache`disk, cache`view, cache`trace, cache`pinned
      ensures outstanding == old(outstanding) - 1
      ensures outstanding > 0 || old(committing) ==> unchanged(cache) && n == old(n)
      ensures Ahead()
      ensures ok ==> Valid() && !committing
      ensures old(committing) ==> !ok
      ensures var ws := if old(committing) || outstanding > 0 then []
                        else CommitWrites(start, old(cache.disk), old(Pending()));
              && k <= |ws| && (ok ==> k == |ws|)
              && cache.trace == old(cache.trace) + ws[..k]
              && cache.disk == Apply(old(cache.disk), ws[..k])
      ensures ok ==>
                SameHome(start, cache.view, old(cache.view)) &&
                (outstanding == 0 ==> n == 0 && SameHome(start, cache.disk, cache.view))
      ensures !old(committing) && (outstanding > 0 || old(n == 0 || SomeUnused(cache.bufs))) ==> ok
      ensures !old(committing) && outstanding == 0 && old(Unreferenced(cache.bufs, start + 1)) ==>
                (ok <==> old(n == 0 || SomeUnused(cache.bufs)))
      ensures outstanding == 0 && old(n) == LOGBLOCKS ==> !ok && k == 0
    {
      hide AllListed, Unique, Counted, Pinned, Agrees, CommitWrites, WriteAhead, Apply;
      ApplyNone(cache.disk, []);
      outstanding := outstanding - 1;
      k := 0;
      if committing {
        return false, 0;
      }
      if outstanding == 0 {
        committing := true;
        ok, k := Commit();
        if !ok { return; }
        committing := false;
      } else {
        ok := true;
      }
    }
  }

  /** A run that ends in that panic: three operations log LOGBLOCKS blocks between them, as they may, and
      the commit at the end of the last finds no buffer. */
  method FullLogPanics(contents: Disk, start: nat, data: Block) returns (ok: bool)
    requires EmptyLog(start, contents) && start + 2 * LOGBLOCKS < |contents|
    ensures !ok
  {
    hide AllListed, Unique, Counted, Pinned, Agrees, Apply, WriteAhead, Pins, Distinct;
    var cache := new BufferCache(contents);
    var log := new Log(cache, start);
    ApplyNone(contents, []);
    var admitted, k := true, 0;
    while k < 3
      invariant 0 <= k <= 3 && log.outstanding == k && log.n == 0 && !log.committing && log.Valid()
      invariant cache.disk == contents && cache.trace == [] && Idle(cache.bufs)
    {
      admitted := log.BeginOp();
      k := k + 1;
    }
    k := 0;
    while k < LOGBLOCKS
      invariant 0 <= k <= LOGBLOCKS && log.outstanding == 3 && !log.committing && log.Valid() && Idle(cache.bufs)
      invariant cache.disk == contents && cache.trace == [] && log.n == k
      invariant forall b :: b in log.Header() ==> b < start + LOGBLOCKS + 1 + k
    {
      log.Update(start + LOGBLOCKS + 1 + k, data);
      k := k + 1;
    }
    IdleQuiet(cache.bufs, cache.view, start, |contents|, log.Header());
    ghost var j;
    ok, j := log.EndOp();
    ok, j := log.EndOp();
    ok, j := log.EndOp();
  }
}
