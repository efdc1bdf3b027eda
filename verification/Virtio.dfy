/**
 The disk driver of kernel/virtio_disk.c and the device it talks to, over the split queue of
 sections 2.6 and 5.2 of virtio 1.1.

 What a process does between taking and releasing `vdisk_lock` is one method: `Submit` up to
 the sleep on the buffer, `Finish` after it, `Intr` for the interrupt.  The device's moves,
 `Fetch` and `Complete`, may come at any time, and `Complete` may pick any request it has
 fetched; it also runs inside `Intr`.  Blocks and buffers hold an abstract content.
 */
module Virtio {
  import opened Bytes

  const NUM := 8
  const WRAP := 0x1_0000  // ring indices are 16 bits wide
  const NEXT := 1
  const WRITE := 2
  const NONE := -1

  datatype Desc = Desc(addr: int, len: int, flags: int, next: int)
  datatype Op = Op(write: bool, sector: int)
  datatype Info = Info(b: int, status: int)

  /** A request in flight: its chain of descriptors and what it asks for */
  datatype Req = Req(id: int, mid: int, tail: int, b: int, write: bool, block: int)

  /** How far a request has come: waiting in the avail ring, in the device, waiting in the used
      ring, seen by the interrupt handler. */
  datatype Stage = Posted | Fetched | Completed | Seen

  datatype Driver = Driver(free: seq<bool>, desc: seq<Desc>, ops: seq<Op>, info: seq<Info>, usedIdx: int)
  /** The two rings, and the device's own state: how far it has read the avail ring and which
      heads it has fetched and not reported yet */
  datatype Rings = Rings(avail: seq<int>, availIdx: int, used: seq<int>, usedIdx: int, lastAvail: int, taken: set<int>)

  predicate HasNext(flags: int) {
    flags % 2 == NEXT
  }

  // ----- Descriptors and chains -----

  ghost predicate Sized(d: Driver) {
    |d.free| == NUM && |d.desc| == NUM && |d.ops| == NUM && |d.info| == NUM
  }

  predicate IsDesc(i: int) {
    0 <= i < NUM
  }

  /** Three descriptors linked from head h, the third ending the chain */
  predicate LinksAt(desc: seq<Desc>, h: int, r: Req)
    requires |desc| == NUM
  {
    && IsDesc(h) && IsDesc(r.mid) && IsDesc(r.tail) && h != r.mid && h != r.tail && r.mid != r.tail
    && HasNext(desc[h].flags) && desc[h].next == r.mid
    && HasNext(desc[r.mid].flags) && desc[r.mid].next == r.tail
    && !HasNext(desc[r.tail].flags)
  }

  /** The chain of head h says what the request asks for. */
  predicate ChainAt(d: Driver, h: int, r: Req)
    requires |d.desc| == NUM && |d.ops| == NUM && |d.info| == NUM
  {
    && LinksAt(d.desc, h, r)
    && d.desc[h].addr == h && d.desc[h].len == 16 && d.desc[h].flags / WRITE % 2 == 0
    && d.desc[r.mid].addr == r.b && d.desc[r.mid].len == 1024 && (d.desc[r.mid].flags / WRITE % 2 == 0 <==> r.write)
    && d.desc[r.tail].addr == h && d.desc[r.tail].len == 1 && d.desc[r.tail].flags / WRITE % 2 == 1
    && d.ops[h] == Op(r.write, 2 * r.block) && d.info[h].b == r.b
  }

  /** What the device expects of a request, section 5.2.6 of virtio 1.1: 16 bytes that it reads, one block
      that it reads to write the disk and writes to read it, and a byte that it writes. */
  predicate Serviceable(head: Desc, body: Desc, tail: Desc, op: Op) {
    && head.len == 16 && head.flags / 2 % 2 == 0
    && body.len == 1024 && body.flags / 2 % 2 == (if op.write then 0 else 1)
    && tail.len == 1 && tail.flags / 2 % 2 == 1 && tail.flags % 2 == 0 && op.sector % 2 == 0
  }

  /** The chain of every request is in place and its descriptors are its own. */
  ghost predicate Linked(d: Driver, reqs: map<int, Req>, owner: seq<int>)
    requires Sized(d) && |owner| == NUM
  {
    forall h :: h in reqs ==> LinkedAt(d, owner, h, reqs[h])
  }

  ghost predicate LinkedAt(d: Driver, owner: seq<int>, h: int, q: Req)
    requires Sized(d) && |owner| == NUM
  {
    ChainAt(d, h, q) && owner[h] == h && owner[q.mid] == h && owner[q.tail] == h
  }

  predicate InChain(reqs: map<int, Req>, h: int, i: int) {
    h in reqs && (i == h || i == reqs[h].mid || i == reqs[h].tail)
  }

  /** Every descriptor is free or in the chain of its owner. */
  ghost predicate Accounted(free: seq<bool>, reqs: map<int, Req>, owner: seq<int>)
    requires |free| == NUM && |owner| == NUM
  {
    forall i :: IsDesc(i) ==> if owner[i] == NONE then free[i] else !free[i] && InChain(reqs, owner[i], i)
  }

  ghost predicate Chains(d: Driver, reqs: map<int, Req>, owner: seq<int>)
    requires Sized(d)
  {
    |owner| == NUM && Linked(d, reqs, owner) && Accounted(d.free, reqs, owner)
  }

  // ----- Rings -----

  /** Positions base, base+1, ... of the ring hold q. */
  ghost predicate Queue(ring: seq<int>, base: nat, q: seq<int>) {
    && |ring| == NUM && |q| <= NUM
    && forall k :: 0 <= k < |q| ==> QueueAt(ring, base, k, q[k])
  }

  predicate QueueAt(ring: seq<int>, base: nat, k: nat, h: int)
    requires |ring| == NUM
  {
    ring[(base + k) % NUM] == h
  }

  lemma QueuePush(ring: seq<int>, base: nat, q: seq<int>, h: int)
    requires Queue(ring, base, q) && |q| < NUM
    ensures Queue(ring[(base + |q|) % NUM := h], base, q + [h])
  {
    var ring', q' := ring[(base + |q|) % NUM := h], q + [h];
    forall k | 0 <= k < |q'| ensures QueueAt(ring', base, k, q'[k]) {
      if k < |q| {
        assert QueueAt(ring, base, k, q[k]);
        assert (base + k) % NUM != (base + |q|) % NUM;
      }
    }
  }

  lemma QueuePop(ring: seq<int>, base: nat, q: seq<int>)
    requires Queue(ring, base, q) && q != []
    ensures ring[base % NUM] == q[0] && Queue(ring, base + 1, q[1..])
  {
    assert QueueAt(ring, base, 0, q[0]);
    forall k | 0 <= k < |q[1..]| ensures QueueAt(ring, base + 1, k, q[1..][k]) {
      assert QueueAt(ring, base, k + 1, q[k + 1]);
    }
  }

  /** The counter behind a 16-bit index: the slot used is the same, and two indices differ
      unless the counters are equal. */
  lemma WrappedIndex(a: nat, b: nat)
    requires a <= b <= a + NUM
    ensures a % WRAP % NUM == a % NUM && (a % WRAP == b % WRAP <==> a == b)
    ensures (a % WRAP + 1) % WRAP == (a + 1) % WRAP
  {
  }

  // ----- Stages -----

  /** The queue holds exactly the heads at the given stage. */
  ghost predicate Lists(q: seq<int>, stage: map<int, Stage>, at: Stage) {
    && Distinct(q)
    && (forall k :: 0 <= k < |q| ==> q[k] in stage && stage[q[k]] == at)
    && (forall h :: h in stage && stage[h] == at ==> h in q)
  }

  lemma FirstListed(q: seq<int>, stage: map<int, Stage>, at: Stage)
    requires Lists(q, stage, at)
    ensures q == [] || q[0] in stage
  {
  }

  // ----- Counting free descriptors -----

  function FreeCount(free: seq<bool>): nat {
    if free == [] then 0 else FreeCount(free[..|free| - 1]) + if free[|free| - 1] then 1 else 0
  }

  lemma {:induction false} CountTaken(free: seq<bool>, i: nat)
    requires i < |free| && free[i]
    ensures FreeCount(free) >= 1 && FreeCount(free[i := false]) == FreeCount(free) - 1
  {
    var n := |free| - 1;
    if i == n {
      assert free[i := false][..n] == free[..n];
    } else {
      assert free[i := false][..n] == free[..n][i := false];
      CountTaken(free[..n], i);
    }
  }

  lemma {:induction false} CountNone(free: seq<bool>)
    requires forall i :: 0 <= i < |free| ==> !free[i]
    ensures FreeCount(free) == 0
  {
    if free != [] {
      CountNone(free[..|free| - 1]);
    }
  }

  lemma {:induction false} CountAll(free: seq<bool>)
    requires forall i :: 0 <= i < |free| ==> free[i]
    ensures FreeCount(free) == |free|
  {
    if free != [] {
      CountAll(free[..|free| - 1]);
    }
  }

  // ----- The whole state -----

  /** Ghost bookkeeping: requests by head descriptor, the chain each descriptor is in, the head
      working for each buffer, stages, the contents of the rings, how many entries have been
      taken out of each, and the requests finished so far. */
  datatype Book = Book(reqs: map<int, Req>, owner: seq<int>, worker: map<int, int>, stage: map<int, Stage>,
                       avail: seq<int>, used: seq<int>, fetched: nat, seen: nat, finished: seq<int>)

  ghost predicate RingsOk(d: Driver, r: Rings, g: Book) {
    && Queue(r.avail, g.fetched, g.avail) && Queue(r.used, g.seen, g.used)
    && r.availIdx == (g.fetched + |g.avail|) % WRAP && r.lastAvail == g.fetched % WRAP
    && r.usedIdx == (g.seen + |g.used|) % WRAP && d.usedIdx == g.seen % WRAP
  }

  ghost predicate StagesOk(g: Book) {
    && g.stage.Keys == g.reqs.Keys
    && Lists(g.avail, g.stage, Posted) && Lists(g.used, g.stage, Completed)
  }

  ghost predicate TakenOk(r: Rings, g: Book) {
    forall h :: h in r.taken <==> h in g.stage && g.stage[h] == Fetched
  }

  /** A buffer is marked busy exactly while the interrupt handler has not seen its request. */
  ghost predicate BusyOk(g: Book, busy: set<int>) {
    && (forall h :: h in g.reqs && h in g.stage ==> (g.reqs[h].b in busy <==> g.stage[h] != Seen))
    && (forall h :: h in g.reqs ==> g.reqs[h].b in g.worker && g.worker[g.reqs[h].b] == h)
    && (forall b :: b in busy ==> b in g.worker && g.worker[b] in g.reqs && g.reqs[g.worker[b]].b == b)
  }

  /** Requests are numbered as posted; a request is in `finished` once it has been seen, and
      nothing is in it twice. */
  ghost predicate IdsOk(g: Book) {
    && (forall h :: h in g.reqs ==> 0 <= g.reqs[h].id < g.fetched + |g.avail|)
    && (forall h, h' :: h in g.reqs && h' in g.reqs && h != h' ==> g.reqs[h].id != g.reqs[h'].id)
    && (forall h :: h in g.reqs && h in g.stage ==> (g.reqs[h].id in g.finished <==> g.stage[h] == Seen))
    && (forall k :: 0 <= k < |g.finished| ==> 0 <= g.finished[k] < g.fetched + |g.avail|)
    && Distinct(g.finished)
  }

  /** The status byte is 0 exactly when the device has reported the request. */
  ghost predicate StatusOk(d: Driver, g: Book)
    requires Sized(d)
  {
    forall h :: h in g.stage && IsDesc(h) ==>
      d.info[h].status == if g.stage[h] == Completed || g.stage[h] == Seen then 0 else 0xff
  }

  function Freed(d: Driver, i: nat): Driver
    requires i < |d.free| && i < |d.desc|
  {
    d.(free := d.free[i := true], desc := d.desc[i := Desc(0, 0, 0, 0)])
  }

  /** Distinct descriptors that are free */
  ghost predicate Three(d: Driver, idx: seq<int>)
    requires Sized(d)
  {
    Distinct(idx) && forall k :: 0 <= k < |idx| ==> IsDesc(idx[k]) && d.free[idx[k]]
  }

  /** The free map without the descriptors of idx */
  ghost function Taken(free: seq<bool>, idx: seq<int>): seq<bool> {
    seq(|free|, k requires 0 <= k < |free| => free[k] && k !in idx)
  }

  // ----- Posting a request -----

  function Formatted(d: Driver, h: int, q: Req): Driver
    requires |d.desc| == NUM && |d.ops| == NUM && |d.info| == NUM && IsDesc(h) && IsDesc(q.mid) && IsDesc(q.tail)
  {
    d.(desc := d.desc[h := Desc(h, 16, NEXT, q.mid)]
                     [q.mid := Desc(q.b, 1024, NEXT + (if q.write then 0 else WRITE), q.tail)]
                     [q.tail := Desc(h, 1, WRITE, 0)],
       ops := d.ops[h := Op(q.write, 2 * q.block)],
       info := d.info[h := Info(q.b, 0xff)])
  }

  ghost function PostedBook(g: Book, h: int, q: Req): Book
    requires |g.owner| == NUM && IsDesc(h) && IsDesc(q.mid) && IsDesc(q.tail)
  {
    g.(reqs := g.reqs[h := q], owner := g.owner[h := h][q.mid := h][q.tail := h], worker := g.worker[q.b := h],
       stage := g.stage[h := Posted], avail := g.avail + [h])
  }

  /** The descriptors of a request to be posted are free; its buffer is not in use. */
  ghost predicate CanPost(d: Driver, g: Book, h: int, q: Req)
    requires Sized(d)
  {
    && IsDesc(h) && IsDesc(q.mid) && IsDesc(q.tail) && h != q.mid && h != q.tail && q.mid != q.tail
    && d.free[h] && d.free[q.mid] && d.free[q.tail]
    && q.id == g.fetched + |g.avail|
    && forall h' :: h' in g.reqs ==> g.reqs[h'].b != q.b
  }

  lemma ChainSame(d: Driver, d': Driver, h: int, q: Req)
    requires Sized(d) && Sized(d') && ChainAt(d, h, q)
    requires d'.desc[h] == d.desc[h] && d'.desc[q.mid] == d.desc[q.mid] && d'.desc[q.tail] == d.desc[q.tail]
    requires d'.ops[h] == d.ops[h] && d'.info[h].b == d.info[h].b
    ensures ChainAt(d', h, q)
  {
  }

  /** The descriptors of a chain are not free, and in no other chain. */
  lemma ChainUsed(d: Driver, g: Book, h: int)
    requires Sized(d) && Chains(d, g.reqs, g.owner) && h in g.reqs
    ensures LinkedAt(d, g.owner, h, g.reqs[h]) && !d.free[h] && !d.free[g.reqs[h].mid] && !d.free[g.reqs[h].tail]
  {
    assert LinkedAt(d, g.owner, h, g.reqs[h]);
  }

  lemma PostLinkedAt(d: Driver, d': Driver, g: Book, h: int, q: Req, h': int)
    requires Sized(d) && Chains(d, g.reqs, g.owner) && CanPost(d, g, h, q) && Sized(d')
    requires d' == Formatted(d, h, q).(free := d'.free) && h' in PostedBook(g, h, q).reqs
    ensures LinkedAt(d', PostedBook(g, h, q).owner, h', PostedBook(g, h, q).reqs[h'])
    ensures h !in g.reqs
  {
    hide Linked, Accounted;
    if h in g.reqs {
      ChainUsed(d, g, h);
    }
    if h' != h {
      ChainUsed(d, g, h');
      ChainSame(d, d', h', g.reqs[h']);
    }
  }

  lemma PostChains(d: Driver, g: Book, h: int, q: Req)
    requires Sized(d) && Chains(d, g.reqs, g.owner) && CanPost(d, g, h, q)
    ensures h !in g.reqs
    ensures var d', g' := Formatted(d.(free := Taken(d.free, [h, q.mid, q.tail])), h, q), PostedBook(g, h, q);
            Sized(d') && Chains(d', g'.reqs, g'.owner)
  {
    var d', g' := Formatted(d.(free := Taken(d.free, [h, q.mid, q.tail])), h, q), PostedBook(g, h, q);
    PostLinkedAt(d, d', g, h, q, h);
    assert Accounted(d'.free, g'.reqs, g'.owner) by {
      hide Linked, LinkedAt;
    }
    hide Accounted, LinkedAt, PostedBook, Formatted;
    forall h' | h' in g'.reqs ensures LinkedAt(d', g'.owner, h', g'.reqs[h']) {
      PostLinkedAt(d, d', g, h, q, h');
    }
  }

  lemma PostStages(g: Book, h: int, q: Req)
    requires |g.owner| == NUM && IsDesc(h) && IsDesc(q.mid) && IsDesc(q.tail)
    requires StagesOk(g) && h !in g.reqs && forall h' :: h' in g.reqs ==> IsDesc(h')
    ensures StagesOk(PostedBook(g, h, q)) && |g.avail| < NUM
  {
    var g' := PostedBook(g, h, q);
    assert forall k :: 0 <= k < |g.avail| ==> g'.avail[k] == g.avail[k];
    assert g'.avail[|g.avail|] == h;
    Pigeonhole(g'.avail, NUM);
  }

  lemma PostBusy(g: Book, h: int, q: Req, busy: set<int>)
    requires |g.owner| == NUM && IsDesc(h) && IsDesc(q.mid) && IsDesc(q.tail)
    requires StagesOk(g) && BusyOk(g, busy) && IdsOk(g) && h !in g.reqs
    requires q.id == g.fetched + |g.avail| && forall h' :: h' in g.reqs ==> g.reqs[h'].b != q.b
    ensures BusyOk(PostedBook(g, h, q), busy + {q.b}) && IdsOk(PostedBook(g, h, q))
  {
    hide Lists;
  }

  lemma PostRings(d: Driver, r: Rings, g: Book, h: int, q: Req)
    requires |g.owner| == NUM && IsDesc(h) && IsDesc(q.mid) && IsDesc(q.tail) && RingsOk(d, r, g) && |g.avail| < NUM
    requires |d.desc| == NUM && |d.ops| == NUM && |d.info| == NUM
    ensures |r.avail| == NUM && 0 <= r.availIdx % NUM < NUM
    ensures forall free :: RingsOk(Formatted(d.(free := free), h, q),
                                   r.(avail := r.avail[r.availIdx % NUM := h], availIdx := (r.availIdx + 1) % WRAP),
                                   PostedBook(g, h, q))
  {
    var n := g.fetched + |g.avail|;
    WrappedIndex(n, n);
    QueuePush(r.avail, g.fetched, g.avail, h);
  }

  lemma PostStatus(d: Driver, g: Book, h: int, q: Req)
    requires Sized(d) && StatusOk(d, g) && |g.owner| == NUM && IsDesc(h) && IsDesc(q.mid) && IsDesc(q.tail)
    ensures forall free :: |free| == NUM ==> StatusOk(Formatted(d.(free := free), h, q), PostedBook(g, h, q))
  {
  }

  lemma PostTaken(r: Rings, g: Book, h: int, q: Req)
    requires |g.owner| == NUM && IsDesc(h) && IsDesc(q.mid) && IsDesc(q.tail) && StagesOk(g) && TakenOk(r, g) &&
             h !in g.reqs
    ensures forall avail, idx :: TakenOk(r.(avail := avail, availIdx := idx), PostedBook(g, h, q))
  {
  }

  lemma HeadsAreDescs(d: Driver, g: Book)
    requires Sized(d) && Chains(d, g.reqs, g.owner)
    ensures |g.owner| == NUM && forall h :: h in g.reqs ==> IsDesc(h)
  {
    forall h | h in g.reqs ensures IsDesc(h) {
      ChainUsed(d, g, h);
    }
  }

  lemma SameChains(d: Driver, d': Driver, r: Rings, g: Book)
    requires Sized(d) && Sized(d') && Chains(d, g.reqs, g.owner) && RingsOk(d, r, g) && StatusOk(d, g)
    requires d' == d.(desc := d'.desc) && forall k :: 0 <= k < NUM && !d.free[k] ==> d'.desc[k] == d.desc[k]
    ensures Chains(d', g.reqs, g.owner) && RingsOk(d', r, g) && StatusOk(d', g)
  {
    forall h | h in g.reqs ensures LinkedAt(d', g.owner, h, g.reqs[h]) {
      ChainUsed(d, g, h);
      ChainSame(d, d', h, g.reqs[h]);
    }
  }

  lemma PostKeeps(d: Driver, r: Rings, g: Book, busy: set<int>, h: int, q: Req)
    requires Sized(d) && Chains(d, g.reqs, g.owner) && CanPost(d, g, h, q)
    requires RingsOk(d, r, g) && StagesOk(g) && TakenOk(r, g) && BusyOk(g, busy) && IdsOk(g) && StatusOk(d, g)
    ensures h !in g.reqs && |g.owner| == NUM && |r.avail| == NUM
    ensures var d', g' := Formatted(d.(free := Taken(d.free, [h, q.mid, q.tail])), h, q), PostedBook(g, h, q);
            var r' := r.(avail := r.avail[r.availIdx % NUM := h], availIdx := (r.availIdx + 1) % WRAP);
            && Sized(d') && Chains(d', g'.reqs, g'.owner) && RingsOk(d', r', g') && StagesOk(g') && TakenOk(r', g')
            && BusyOk(g', busy + {q.b}) && IdsOk(g') && StatusOk(d', g')
  {
    hide Chains, RingsOk, StagesOk, TakenOk, BusyOk, IdsOk, StatusOk, Formatted, PostedBook;
    PostChains(d, g, h, q);
    HeadsAreDescs(d, g);
    PostTaken(r, g, h, q);
    PostStages(g, h, q);
    PostBusy(g, h, q, busy);
    PostRings(d, r, g, h, q);
    PostStatus(d, g, h, q);
  }

  // ----- The later stages of a request -----

  ghost function FetchedBook(g: Book): Book
    requires g.avail != []
  {
    g.(avail := g.avail[1..], fetched := g.fetched + 1, stage := g.stage[g.avail[0] := Fetched])
  }

  ghost function CompletedBook(g: Book, h: int): Book {
    g.(used := g.used + [h], stage := g.stage[h := Completed])
  }

  ghost function SeenBook(g: Book): Book
    requires g.used != [] && g.used[0] in g.reqs
  {
    g.(used := g.used[1..], seen := g.seen + 1, stage := g.stage[g.used[0] := Seen],
       finished := g.finished + [g.reqs[g.used[0]].id])
  }

  /** Taking the first entry from a queue, its head moving to another stage */
  lemma ListsPop(q: seq<int>, stage: map<int, Stage>, at: Stage, to: Stage)
    requires Lists(q, stage, at) && q != [] && to != at
    ensures Lists(q[1..], stage[q[0] := to], at)
  {
    assert forall k :: 0 <= k < |q[1..]| ==> q[1..][k] == q[k + 1];
    assert forall h :: h in q && h != q[0] ==> h in q[1..];
  }

  lemma ListsPush(q: seq<int>, stage: map<int, Stage>, at: Stage, h: int)
    requires Lists(q, stage, at) && h in stage && stage[h] != at
    ensures Lists(q + [h], stage[h := at], at)
  {
    var q' := q + [h];
    assert q'[|q|] == h && forall k :: 0 <= k < |q| ==> q'[k] == q[k];
  }

  lemma ListsOther(q: seq<int>, stage: map<int, Stage>, at: Stage, h: int, to: Stage)
    requires Lists(q, stage, at) && h in stage && stage[h] != at && to != at
    ensures Lists(q, stage[h := to], at)
  {
  }

  lemma FetchKeeps(d: Driver, r: Rings, g: Book, busy: set<int>)
    requires Sized(d) && RingsOk(d, r, g) && StagesOk(g) && BusyOk(g, busy) && IdsOk(g) && StatusOk(d, g) &&
             g.avail != []
    ensures |r.avail| == NUM && r.avail[r.lastAvail % NUM] == g.avail[0] && g.avail[0] in g.stage
    ensures var g', r' := FetchedBook(g), r.(lastAvail := (r.lastAvail + 1) % WRAP, taken := r.taken + {g.avail[0]});
            RingsOk(d, r', g') && StagesOk(g') && BusyOk(g', busy) && IdsOk(g') && StatusOk(d, g')
  {
    WrappedIndex(g.fetched, g.fetched);
    QueuePop(r.avail, g.fetched, g.avail);
    ListsPop(g.avail, g.stage, Posted, Fetched);
    ListsOther(g.used, g.stage, Completed, g.avail[0], Fetched);
    hide Lists, Queue;
    var g' := FetchedBook(g);
    assert g'.stage.Keys == g.reqs.Keys;
  }

  lemma CompleteKeeps(d: Driver, r: Rings, g: Book, busy: set<int>, h: int)
    requires Sized(d) && RingsOk(d, r, g) && StagesOk(g) && BusyOk(g, busy) && IdsOk(g) && StatusOk(d, g)
    requires h in g.stage && g.stage[h] == Fetched && forall k :: k in g.reqs ==> IsDesc(k)
    ensures |r.used| == NUM && h in g.reqs
    ensures var g' := CompletedBook(g, h);
            var r' := r.(used := r.used[r.usedIdx % NUM := h], usedIdx := (r.usedIdx + 1) % WRAP,
                         taken := r.taken - {h});
            var d' := d.(info := d.info[h := d.info[h].(status := 0)]);
            RingsOk(d', r', g') && StagesOk(g') && BusyOk(g', busy) && IdsOk(g') && StatusOk(d', g')
  {
    var g' := CompletedBook(g, h);
    var n := g.seen + |g.used|;
    ListsPush(g.used, g.stage, Completed, h);
    ListsOther(g.avail, g.stage, Posted, h, Completed);
    assert g'.stage.Keys == g.reqs.Keys;
    Pigeonhole(g'.used, NUM);
    WrappedIndex(n, n);
    QueuePush(r.used, g.seen, g.used, h);
    hide Lists, Queue;
  }

  lemma SeeKeeps(d: Driver, r: Rings, g: Book, busy: set<int>)
    requires Sized(d) && RingsOk(d, r, g) && StagesOk(g) && BusyOk(g, busy) && IdsOk(g) && StatusOk(d, g) &&
             g.used != []
    requires forall k :: k in g.reqs ==> IsDesc(k)
    ensures |r.used| == NUM && r.used[d.usedIdx % NUM] == g.used[0]
    ensures g.used[0] in g.reqs && IsDesc(g.used[0]) && d.info[g.used[0]].status == 0
    ensures var g', d' := SeenBook(g), d.(usedIdx := (d.usedIdx + 1) % WRAP);
            && RingsOk(d', r, g') && StagesOk(g') && BusyOk(g', busy - {g.reqs[g.used[0]].b}) && IdsOk(g') &&
               StatusOk(d', g')
  {
    hide Queue, IdsOk, BusyOk;
    var h := g.used[0];
    var g' := SeenBook(g);
    WrappedIndex(g.seen, g.seen);
    QueuePop(r.used, g.seen, g.used);
    ListsPop(g.used, g.stage, Completed, Seen);
    ListsOther(g.avail, g.stage, Posted, h, Seen);
    assert g'.stage.Keys == g.reqs.Keys;
    SeeIds(g, h);
    SeeBusy(g, busy, h);
  }

  lemma SeeBusy(g: Book, busy: set<int>, h: int)
    requires g.stage.Keys == g.reqs.Keys && BusyOk(g, busy) && g.used != [] && g.used[0] == h && h in g.reqs
    ensures BusyOk(SeenBook(g), busy - {g.reqs[h].b})
  {
  }

  lemma SeeIds(g: Book, h: int)
    requires g.stage.Keys == g.reqs.Keys && IdsOk(g) && g.used != [] && g.used[0] == h && h in g.reqs &&
             g.stage[h] != Seen
    ensures IdsOk(SeenBook(g))
  {
    var id := g.reqs[h].id;
    assert id !in g.finished;
    assert forall x :: x in g.finished + [id] <==> x in g.finished || x == id;
  }

  function Get(m: map<int, int>, k: int): int {
    if k in m then m[k] else 0
  }

  lemma EmptyRings(d: Driver, r: Rings, g: Book)
    requires RingsOk(d, r, g)
    ensures r.lastAvail == r.availIdx <==> g.avail == []
    ensures d.usedIdx == r.usedIdx <==> g.used == []
  {
    WrappedIndex(g.fetched, g.fetched + |g.avail|);
    WrappedIndex(g.seen, g.seen + |g.used|);
  }

  lemma SameLinks(d: Driver, d': Driver, g: Book)
    requires Sized(d) && Sized(d') && Chains(d, g.reqs, g.owner)
    requires d'.free == d.free && d'.desc == d.desc && d'.ops == d.ops
    requires forall i :: IsDesc(i) ==> d'.info[i].b == d.info[i].b
    ensures Chains(d', g.reqs, g.owner)
  {
    forall h | h in g.reqs ensures LinkedAt(d', g.owner, h, g.reqs[h]) {
      ChainUsed(d, g, h);
      ChainSame(d, d', h, g.reqs[h]);
    }
  }

  function Rank(st: Stage): nat {
    match st
    case Posted => 0
    case Fetched => 1
    case Completed => 2
    case Seen => 3
  }

  /** The same requests are in flight, none has gone back, and finished ones stay finished. */
  ghost predicate Onward(g: Book, g': Book) {
    && g'.reqs == g.reqs && g'.owner == g.owner && g'.worker == g.worker && g'.stage.Keys == g.stage.Keys
    && (forall h :: h in g.stage && h in g'.stage ==> Rank(g.stage[h]) <= Rank(g'.stage[h]))
    && |g.finished| <= |g'.finished| && g'.finished[..|g.finished|] == g.finished
  }

  /** Requests the interrupt handler has not seen */
  ghost function Unseen(stage: map<int, Stage>): set<int> {
    set h | h in stage && stage[h] != Seen
  }

  /** The device has done all it was asked. */
  ghost predicate Idle(stage: map<int, Stage>) {
    forall h :: h in stage ==> stage[h] == Completed || stage[h] == Seen
  }

  lemma StaysIdle(g: Book, g': Book)
    requires Onward(g, g') && Idle(g.stage)
    ensures Idle(g'.stage)
  {
    forall h | h in g'.stage ensures g'.stage[h] == Completed || g'.stage[h] == Seen {
      assert Rank(g.stage[h]) <= Rank(g'.stage[h]);
    }
  }

  lemma UnseenLess(g: Book, g': Book, h: int)
    requires Onward(g, g') && h in g.stage && g.stage[h] != Seen && g'.stage[h] == Seen
    ensures Unseen(g'.stage) < Unseen(g.stage)
  {
    assert h in Unseen(g.stage) && h !in Unseen(g'.stage);
    forall k | k in Unseen(g'.stage) ensures k in Unseen(g.stage) {
      assert Rank(g.stage[k]) <= Rank(g'.stage[k]);
    }
  }

  lemma StageKeys(g: Book)
    requires StagesOk(g)
    ensures g.stage.Keys == g.reqs.Keys
    ensures forall k :: 0 <= k < |g.avail| ==> g.avail[k] in g.stage && g.stage[g.avail[k]] == Posted
    ensures forall k :: 0 <= k < |g.used| ==> g.used[k] in g.stage && g.stage[g.used[k]] == Completed
  {
  }

  lemma NoneCompleted(g: Book)
    requires StagesOk(g) && g.used == []
    ensures forall h :: h in g.stage ==> g.stage[h] != Completed
  {
  }

  lemma NothingPosted(d: Driver, g: Book)
    requires Sized(d) && Chains(d, g.reqs, g.owner) && StagesOk(g) && g.reqs == map[]
    ensures g.avail == [] && g.stage == map[] && FreeCount(d.free) == NUM && forall i :: IsDesc(i) ==> d.free[i]
  {
    FirstListed(g.avail, g.stage, Posted);
    forall i | IsDesc(i) ensures d.free[i] {
      assert g.owner[i] == NONE;
    }
    CountAll(d.free);
  }

  lemma NothingBusy(g: Book, busy: set<int>)
    requires BusyOk(g, busy) && g.reqs == map[]
    ensures busy == {}
  {
    forall b ensures b !in busy {
    }
  }

  lemma NotBusy(g: Book, busy: set<int>, h: int)
    requires BusyOk(g, busy) && h in g.reqs && h in g.stage && g.stage[h] == Seen
    ensures g.reqs[h].b !in busy
  {
  }

  // ----- Giving the descriptors back -----

  function Chain(h: int, q: Req): seq<int> {
    [h, q.mid, q.tail]
  }

  /** The first n descriptors of the chain are cleared and free. */
  ghost predicate FreedTo(d: Driver, d': Driver, c: seq<int>, n: int)
    requires Sized(d) && Sized(d') && 0 <= n <= |c|
  {
    && d' == d.(free := d'.free, desc := d'.desc)
    && forall i :: IsDesc(i) ==> d'.free[i] == (d.free[i] || i in c[..n]) && (i !in c[..n] ==> d'.desc[i] == d.desc[i])
  }

  ghost function ReleasedBook(g: Book, h: int): Book
    requires h in g.reqs && |g.owner| == NUM && IsDesc(h) && IsDesc(g.reqs[h].mid) && IsDesc(g.reqs[h].tail)
  {
    g.(reqs := g.reqs - {h}, stage := g.stage - {h},
       owner := g.owner[h := NONE][g.reqs[h].mid := NONE][g.reqs[h].tail := NONE])
  }

  lemma ReleaseLinkedAt(d: Driver, d': Driver, g: Book, h: int, k: int)
    requires Sized(d) && Sized(d') && Chains(d, g.reqs, g.owner) && h in g.reqs && k in g.reqs && k != h
    requires ChainAt(d, h, g.reqs[h])
    requires forall i :: IsDesc(i) && i !in Chain(h, g.reqs[h]) ==> d'.desc[i] == d.desc[i]
    requires d'.ops == d.ops && forall i :: IsDesc(i) && i != h ==> d'.info[i] == d.info[i]
    ensures LinkedAt(d', ReleasedBook(g, h).owner, k, g.reqs[k])
  {
    hide Linked, Accounted;
    ChainUsed(d, g, h);
    ChainUsed(d, g, k);
    ChainSame(d, d', k, g.reqs[k]);
  }

  lemma ReleaseAccounted(d: Driver, d': Driver, g: Book, h: int)
    requires Sized(d) && Sized(d') && Chains(d, g.reqs, g.owner) && h in g.reqs && ChainAt(d, h, g.reqs[h])
    requires forall i :: IsDesc(i) && i !in Chain(h, g.reqs[h]) ==> d'.free[i] == d.free[i]
    requires forall i :: IsDesc(i) && i in Chain(h, g.reqs[h]) ==> d'.free[i]
    ensures Accounted(d'.free, ReleasedBook(g, h).reqs, ReleasedBook(g, h).owner)
  {
    hide Linked;
    ChainUsed(d, g, h);
  }

  lemma ReleaseChains(d: Driver, d': Driver, g: Book, h: int)
    requires Sized(d) && Sized(d') && Chains(d, g.reqs, g.owner) && h in g.reqs && ChainAt(d, h, g.reqs[h])
    requires forall i :: IsDesc(i) && i !in Chain(h, g.reqs[h]) ==> d'.desc[i] == d.desc[i] && d'.free[i] == d.free[i]
    requires forall i :: IsDesc(i) && i in Chain(h, g.reqs[h]) ==> d'.free[i]
    requires d'.ops == d.ops && forall i :: IsDesc(i) && i != h ==> d'.info[i] == d.info[i]
    ensures Chains(d', ReleasedBook(g, h).reqs, ReleasedBook(g, h).owner)
  {
    hide Accounted, LinkedAt;
    var g' := ReleasedBook(g, h);
    ChainUsed(d, g, h);
    ReleaseAccounted(d, d', g, h);
    forall k | k in g'.reqs ensures LinkedAt(d', g'.owner, k, g'.reqs[k]) {
      ReleaseLinkedAt(d, d', g, h, k);
    }
  }

  lemma ReleaseRest(d: Driver, d': Driver, r: Rings, g: Book, busy: set<int>, h: int)
    requires Sized(d) && Sized(d') && RingsOk(d, r, g) && StagesOk(g) && TakenOk(r, g) && BusyOk(g, busy) &&
             IdsOk(g) && StatusOk(d, g)
    requires h in g.reqs && |g.owner| == NUM && IsDesc(h) && IsDesc(g.reqs[h].mid) && IsDesc(g.reqs[h].tail) &&
             g.reqs[h].b !in busy
    requires d'.usedIdx == d.usedIdx && forall i :: IsDesc(i) && i != h ==> d'.info[i] == d.info[i]
    ensures var g' := ReleasedBook(g, h);
            RingsOk(d', r, g') && StagesOk(g') && TakenOk(r, g') && BusyOk(g', busy) && IdsOk(g') && StatusOk(d', g')
  {
    var g' := ReleasedBook(g, h);
    StageKeys(g);
    assert g.stage[h] == Seen;
    assert h !in g.avail && h !in g.used;
    assert g'.stage.Keys == g'.reqs.Keys;
    hide Queue;
  }

  class VirtioDisk {
    var d: Driver
    var r: Rings
    var busy: set<int>          // buffers whose `disk` flag is set
    var data: map<int, int>     // buffer contents
    var store: map<int, int>    // disk contents
    ghost var g: Book

    ghost predicate Valid()
      reads this
    {
      && Sized(d) && Chains(d, g.reqs, g.owner)
      && RingsOk(d, r, g) && StagesOk(g) && TakenOk(r, g) && BusyOk(g, busy) && IdsOk(g) && StatusOk(d, g)
    }

    /** virtio_disk_init: every descriptor is free and the rings are empty. */
    constructor (store: map<int, int>)
      ensures Valid() && g.reqs == map[] && busy == {} && FreeCount(d.free) == NUM
    {
      var free := [true, true, true, true, true, true, true, true];
      d := Driver(free, seq(NUM, _ => Desc(0, 0, 0, 0)), seq(NUM, _ => Op(false, 0)), seq(NUM, _ => Info(0, 0)), 0);
      r := Rings(seq(NUM, _ => 0), 0, seq(NUM, _ => 0), 0, 0, {});
      busy, data, this.store := {}, map[], store;
      g := Book(map[], seq(NUM, _ => NONE), map[], map[], [], [], 0, 0, []);
      CountAll(free);
    }

    /** The lowest free descriptor, no longer free; -1 if there is none. */
    method AllocDesc() returns (i: int)
      requires Sized(d)
      modifies this`d
      ensures i == -1 <==> forall k :: 0 <= k < NUM ==> !old(d.free)[k]
      ensures i == -1 ==> d == old(d)
      ensures i != -1 ==> IsDesc(i) && old(d.free)[i] && (forall k :: 0 <= k < i ==> !old(d.free)[k])
      ensures i != -1 ==> d == old(d).(free := old(d.free)[i := false])
    {
      var k := 0;
      while k < NUM
        invariant 0 <= k <= NUM && d == old(d) && forall j :: 0 <= j < k ==> !d.free[j]
      {
        if d.free[k] {
          d := d.(free := d.free[k := false]);
          return k;
        }
        k := k + 1;
      }
      i := -1;
    }

    /** Clears and frees a descriptor; `ok` is false where the kernel panics. */
    method FreeDesc(i: nat) returns (ok: bool)
      requires Sized(d)
      modifies this`d
      ensures ok <==> i < NUM && !old(d.free)[i]
      ensures d == if ok then Freed(old(d), i) else old(d)
    {
      if i >= NUM {
        return false;
      }
      if d.free[i] {
        return false;
      }
      d := d.(desc := d.desc[i := Desc(0, 0, 0, 0)]);
      d := d.(free := d.free[i := true]);
      ok := true;
    }

    /** Three descriptors, or none: then the free ones are as before. */
    method Alloc3Desc() returns (ok: bool, idx: seq<int>)
      requires Sized(d)
      modifies this`d
      ensures ok <==> FreeCount(old(d.free)) >= 3
      ensures ok ==> |idx| == 3 && Three(old(d), idx) && d == old(d).(free := Taken(old(d.free), idx))
      ensures !ok ==> d.free == old(d.free) && d == old(d).(desc := d.desc)
      ensures !ok ==> |d.desc| == NUM && forall k :: 0 <= k < NUM && !d.free[k] ==> d.desc[k] == old(d.desc)[k]
    {
      ghost var d0 := d;
      idx := [];
      var i := 0;
      while i < 3
        invariant 0 <= i <= 3 && |idx| == i && Three(d0, idx)
        invariant d == d0.(free := Taken(d0.free, idx)) && FreeCount(d.free) == FreeCount(d0.free) - i
      {
        ghost var free := d.free;
        var k := AllocDesc();
        if k < 0 {
          CountNone(free);
          GiveBack(idx, d0);
          return false, [];
        }
        CountTaken(free, k);
        assert Taken(d0.free, idx + [k]) == free[k := false];
        idx := idx + [k];
        i := i + 1;
      }
      ok := true;
    }

    /** The inner loop of alloc3_desc */
    method GiveBack(idx: seq<int>, ghost d0: Driver)
      requires Sized(d0) && |idx| < 3 && Three(d0, idx) && d == d0.(free := Taken(d0.free, idx))
      modifies this`d
      ensures d.free == d0.free && d == d0.(desc := d.desc)
      ensures |d.desc| == NUM && forall k :: 0 <= k < NUM && !d.free[k] ==> d.desc[k] == d0.desc[k]
    {
      var j := 0;
      while j < |idx|
        invariant 0 <= j <= |idx| && Sized(d) && d == d0.(free := d.free, desc := d.desc)
        invariant forall k :: 0 <= k < NUM ==> (d.free[k] <==> d0.free[k] && k !in idx[j..])
        invariant forall k :: 0 <= k < NUM && !d0.free[k] ==> d.desc[k] == d0.desc[k]
      {
        assert idx[j..] == [idx[j]] + idx[j + 1..];
        assert idx[j] !in idx[j + 1..];
        var ok := FreeDesc(idx[j]);
        j := j + 1;
      }
    }

    /** virtio_disk_rw up to waiting for the device: posts a request for a buffer whose lock the
        caller holds.  Without three free descriptors it changes nothing that matters, and the
        caller sleeps and tries again. */
    method Submit(b: int, blockno: int, write: bool) returns (ok: bool, head: int, ghost q: Req)
      requires Valid() && forall h :: h in g.reqs ==> g.reqs[h].b != b
      modifies this`d, this`r, this`busy, this`g
      ensures Valid() && (ok <==> FreeCount(old(d.free)) >= 3)
      ensures !ok ==> g == old(g) && r == old(r) && busy == old(busy)
      ensures ok ==> head !in old(g.reqs) && busy == old(busy) + {b}
      ensures ok ==> IsDesc(head) && IsDesc(q.mid) && IsDesc(q.tail) && g == PostedBook(old(g), head, q)
      ensures ok ==> q == Req(old(g.fetched + |g.avail|), q.mid, q.tail, b, write, blockno)
    {
      hide Chains, RingsOk, StagesOk, TakenOk, BusyOk, IdsOk, StatusOk, Taken, FreeCount;
      var sector := blockno * 2;
      q := Req(0, 0, 0, b, write, blockno);
      ghost var d0 := d;
      var idx;
      ok, idx := Alloc3Desc();
      if !ok {
        SameChains(d0, d, r, g);
        return false, -1, q;
      }
      head := idx[0];
      q := Req(g.fetched + |g.avail|, idx[1], idx[2], b, write, blockno);
      assert idx == [head, q.mid, q.tail];
      PostKeeps(d0, r, g, busy, head, q);
      var e := d;
      e := e.(ops := e.ops[head := Op(write, sector)]);
      e := e.(desc := e.desc[head := Desc(head, 16, NEXT, idx[1])]);
      e := e.(desc := e.desc[idx[1] := Desc(b, 1024, NEXT + (if write then 0 else WRITE), idx[2])]);
      e := e.(desc := e.desc[idx[2] := Desc(head, 1, WRITE, 0)]);
      e := e.(info := e.info[head := Info(b, 0xff)]);
      assert e == Formatted(d, head, q);
      hide Formatted, PostedBook;
      d := e;
      busy := busy + {b};
      var s := r.(avail := r.avail[r.availIdx % NUM := head]);
      r := s.(availIdx := (s.availIdx + 1) % WRAP);
      g := PostedBook(g, head, q);
    }

    /** The device takes the next head from the avail ring. */
    method Fetch() returns (ok: bool, h: int)
      requires Valid()
      modifies this`r, this`g
      ensures Valid() && (ok <==> old(g.avail) != [])
      ensures ok ==> h == old(g.avail)[0] && g == FetchedBook(old(g))
      ensures !ok ==> g == old(g)
    {
      hide Chains, RingsOk, StagesOk, BusyOk, IdsOk, StatusOk;
      EmptyRings(d, r, g);
      ok, h := r.lastAvail != r.availIdx, -1;
      if ok {
        FetchKeeps(d, r, g, busy);
        h := r.avail[r.lastAvail % NUM];
        r := r.(lastAvail := (r.lastAvail + 1) % WRAP);
        r := r.(taken := r.taken + {h});
        g := FetchedBook(g);
      }
    }

    /** The device carries out a request it has fetched, as its descriptors say, and reports it. */
    method Complete(h: int)
      requires Valid() && h in r.taken
      modifies this`d, this`r, this`g, this`data, this`store
      ensures Valid() && g == CompletedBook(old(g), h) && h in g.reqs
      ensures var q := g.reqs[h];
              if q.write then store == old(store)[q.block := Get(old(data), q.b)] && data == old(data)
              else data == old(data)[q.b := Get(old(store), q.block)] && store == old(store)
    {
      hide Linked, Accounted, RingsOk, StagesOk, BusyOk, IdsOk, StatusOk;
      HeadsAreDescs(d, g);
      CompleteKeeps(d, r, g, busy, h);
      ChainUsed(d, g, h);
      var head := d.desc[h];
      var body := d.desc[head.next];
      var tail := d.desc[body.next];
      var op := d.ops[head.addr];
      var status := 0;
      if !Serviceable(head, body, tail, op) {
        status := 1;  // an I/O error
      } else if op.write {
        store := store[op.sector / 2 := Get(data, body.addr)];
      } else {
        data := data[body.addr := Get(store, op.sector / 2)];
      }
      ghost var d0 := d;
      d := d.(info := d.info[tail.addr := d.info[tail.addr].(status := status)]);
      SameLinks(d0, d, g);
      r := r.(used := r.used[r.usedIdx % NUM := h]);
      r := r.(usedIdx := (r.usedIdx + 1) % WRAP);
      r := r.(taken := r.taken - {h});
      g := CompletedBook(g, h);
    }

    /** One round of the interrupt handler's loop */
    method SeeOne() returns (ok: bool)
      requires Valid() && g.used != []
      modifies this`d, this`g, this`busy
      ensures Valid() && ok && old(g.used)[0] in g.reqs
      ensures old(g.used)[0] in old(g.reqs) && g == SeenBook(old(g)) && busy == old(busy) - {g.reqs[old(g.used)[0]].b}
    {
      hide Linked, Accounted, RingsOk, StagesOk, BusyOk, IdsOk, StatusOk;
      HeadsAreDescs(d, g);
      SeeKeeps(d, r, g, busy);
      StageKeys(g);
      var id := r.used[d.usedIdx % NUM];
      ChainUsed(d, g, id);
      if d.info[id].status != 0 {
        return false;
      }
      var b := d.info[id].b;
      busy := busy - {b};
      ghost var d0 := d;
      d := d.(usedIdx := (d.usedIdx + 1) % WRAP);
      SameLinks(d0, d, g);
      g := SeenBook(g);
      ok := true;
    }

    /** Any n moves of the device */
    method Device(n: nat)
      requires Valid()
      modifies this`d, this`r, this`g, this`data, this`store
      ensures Valid() && Onward(old(g), g) && g.finished == old(g.finished)
      ensures old(Idle(g.stage)) ==> data == old(data) && store == old(store)
    {
      hide Linked, Accounted, RingsOk, StagesOk, BusyOk, IdsOk, StatusOk;
      StageKeys(g);
      var k := 0;
      while k < n
        invariant k <= n && Valid() && Onward(old(g), g) && g.finished == old(g.finished)
        invariant old(Idle(g.stage)) ==> data == old(data) && store == old(store)
      {
        if old(Idle(g.stage)) {
          StaysIdle(old(g), g);
        }
        StageKeys(g);
        ghost var g1 := g;
        if * {
          var ok, h := Fetch();
        } else if exists h :: h in r.taken {
          var h :| h in r.taken;
          Complete(h);
        }
        StageKeys(g);
        k := k + 1;
      }
    }

    /** The interrupt handler.  It sees every request in the used ring, each once, while the
        device may go on; at the end the used ring is empty, and each request seen has had its
        own buffer's flag cleared. */
    method Intr() returns (ok: bool)
      requires Valid()
      modifies this`d, this`r, this`g, this`data, this`store, this`busy
      ensures Valid() && ok && g.used == [] && Onward(old(g), g)
      ensures forall h :: h in g.stage ==> g.stage[h] != Completed
      ensures old(Idle(g.stage)) ==> data == old(data) && store == old(store)
    {
      hide Linked, Accounted, RingsOk, StagesOk, BusyOk, IdsOk, StatusOk;
      ok := true;
      EmptyRings(d, r, g);
      StageKeys(g);
      while d.usedIdx != r.usedIdx
        invariant Valid() && ok && Onward(old(g), g) && (d.usedIdx == r.usedIdx <==> g.used == [])
        invariant old(Idle(g.stage)) ==> data == old(data) && store == old(store)
        decreases Unseen(g.stage)
      {
        StageKeys(g);
        ghost var g1 := g;
        ok := SeeOne();
        if old(Idle(g.stage)) {
          StaysIdle(old(g), g);
        }
        var n: nat := *;
        Device(n);
        UnseenLess(g1, g, g1.used[0]);
        EmptyRings(d, r, g);
      }
      NoneCompleted(g);
    }

    /** free_chain: follows the links from a head; `ok` is false where the kernel panics. */
    method FreeChain(h: int, ghost q: Req) returns (ok: bool)
      requires Sized(d) && LinksAt(d.desc, h, q) && !d.free[h] && !d.free[q.mid] && !d.free[q.tail]
      modifies this`d
      ensures ok && Sized(d) && FreedTo(old(d), d, Chain(h, q), 3)
    {
      ghost var d0, c, n := d, Chain(h, q), 0;
      ok := true;
      var i := h;
      while true
        invariant 0 <= n < 3 && i == c[n] && ok && Sized(d) && FreedTo(d0, d, c, n)
        decreases 3 - n
      {
        var flag, nxt := d.desc[i].flags, d.desc[i].next;
        assert i !in c[..n];
        var freed := FreeDesc(i);
        ok := ok && freed;
        assert c[..n + 1] == c[..n] + [i];
        n := n + 1;
        if HasNext(flag) {
          i := nxt;
        } else {
          break;
        }
      }
    }

    /** virtio_disk_rw once its buffer's flag is clear: gives back exactly the request's
        descriptors. */
    method Finish(b: int, head: int) returns (ok: bool)
      requires Valid() && head in g.reqs && g.reqs[head].b == b && b !in busy
      modifies this`d, this`g
      ensures Valid() && ok && head !in g.reqs
      ensures IsDesc(head) && IsDesc(old(g.reqs)[head].mid) && IsDesc(old(g.reqs)[head].tail) &&
              g == ReleasedBook(old(g), head)
      ensures forall i :: IsDesc(i) ==> d.free[i] == (old(d.free)[i] || i in Chain(head, old(g.reqs)[head]))
    {
      hide Linked, Accounted, RingsOk, StagesOk, TakenOk, BusyOk, IdsOk, StatusOk;
      ghost var d0, q := d, g.reqs[head];
      ChainUsed(d, g, head);
      d := d.(info := d.info[head := d.info[head].(b := 0)]);
      ok := FreeChain(head, q);
      assert Chain(head, q)[..3] == Chain(head, q);
      ReleaseChains(d0, d, g, head);
      ReleaseRest(d0, d, r, g, busy, head);
      g := ReleasedBook(g, head);
    }

    /** Posts the one request there is, and the device takes it. */
    method PostAlone(b: int, blockno: int, write: bool) returns (ok: bool, head: int)
      requires Valid() && g.reqs == map[]
      modifies this`d, this`r, this`busy, this`g
      ensures Valid() && ok && head in r.taken && head in g.reqs && g.reqs.Keys == {head} && g.stage.Keys == {head}
      ensures g.reqs[head].b == b && g.reqs[head].write == write && g.reqs[head].block == blockno
    {
      hide Chains, RingsOk, BusyOk, IdsOk, StatusOk, FreeCount, StagesOk;
      NothingPosted(d, g);
      ghost var q;
      ok, head, q := Submit(b, blockno, write);
      ghost var g1 := g;
      assert g1.avail == [head] && g1.reqs == map[head := q] && g1.stage == map[head := Posted];
      var h;
      ok, h := Fetch();
    }

    /** The whole of `virtio_disk_rw` with nothing else in flight, the device answering: the block goes from
        the buffer to the disk, or from the disk to the buffer, nothing else changes, and every descriptor
        is free again. */
    method ReadWrite(b: int, blockno: int, write: bool) returns (ok: bool)
      requires Valid() && g.reqs == map[]
      modifies this
      ensures Valid() && g.reqs == map[] && ok && busy == old(busy) && forall i :: IsDesc(i) ==> d.free[i]
      ensures write ==> store == old(store)[blockno := Get(old(data), b)] && data == old(data)
      ensures !write ==> data == old(data)[b := Get(old(store), blockno)] && store == old(store)
    {
      hide Chains, RingsOk, BusyOk, IdsOk, StatusOk, FreeCount, StagesOk, TakenOk, Get;
      NothingBusy(g, busy);
      var head;
      ok, head := PostAlone(b, blockno, write);
      Complete(head);
      ghost var g1 := g;
      ok := Intr();
      assert Rank(g1.stage[head]) <= Rank(g.stage[head]);
      NotBusy(g, busy, head);
      ok := Finish(b, head);
      NothingPosted(d, g);
      NothingBusy(g, busy);
    }
  }
}
