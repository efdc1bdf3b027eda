/**
 Demand paging, FIFO eviction and swapping of one process: `kalloc` and `kfree` of
 kernel/kalloc.c, the resident set, the swap slots and `do_page_replacement` of
 kernel/proc.c, `vmfault` of kernel/vm.c and the page-fault branch of `usertrap` in
 kernel/trap.c.

 Frames are allocated sequentially.  The page table is a map from the page numbers whose
 leaf table exists to PTEs.  The swap file is a byte sequence with the behaviour of
 `readi`/`writei`; a write may fall short when the disk is full.
 */
module Paging {
  import opened Bytes
  import opened Params

  const NSLOTS := 1024
  const MAXFILE_BYTES := MAXFILE * BSIZE
  const USABLE_SLOTS := 67  // slots that end within MAXFILE_BYTES

  type Page = seq<int>

  datatype Perm = Perm(r: bool, w: bool, x: bool)

  datatype Pte =
    | Empty
    | Present(frame: nat, perm: Perm, dirty: bool)
    | Swapped(slot: nat, perm: Perm)

  /** `struct resident_page`; it lives in a frame of its own, and frame 0 is the null pointer. */
  datatype Node = Node(vpn: nat, seqNum: int, next: nat)

  /** The use a frame is put to; `Held` frames are in the hands of the running code. */
  datatype Owner = Free | MappedAt(vpn: nat) | Tracking | Held

  datatype ExecPage = ExecPage(bytes: Page, perm: Perm)

  type Owners = map<nat, Owner>
  type Ptes = map<nat, Pte>
  type Nodes = map<nat, Node>
  type Memory = map<nat, Page>
  type Image = map<nat, ExecPage>

  function Filled(b: int): (p: Page)
    ensures |p| == PGSIZE
  {
    seq(PGSIZE, i => b)
  }

  // ----- What a page contains, wherever it is -----

  /** What a fault on a page without a frame or slot brings in. */
  function Fresh(image: Image, exeEnd: nat, v: nat): Page {
    if v * PGSIZE < exeEnd && v in image then image[v].bytes else Filled(0)
  }

  function PteOf(pt: Ptes, v: nat): Pte {
    if v in pt then pt[v] else Empty
  }

  function SlotBytes(file: seq<int>, slot: nat): Page {
    if (slot + 1) * PGSIZE <= |file| then file[slot * PGSIZE..(slot + 1) * PGSIZE] else []
  }

  /** The three places page contents can be in. */
  datatype Places = Places(pt: Ptes, mem: Memory, file: seq<int>)

  function Content(st: Places, initial: Page, v: nat): Page {
    match PteOf(st.pt, v)
    case Empty => initial
    case Present(f, _, _) => if f in st.mem then st.mem[f] else []
    case Swapped(slot, _) => SlotBytes(st.file, slot)
  }

  // ----- Invariants -----

  predicate LinkedAt(nodes: Nodes, fifo: seq<nat>, i: nat) {
    && i < |fifo| && fifo[i] in nodes
    && nodes[fifo[i]].next == (if i + 1 == |fifo| then 0 else fifo[i + 1])
  }

  ghost predicate Chain(nodes: Nodes, fifo: seq<nat>, head: nat, tail: nat) {
    && (forall f :: f in nodes <==> f in fifo)
    && (forall i :: 0 <= i < |fifo| ==> fifo[i] != 0)
    && Distinct(fifo)
    && head == (if fifo == [] then 0 else fifo[0])
    && tail == (if fifo == [] then 0 else fifo[|fifo| - 1])
    && (forall i :: 0 <= i < |fifo| ==> LinkedAt(nodes, fifo, i))
  }

  /** First in, first out: sequence numbers rise along the list, past victims are older. */
  ghost predicate Ordered(nodes: Nodes, fifo: seq<nat>, lastVictim: int, seqNum: int) {
    && lastVictim < seqNum
    && (forall i :: 0 <= i < |fifo| ==> fifo[i] in nodes && lastVictim < nodes[fifo[i]].seqNum < seqNum)
    && (forall i, j :: 0 <= i < j < |fifo| ==> nodes[fifo[i]].seqNum < nodes[fifo[j]].seqNum)
  }

  /** The listed pages are resident and listed once. */
  ghost predicate Resident(nodes: Nodes, fifo: seq<nat>, pt: Ptes) {
    && (forall i :: 0 <= i < |fifo| ==> fifo[i] in nodes && PteOf(pt, nodes[fifo[i]].vpn).Present?)
    && (forall i, j :: 0 <= i < j < |fifo| ==> nodes[fifo[i]].vpn != nodes[fifo[j]].vpn)
  }

  /** Every frame has one owner, and the free list, page table and list nodes agree with it. */
  ghost predicate Frames(owner: Owners, free: seq<nat>, pt: Ptes, nodes: Nodes, mem: Memory) {
    && 0 !in owner && mem.Keys == owner.Keys
    && (forall f :: f in mem ==> |mem[f]| == PGSIZE)
    && Distinct(free)
    && (forall f :: f in free <==> f in owner && owner[f] == Free)
    && (forall f :: f in nodes <==> f in owner && owner[f] == Tracking)
    && (forall v :: v in pt && pt[v].Present? ==> pt[v].frame in owner && owner[pt[v].frame] == MappedAt(v))
    && (forall f :: f in owner && owner[f].MappedAt? ==>
          PteOf(pt, owner[f].vpn).Present? && pt[owner[f].vpn].frame == f)
  }

  /**
   Set slot bits and swapped PTEs correspond one to one, below the slots the file can hold.
   While a swap-out is on its way its slot, `reserved`, is set too; -1 stands for none.
   */
  ghost predicate Slots(slots: seq<bool>, slotOf: map<nat, nat>, reserved: int, pt: Ptes, hasFile: bool,
                        file: seq<int>) {
    && |slots| == NSLOTS && |file| <= MAXFILE_BYTES
    && (forall s :: 0 <= s < NSLOTS ==> (slots[s] <==> s in slotOf || s == reserved))
    && reserved !in slotOf
    && (forall s :: s in slotOf ==>
          s < USABLE_SLOTS && hasFile && (s + 1) * PGSIZE <= |file|
          && PteOf(pt, slotOf[s]).Swapped? && pt[slotOf[s]].slot == s)
    && (forall v :: v in pt && pt[v].Swapped? ==> pt[v].slot in slotOf && slotOf[pt[v].slot] == v)
  }

  // ----- How the steps of the code keep them -----

  lemma FreeKeepsFrames(owner: Owners, free: seq<nat>, pt: Ptes, nodes: Nodes, mem: Memory, f: nat)
    requires Frames(owner, free, pt, nodes, mem) && f in owner && owner[f] == Held
    ensures Frames(owner[f := Free], [f] + free, pt, nodes, mem[f := Filled(1)])
  {
    assert f !in free;
    assert forall g :: g in [f] + free <==> g == f || g in free;
  }

  lemma PopDistinct(s: seq<nat>)
    requires Distinct(s) && s != []
    ensures Distinct(s[1..]) && s[0] !in s[1..]
    ensures forall x :: x in s <==> x == s[0] || x in s[1..]
  {
    assert s == [s[0]] + s[1..];
  }

  lemma TakeKeepsFrames(owner: Owners, free: seq<nat>, pt: Ptes, nodes: Nodes, mem: Memory)
    requires Frames(owner, free, pt, nodes, mem) && free != []
    ensures free[0] in owner && free[0] != 0 && owner[free[0]] == Free
    ensures Frames(owner[free[0] := Held], free[1..], pt, nodes, mem[free[0] := Filled(5)])
  {
    hide Distinct;
    PopDistinct(free);
  }

  /** A frame that maps nothing does not matter for any content. */
  lemma UnmappedFrame(owner: Owners, free: seq<nat>, pt: Ptes, nodes: Nodes, mem: Memory,
                      file: seq<int>, f: nat, p: Page)
    requires Frames(owner, free, pt, nodes, mem) && f in owner && !owner[f].MappedAt?
    ensures forall v, initial ::
              Content(Places(pt, mem[f := p], file), initial, v) == Content(Places(pt, mem, file), initial, v)
  {
  }

  lemma PopChain(nodes: Nodes, fifo: seq<nat>, head: nat, tail: nat)
    requires Chain(nodes, fifo, head, tail) && fifo != []
    ensures head == fifo[0] && head in nodes && head != 0
    ensures var next := nodes[head].next;
            Chain(nodes - {head}, fifo[1..], next, if next == 0 then 0 else tail)
  {
    var nodes', fifo' := nodes - {head}, fifo[1..];
    PopDistinct(fifo);
    assert LinkedAt(nodes, fifo, 0);
    forall i | 0 <= i < |fifo'| ensures LinkedAt(nodes', fifo', i) {
      assert LinkedAt(nodes, fifo, i + 1);
    }
  }

  /** The list nodes after a node for page `v` is linked behind the tail. */
  function Appended(nodes: Nodes, head: nat, tail: nat, f: nat, v: nat, seqNum: int): Nodes
    requires head != 0 ==> tail in nodes
  {
    (if head == 0 then nodes else nodes[tail := nodes[tail].(next := f)])[f := Node(v, seqNum, 0)]
  }

  lemma AppendChain(nodes: Nodes, fifo: seq<nat>, head: nat, tail: nat, f: nat, v: nat, seqNum: int)
    requires Chain(nodes, fifo, head, tail) && f !in nodes && f != 0
    ensures head != 0 ==> tail in nodes
    ensures Chain(Appended(nodes, head, tail, f, v, seqNum), fifo + [f], if head == 0 then f else head, f)
  {
    if fifo != [] {
      assert fifo[|fifo| - 1] in fifo && fifo[0] in fifo;
    }
    var nodes', fifo' := Appended(nodes, head, tail, f, v, seqNum), fifo + [f];
    assert forall g :: g in fifo' <==> g in fifo || g == f;
    forall i | 0 <= i < |fifo'| ensures LinkedAt(nodes', fifo', i) {
      if i < |fifo| {
        assert LinkedAt(nodes, fifo, i);
      }
    }
  }

  lemma PopOrder(nodes: Nodes, fifo: seq<nat>, head: nat, tail: nat, pt: Ptes, lastVictim: int, seqNum: int)
    requires fifo != [] && Ordered(nodes, fifo, lastVictim, seqNum) && Resident(nodes, fifo, pt)
    requires Chain(nodes, fifo, head, tail)
    ensures fifo[0] in nodes && nodes[fifo[0]].seqNum > lastVictim && PteOf(pt, nodes[fifo[0]].vpn).Present?
    ensures var nodes' := nodes - {fifo[0]};
            && Ordered(nodes', fifo[1..], nodes[fifo[0]].seqNum, seqNum)
            && Resident(nodes', fifo[1..], pt)
            && Unlisted(nodes', fifo[1..], nodes[fifo[0]].vpn)
  {
    var nodes', fifo' := nodes - {fifo[0]}, fifo[1..];
    forall i | 0 <= i < |fifo'|
      ensures fifo'[i] == fifo[i + 1] && fifo'[i] in nodes' && nodes'[fifo'[i]] == nodes[fifo[i + 1]]
    {
    }
  }

  lemma PopList(nodes: Nodes, fifo: seq<nat>, head: nat, tail: nat, pt: Ptes, lastVictim: int, seqNum: int)
    requires fifo != [] && Chain(nodes, fifo, head, tail)
    requires Ordered(nodes, fifo, lastVictim, seqNum) && Resident(nodes, fifo, pt)
    ensures head == fifo[0] && head in nodes
    ensures nodes[head].seqNum > lastVictim && PteOf(pt, nodes[head].vpn).Present?
    ensures var next := nodes[head].next;
            && Chain(nodes - {head}, fifo[1..], next, if next == 0 then 0 else tail)
            && Ordered(nodes - {head}, fifo[1..], nodes[head].seqNum, seqNum)
            && Resident(nodes - {head}, fifo[1..], pt)
            && Unlisted(nodes - {head}, fifo[1..], nodes[head].vpn)
  {
    hide Ordered, Resident, Unlisted;
    PopChain(nodes, fifo, head, tail);
    PopOrder(nodes, fifo, head, tail, pt, lastVictim, seqNum);
  }

  ghost predicate Unlisted(nodes: Nodes, fifo: seq<nat>, v: nat) {
    forall i :: 0 <= i < |fifo| && fifo[i] in nodes ==> nodes[fifo[i]].vpn != v
  }

  lemma AppendOrder(nodes: Nodes, fifo: seq<nat>, head: nat, tail: nat, pt: Ptes, lastVictim: int, seqNum: int, f: nat,
                    v: nat)
    requires Ordered(nodes, fifo, lastVictim, seqNum) && Resident(nodes, fifo, pt)
    requires f !in nodes && Unlisted(nodes, fifo, v) && PteOf(pt, v).Present?
    requires head != 0 ==> tail in nodes
    ensures var nodes' := Appended(nodes, head, tail, f, v, seqNum);
            Ordered(nodes', fifo + [f], lastVictim, seqNum + 1) && Resident(nodes', fifo + [f], pt)
  {
    var nodes', fifo' := Appended(nodes, head, tail, f, v, seqNum), fifo + [f];
    forall i | 0 <= i < |fifo|
      ensures fifo'[i] == fifo[i] && fifo'[i] in nodes' && nodes'[fifo'[i]].vpn == nodes[fifo[i]].vpn
              && nodes'[fifo'[i]].seqNum == nodes[fifo[i]].seqNum
    {
    }
  }

  lemma AppendList(nodes: Nodes, fifo: seq<nat>, head: nat, tail: nat, pt: Ptes, lastVictim: int, seqNum: int, f: nat,
                   v: nat)
    requires Chain(nodes, fifo, head, tail) && f !in nodes && f != 0
    requires Ordered(nodes, fifo, lastVictim, seqNum) && Resident(nodes, fifo, pt)
    requires Unlisted(nodes, fifo, v) && PteOf(pt, v).Present?
    ensures head != 0 ==> tail in nodes
    ensures var nodes' := Appended(nodes, head, tail, f, v, seqNum);
            && Chain(nodes', fifo + [f], if head == 0 then f else head, f)
            && Ordered(nodes', fifo + [f], lastVictim, seqNum + 1)
            && Resident(nodes', fifo + [f], pt)
            && nodes'.Keys == nodes.Keys + {f}
  {
    hide Told, Chain, Ordered, Resident, Unlisted;
    AppendChain(nodes, fifo, head, tail, f, v, seqNum);
    AppendOrder(nodes, fifo, head, tail, pt, lastVictim, seqNum, f, v);
  }

  /** The list nodes after node k is unlinked */
  function Dropped(nodes: Nodes, fifo: seq<nat>, k: nat): Nodes
    requires k < |fifo| && fifo[k] in nodes && (k > 0 ==> fifo[k - 1] in nodes)
  {
    (if k == 0 then nodes else nodes[fifo[k - 1] := nodes[fifo[k - 1]].(next := nodes[fifo[k]].next)]) - {fifo[k]}
  }

  lemma Listed(nodes: Nodes, fifo: seq<nat>, head: nat, tail: nat, k: nat)
    requires Chain(nodes, fifo, head, tail) && k < |fifo|
    ensures fifo[k] in nodes && fifo[k] != 0 && LinkedAt(nodes, fifo, k) &&
            (k > 0 ==> fifo[k - 1] in nodes && fifo[k - 1] != 0)
    ensures fifo[k] == tail <==> k == |fifo| - 1
  {
  }

  lemma WithoutParts(fifo: seq<nat>, k: nat)
    requires k < |fifo| && Distinct(fifo)
    ensures |Without(fifo, k)| == |fifo| - 1
    ensures forall i :: 0 <= i < |fifo| - 1 ==> Without(fifo, k)[i] == fifo[if i < k then i else i + 1]
    ensures Distinct(Without(fifo, k)) && fifo[k] !in Without(fifo, k)
    ensures forall f :: f in fifo <==> f in Without(fifo, k) || f == fifo[k]
  {
    assert fifo == fifo[..k] + [fifo[k]] + fifo[k + 1..];
  }

  lemma DropLinked(nodes: Nodes, fifo: seq<nat>, k: nat, i: nat)
    requires Distinct(fifo) && k < |fifo| && i < |fifo| - 1
    requires forall j :: 0 <= j < |fifo| ==> LinkedAt(nodes, fifo, j)
    ensures fifo[k] in nodes && (k > 0 ==> fifo[k - 1] in nodes)
    ensures LinkedAt(Dropped(nodes, fifo, k), Without(fifo, k), i)
  {
    WithoutParts(fifo, k);
    assert LinkedAt(nodes, fifo, k) && LinkedAt(nodes, fifo, if i < k then i else i + 1);
    assert k > 0 ==> LinkedAt(nodes, fifo, k - 1);
  }

  lemma DropChain(nodes: Nodes, fifo: seq<nat>, head: nat, tail: nat, k: nat)
    requires Chain(nodes, fifo, head, tail) && k < |fifo|
    ensures fifo[k] in nodes && (k > 0 ==> fifo[k - 1] in nodes)
    ensures Chain(Dropped(nodes, fifo, k), Without(fifo, k), if k == 0 then nodes[fifo[0]].next else head,
                  if fifo[k] != tail then tail else if k == 0 then 0 else fifo[k - 1])
  {
    hide LinkedAt, Dropped, Without;
    WithoutParts(fifo, k);
    LinkMeaning(nodes, fifo, k);
    assert fifo[k] == tail <==> k == |fifo| - 1;
    hide Distinct;
    DroppedKeys(nodes, fifo, k);
    forall i | 0 <= i < |Without(fifo, k)| ensures LinkedAt(Dropped(nodes, fifo, k), Without(fifo, k), i) {
      DropLinked(nodes, fifo, k, i);
    }
  }

  lemma LinkMeaning(nodes: Nodes, fifo: seq<nat>, k: nat)
    requires (forall i :: 0 <= i < |fifo| ==> LinkedAt(nodes, fifo, i)) && k < |fifo|
    ensures fifo[k] in nodes && nodes[fifo[k]].next == (if k + 1 == |fifo| then 0 else fifo[k + 1])
    ensures k > 0 ==> fifo[k - 1] in nodes
  {
    assert LinkedAt(nodes, fifo, k);
    assert k > 0 ==> LinkedAt(nodes, fifo, k - 1);
  }

  lemma DroppedKeys(nodes: Nodes, fifo: seq<nat>, k: nat)
    requires k < |fifo| && fifo[k] in nodes && (k > 0 ==> fifo[k - 1] in nodes)
    ensures forall f :: f in Dropped(nodes, fifo, k) <==> f in nodes && f != fifo[k]
  {
  }

  lemma DropOrder(nodes: Nodes, fifo: seq<nat>, pt: Ptes, lastVictim: int, seqNum: int, k: nat)
    requires Ordered(nodes, fifo, lastVictim, seqNum) && Resident(nodes, fifo, pt) && k < |fifo| && Distinct(fifo)
    ensures fifo[k] in nodes && (k > 0 ==> fifo[k - 1] in nodes)
    ensures var nodes', fifo' := Dropped(nodes, fifo, k), Without(fifo, k);
            && Ordered(nodes', fifo', lastVictim, seqNum) && Resident(nodes', fifo', pt)
            && Unlisted(nodes', fifo', nodes[fifo[k]].vpn)
  {
    WithoutParts(fifo, k);
    var nodes', fifo' := Dropped(nodes, fifo, k), Without(fifo, k);
    forall i | 0 <= i < |fifo'|
      ensures fifo'[i] in nodes' && fifo'[i] == fifo[if i < k then i else i + 1]
              && nodes'[fifo'[i]].vpn == nodes[fifo'[i]].vpn && nodes'[fifo'[i]].seqNum == nodes[fifo'[i]].seqNum
    {
    }
  }

  lemma DropList(nodes: Nodes, fifo: seq<nat>, head: nat, tail: nat, pt: Ptes, lastVictim: int, seqNum: int, k: nat)
    requires Chain(nodes, fifo, head, tail) && Ordered(nodes, fifo, lastVictim, seqNum) && Resident(nodes, fifo, pt) &&
             k < |fifo|
    ensures fifo[k] in nodes && (k > 0 ==> fifo[k - 1] in nodes && fifo[k - 1] != 0)
    ensures var nodes', fifo' := Dropped(nodes, fifo, k), Without(fifo, k);
            && Ordered(nodes', fifo', lastVictim, seqNum) && Resident(nodes', fifo', pt)
            && Unlisted(nodes', fifo', nodes[fifo[k]].vpn) && nodes'.Keys == nodes.Keys - {fifo[k]}
    ensures Dropped(nodes, fifo, k) ==
            (if k == 0 then nodes
             else nodes[fifo[k - 1] := nodes[fifo[k - 1]].(next := nodes[fifo[k]].next)]) - {fifo[k]}
  {
    DropOrder(nodes, fifo, pt, lastVictim, seqNum, k);
  }

  lemma ListStart(nodes: Nodes, fifo: seq<nat>, head: nat, tail: nat)
    requires Chain(nodes, fifo, head, tail)
    ensures head == (if fifo == [] then 0 else fifo[0]) && (head == 0 <==> fifo == [])
    ensures fifo != [] ==> fifo[0] in nodes
  {
  }

  lemma NotListed(nodes: Nodes, fifo: seq<nat>, v: nat)
    requires forall i :: 0 <= i < |fifo| && fifo[i] in nodes ==> nodes[fifo[i]].vpn != v
    ensures Unlisted(nodes, fifo, v)
  {
  }

  lemma UnmapKeepsResident(nodes: Nodes, fifo: seq<nat>, pt: Ptes, v: nat, pte: Pte)
    requires Resident(nodes, fifo, pt) && Unlisted(nodes, fifo, v)
    ensures Resident(nodes, fifo, pt[v := pte])
  {
  }

  lemma MappedOwner(owner: Owners, free: seq<nat>, pt: Ptes, nodes: Nodes, mem: Memory, v: nat)
    requires Frames(owner, free, pt, nodes, mem) && PteOf(pt, v).Present?
    ensures pt[v].frame in owner && owner[pt[v].frame] == MappedAt(v)
  {
  }

  lemma NotANode(owner: Owners, free: seq<nat>, pt: Ptes, nodes: Nodes, mem: Memory, f: nat)
    requires Frames(owner, free, pt, nodes, mem) && f in owner && owner[f] == Held
    ensures f !in nodes && f != 0
  {
  }

  /** Unlinking a node hands its frame to the caller. */
  lemma DropKeepsFrames(owner: Owners, free: seq<nat>, pt: Ptes, nodes: Nodes, mem: Memory,
                        f: nat, nodes': Nodes)
    requires Frames(owner, free, pt, nodes, mem) && f in nodes && nodes'.Keys == nodes.Keys - {f}
    ensures f in owner && Frames(owner[f := Held], free, pt, nodes', mem)
  {
  }

  lemma LinkKeepsFrames(owner: Owners, free: seq<nat>, pt: Ptes, nodes: Nodes, mem: Memory, f: nat, nodes': Nodes)
    requires Frames(owner, free, pt, nodes, mem) && f in owner && owner[f] == Held
    requires nodes'.Keys == nodes.Keys + {f}
    ensures Frames(owner[f := Tracking], free, pt, nodes', mem)
  {
  }

  lemma UnmapKeepsFrames(owner: Owners, free: seq<nat>, pt: Ptes, nodes: Nodes, mem: Memory, v: nat, pte: Pte)
    requires Frames(owner, free, pt, nodes, mem) && PteOf(pt, v).Present? && !pte.Present?
    ensures pt[v].frame in owner && Frames(owner[pt[v].frame := Held], free, pt[v := pte], nodes, mem)
  {
  }

  lemma MapKeepsFrames(owner: Owners, free: seq<nat>, pt: Ptes, nodes: Nodes, mem: Memory, v: nat, f: nat, perm: Perm)
    requires Frames(owner, free, pt, nodes, mem) && !PteOf(pt, v).Present? && f in owner && owner[f] == Held
    ensures Frames(owner[f := MappedAt(v)], free, pt[v := Present(f, perm, false)], nodes, mem)
  {
  }

  lemma FillKeepsFrames(owner: Owners, free: seq<nat>, pt: Ptes, nodes: Nodes, mem: Memory, f: nat, p: Page)
    requires Frames(owner, free, pt, nodes, mem) && f in owner && |p| == PGSIZE
    ensures Frames(owner, free, pt, nodes, mem[f := p])
  {
  }

  /** PTEs that are not swapped, before and after, do not concern the slots. */
  lemma RemapKeepsSlots(slots: seq<bool>, slotOf: map<nat, nat>, reserved: int, pt: Ptes, hasFile: bool,
                        file: seq<int>, v: nat, pte: Pte)
    requires Slots(slots, slotOf, reserved, pt, hasFile, file) && !PteOf(pt, v).Swapped? && !pte.Swapped?
    ensures Slots(slots, slotOf, reserved, pt[v := pte], hasFile, file)
  {
  }

  /** The lowest free slot starts within the file, and it is a usable one or the first beyond. */
  lemma LowestFits(slots: seq<bool>, slotOf: map<nat, nat>, reserved: int, pt: Ptes, hasFile: bool, file: seq<int>,
                   slot: nat)
    requires Slots(slots, slotOf, reserved, pt, hasFile, file) && slot <= NSLOTS && reserved == -1
    requires forall s :: 0 <= s < slot ==> slots[s]
    ensures slot <= USABLE_SLOTS && slot * PGSIZE <= |file| && (slot > 0 ==> hasFile)
  {
    if slot > 0 {
      assert slots[slot - 1];
    }
  }

  /** A write into a slot no PTE names leaves all slots' correspondence and contents alone. */
  lemma WriteKeepsSlots(slots: seq<bool>, slotOf: map<nat, nat>, reserved: int, pt: Ptes, hasFile: bool,
                        file: seq<int>, slot: nat, data: seq<int>)
    requires Slots(slots, slotOf, reserved, pt, hasFile, file)
    requires slot !in slotOf && slot * PGSIZE <= |file| && |data| <= PGSIZE && slot < USABLE_SLOTS
    ensures var file' := Splice(file, slot * PGSIZE, data);
            && Slots(slots, slotOf, reserved, pt, hasFile, file')
            && (|data| == PGSIZE ==> (slot + 1) * PGSIZE <= |file'| && SlotBytes(file', slot) == data)
            && (forall s :: s in slotOf ==> SlotBytes(file', s) == SlotBytes(file, s))
  {
    var off := slot * PGSIZE;
    var file' := Splice(file, off, data);
    forall s | s in slotOf ensures SlotBytes(file', s) == SlotBytes(file, s) {
      SpliceElsewhere(file, off, data, s * PGSIZE, (s + 1) * PGSIZE);
    }
  }

  /** Handing out a free slot, and taking it back */
  lemma ReserveKeepsSlots(slots: seq<bool>, slotOf: map<nat, nat>, pt: Ptes, hasFile: bool, file: seq<int>, slot: nat)
    requires |slots| == NSLOTS && slot < NSLOTS
    requires Slots(slots, slotOf, -1, pt, hasFile, file) && !slots[slot]
    ensures Slots(slots[slot := true], slotOf, slot, pt, hasFile, file)
  {
  }

  lemma UnreserveKeepsSlots(slots: seq<bool>, slotOf: map<nat, nat>, pt: Ptes, hasFile: bool, file: seq<int>, slot: nat)
    requires |slots| == NSLOTS && slot < NSLOTS
    requires Slots(slots, slotOf, slot, pt, hasFile, file)
    ensures Slots(slots[slot := false], slotOf, -1, pt, hasFile, file)
  {
  }

  lemma SwapOutKeepsSlots(slots: seq<bool>, slotOf: map<nat, nat>, pt: Ptes, file: seq<int>, v: nat, slot: nat,
                          perm: Perm)
    requires Slots(slots, slotOf, slot, pt, true, file) && !PteOf(pt, v).Swapped?
    requires slot < USABLE_SLOTS && (slot + 1) * PGSIZE <= |file|
    ensures Slots(slots, slotOf[slot := v], -1, pt[v := Swapped(slot, perm)], true, file)
  {
  }

  lemma SwapInKeepsSlots(slots: seq<bool>, slotOf: map<nat, nat>, reserved: int, pt: Ptes, hasFile: bool,
                         file: seq<int>, v: nat, pte: Pte)
    requires Slots(slots, slotOf, reserved, pt, hasFile, file) && PteOf(pt, v).Swapped? && !pte.Swapped?
    ensures var slot := pt[v].slot;
            slot < NSLOTS && Slots(slots[slot := false], slotOf - {slot}, reserved, pt[v := pte], hasFile, file)
  {
    assert pt[v].slot in slotOf;
  }

  // ----- Contents over several steps -----

  /** Contents are as before, except that pages in `reverted` are as freshly faulted in. */
  ghost predicate Kept(image: Image, exeEnd: nat, before: Places, after: Places, reverted: set<nat>) {
    forall v: nat :: var initial := Fresh(image, exeEnd, v);
      Content(after, initial, v) == (if v in reverted then initial else Content(before, initial, v))
  }

  lemma KeptTrans(image: Image, exeEnd: nat, a: Places, b: Places, c: Places, r: set<nat>, r': set<nat>)
    requires Kept(image, exeEnd, a, b, r) && Kept(image, exeEnd, b, c, r')
    ensures Kept(image, exeEnd, a, c, r + r')
  {
  }

  lemma KeptThen(image: Image, exeEnd: nat, a: Places, b: Places, c: Places, r: set<nat>)
    requires Kept(image, exeEnd, a, b, r) && Kept(image, exeEnd, b, c, {})
    ensures Kept(image, exeEnd, a, c, r)
  {
  }

  lemma KeptSame(image: Image, exeEnd: nat, a: Places)
    ensures Kept(image, exeEnd, a, a, {})
  {
  }

  lemma KeptAfter(image: Image, exeEnd: nat, a: Places, b: Places, c: Places, r: set<nat>)
    requires Kept(image, exeEnd, a, b, {}) && Kept(image, exeEnd, b, c, r)
    ensures Kept(image, exeEnd, a, c, r)
  {
  }

  /** A page given up is fresh when it comes back. */
  lemma DiscardKept(image: Image, exeEnd: nat, st: Places, v: nat)
    ensures Kept(image, exeEnd, st, st.(pt := st.pt[v := Empty]), {v})
  {
  }

  /** Writing unnamed parts of the swap file changes no content. */
  lemma FileKept(image: Image, exeEnd: nat, st: Places, file': seq<int>,
                 slots: seq<bool>, slotOf: map<nat, nat>, reserved: int, hasFile: bool)
    requires Slots(slots, slotOf, reserved, st.pt, hasFile, st.file)
    requires forall s :: s in slotOf ==> SlotBytes(file', s) == SlotBytes(st.file, s)
    ensures Kept(image, exeEnd, st, st.(file := file'), {})
  {
  }

  /** A page whose bytes are in a slot may live in the slot. */
  lemma SwapOutKept(image: Image, exeEnd: nat, st: Places, v: nat, slot: nat, perm: Perm)
    requires PteOf(st.pt, v).Present? && st.pt[v].frame in st.mem
    requires SlotBytes(st.file, slot) == st.mem[st.pt[v].frame]
    ensures Kept(image, exeEnd, st, st.(pt := st.pt[v := Swapped(slot, perm)]), {})
  {
  }

  /** A fresh page brought in, or a swapped page brought back, has the content it had. */
  lemma MapKept(image: Image, exeEnd: nat, st: Places, v: nat, f: nat, perm: Perm)
    requires f in st.mem && st.mem[f] == Content(st, Fresh(image, exeEnd, v), v)
    ensures Kept(image, exeEnd, st, st.(pt := st.pt[v := Present(f, perm, false)]), {})
  {
  }

  lemma StillUnlisted(nodes: Nodes, fifo: seq<nat>, v: nat)
    requires Unlisted(nodes, fifo, v) && fifo != [] && fifo[0] in nodes
    ensures nodes[fifo[0]].vpn != v && Unlisted(nodes - {fifo[0]}, fifo[1..], v)
  {
  }

  lemma NotResident(nodes: Nodes, fifo: seq<nat>, pt: Ptes, v: nat)
    requires Resident(nodes, fifo, pt) && !PteOf(pt, v).Present?
    ensures Unlisted(nodes, fifo, v)
  {
  }

  lemma SwappedSlot(slots: seq<bool>, slotOf: map<nat, nat>, reserved: int, pt: Ptes, hasFile: bool, file: seq<int>,
                    v: nat)
    requires Slots(slots, slotOf, reserved, pt, hasFile, file) && PteOf(pt, v).Swapped?
    ensures hasFile && (pt[v].slot + 1) * PGSIZE <= |file| && |SlotBytes(file, pt[v].slot)| == PGSIZE
  {
  }

  /** Contents are kept as by `Kept`, and then one byte is overwritten. */
  ghost predicate Stored(image: Image, exeEnd: nat, before: Places, after: Places, reverted: set<nat>, v: nat,
                         off: nat, val: int) {
    forall u: nat ::
      var initial := Fresh(image, exeEnd, u);
      var page := if u in reverted then initial else Content(before, initial, u);
      if u == v then off < |page| == PGSIZE && Content(after, initial, u) == page[off := val]
      else Content(after, initial, u) == page
  }

  lemma StoredByte(image: Image, exeEnd: nat, before: Places, after: Places, reverted: set<nat>, v: nat, off: nat,
                   val: int)
    requires Stored(image, exeEnd, before, after, reverted, v, off, val)
    ensures var page := Content(after, Fresh(image, exeEnd, v), v);
            off < |page| && page[off] == val
  {
  }

  lemma StoredAfter(image: Image, exeEnd: nat, a: Places, b: Places, c: Places, r: set<nat>, v: nat, off: nat, val: int)
    requires Kept(image, exeEnd, a, b, r) && Stored(image, exeEnd, b, c, {}, v, off, val)
    ensures Stored(image, exeEnd, a, c, r, v, off, val)
  {
  }

  lemma WriteKept(image: Image, exeEnd: nat,
                  owner: Owners, free: seq<nat>, pt: Ptes, nodes: Nodes, mem: Memory,
                  file: seq<int>, v: nat, off: nat, val: int)
    requires Frames(owner, free, pt, nodes, mem) && PteOf(pt, v).Present? && off < PGSIZE
    ensures var f := pt[v].frame;
            && f in mem && |mem[f]| == PGSIZE
            && var mem', pt' := mem[f := mem[f][off := val]], pt[v := pt[v].(dirty := true)];
               && Frames(owner, free, pt', nodes, mem')
               && Stored(image, exeEnd, Places(pt, mem, file), Places(pt', mem', file), {}, v, off, val)
  {
  }

  lemma DirtyKeeps(slots: seq<bool>, slotOf: map<nat, nat>, reserved: int, pt: Ptes, hasFile: bool, file: seq<int>,
                   nodes: Nodes, fifo: seq<nat>, v: nat)
    requires Slots(slots, slotOf, reserved, pt, hasFile, file) && Resident(nodes, fifo, pt) && PteOf(pt, v).Present?
    ensures Slots(slots, slotOf, reserved, pt[v := pt[v].(dirty := true)], hasFile, file)
    ensures Resident(nodes, fifo, pt[v := pt[v].(dirty := true)])
  {
  }

  /** An evicted page keeps its content exactly if it was not given up or was still fresh. */
  lemma VictimKept(image: Image, exeEnd: nat, before: Places, after: Places, v: nat, reverted: set<nat>)
    requires Kept(image, exeEnd, before, after, reverted)
    ensures var initial := Fresh(image, exeEnd, v);
            Content(after, initial, v) == Content(before, initial, v) <==>
            v !in reverted || Content(before, initial, v) == initial
  {
  }

  lemma KeptUnchanged(image: Image, exeEnd: nat, before: Places, after: Places, v: nat, reverted: set<nat>)
    requires Kept(image, exeEnd, before, after, reverted) && reverted <= {v}
    requires var initial := Fresh(image, exeEnd, v); Content(after, initial, v) == Content(before, initial, v)
    ensures Kept(image, exeEnd, before, after, {})
  {
  }

  lemma OpenKeepsSlots(slots: seq<bool>, slotOf: map<nat, nat>, reserved: int, pt: Ptes, file: seq<int>,
                       hasFile': bool, file': seq<int>)
    requires Slots(slots, slotOf, reserved, pt, false, file) && |file'| <= MAXFILE_BYTES
    ensures slotOf == map[] && Slots(slots, slotOf, reserved, pt, hasFile', file')
  {
    assert slotOf.Keys == {};
  }

  // ----- The memory a program expects -----

  /** What user code does between an exec and the next */
  datatype Action =
    | Load(vpn: nat, off: nat)
    | Store(vpn: nat, off: nat, val: int)
    | Grow(n: nat)     // sbrk
    | Move(sp: nat)    // of the stack pointer

  /** All addresses are below MAXVA. */
  predicate PagesExist(actions: seq<Action>) {
    forall i :: 0 <= i < |actions| && (actions[i].Load? || actions[i].Store?) ==> actions[i].vpn < MAXVPN
  }

  predicate InPage(a: Action) {
    (a.Load? || a.Store?) ==> a.off < PGSIZE
  }

  /** What a load at a byte yields after the actions: the value last stored there, or else `first`. */
  function LastStored(actions: seq<Action>, v: nat, off: nat, first: int): int {
    if actions == [] then first
    else
      var a := actions[|actions| - 1];
      if a.Store? && a.vpn == v && a.off == off then a.val
      else LastStored(actions[..|actions| - 1], v, off, first)
  }

  /** That is: the value of the last store to the byte, or `first` if there is none. */
  lemma {:induction false} LastStoredIs(actions: seq<Action>, v: nat, off: nat, first: int, j: nat)
    requires j <= |actions|
    requires forall i :: j <= i < |actions| ==> !(actions[i].Store? && actions[i].vpn == v && actions[i].off == off)
    ensures j == 0 ==> LastStored(actions, v, off, first) == first
    ensures j > 0 && actions[j - 1].Store? && actions[j - 1].vpn == v && actions[j - 1].off == off ==>
              LastStored(actions, v, off, first) == actions[j - 1].val
    decreases |actions|
  {
    if j < |actions| {
      LastStoredIs(actions[..|actions| - 1], v, off, first, j);
    }
  }

  /** Physical memory: the free list of `kmem` and the frames' contents */
  datatype Ram = Ram(free: seq<nat>, mem: Memory)

  /** `resident_set_head`, `resident_set_tail`, `fifo_seq_num` and the list nodes by frame */
  datatype ResidentSet = ResidentSet(nodes: Nodes, head: nat, tail: nat, seqNum: int)

  /** `swap_slots`, whether there is a `swap_inode`, the contents of the swap file, and how often
      a page was to be written to it */
  datatype Swap = Swap(slots: seq<bool>, hasFile: bool, file: seq<int>, tries: nat)

  /** What the file system has in store for one swap-out: whether the swap file can be opened, what an
      old file holds, and how many bytes of a page there is space for */
  datatype Answer = Answer(opens: bool, contents: seq<int>, takes: nat)

  predicate Good(a: Answer) {
    a.opens && a.takes >= PGSIZE
  }

  /** The proof's own book-keeping */
  datatype Book = Book(
    fifo: seq<nat>,          // the frames of the list nodes, oldest first
    owner: Owners,
    slotOf: map<nat, nat>,   // the page in each used slot
    reserved: int,           // the slot of a swap-out on its way, or -1
    victims: seq<int>,       // the sequence numbers of the victims so far
    failures: nat,           // swap-outs that failed
    short: nat,              // of these, for want of the file or of space on the disk
    full: nat,               // of these, because all usable slots were taken
    heard: seq<Answer>,      // the answers of the file system so far
    lost: nat                // discards of clean pages that were not as in the executable
  )

  // ----- Victims, frames in hand, and what evictions may lose -----

  function Latest(victims: seq<int>): int {
    if victims == [] then -1 else victims[|victims| - 1]
  }

  predicate Rising(s: seq<int>) {
    forall i, j :: 0 <= i < j < |s| ==> s[i] < s[j]
  }

  lemma RisingMore(s: seq<int>, x: int)
    requires Rising(s) && x > Latest(s)
    ensures Rising(s + [x]) && Latest(s + [x]) == x
  {
  }

  /** The frames in the hands of the running code */
  ghost function HeldIn(owner: Owners): set<nat> {
    set f | f in owner && owner[f] == Held
  }

  lemma HeldUpdate(owner: Owners, f: nat, o: Owner)
    ensures HeldIn(owner[f := o]) == if o == Held then HeldIn(owner) + {f} else HeldIn(owner) - {f}
  {
  }

  lemma NotHeld(owner: Owners, free: seq<nat>, pt: Ptes, nodes: Nodes, mem: Memory, f: nat)
    requires Frames(owner, free, pt, nodes, mem)
    ensures f in free || f in nodes ==> f !in HeldIn(owner)
    ensures forall v :: PteOf(pt, v).Present? ==> pt[v].frame !in HeldIn(owner)
  {
  }

  /** Evicting a page: its node and its frame pass through the evictor's hands and are freed. */
  lemma HeldEvict(owner: Owners, node: nat, frame: nat)
    requires node !in HeldIn(owner) && frame !in HeldIn(owner)
    ensures HeldIn(owner[node := Held][frame := Free][node := Free]) == HeldIn(owner)
  {
  }

  predicate High(exeEnd: nat, v: nat) {
    v * PGSIZE >= exeEnd
  }

  /** The failures and their causes add up, and the answers are those of the file system. */
  ghost predicate Told(heard: seq<Answer>, failures: nat, short: nat, full: nat, tries: nat, answers: nat -> Answer) {
    |heard| == tries && failures == short + full && forall i :: 0 <= i < tries ==> heard[i] == answers(i)
  }

  /** The file system is the cause only if it gave a bad answer. */
  ghost predicate Heeds(a: Book, b: Book) {
    && a.heard <= b.heard && a.short <= b.short && a.full <= b.full
    && ((forall i :: |a.heard| <= i < |b.heard| ==> Good(b.heard[i])) ==> b.short == a.short)
  }

  lemma HeedsTrans(a: Book, b: Book, c: Book)
    requires Heeds(a, b) && Heeds(b, c)
    ensures Heeds(a, c)
  {
    if forall i :: |a.heard| <= i < |c.heard| ==> Good(c.heard[i]) {
      assert forall i :: |a.heard| <= i < |b.heard| ==> b.heard[i] == c.heard[i];
    }
  }

  lemma HeedsSame(a: Book)
    ensures Heeds(a, a)
  {
  }

  lemma HeedsOne(a: Book, b: Book, x: Answer)
    requires b.heard == a.heard + [x] && a.short <= b.short && a.full <= b.full && (b.short != a.short ==> !Good(x))
    ensures Heeds(a, b)
  {
    assert b.heard[|a.heard|] == x;
  }

  lemma HeedsLike(a: Book, b: Book, a': Book, b': Book)
    requires Heeds(a, b) && a'.heard == a.heard && a'.short == a.short && a'.full == a.full
    requires b'.heard == b.heard && b'.short == b.short && b'.full == b.full
    ensures Heeds(a', b')
  {
  }

  lemma HeedsOnly(a: Book, b: Book)
    requires b.heard == a.heard && a.short == b.short && a.full == b.full
    ensures Heeds(a, b)
  {
  }

  /** No swap-out failed, for either cause. */
  predicate Undisturbed(a: Book, b: Book) {
    b.short == a.short && b.full == a.full
  }

  lemma CauseHeard(a: Book, t: nat, b: Book, t': nat, answers: nat -> Answer)
    requires Told(a.heard, a.failures, a.short, a.full, t, answers)
    requires Told(b.heard, b.failures, b.short, b.full, t', answers) && Heeds(a, b)
    ensures (forall i :: i >= t ==> Good(answers(i))) ==> b.short == a.short
    ensures b.failures == a.failures <==> Undisturbed(a, b)
  {
  }

  predicate AllTaken(slots: seq<bool>) {
    forall s :: 0 <= s < USABLE_SLOTS && s < |slots| ==> slots[s]
  }

  lemma SomeFree(slots: seq<bool>)
    ensures (exists k :: 0 <= k < 67 && k < |slots| && !slots[k]) ==> !AllTaken(slots)
  {
  }

  /** What evictions so far may have lost: `reverted` pages of heap and stack only by failed
      swap-outs, others also by discards of clean pages; and victims are only added. */
  ghost predicate Later(exeEnd: nat, a: Book, b: Book, reverted: set<nat>) {
    && a.failures <= b.failures && a.lost <= b.lost && a.victims <= b.victims && Heeds(a, b)
    && (forall v :: v in reverted && High(exeEnd, v) ==> a.failures < b.failures)
    && (reverted != {} ==> a.failures + a.lost < b.failures + b.lost)
  }

  lemma LaterTrans(exeEnd: nat, a: Book, b: Book, c: Book, r: set<nat>, r': set<nat>)
    requires Later(exeEnd, a, b, r) && Later(exeEnd, b, c, r')
    ensures Later(exeEnd, a, c, r + r')
  {
    hide Heeds;
    HeedsTrans(a, b, c);
  }

  predicate SameScore(a: Book, b: Book) {
    && a.failures == b.failures && a.lost == b.lost && a.victims == b.victims
    && a.short == b.short && a.full == b.full && a.heard == b.heard
  }

  lemma LaterSame(exeEnd: nat, a: Book, b: Book, c: Book, r: set<nat>)
    requires Later(exeEnd, a, b, r) && SameScore(b, c)
    ensures Later(exeEnd, a, c, r)
  {
  }

  lemma LaterStart(exeEnd: nat, a: Book)
    ensures Later(exeEnd, a, a, {})
  {
  }

  /** The page table, the list of resident pages, and whether the next swap-out will succeed */
  datatype Listing = Listing(pt: Ptes, nodes: Nodes, fifo: seq<nat>, can: bool)

  /** A clean page of the executable, which eviction discards */
  predicate Backed(exeEnd: nat, pt: Ptes, v: nat) {
    v * PGSIZE < exeEnd && PteOf(pt, v).Present? && !pt[v].dirty
  }

  /** The oldest page leaves the list and memory, and nothing else changes. */
  ghost predicate Evicts(exeEnd: nat, a: Listing, b: Listing) {
    && a.fifo != [] && a.fifo[0] in a.nodes && b.fifo == a.fifo[1..] && b.nodes == a.nodes - {a.fifo[0]}
    && var o := a.nodes[a.fifo[0]].vpn;
       && PteOf(a.pt, o).Present? && o in b.pt && !b.pt[o].Present? && b.pt == a.pt[o := b.pt[o]]
       && (b.pt[o].Swapped? <==> !Backed(exeEnd, a.pt, o) && a.can)
       && (b.pt[o].Swapped? ==> b.pt[o].perm == a.pt[o].perm)
  }

  /** The page is the latest in the list. */
  ghost predicate IsNewest(nodes: Nodes, fifo: seq<nat>, v: nat) {
    fifo != [] && var last := fifo[|fifo| - 1]; last in nodes && nodes[last].vpn == v
  }

  /** A page is brought in, clean, as the newest; the list before it is `rest`. */
  ghost predicate Brings(pt: Ptes, b: Listing, rest: seq<nat>, v: nat) {
    && v in b.pt && b.pt[v].Present? && !b.pt[v].dirty && b.pt == pt[v := b.pt[v]]
    && b.fifo != [] && b.fifo[..|b.fifo| - 1] == rest && IsNewest(b.nodes, b.fifo, v)
  }

  /** A fault at full memory: the oldest page goes out, the page comes in. */
  ghost predicate Replaces(exeEnd: nat, a: Listing, b: Listing, v: nat) {
    && a.fifo != [] && a.fifo[0] in a.nodes
    && var o := a.nodes[a.fifo[0]].vpn;
       && PteOf(a.pt, o).Present? && o in b.pt && !b.pt[o].Present?
       && (b.pt[o].Swapped? <==> !Backed(exeEnd, a.pt, o) && a.can)
       && (b.pt[o].Swapped? ==> b.pt[o].perm == a.pt[o].perm)
       && Brings(a.pt[o := b.pt[o]], b, a.fifo[1..], v)
  }

  lemma EvictsOther(exeEnd: nat, a: Listing, b: Listing, v: nat)
    requires Evicts(exeEnd, a, b) && v in a.pt && !a.pt[v].Present?
    ensures v in b.pt && b.pt[v] == a.pt[v]
  {
  }

  lemma EvictThenBring(exeEnd: nat, a: Listing, b: Listing, c: Listing, v: nat)
    requires Evicts(exeEnd, a, b) && Brings(b.pt, c, b.fifo, v) && !PteOf(a.pt, v).Present?
    ensures Replaces(exeEnd, a, c, v)
  {
  }

  // ----- Which accesses the process may make -----

  predicate Accesses(a: Action) {
    a.Load? || a.Store?
  }

  /** The permissions of a page faulted in for the first time */
  function FreshPerm(image: Image, exeEnd: nat, v: nat): Perm {
    if v * PGSIZE < exeEnd && v in image then image[v].perm else Perm(true, true, false)
  }

  /** The permissions a page has, or gets when it is brought in */
  function PermAt(image: Image, exeEnd: nat, pt: Ptes, v: nat): Perm {
    if PteOf(pt, v).Empty? then FreshPerm(image, exeEnd, v) else pt[v].perm
  }

  /** The pages that `vmfault` brings in */
  predicate ValuedAt(image: Image, exeEnd: nat, sz: nat, sp: nat, v: nat) {
    if v * PGSIZE >= sz then sp - PGSIZE <= v * PGSIZE < sp && sp >= PGSIZE
    else v * PGSIZE >= exeEnd || v in image
  }

  /** What the first touch of a page brings: zeros to read and write at and above the end of the
      executable; below it, the executable's bytes and permissions. */
  predicate FirstTouch(image: Image, exeEnd: nat, v: nat, page: Page, perm: Perm) {
    && |page| == 4096
    && (v * 4096 >= exeEnd ==> perm == Perm(true, true, false) && forall k :: 0 <= k < 4096 ==> page[k] == 0)
    && (v * 4096 < exeEnd ==> v in image && perm == image[v].perm && page == image[v].bytes)
  }

  lemma FirstByte(image: Image, exeEnd: nat, v: nat, page: Page, perm: Perm, off: nat)
    requires FirstTouch(image, exeEnd, v, page, perm) && off < |page|
    ensures if v * 4096 < exeEnd then v in image && off < |image[v].bytes| == 4096 && page[off] == image[v].bytes[off]
            else page[off] == 0
  {
  }

  lemma FreshIsFirst(image: Image, exeEnd: nat, v: nat)
    requires forall w :: w in image ==> |image[w].bytes| == PGSIZE
    requires v * PGSIZE < exeEnd ==> v in image
    ensures FirstTouch(image, exeEnd, v, Fresh(image, exeEnd, v), FreshPerm(image, exeEnd, v))
  {
  }

  /** Whatever else is evicted on the way, a page without frame or slot shows its first contents. */
  lemma TouchedFirst(image: Image, exeEnd: nat, before: Places, after: Places, reverted: set<nat>, v: nat)
    requires Kept(image, exeEnd, before, after, reverted) && PteOf(before.pt, v).Empty?
    requires forall w :: w in image ==> |image[w].bytes| == PGSIZE
    requires v * PGSIZE < exeEnd ==> v in image
    ensures FirstTouch(image, exeEnd, v, Content(after, Fresh(image, exeEnd, v), v), FreshPerm(image, exeEnd, v))
  {
    FreshIsFirst(image, exeEnd, v);
  }

  /** Pages of the executable have its permissions, as after exec. */
  ghost predicate Regular(image: Image, exeEnd: nat, pt: Ptes) {
    forall v :: v in pt && !pt[v].Empty? && v * PGSIZE < exeEnd ==> v in image && pt[v].perm == image[v].perm
  }

  /** The page is as accessible as before, and is new to the process only if it was brought in. */
  predicate StandsAt(image: Image, exeEnd: nat, pt: Ptes, pt': Ptes, brought: set<nat>, v: nat) {
    && PermAt(image, exeEnd, pt', v) == PermAt(image, exeEnd, pt, v)
    && (!PteOf(pt, v).Empty? && PteOf(pt', v).Empty? ==> v * PGSIZE < exeEnd && v in image)
    && (PteOf(pt, v).Empty? && !PteOf(pt', v).Empty? ==> v in brought)
  }

  /** The pages a process has, in memory or in a slot */
  ghost function Had(pt: Ptes): set<nat> {
    set v | v in pt && !pt[v].Empty?
  }

  datatype Score = Score(failures: nat, full: nat)

  function Tally(g: Book): Score {
    Score(g.failures, g.full)
  }

  /** Faults and evictions take no page away from a process, unless a swap-out failed, and slots run out
      only if it has more pages than there are slots. */
  ghost predicate Stands(image: Image, exeEnd: nat, pt: Ptes, f: Score, pt': Ptes, f': Score, brought: set<nat>) {
    && f.failures <= f'.failures && f.full <= f'.full && pt'.Keys == pt.Keys && Had(pt') <= Had(pt) + brought
    && (f'.full != f.full ==> |Had(pt) + brought| > USABLE_SLOTS)
    && (f'.failures == f.failures && Regular(image, exeEnd, pt) ==>
          Regular(image, exeEnd, pt') && forall v :: v in pt ==> StandsAt(image, exeEnd, pt, pt', brought, v))
  }

  lemma StandsSame(image: Image, exeEnd: nat, pt: Ptes, f: Score)
    ensures Stands(image, exeEnd, pt, f, pt, f, {})
  {
  }

  lemma {:induction false} SubsetSize(a: set<nat>, b: set<nat>)
    requires a <= b
    ensures |a| <= |b|
    decreases b
  {
    if x :| x in b {
      SubsetSize(a - {x}, b - {x});
    }
  }

  lemma StandsTrans(image: Image, exeEnd: nat, a: Ptes, fa: Score, b: Ptes, fb: Score, c: Ptes, fc: Score, v: nat)
    requires Stands(image, exeEnd, a, fa, b, fb, {}) || Stands(image, exeEnd, a, fa, b, fb, {v})
    requires Stands(image, exeEnd, b, fb, c, fc, {}) || Stands(image, exeEnd, b, fb, c, fc, {v})
    ensures Stands(image, exeEnd, a, fa, c, fc, {v})
  {
    hide Had;
    SubsetSize(Had(a) + {}, Had(a) + {v});
    SubsetSize(Had(b) + {v}, Had(a) + {v});
    SubsetSize(Had(b) + {}, Had(a) + {v});
    if fc.failures == fa.failures && Regular(image, exeEnd, a) {
      forall w | w in a ensures StandsAt(image, exeEnd, a, c, {v}, w) {
        assert StandsAt(image, exeEnd, a, b, {v}, w) && StandsAt(image, exeEnd, b, c, {v}, w);
      }
    }
  }

  lemma StandsMore(image: Image, exeEnd: nat, a: Ptes, fa: Score, b: Ptes, fb: Score, v: nat)
    requires Stands(image, exeEnd, a, fa, b, fb, {})
    ensures Stands(image, exeEnd, a, fa, b, fb, {v})
  {
    hide Had;
    SubsetSize(Had(a) + {}, Had(a) + {v});
    assert forall w :: StandsAt(image, exeEnd, a, b, {}, w) ==> StandsAt(image, exeEnd, a, b, {v}, w);
  }

  lemma EvictStands(image: Image, exeEnd: nat, a: Listing, f: Score, b: Listing, f': Score)
    requires Evicts(exeEnd, a, b) && f.full <= f'.full
    requires var o := a.nodes[a.fifo[0]].vpn;
             f'.failures == f.failures + (if !Backed(exeEnd, a.pt, o) && b.pt[o].Empty? then 1 else 0)
    requires f'.full != f.full ==> |Had(a.pt)| > USABLE_SLOTS
    ensures Stands(image, exeEnd, a.pt, f, b.pt, f', {})
  {
    assert Had(a.pt) + {} == Had(a.pt);
  }

  /** If all usable slots are taken, a process with a page in memory has more pages than these. */
  lemma SlotsTaken(slots: seq<bool>, slotOf: map<nat, nat>, pt: Ptes, hasFile: bool, file: seq<int>, v: nat)
    requires Slots(slots, slotOf, -1, pt, hasFile, file) && AllTaken(slots) && PteOf(pt, v).Present?
    ensures |Had(pt)| > USABLE_SLOTS
  {
    var pages := seq(USABLE_SLOTS, s requires 0 <= s < USABLE_SLOTS && s in slotOf => slotOf[s]) + [v];
    assert forall s :: 0 <= s < USABLE_SLOTS ==> slots[s] && pages[s] == slotOf[s] && pt[pages[s]].slot == s;
    DistinctSize(pages, Had(pt));
  }

  lemma {:induction false} DistinctSize(q: seq<nat>, s: set<nat>)
    requires forall i, j :: 0 <= i < j < |q| ==> q[i] != q[j]
    requires forall i :: 0 <= i < |q| ==> q[i] in s
    ensures |q| <= |s|
    decreases |q|
  {
    if q != [] {
      var n := |q| - 1;
      DistinctSize(q[..n], s - {q[n]});
    }
  }

  /** A page is mapped, for the first time or back from its slot; or it becomes dirty. */
  lemma MapStands(image: Image, exeEnd: nat, pt: Ptes, f: Score, v: nat, pte: Pte)
    requires v in pt && pte.Present? && pte.perm == PermAt(image, exeEnd, pt, v)
    requires pt[v].Empty? && v * PGSIZE < exeEnd ==> v in image
    ensures Stands(image, exeEnd, pt, f, pt[v := pte], f, {v})
    ensures !pt[v].Empty? ==> Stands(image, exeEnd, pt, f, pt[v := pte], f, {})
  {
  }

  /** What decides which accesses succeed: the state at the start, without regard to what is in memory */
  datatype Start = Start(image: Image, exeEnd: nat, pt: Ptes, sz: nat, sp: nat)

  function SizeAfter(sz: nat, done: seq<Action>): nat {
    if done == [] then sz
    else
      var a := done[|done| - 1];
      SizeAfter(sz, done[..|done| - 1]) + (if a.Grow? then a.n else 0)
  }

  function SpAfter(sp: nat, done: seq<Action>): nat {
    if done == [] then sp
    else
      var a := done[|done| - 1];
      if a.Move? then a.sp else SpAfter(sp, done[..|done| - 1])
  }

  /** The process had the page at the start or has accessed it since. */
  predicate Knows(s: Start, done: seq<Action>, v: nat) {
    if done == [] then !PteOf(s.pt, v).Empty?
    else
      var a := done[|done| - 1];
      (Accesses(a) && a.vpn == v) || Knows(s, done[..|done| - 1], v)
  }

  /** The rule for an access after the actions done: a page the process knows, or one that `vmfault`
      would bring in for the present size and stack pointer, with the right permission. */
  predicate Legal(s: Start, done: seq<Action>, a: Action) {
    Accesses(a) ==>
      && a.vpn in s.pt
      && (Knows(s, done, a.vpn) || ValuedAt(s.image, s.exeEnd, SizeAfter(s.sz, done), SpAfter(s.sp, done), a.vpn))
      && var perm := PermAt(s.image, s.exeEnd, s.pt, a.vpn); if a.Store? then perm.w else perm.r
  }

  predicate UsableAt(image: Image, exeEnd: nat, sz: nat, sp: nat, pt: Ptes, v: nat, write: bool) {
    && v in pt && (pt[v].Empty? ==> ValuedAt(image, exeEnd, sz, sp, v))
    && var perm := PermAt(image, exeEnd, pt, v); if write then perm.w else perm.r
  }

  /** How the page table stands to the start, if no swap-out failed */
  ghost predicate Tracks(s: Start, done: seq<Action>, pt: Ptes) {
    && pt.Keys == s.pt.Keys && Regular(s.image, s.exeEnd, pt)
    && forall v :: v in pt ==> TracksAt(s, done, pt, v)
  }

  predicate TracksAt(s: Start, done: seq<Action>, pt: Ptes, v: nat) {
    && PermAt(s.image, s.exeEnd, pt, v) == PermAt(s.image, s.exeEnd, s.pt, v)
    && (!PteOf(pt, v).Empty? ==> Knows(s, done, v))
    && (Knows(s, done, v) && PteOf(pt, v).Empty? ==> v * PGSIZE < s.exeEnd && v in s.image)
  }

  lemma TracksStart(s: Start)
    requires Regular(s.image, s.exeEnd, s.pt)
    ensures Tracks(s, [], s.pt)
  {
  }

  lemma TracksNext(s: Start, done: seq<Action>, a: Action, pt: Ptes, f: Score, pt': Ptes, f': Score)
    requires Tracks(s, done, pt) && f'.failures == f.failures
    requires Stands(s.image, s.exeEnd, pt, f, pt', f', if Accesses(a) then {a.vpn} else {})
    requires Accesses(a) ==> PteOf(pt', a.vpn).Present?
    ensures Tracks(s, done + [a], pt')
  {
    hide Regular, PermAt;
    assert (done + [a])[..|done|] == done;
    forall v | v in pt' ensures TracksAt(s, done + [a], pt', v) {
      assert TracksAt(s, done, pt, v);
      assert StandsAt(s.image, s.exeEnd, pt, pt', if Accesses(a) then {a.vpn} else {}, v);
    }
  }

  lemma UsableIsLegal(s: Start, done: seq<Action>, a: Action, pt: Ptes, sz: nat, sp: nat)
    requires Tracks(s, done, pt) && sz == SizeAfter(s.sz, done) && sp == SpAfter(s.sp, done) && s.exeEnd <= sz
    requires Accesses(a)
    ensures UsableAt(s.image, s.exeEnd, sz, sp, pt, a.vpn, a.Store?) <==> Legal(s, done, a)
  {
    hide Regular, PermAt;
    if a.vpn in pt {
      assert TracksAt(s, done, pt, a.vpn);
    }
  }

  /** The run went on exactly as far as the accesses were legal. */
  ghost predicate AsFarAsLegal(s: Start, actions: seq<Action>, n: nat) {
    && n <= |actions| && (forall i :: 0 <= i < n ==> Legal(s, actions[..i], actions[i]))
    && (n < |actions| ==> !Legal(s, actions[..n], actions[n]))
  }

  /** The pages a process has had: those at the start and those accessed since */
  ghost function Pages(pt: Ptes, done: seq<Action>): set<nat> {
    if done == [] then Had(pt)
    else
      var a := done[|done| - 1];
      Pages(pt, done[..|done| - 1]) + (if Accesses(a) then {a.vpn} else {})
  }

  lemma PagesNext(pt: Ptes, actions: seq<Action>, n: nat)
    requires n < |actions|
    ensures var a := actions[n];
            Pages(pt, actions[..n + 1]) == Pages(pt, actions[..n]) + (if Accesses(a) then {a.vpn} else {})
  {
    assert actions[..n + 1][..n] == actions[..n];
  }

  lemma {:induction false} PagesGrow(pt: Ptes, actions: seq<Action>, n: nat)
    requires n <= |actions|
    ensures Pages(pt, actions[..n]) <= Pages(pt, actions)
    ensures |Pages(pt, actions[..n])| <= |Pages(pt, actions)|
    decreases |actions| - n
  {
    if n == |actions| {
      assert actions[..n] == actions;
    } else {
      PagesNext(pt, actions, n);
      PagesGrow(pt, actions, n + 1);
    }
    SubsetSize(Pages(pt, actions[..n]), Pages(pt, actions));
  }

  /** What a run keeps of that: after n actions all were legal and the page table is as expected; and slots
      ran out only if the process has had more pages than there are slots. */
  ghost predicate Lawful(s: Start, roomy: bool, f0: Score, f: Score, pt: Ptes, sz: nat, sp: nat, actions: seq<Action>,
                         n: nat)
    requires n <= |actions|
  {
    && s.exeEnd <= s.sz <= sz == SizeAfter(s.sz, actions[..n]) && sp == SpAfter(s.sp, actions[..n])
    && f0.failures <= f.failures && f0.full <= f.full && Had(pt) <= Pages(s.pt, actions[..n])
    && (f.full != f0.full ==> |Pages(s.pt, actions)| > USABLE_SLOTS)
    && (f.failures == f0.failures && Regular(s.image, s.exeEnd, s.pt) ==>
          && Tracks(s, actions[..n], pt)
          && (roomy ==> forall i :: 0 <= i < n ==> Legal(s, actions[..i], actions[i])))
  }

  lemma LawfulStart(s: Start, roomy: bool, f: Score, actions: seq<Action>)
    requires s.exeEnd <= s.sz
    ensures Lawful(s, roomy, f, f, s.pt, s.sz, s.sp, actions, 0)
  {
    assert actions[..0] == [];
    if Regular(s.image, s.exeEnd, s.pt) {
      TracksStart(s);
    }
  }

  /** One action more: if slots run out, that is for want of slots. */
  lemma SlotsLast(s: Start, pt: Ptes, f: Score, pt': Ptes, f': Score, actions: seq<Action>, n: nat)
    requires n < |actions| && Had(pt) <= Pages(s.pt, actions[..n])
    requires var a := actions[n];
             Stands(s.image, s.exeEnd, pt, f, pt', f', if Accesses(a) then {a.vpn} else {})
    ensures Had(pt') <= Pages(s.pt, actions[..n + 1])
    ensures f'.full != f.full ==> |Pages(s.pt, actions)| > USABLE_SLOTS
  {
    hide Regular, Had, Pages;
    var a := actions[n];
    PagesNext(s.pt, actions, n);
    PagesGrow(s.pt, actions, n + 1);
    SubsetSize(Had(pt) + (if Accesses(a) then {a.vpn} else {}), Pages(s.pt, actions[..n + 1]));
  }

  lemma LawfulNext(s: Start, roomy: bool, f0: Score, f: Score, pt: Ptes, sz: nat, sp: nat,
                   f': Score, pt': Ptes, sz': nat, sp': nat, actions: seq<Action>, n: nat)
    requires n < |actions| && Lawful(s, roomy, f0, f, pt, sz, sp, actions, n)
    requires var a := actions[n];
             && sz' == sz + (if a.Grow? then a.n else 0) && sp' == (if a.Move? then a.sp else sp)
             && Stands(s.image, s.exeEnd, pt, f, pt', f', if Accesses(a) then {a.vpn} else {})
             && (Accesses(a) ==> PteOf(pt', a.vpn).Present?)
             && (roomy && Accesses(a) ==> UsableAt(s.image, s.exeEnd, sz, sp, pt, a.vpn, a.Store?))
    ensures Lawful(s, roomy, f0, f', pt', sz', sp', actions, n + 1)
  {
    hide Regular, Tracks, Legal, UsableAt, SizeAfter, SpAfter, Had, Pages;
    var a, done := actions[n], actions[..n];
    assert actions[..n + 1] == done + [a];
    OneMore(s, done, a);
    SlotsLast(s, pt, f, pt', f', actions, n);
    if f'.failures == f0.failures && Regular(s.image, s.exeEnd, s.pt) {
      TracksNext(s, done, a, pt, f, pt', f');
      if Accesses(a) {
        UsableIsLegal(s, done, a, pt, sz, sp);
      }
      AlwaysLegal(s, done, a);
    }
  }

  lemma LawfulStop(s: Start, roomy: bool, f0: Score, f: Score, pt: Ptes, sz: nat, sp: nat, f': Score, pt': Ptes,
                   actions: seq<Action>, n: nat)
    requires n < |actions| && Lawful(s, roomy, f0, f, pt, sz, sp, actions, n)
    requires var a := actions[n];
             && Stands(s.image, s.exeEnd, pt, f, pt', f', if Accesses(a) then {a.vpn} else {})
             && (roomy ==> Accesses(a) && !UsableAt(s.image, s.exeEnd, sz, sp, pt, a.vpn, a.Store?))
    ensures f'.full != f0.full ==> |Pages(s.pt, actions)| > USABLE_SLOTS
    ensures roomy && f'.failures == f0.failures && Regular(s.image, s.exeEnd, s.pt) ==> AsFarAsLegal(s, actions, n)
  {
    hide Regular, Tracks, Legal, UsableAt, Had, Pages;
    SlotsLast(s, pt, f, pt', f', actions, n);
    if roomy && f'.failures == f0.failures && Regular(s.image, s.exeEnd, s.pt) {
      UsableIsLegal(s, actions[..n], actions[n], pt, sz, sp);
    }
  }

  lemma LawfulEnd(s: Start, roomy: bool, f0: Score, f: Score, pt: Ptes, sz: nat, sp: nat, actions: seq<Action>)
    requires Lawful(s, roomy, f0, f, pt, sz, sp, actions, |actions|)
    ensures f.full != f0.full ==> |Pages(s.pt, actions)| > USABLE_SLOTS
    ensures roomy && f.failures == f0.failures && Regular(s.image, s.exeEnd, s.pt) ==>
              AsFarAsLegal(s, actions, |actions|)
  {
    hide Regular, Tracks, Legal;
  }

  lemma AlwaysLegal(s: Start, done: seq<Action>, a: Action)
    ensures !Accesses(a) ==> Legal(s, done, a)
  {
  }

  lemma OneMore(s: Start, done: seq<Action>, a: Action)
    ensures SizeAfter(s.sz, done + [a]) == SizeAfter(s.sz, done) + (if a.Grow? then a.n else 0)
    ensures SpAfter(s.sp, done + [a]) == if a.Move? then a.sp else SpAfter(s.sp, done)
  {
    assert (done + [a])[..|done|] == done;
  }

  // ----- What a program sees over a run -----

  /** The pages a claim is about: all, or those of heap and stack */
  predicate Watched(exeEnd: nat, all: bool, v: nat) {
    all || High(exeEnd, v)
  }

  /** Nothing was lost on those pages: no swap-out failed and, if all pages count, no clean page
      was discarded that was not as in the executable. */
  predicate Intact(all: bool, a: Book, b: Book) {
    b.failures == a.failures && (all ==> b.lost == a.lost)
  }

  /** The bytes of watched pages are what they were, as changed by the actions' stores. */
  ghost predicate Remembers(image: Image, exeEnd: nat, all: bool, first: Places, now: Places, actions: seq<Action>) {
    forall v: nat, off: nat :: Watched(exeEnd, all, v) && off < PGSIZE ==>
      RemembersByte(first, now, Fresh(image, exeEnd, v), actions, v, off)
  }

  ghost predicate RemembersByte(first: Places, now: Places, initial: Page, actions: seq<Action>, v: nat, off: nat) {
    && off < |Content(first, initial, v)| && off < |Content(now, initial, v)|
    && Content(now, initial, v)[off] == LastStored(actions, v, off, Content(first, initial, v)[off])
  }

  /** A load of a watched page gave the value last stored there, or else the first one. */
  ghost predicate Right(image: Image, exeEnd: nat, all: bool, first: Places, done: seq<Action>, a: Action, out: int) {
    a.Load? && Watched(exeEnd, all, a.vpn) ==>
      var page := Content(first, Fresh(image, exeEnd, a.vpn), a.vpn);
      a.off < |page| && out == LastStored(done, a.vpn, a.off, page[a.off])
  }

  /** One action, done while nothing is lost, leaves the program the memory it expects. */
  ghost predicate Carries(image: Image, exeEnd: nat, all: bool, first: Places, before: Places, g: Book, after: Places,
                          g': Book, done: seq<Action>, a: Action, out: int) {
    Intact(all, g, g') && Remembers(image, exeEnd, all, first, before, done) ==>
      Remembers(image, exeEnd, all, first, after, done + [a]) && Right(image, exeEnd, all, first, done, a, out)
  }

  lemma KeptCarries(image: Image, exeEnd: nat, all: bool, first: Places, before: Places, g: Book, after: Places,
                    g': Book, reverted: set<nat>, done: seq<Action>, a: Action, out: int)
    requires Kept(image, exeEnd, before, after, reverted) && Later(exeEnd, g, g', reverted) && !a.Store? && InPage(a)
    requires a.Load? ==>
               var page := Content(after, Fresh(image, exeEnd, a.vpn), a.vpn); a.off < |page| && out == page[a.off]
    ensures Carries(image, exeEnd, all, first, before, g, after, g', done, a, out)
  {
    assert (done + [a])[..|done|] == done;
    if Intact(all, g, g') && Remembers(image, exeEnd, all, first, before, done) {
      forall v: nat, off: nat | Watched(exeEnd, all, v) && off < PGSIZE
        ensures RemembersByte(first, after, Fresh(image, exeEnd, v), done, v, off)
        ensures RemembersByte(first, after, Fresh(image, exeEnd, v), done + [a], v, off)
      {
        assert RemembersByte(first, before, Fresh(image, exeEnd, v), done, v, off);
        assert v !in reverted;
      }
      if a.Load? && Watched(exeEnd, all, a.vpn) {
        assert RemembersByte(first, after, Fresh(image, exeEnd, a.vpn), done, a.vpn, a.off);
      }
    }
  }

  lemma StoreCarries(image: Image, exeEnd: nat, all: bool, first: Places, before: Places, g: Book, after: Places,
                     g': Book, reverted: set<nat>, done: seq<Action>, a: Action, out: int)
    requires a.Store? && Stored(image, exeEnd, before, after, reverted, a.vpn, a.off, a.val) &&
             Later(exeEnd, g, g', reverted)
    ensures Carries(image, exeEnd, all, first, before, g, after, g', done, a, out)
  {
    assert (done + [a])[..|done|] == done;
    if Intact(all, g, g') && Remembers(image, exeEnd, all, first, before, done) {
      forall v: nat, off: nat | Watched(exeEnd, all, v) && off < PGSIZE
        ensures RemembersByte(first, after, Fresh(image, exeEnd, v), done + [a], v, off)
      {
        assert RemembersByte(first, before, Fresh(image, exeEnd, v), done, v, off);
        assert v !in reverted;
      }
    }
  }

  /** Every load so far of a watched page was right. */
  ghost predicate AllRight(image: Image, exeEnd: nat, all: bool, first: Places, actions: seq<Action>, outs: seq<int>) {
    forall i :: 0 <= i < |outs| && i < |actions| ==> Right(image, exeEnd, all, first, actions[..i], actions[i], outs[i])
  }

  /** On pages that are new to the process, the first values are zeros. */
  lemma ZerosFirst(image: Image, exeEnd: nat, first: Places, actions: seq<Action>, outs: seq<int>)
    ensures AllRight(image, exeEnd, false, first, actions, outs) ==>
              forall i :: 0 <= i < |outs| && i < |actions| && actions[i].Load? && actions[i].vpn * 4096 >= exeEnd &&
                          PteOf(first.pt, actions[i].vpn).Empty? ==>
                            outs[i] == LastStored(actions[..i], actions[i].vpn, actions[i].off, 0)
  {
    hide LastStored;
    if AllRight(image, exeEnd, false, first, actions, outs) {
      forall i | 0 <= i < |outs| && i < |actions| && actions[i].Load? && actions[i].vpn * 4096 >= exeEnd &&
                 PteOf(first.pt, actions[i].vpn).Empty?
        ensures outs[i] == LastStored(actions[..i], actions[i].vpn, actions[i].off, 0)
      {
        assert Right(image, exeEnd, false, first, actions[..i], actions[i], outs[i]);
      }
    }
  }

  /** On pages of the executable, they are the executable's bytes. */
  lemma ImageFirst(image: Image, exeEnd: nat, first: Places, actions: seq<Action>, outs: seq<int>)
    ensures AllRight(image, exeEnd, true, first, actions, outs) ==>
              forall i :: 0 <= i < |outs| && i < |actions| && actions[i].Load? && actions[i].vpn * 4096 < exeEnd &&
                          actions[i].vpn in image && PteOf(first.pt, actions[i].vpn).Empty? ==>
                            && actions[i].off < |image[actions[i].vpn].bytes|
                            && outs[i] == LastStored(actions[..i], actions[i].vpn, actions[i].off,
                                                     image[actions[i].vpn].bytes[actions[i].off])
  {
    hide LastStored;
    if AllRight(image, exeEnd, true, first, actions, outs) {
      forall i | 0 <= i < |outs| && i < |actions| && actions[i].Load? && actions[i].vpn * 4096 < exeEnd &&
                 actions[i].vpn in image && PteOf(first.pt, actions[i].vpn).Empty?
        ensures actions[i].off < |image[actions[i].vpn].bytes|
        ensures outs[i] == LastStored(actions[..i], actions[i].vpn, actions[i].off,
                                      image[actions[i].vpn].bytes[actions[i].off])
      {
        assert Right(image, exeEnd, true, first, actions[..i], actions[i], outs[i]);
      }
    }
  }

  /** What a run keeps as long as nothing is lost */
  ghost predicate Faithful(image: Image, exeEnd: nat, all: bool, first: Places, g0: Book, now: Places, g: Book,
                           actions: seq<Action>, outs: seq<int>)
    requires |outs| <= |actions|
  {
    && g0.failures <= g.failures && g0.lost <= g.lost
    && (Intact(all, g0, g) ==>
          Remembers(image, exeEnd, all, first, now, actions[..|outs|]) &&
          AllRight(image, exeEnd, all, first, actions, outs))
  }

  lemma FaithfulNext(image: Image, exeEnd: nat, all: bool, first: Places, g0: Book, before: Places, g: Book,
                     after: Places, g': Book, actions: seq<Action>, outs: seq<int>, out: int)
    requires |outs| < |actions| && Faithful(image, exeEnd, all, first, g0, before, g, actions, outs)
    requires Carries(image, exeEnd, all, first, before, g, after, g', actions[..|outs|], actions[|outs|], out)
    requires g.failures <= g'.failures && g.lost <= g'.lost
    ensures Faithful(image, exeEnd, all, first, g0, after, g', actions, outs + [out])
  {
    hide Remembers, Right;
    assert actions[..|outs| + 1] == actions[..|outs|] + [actions[|outs|]];
  }

  class Pager {
    const image: Image  // what the text/data branch of vmfault loads, by page
    const exeEnd: nat
    const answers: nat -> Answer  // of the file system, to each swap-out
    var sz: nat
    var sp: nat                      // user stack pointer at the trap
    var killed: bool
    var panicked: bool
    var ram: Ram
    var pt: Ptes
    var rs: ResidentSet
    var swap: Swap
    ghost var g: Book

    ghost predicate Valid()
      reads this
    {
      && Chain(rs.nodes, g.fifo, rs.head, rs.tail)
      && Ordered(rs.nodes, g.fifo, Latest(g.victims), rs.seqNum) && Rising(g.victims)
      && Resident(rs.nodes, g.fifo, pt)
      && Frames(g.owner, ram.free, pt, rs.nodes, ram.mem)
      && Slots(swap.slots, g.slotOf, g.reserved, pt, swap.hasFile, swap.file)
      && Told(g.heard, g.failures, g.short, g.full, swap.tries, answers)
      && exeEnd <= sz
      && (forall v :: v in image ==> |image[v].bytes| == PGSIZE)
    }

    ghost function Now(): Places
      reads this
    {
      Places(pt, ram.mem, swap.file)
    }

    ghost function List(): Listing
      reads this
    {
      Listing(pt, rs.nodes, g.fifo, CanSwap())
    }

    /** The next swap-out will succeed: a usable slot is free, the file system opens the swap file, unless
        it is open, and takes a whole page. */
    ghost predicate CanSwap()
      reads this`swap
    {
      && !AllTaken(swap.slots) && (swap.hasFile || answers(swap.tries).opens)
      && answers(swap.tries).takes >= PGSIZE
    }

    /** A process right after exec: some pages may be mapped but none is listed or swapped. */
    constructor (image: Image, exeEnd: nat, sz: nat, sp: nat,
                 free: seq<nat>, mem: Memory, pt: Ptes, seqNum: nat, ghost owner: Owners,
                 answers: nat -> Answer)
      requires Frames(owner, free, pt, map[], mem) && exeEnd <= sz
      requires forall v :: v in pt ==> !pt[v].Swapped?
      requires forall v :: v in image ==> |image[v].bytes| == PGSIZE
      ensures Valid() && g == Book([], owner, map[], -1, [], 0, 0, 0, [], 0) && !killed && !panicked
      ensures this.image == image && this.exeEnd == exeEnd && this.sz == sz && this.sp == sp
      ensures this.answers == answers && swap.tries == 0
      ensures this.pt == pt && ram == Ram(free, mem) && rs.nodes == map[]
    {
      this.image, this.exeEnd, this.sz, this.sp := image, exeEnd, sz, sp;
      this.answers := answers;
      killed, panicked := false, false;
      ram := Ram(free, mem);
      this.pt := pt;
      rs := ResidentSet(map[], 0, 0, seqNum);
      swap := Swap(seq(NSLOTS, i => false), false, [], 0);
      g := Book([], owner, map[], -1, [], 0, 0, 0, [], 0);
    }

    /** `swap_slot_alloc`: the lowest free slot, or -1 */
    method SwapSlotAlloc() returns (slot: int)
      requires |swap.slots| == NSLOTS
      modifies this`swap
      ensures -1 <= slot < NSLOTS
      ensures forall s :: 0 <= s < (if slot == -1 then NSLOTS else slot) ==> old(swap.slots)[s]
      ensures slot == -1 ==> swap == old(swap)
      ensures slot >= 0 ==> !old(swap.slots)[slot] && swap == old(swap).(slots := old(swap.slots)[slot := true])
    {
      var i := 0;
      while i < 128
        invariant 0 <= i <= 128
        invariant swap == old(swap)
        invariant forall s :: 0 <= s < i * 8 ==> swap.slots[s]
      {
        var j := 0;
        while j < 8
          invariant 0 <= j <= 8
          invariant swap == old(swap)
          invariant forall s :: 0 <= s < i * 8 + j ==> swap.slots[s]
        {
          if !swap.slots[i * 8 + j] {
            swap := swap.(slots := swap.slots[i * 8 + j := true]);
            return i * 8 + j;
          }
          j := j + 1;
        }
        i := i + 1;
      }
      slot := -1;
    }

    /** `swap_slot_free` */
    method SwapSlotFree(slot: int)
      requires |swap.slots| == NSLOTS
      modifies this`swap
      ensures swap == if 0 <= slot < NSLOTS then old(swap).(slots := old(swap.slots)[slot := false]) else old(swap)
    {
      if 0 <= slot < NSLOTS {
        swap := swap.(slots := swap.slots[slot := false]);
      }
    }

    /** `swap_slot_alloc` for a victim: always finds a slot, which starts within the swap file. */
    method Reserve() returns (slot: nat)
      requires Valid() && g.reserved == -1
      modifies this`swap, this`g
      ensures Valid() && g == old(g).(reserved := slot)
      ensures swap.hasFile == old(swap.hasFile) && swap.file == old(swap.file) && swap.tries == old(swap.tries)
      ensures slot == USABLE_SLOTS <==> AllTaken(old(swap.slots))
      ensures slot <= USABLE_SLOTS && (swap.hasFile ==> slot * PGSIZE <= |swap.file|) && (!swap.hasFile ==> slot == 0)
    {
      hide Told, Chain, Ordered, Resident, Frames;
      ghost var before := swap.slots;
      var s := SwapSlotAlloc();
      LowestFits(before, g.slotOf, g.reserved, pt, swap.hasFile, swap.file, if s == -1 then NSLOTS else s);
      if s == -1 {
        assert false;  // SWAPFULL
      }
      ReserveKeepsSlots(before, g.slotOf, pt, swap.hasFile, swap.file, s);
      g := g.(reserved := s);
      slot := s;
    }

    /** `kfree` of a frame the caller holds */
    method Kfree(f: nat)
      requires Valid() && f in g.owner && g.owner[f] == Held
      modifies this`ram, this`g
      ensures Valid()
      ensures ram.free == [f] + old(ram.free) && g == old(g).(owner := old(g.owner)[f := Free])
      ensures Kept(image, exeEnd, old(Now()), Now(), {})
    {
      hide Told, Chain, Ordered, Resident, Frames, Slots;
      FreeKeepsFrames(g.owner, ram.free, pt, rs.nodes, ram.mem, f);
      UnmappedFrame(g.owner, ram.free, pt, rs.nodes, ram.mem, swap.file, f, Filled(1));
      ram := ram.(mem := ram.mem[f := Filled(1)]);
      ram := ram.(free := [f] + ram.free);
      g := g.(owner := g.owner[f := Free]);
    }

    /** Pop the free list, as `kalloc` does before and after eviction. */
    method Pop() returns (f: nat)
      requires Valid() && ram.free != []
      modifies this`ram, this`g
      ensures Valid()
      ensures f == old(ram.free)[0] && ram.free == old(ram.free)[1..]
      ensures f != 0 && f in old(g.owner) && g == old(g).(owner := old(g.owner)[f := Held]) && g.owner[f] == Held
      ensures Kept(image, exeEnd, old(Now()), Now(), {})
    {
      hide Told, Chain, Ordered, Resident, Frames, Slots;
      TakeKeepsFrames(g.owner, ram.free, pt, rs.nodes, ram.mem);
      f := ram.free[0];
      UnmappedFrame(g.owner, ram.free, pt, rs.nodes, ram.mem, swap.file, f, Filled(5));
      ram := ram.(free := ram.free[1..]);
      ram := ram.(mem := ram.mem[f := Filled(5)]);
      g := g.(owner := g.owner[f := Held]);
    }

    /** The first part of `do_page_replacement`: unlink the oldest page. */
    method TakeVictim() returns (victim: nat, v: nat)
      requires Valid() && g.fifo != []
      modifies this`rs, this`g
      ensures Valid() && rs.nodes == old(rs.nodes) - {victim} && rs.seqNum == old(rs.seqNum)
      ensures victim == old(g.fifo)[0] && victim in old(rs.nodes) && v == old(rs.nodes)[victim].vpn
      ensures victim in old(g.owner)
      ensures g == old(g).(fifo := old(g.fifo)[1..], owner := old(g.owner)[victim := Held],
                           victims := old(g.victims) + [old(rs.nodes)[victim].seqNum])
      ensures PteOf(pt, v).Present? && Unlisted(rs.nodes, g.fifo, v)
    {
      hide Told, Chain, Ordered, Resident, Unlisted, Frames, Slots, Rising, Latest;
      PopList(rs.nodes, g.fifo, rs.head, rs.tail, pt, Latest(g.victims), rs.seqNum);
      RisingMore(g.victims, rs.nodes[rs.head].seqNum);
      DropKeepsFrames(g.owner, ram.free, pt, rs.nodes, ram.mem, rs.head, rs.nodes - {rs.head});
      victim := rs.head;
      var node := rs.nodes[victim];
      v := node.vpn;
      rs := rs.(head := node.next);
      if rs.head == 0 {
        rs := rs.(tail := 0);
      }
      rs := rs.(nodes := rs.nodes - {victim});
      g := g.(victims := g.victims + [node.seqNum]);
      g := g.(owner := g.owner[victim := Held]);
      g := g.(fifo := g.fifo[1..]);
    }

    /** `writei` of one page at a slot: refused, or written as far as the disk allows. */
    method SwapWrite(slot: nat, page: Page, takes: nat) returns (n: int)
      requires |page| == PGSIZE
      modifies this`swap
      ensures if slot * PGSIZE > |old(swap.file)| || (slot + 1) * PGSIZE > MAXFILE_BYTES then
                n == -1 && swap == old(swap)
              else
                && n == Min(takes, PGSIZE)
                && swap == old(swap).(file := Splice(old(swap.file), slot * PGSIZE, page[..n]))
    {
      if slot * PGSIZE > |swap.file| || (slot + 1) * PGSIZE > MAXFILE_BYTES {
        return -1;
      }
      n := Min(takes, PGSIZE);
      swap := swap.(file := Splice(swap.file, slot * PGSIZE, page[..n]));
    }

    /** Create or reopen the swap file; it may be impossible, and an old file may have any contents. */
    method OpenSwapFile(a: Answer)
      requires Valid() && !swap.hasFile
      modifies this`swap
      ensures Valid() && swap == old(swap).(hasFile := a.opens, file := swap.file)
      ensures Kept(image, exeEnd, old(Now()), Now(), {})
    {
      hide Told, Chain, Ordered, Resident, Frames, Slots;
      var found, contents := a.opens, a.contents[..Min(|a.contents|, MAXFILE_BYTES)];
      OpenKeepsSlots(swap.slots, g.slotOf, g.reserved, pt, swap.file, found, contents);
      FileKept(image, exeEnd, Now(), contents, swap.slots, g.slotOf, g.reserved, false);
      swap := swap.(hasFile := found, file := contents);
    }

    /** `*pte = 0; kfree(pa)` of a page that is no longer listed */
    method Discard(v: nat)
      requires Valid() && PteOf(pt, v).Present? && Unlisted(rs.nodes, g.fifo, v)
      modifies this`pt, this`ram, this`g
      ensures Valid()
      ensures pt == old(pt)[v := Empty]
      ensures var f := old(pt)[v].frame;
              f in old(g.owner) && ram.free == [f] + old(ram.free) && g == old(g).(owner := old(g.owner)[f := Free])
      ensures Kept(image, exeEnd, old(Now()), Now(), {v})
    {
      hide Told, Chain, Ordered, Resident, Unlisted, Frames, Slots, Kept;
      ghost var before, f := Now(), pt[v].frame;
      UnmapKeepsFrames(g.owner, ram.free, pt, rs.nodes, ram.mem, v, Empty);
      UnmapKeepsResident(rs.nodes, g.fifo, pt, v, Empty);
      RemapKeepsSlots(swap.slots, g.slotOf, g.reserved, pt, swap.hasFile, swap.file, v, Empty);
      DiscardKept(image, exeEnd, before, v);
      var pa := pt[v].frame;
      pt := pt[v := Empty];
      g := g.(owner := g.owner[pa := Held]);
      ghost var middle := Now();
      Kfree(pa);
      KeptThen(image, exeEnd, before, middle, Now(), {v});
    }

    /** The page's bytes are in its slot: `*pte = SLOT_PTE(slot) | perms | PTE_S; kfree(pa)` */
    method MoveToSlot(v: nat, slot: nat)
      requires Valid() && PteOf(pt, v).Present? && Unlisted(rs.nodes, g.fifo, v) && pt[v].frame in ram.mem
      requires swap.hasFile && slot < USABLE_SLOTS && slot == g.reserved && (slot + 1) * PGSIZE <= |swap.file|
      requires SlotBytes(swap.file, slot) == ram.mem[pt[v].frame]
      modifies this`pt, this`ram, this`g
      ensures Valid() && g.reserved == -1
      ensures pt == old(pt)[v := Swapped(slot, old(pt)[v].perm)]
      ensures var f := old(pt)[v].frame;
              && f in old(g.owner) && ram.free == [f] + old(ram.free)
              && g == old(g).(owner := old(g.owner)[f := Free], slotOf := old(g.slotOf)[slot := v], reserved := -1)
      ensures Kept(image, exeEnd, old(Now()), Now(), {})
    {
      hide Told, Chain, Ordered, Resident, Unlisted, Frames, Slots, Kept;
      ghost var before := Now();
      var pa, perm := pt[v].frame, pt[v].perm;
      UnmapKeepsFrames(g.owner, ram.free, pt, rs.nodes, ram.mem, v, Swapped(slot, perm));
      UnmapKeepsResident(rs.nodes, g.fifo, pt, v, Swapped(slot, perm));
      SwapOutKeepsSlots(swap.slots, g.slotOf, pt, swap.file, v, slot, perm);
      SwapOutKept(image, exeEnd, before, v, slot, perm);
      pt := pt[v := Swapped(slot, perm)];
      g := g.(owner := g.owner[pa := Held]);
      g := g.(slotOf := g.slotOf[slot := v], reserved := -1);
      ghost var middle := Now();
      Kfree(pa);
      KeptThen(image, exeEnd, before, middle, Now(), {});
    }

    /** Give back the slot of a swap-out that came to nothing. */
    method ReleaseSlot(slot: nat)
      requires Valid() && slot < NSLOTS && slot == g.reserved
      modifies this`swap, this`g
      ensures Valid() && g == old(g).(reserved := -1)
      ensures swap.file == old(swap.file)
    {
      hide Told, Chain, Ordered, Resident, Frames;
      UnreserveKeepsSlots(swap.slots, g.slotOf, pt, swap.hasFile, swap.file, slot);
      SwapSlotFree(slot);
      g := g.(reserved := -1);
    }

    /** `writei` of the victim's frame to its reserved slot */
    method WriteVictim(v: nat, slot: nat, takes: nat) returns (n: int)
      requires Valid() && PteOf(pt, v).Present? && slot == g.reserved && swap.hasFile
      requires slot <= USABLE_SLOTS && slot * PGSIZE <= |swap.file|
      modifies this`swap
      ensures Valid() && swap == old(swap).(file := swap.file)
      ensures n == if slot < USABLE_SLOTS then Min(takes, PGSIZE) else -1
      ensures Kept(image, exeEnd, old(Now()), Now(), {})
      ensures pt[v].frame in ram.mem
      ensures n == PGSIZE ==>
                slot < USABLE_SLOTS && (slot + 1) * PGSIZE <= |swap.file| &&
                SlotBytes(swap.file, slot) == ram.mem[pt[v].frame]
    {
      hide Told, Chain, Ordered, Resident, Kept;
      ghost var before := Now();
      n := SwapWrite(slot, ram.mem[pt[v].frame], takes);
      if n >= 0 {
        ghost var data := ram.mem[pt[v].frame][..n];
        WriteKeepsSlots(swap.slots, g.slotOf, g.reserved, pt, swap.hasFile, before.file, slot, data);
        if n == PGSIZE {
          assert data == ram.mem[pt[v].frame];
        }
      }
      FileKept(image, exeEnd, before, swap.file, swap.slots, g.slotOf, g.reserved, swap.hasFile);
    }

    /** The file system's answer to this swap-out */
    method Ask() returns (a: Answer)
      requires Valid()
      modifies this`swap, this`g
      ensures a == answers(old(swap.tries)) && swap == old(swap).(tries := old(swap.tries) + 1)
      ensures Valid() && g == old(g).(heard := old(g.heard) + [a])
    {
      hide Chain, Ordered, Resident, Frames, Slots, Rising, Latest;
      a := answers(swap.tries);
      swap := swap.(tries := swap.tries + 1);
      g := g.(heard := g.heard + [a]);
    }

    /** Write the page to a slot, if possible. */
    method SwapOut(v: nat) returns (done: bool)
      requires Valid() && g.reserved == -1 && PteOf(pt, v).Present? && Unlisted(rs.nodes, g.fifo, v)
      modifies this`pt, this`ram, this`g, this`swap
      ensures Valid() && g.reserved == -1
      ensures done <==> old(CanSwap())
      ensures g.short != old(g.short) ==> !Good(answers(old(swap.tries)))
      ensures g.fifo == old(g.fifo) && g.victims == old(g.victims) && g.lost == old(g.lost)
      ensures g.failures == old(g.failures) + (if done then 0 else 1)
      ensures g.heard == old(g.heard) + [answers(old(swap.tries))]
      ensures g.full == old(g.full) + (if AllTaken(old(swap.slots)) then 1 else 0)
      ensures g.short == old(g.short) + (if !done && !AllTaken(old(swap.slots)) then 1 else 0)
      ensures !done ==> pt == old(pt) && ram == old(ram) && g.owner == old(g.owner)
      ensures done ==> v in pt && pt == old(pt)[v := pt[v]] && pt[v].Swapped? && pt[v].perm == old(pt)[v].perm
      ensures done ==>
                var f := old(pt)[v].frame;
                f in old(g.owner) && ram.free == [f] + old(ram.free) && g.owner == old(g.owner)[f := Free]
      ensures Kept(image, exeEnd, old(Now()), Now(), {})
    {
      hide Told, Chain, Ordered, Resident, Unlisted, Frames, Slots, Kept, SlotBytes, AllTaken;
      ghost var s0 := Now();
      var slot := Reserve();
      KeptSame(image, exeEnd, s0);
      var a := Ask();
      if !swap.hasFile {
        OpenSwapFile(a);
      }
      done := false;
      if swap.hasFile {
        ghost var s1 := Now();
        var n := WriteVictim(v, slot, a.takes);
        KeptThen(image, exeEnd, s0, s1, Now(), {});
        if n == PGSIZE {
          ghost var s2 := Now();
          MoveToSlot(v, slot);
          KeptThen(image, exeEnd, s0, s2, Now(), {});
          return true;
        }
      }
      ReleaseSlot(slot);
      Blame(slot == USABLE_SLOTS);
    }

    /** A failed swap-out is put down to its cause. */
    ghost method Blame(full: bool)
      requires Valid()
      modifies this`g
      ensures Valid() && g == old(g).(failures := old(g.failures) + 1, short := g.short, full := g.full)
      ensures g.full == old(g.full) + (if full then 1 else 0) && g.short == old(g.short) + (if full then 0 else 1)
    {
      hide Chain, Ordered, Resident, Frames, Slots, Rising, Latest;
      g := if full then g.(failures := g.failures + 1, full := g.full + 1)
           else g.(failures := g.failures + 1, short := g.short + 1);
    }

    /**
     The rest of `do_page_replacement`: a clean page of the executable is dropped, any other
     page goes to the lowest free slot, or is dropped too if it cannot be written there.
     Slots never run out, so the branch that kills the process is never taken.
     */
    method Evict(v: nat)
      requires Valid() && g.reserved == -1 && PteOf(pt, v).Present? && Unlisted(rs.nodes, g.fifo, v)
      modifies this`pt, this`ram, this`g, this`swap
      ensures Valid() && g.reserved == -1 && g.fifo == old(g.fifo) && g.victims == old(g.victims)
      ensures var f := old(pt)[v].frame;
              f in old(g.owner) && ram.free == [f] + old(ram.free) && g.owner == old(g.owner)[f := Free]
      ensures v in pt && pt == old(pt)[v := pt[v]] && !pt[v].Present?
      ensures pt[v].Swapped? ==> pt[v].perm == old(pt)[v].perm
      ensures Kept(image, exeEnd, old(Now()), Now(), if pt[v].Swapped? then {} else {v})
      ensures var backed := Backed(exeEnd, old(pt), v);
              && (pt[v].Swapped? <==> !backed && old(CanSwap()))
              && g.failures == old(g.failures) + (if !backed && pt[v].Empty? then 1 else 0)
              && g.heard == old(g.heard) + (if backed then [] else [answers(old(swap.tries))])
              && g.full == old(g.full) + (if !backed && AllTaken(old(swap.slots)) then 1 else 0) && Heeds(old(g), g)
              && g.lost == old(g.lost) + (if backed && old(Sees(v)) != Fresh(image, exeEnd, v) then 1 else 0)
      ensures (exists k :: 0 <= k < 67 && k < |old(swap.slots)| && !old(swap.slots)[k]) && old(swap.hasFile) &&
              answers(old(swap.tries)).takes >= 4096 ==>
                (pt[v].Swapped? <==> old(pt)[v].dirty || v * 4096 >= exeEnd)
      ensures !old(pt)[v].dirty && v * 4096 < exeEnd ==> pt[v] == Empty && swap == old(swap)
    {
      hide Told, Chain, Ordered, Resident, Unlisted, Frames, Slots, Kept, Content, Fresh, Rising, Latest, AllTaken,
           Heeds, Good;
      ghost var before, g0 := Now(), g;
      if !pt[v].dirty && v * PGSIZE < exeEnd {
        if Sees(v) != Fresh(image, exeEnd, v) {
          g := g.(lost := g.lost + 1);
        }
        Discard(v);
        HeedsOnly(g0, g);
        return;
      }
      ghost var answer := answers(swap.tries);
      SomeFree(swap.slots);
      var done := SwapOut(v);
      if !done {
        ghost var failed := Now();
        Discard(v);
        KeptAfter(image, exeEnd, before, failed, Now(), {v});
      }
      HeedsOne(g0, g, answer);
    }

    /** The page that the next eviction takes */
    ghost function Oldest(): nat
      reads this
      requires g.fifo != [] && g.fifo[0] in rs.nodes
    {
      rs.nodes[g.fifo[0]].vpn
    }

    /**
     `do_page_replacement`: evict the oldest resident page, if there is one.  Either way of
     evicting frees exactly two frames, the page's and its list node's.
     */
    method DoPageReplacement() returns (evicted: bool, ghost reverted: set<nat>)
      requires Valid() && g.reserved == -1
      modifies this`pt, this`ram, this`g, this`swap, this`rs
      ensures Valid() && g.reserved == -1
      ensures g.owner.Keys == old(g.owner.Keys) && HeldIn(g.owner) == old(HeldIn(g.owner))
      ensures evicted <==> old(g.fifo) != []
      ensures !evicted ==> reverted == {} && g == old(g) && ram == old(ram) && List() == old(List())
      ensures evicted ==> |ram.free| == |old(ram.free)| + 2 && Evicts(exeEnd, old(List()), List())
      ensures evicted ==> g.victims == old(g.victims) + [old(rs.nodes)[old(g.fifo)[0]].seqNum]
      ensures evicted ==> var v := old(Oldest());
                          && g.failures ==
                             old(g.failures) + (if !Backed(exeEnd, old(pt), v) && pt[v].Empty? then 1 else 0)
                          && reverted == (if Sees(v) == old(Sees(v)) then {} else {v})
                          && var lose := Backed(exeEnd, old(pt), v) && old(Sees(v)) != Fresh(image, exeEnd, v);
                             g.lost == old(g.lost) + (if lose then 1 else 0)
      ensures evicted && g.failures == old(g.failures) ==>
                var v := old(Oldest());
                Sees(v) == old(Sees(v)) <==> !Backed(exeEnd, old(pt), v) || old(Sees(v)) == Fresh(image, exeEnd, v)
      ensures evicted ==> (pt[old(Oldest())].Swapped? <==> !Backed(exeEnd, old(pt), old(Oldest())) && old(CanSwap()))
      ensures Later(exeEnd, old(g), g, reverted)
      ensures Stands(image, exeEnd, old(pt), Tally(old(g)), pt, Tally(g), {})
      ensures Kept(image, exeEnd, old(Now()), Now(), reverted)
    {
      hide Told, Chain, Ordered, Resident, Unlisted, Frames, Slots, Kept, Content, Fresh, Rising, Latest, HeldIn,
           Stands, Heeds, Had, AllTaken, CanSwap;
      ghost var before, g0, l0 := Now(), g, List();
      ListStart(rs.nodes, g.fifo, rs.head, rs.tail);
      if rs.head == 0 {
        KeptSame(image, exeEnd, before);
        HeedsSame(g);
        StandsSame(image, exeEnd, pt, Tally(g));
        return false, {};
      }
      var v := EvictOldest();
      reverted := if pt[v].Swapped? then {} else {v};
      VictimKept(image, exeEnd, before, Now(), v, reverted);
      if Sees(v) == Content(before, Fresh(image, exeEnd, v), v) {
        KeptUnchanged(image, exeEnd, before, Now(), v, reverted);
        reverted := {};
      }
      EvictStands(image, exeEnd, l0, Tally(g0), List(), Tally(g));
      evicted := true;
    }

    /** `do_page_replacement` when there is a resident page */
    method EvictOldest() returns (v: nat)
      requires Valid() && g.reserved == -1 && g.fifo != []
      modifies this`pt, this`ram, this`g, this`swap, this`rs
      ensures Valid() && g.reserved == -1
      ensures g.owner.Keys == old(g.owner.Keys) && HeldIn(g.owner) == old(HeldIn(g.owner))
      ensures |ram.free| == |old(ram.free)| + 2 && Evicts(exeEnd, old(List()), List()) && v == old(Oldest())
      ensures g.victims == old(g.victims) + [old(rs.nodes)[old(g.fifo)[0]].seqNum]
      ensures g.failures == old(g.failures) + (if !Backed(exeEnd, old(pt), v) && pt[v].Empty? then 1 else 0)
      ensures var lose := Backed(exeEnd, old(pt), v) && old(Sees(v)) != Fresh(image, exeEnd, v);
              g.lost == old(g.lost) + (if lose then 1 else 0)
      ensures g.full != old(g.full) ==> |Had(old(pt))| > USABLE_SLOTS
      ensures Heeds(old(g), g) && g.full >= old(g.full)
      ensures Kept(image, exeEnd, old(Now()), Now(), if pt[v].Swapped? then {} else {v})
    {
      hide Told, Chain, Ordered, Resident, Unlisted, Frames, Slots, Kept, Content, Fresh, Rising, Latest, HeldIn, Heeds,
           Had, AllTaken, CanSwap;
      ghost var before, g0 := Now(), g;
      ListStart(rs.nodes, g.fifo, rs.head, rs.tail);
      NotHeld(g.owner, ram.free, pt, rs.nodes, ram.mem, rs.head);
      var victim;
      victim, v := TakeVictim();
      MappedOwner(g.owner, ram.free, pt, rs.nodes, ram.mem, v);
      HeldEvict(g0.owner, victim, pt[v].frame);
      if AllTaken(swap.slots) {
        SlotsTaken(swap.slots, g.slotOf, pt, swap.hasFile, swap.file, v);
      }
      ghost var g1 := g;
      Evict(v);
      ghost var g2, after, reverted := g, Now(), if pt[v].Swapped? then {} else {v};
      Kfree(victim);
      KeptThen(image, exeEnd, before, after, Now(), reverted);
      HeedsLike(g1, g2, g0, g);
    }

    /**
     `kalloc`: a free frame, after an eviction if necessary; 0 if there is neither a free
     frame nor a page to evict.
     */
    method Kalloc() returns (f: nat, ghost reverted: set<nat>)
      requires Valid() && g.reserved == -1
      modifies this`pt, this`ram, this`g, this`swap, this`rs
      ensures Valid() && g.reserved == -1 && g.owner.Keys == old(g.owner.Keys)
      ensures f == 0 <==> old(ram.free) == [] && old(g.fifo) == []
      ensures f == 0 ==> g == old(g) && ram == old(ram)
      ensures f != 0 ==> f !in old(HeldIn(g.owner)) && HeldIn(g.owner) == old(HeldIn(g.owner)) + {f}
      ensures f != 0 ==> f in g.owner && g.owner[f] == Held
      ensures old(ram.free) != [] || old(g.fifo) == [] ==>
                List() == old(List()) && reverted == {} && g == old(g).(owner := g.owner)
      ensures old(ram.free) != [] ==> ram.free == old(ram.free)[1..]
      ensures old(ram.free) == [] && old(g.fifo) != [] ==>
                && |ram.free| == 1 && Evicts(exeEnd, old(List()), List())
                && g.victims == old(g.victims) + [old(rs.nodes)[old(g.fifo)[0]].seqNum]
      ensures Later(exeEnd, old(g), g, reverted)
      ensures Stands(image, exeEnd, old(pt), Tally(old(g)), pt, Tally(g), {})
      ensures Kept(image, exeEnd, old(Now()), Now(), reverted)
    {
      hide Told, Chain, Ordered, Resident, Unlisted, Frames, Slots, Kept, Rising, Latest, HeldIn, Evicts, Later, Stands;
      ghost var before, g0 := Now(), g;
      reverted := {};
      LaterStart(exeEnd, g);
      StandsSame(image, exeEnd, pt, Tally(g));
      if ram.free != [] {
        NotHeld(g.owner, ram.free, pt, rs.nodes, ram.mem, ram.free[0]);
        f := Pop();
        HeldUpdate(g0.owner, f, Held);
        LaterSame(exeEnd, g0, g0, g, {});
        return;
      }
      var evicted;
      evicted, reverted := DoPageReplacement();
      if !evicted {
        return 0, {};
      }
      ghost var middle, g1 := Now(), g;
      NotHeld(g.owner, ram.free, pt, rs.nodes, ram.mem, ram.free[0]);
      f := Pop();
      HeldUpdate(g1.owner, f, Held);
      LaterSame(exeEnd, g0, g1, g, reverted);
      KeptThen(image, exeEnd, before, middle, Now(), reverted);
    }

    /** Write a frame the caller holds. */
    method Fill(f: nat, page: Page)
      requires Valid() && f in g.owner && g.owner[f] == Held && |page| == PGSIZE
      modifies this`ram
      ensures Valid() && f in ram.mem && ram.mem[f] == page && ram.free == old(ram.free)
      ensures Kept(image, exeEnd, old(Now()), Now(), {})
    {
      hide Told, Chain, Ordered, Resident, Frames, Slots;
      FillKeepsFrames(g.owner, ram.free, pt, rs.nodes, ram.mem, f, page);
      UnmappedFrame(g.owner, ram.free, pt, rs.nodes, ram.mem, swap.file, f, page);
      ram := ram.(mem := ram.mem[f := page]);
    }

    /** `mappages` of a fresh page whose leaf table exists */
    method MapFresh(v: nat, f: nat, perm: Perm)
      requires Valid() && v in pt && pt[v].Empty? && f in g.owner && g.owner[f] == Held
      requires f in ram.mem && ram.mem[f] == Fresh(image, exeEnd, v)
      modifies this`pt, this`g
      ensures Valid() && pt == old(pt)[v := Present(f, perm, false)] &&
              g == old(g).(owner := old(g.owner)[f := MappedAt(v)])
      ensures Unlisted(rs.nodes, g.fifo, v)
      ensures Kept(image, exeEnd, old(Now()), Now(), {})
    {
      hide Told, Chain, Ordered, Resident, Frames, Slots, Kept;
      NotResident(rs.nodes, g.fifo, pt, v);
      MapKeepsFrames(g.owner, ram.free, pt, rs.nodes, ram.mem, v, f, perm);
      UnmapKeepsResident(rs.nodes, g.fifo, pt, v, Present(f, perm, false));
      RemapKeepsSlots(swap.slots, g.slotOf, g.reserved, pt, swap.hasFile, swap.file, v, Present(f, perm, false));
      MapKept(image, exeEnd, Now(), v, f, perm);
      pt := pt[v := Present(f, perm, false)];
      g := g.(owner := g.owner[f := MappedAt(v)]);
    }

    /** `swap_slot_free; *pte = 0; mappages` of a page that was read back from its slot */
    method MapSwapped(v: nat, f: nat)
      requires Valid() && v in pt && pt[v].Swapped? && f in g.owner && g.owner[f] == Held
      requires f in ram.mem && ram.mem[f] == SlotBytes(swap.file, pt[v].slot)
      modifies this`pt, this`g, this`swap
      ensures Valid() && pt == old(pt)[v := Present(f, old(pt)[v].perm, false)]
      ensures g == old(g).(owner := old(g.owner)[f := MappedAt(v)], slotOf := old(g.slotOf) - {old(pt)[v].slot})
      ensures Unlisted(rs.nodes, g.fifo, v)
      ensures Kept(image, exeEnd, old(Now()), Now(), {})
    {
      hide Told, Chain, Ordered, Resident, Frames, Kept;
      var slot, perm := pt[v].slot, pt[v].perm;
      NotResident(rs.nodes, g.fifo, pt, v);
      MapKeepsFrames(g.owner, ram.free, pt, rs.nodes, ram.mem, v, f, perm);
      UnmapKeepsResident(rs.nodes, g.fifo, pt, v, Present(f, perm, false));
      SwapInKeepsSlots(swap.slots, g.slotOf, g.reserved, pt, swap.hasFile, swap.file, v, Present(f, perm, false));
      MapKept(image, exeEnd, Now(), v, f, perm);
      SwapSlotFree(slot);
      pt := pt[v := Present(f, perm, false)];
      g := g.(owner := g.owner[f := MappedAt(v)]);
      g := g.(slotOf := g.slotOf - {slot});
    }

    /**
     `add_to_resident_set` and the increment of `fifo_seq_num` that follows every call.  It
     panics if there is no frame for the list node.
     */
    method AddToResidentSet(v: nat) returns (ghost reverted: set<nat>)
      requires Valid() && g.reserved == -1 && PteOf(pt, v).Present? && Unlisted(rs.nodes, g.fifo, v)
      modifies this
      ensures sz == old(sz) && sp == old(sp) && killed == old(killed)
      ensures panicked <==> old(panicked) || (old(ram.free) == [] && old(g.fifo) == [])
      ensures Valid() && g.reserved == -1
      ensures g.owner.Keys == old(g.owner.Keys) && HeldIn(g.owner) == old(HeldIn(g.owner))
      ensures !panicked ==> v in pt && pt[v] == old(pt)[v] && IsNewest(rs.nodes, g.fifo, v)
      ensures !panicked && old(ram.free) != [] ==>
                ram.free == old(ram.free)[1..] && pt == old(pt) && g.fifo[..|g.fifo| - 1] == old(g.fifo)
      ensures !panicked && old(ram.free) == [] ==> |ram.free| == 1 && |g.fifo| == |old(g.fifo)|
      ensures Later(exeEnd, old(g), g, reverted)
      ensures Stands(image, exeEnd, old(pt), Tally(old(g)), pt, Tally(g), {})
      ensures Kept(image, exeEnd, old(Now()), Now(), reverted)
    {
      hide Told, Chain, Ordered, Resident, Frames, Slots, Kept, Rising, Latest, HeldIn, Later, Stands;
      var node;
      ghost var g0 := g;
      if ram.free == [] && g.fifo != [] {
        ListStart(rs.nodes, g.fifo, rs.head, rs.tail);
        StillUnlisted(rs.nodes, g.fifo, v);
      }
      node, reverted := Kalloc();
      if node == 0 {
        panicked := true;
        return;
      }
      ghost var g1 := g;
      Append(node, v);
      HeldUpdate(g1.owner, node, Tracking);
      LaterSame(exeEnd, g0, g1, g, reverted);
    }

    /**
     `remove_from_resident_set`: the page's node, if there is one, leaves the list and its frame
     is freed; the others keep their order.
     */
    method RemoveFromResidentSet(v: nat) returns (found: bool)
      requires Valid() && g.reserved == -1
      modifies this`rs, this`g, this`ram
      ensures Valid() && g.reserved == -1 && g.owner.Keys == old(g.owner.Keys) && Unlisted(rs.nodes, g.fifo, v)
      ensures g == old(g).(fifo := g.fifo, owner := g.owner) && HeldIn(g.owner) == old(HeldIn(g.owner))
      ensures !found ==> rs == old(rs) && g == old(g) && ram == old(ram)
      ensures found ==>
                exists k ::
                  0 <= k < |old(g.fifo)| && old(g.fifo)[k] in old(rs.nodes) && old(rs.nodes)[old(g.fifo)[k]].vpn == v
                          && g.fifo == Without(old(g.fifo), k) && ram.free == [old(g.fifo)[k]] + old(ram.free)
      ensures Kept(image, exeEnd, old(Now()), Now(), {})
    {
      hide Told, Chain, Ordered, Resident, Unlisted, Frames, Slots, Kept, HeldIn, Rising, Latest;
      KeptSame(image, exeEnd, Now());
      var curr, prev;
      ghost var k;
      curr, prev, k := FindNode(v);
      found := curr != 0;
      if found {
        DropNode(k, prev, curr);
      }
    }

    /** The search loop of `remove_from_resident_set` */
    method FindNode(v: nat) returns (curr: nat, prev: nat, ghost k: nat)
      requires Valid()
      ensures curr == 0 ==> Unlisted(rs.nodes, g.fifo, v)
      ensures curr != 0 ==> k < |g.fifo| && curr == g.fifo[k] && curr in rs.nodes && rs.nodes[curr].vpn == v
      ensures curr != 0 ==> prev == (if k == 0 then 0 else g.fifo[k - 1])
    {
      hide Told, Chain, Ordered, Resident, Unlisted, Frames, Slots;
      k := 0;
      curr, prev := rs.head, 0;
      ListStart(rs.nodes, g.fifo, rs.head, rs.tail);
      while curr != 0
        invariant k <= |g.fifo| && curr == (if k == |g.fifo| then 0 else g.fifo[k]) &&
                  prev == (if k == 0 then 0 else g.fifo[k - 1])
        invariant forall i :: 0 <= i < k && g.fifo[i] in rs.nodes ==> rs.nodes[g.fifo[i]].vpn != v
        decreases |g.fifo| - k
      {
        Listed(rs.nodes, g.fifo, rs.head, rs.tail, k);
        if rs.nodes[curr].vpn == v {
          return;
        }
        prev := curr;
        curr := rs.nodes[curr].next;
        k := k + 1;
      }
      if k < |g.fifo| {
        Listed(rs.nodes, g.fifo, rs.head, rs.tail, k);
      }
      NotListed(rs.nodes, g.fifo, v);
    }

    /** Unlinks node k, `curr`, behind `prev`, and frees it. */
    method DropNode(ghost k: nat, prev: nat, curr: nat)
      requires Valid() && g.reserved == -1 && k < |g.fifo| && curr == g.fifo[k] &&
               prev == (if k == 0 then 0 else g.fifo[k - 1])
      modifies this`rs, this`g, this`ram
      ensures Valid() && g.reserved == -1 && g.owner.Keys == old(g.owner.Keys)
      ensures curr in old(rs.nodes) && Unlisted(rs.nodes, g.fifo, old(rs.nodes)[curr].vpn)
      ensures g.fifo == Without(old(g.fifo), k) && ram.free == [curr] + old(ram.free)
      ensures g == old(g).(fifo := g.fifo, owner := g.owner) && HeldIn(g.owner) == old(HeldIn(g.owner))
      ensures Kept(image, exeEnd, old(Now()), Now(), {})
    {
      hide Told, Chain, Ordered, Resident, Unlisted, Frames, Slots, Kept, Dropped, Without, HeldIn, Rising;
      Listed(rs.nodes, g.fifo, rs.head, rs.tail, k);
      ghost var dropped := Dropped(rs.nodes, g.fifo, k);
      DropChain(rs.nodes, g.fifo, rs.head, rs.tail, k);
      DropList(rs.nodes, g.fifo, rs.head, rs.tail, pt, Latest(g.victims), rs.seqNum, k);
      DropKeepsFrames(g.owner, ram.free, pt, rs.nodes, ram.mem, curr, dropped);
      NotHeld(g.owner, ram.free, pt, rs.nodes, ram.mem, curr);
      ghost var owner := g.owner;
      HeldUpdate(owner, curr, Held);
      HeldUpdate(owner[curr := Held], curr, Free);
      var list, next := rs, rs.nodes[curr].next;
      if prev == 0 {
        list := list.(head := next);
      } else {
        list := list.(nodes := list.nodes[prev := list.nodes[prev].(next := next)]);
      }
      if list.tail == curr {
        list := list.(tail := prev);
      }
      list := list.(nodes := list.nodes - {curr});
      assert list.nodes == dropped;
      rs := list;
      g := g.(owner := g.owner[curr := Held]);
      g := g.(fifo := Without(g.fifo, k));
      Kfree(curr);
    }

    /** `uvmunmap` of a mapped page, as when the heap shrinks: nothing of it stays behind. */
    method UnmapPage(v: nat)
      requires Valid() && g.reserved == -1 && PteOf(pt, v).Present?
      modifies this`rs, this`g, this`ram, this`pt
      ensures Valid() && g.reserved == -1 && g.owner.Keys == old(g.owner.Keys)
      ensures pt == old(pt)[v := Empty] && Unlisted(rs.nodes, g.fifo, v)
      ensures |ram.free| == |old(ram.free)| + (if old(Unlisted(rs.nodes, g.fifo, v)) then 1 else 2)
      ensures g == old(g).(fifo := g.fifo, owner := g.owner) && HeldIn(g.owner) == old(HeldIn(g.owner))
      ensures Kept(image, exeEnd, old(Now()), Now(), {v})
    {
      hide Told, Chain, Ordered, Resident, Frames, Slots, Kept, HeldIn, Rising, Latest;
      ghost var before := Now();
      var found := RemoveFromResidentSet(v);
      ghost var middle := Now();
      hide Unlisted;
      NotHeld(g.owner, ram.free, pt, rs.nodes, ram.mem, 0);
      HeldUpdate(g.owner, pt[v].frame, Free);
      Discard(v);
      KeptAfter(image, exeEnd, before, middle, Now(), {v});
    }

    /** Link a node for the page at the tail of the list. */
    method Append(node: nat, v: nat)
      requires Valid() && node in g.owner && g.owner[node] == Held && node != 0
      requires PteOf(pt, v).Present? && Unlisted(rs.nodes, g.fifo, v)
      modifies this`rs, this`g
      ensures Valid() && g == old(g).(fifo := old(g.fifo) + [node], owner := old(g.owner)[node := Tracking])
      ensures rs.seqNum == old(rs.seqNum) + 1 && IsNewest(rs.nodes, g.fifo, v)
    {
      hide Told, Chain, Ordered, Resident, Unlisted, Frames, Slots;
      NotANode(g.owner, ram.free, pt, rs.nodes, ram.mem, node);
      AppendList(rs.nodes, g.fifo, rs.head, rs.tail, pt, Latest(g.victims), rs.seqNum, node, v);
      LinkKeepsFrames(g.owner, ram.free, pt, rs.nodes, ram.mem, node,
                      Appended(rs.nodes, rs.head, rs.tail, node, v, rs.seqNum));
      var appended := rs.nodes;
      if rs.head == 0 {
        rs := rs.(head := node);
      } else {
        appended := appended[rs.tail := appended[rs.tail].(next := node)];
      }
      rs := rs.(nodes := appended[node := Node(v, rs.seqNum, 0)]);
      rs := rs.(tail := node);
      g := g.(fifo := g.fifo + [node]);
      g := g.(owner := g.owner[node := Tracking]);
      rs := rs.(seqNum := rs.seqNum + 1);
    }

    /** `mappages` and `add_to_resident_set` for a fresh page */
    method MapAndTrack(v: nat, f: nat, perm: Perm) returns (ghost reverted: set<nat>)
      requires Valid() && g.reserved == -1 && v in pt && pt[v].Empty? && f in g.owner && g.owner[f] == Held
      requires f in ram.mem && ram.mem[f] == Fresh(image, exeEnd, v)
      modifies this
      ensures sz == old(sz) && sp == old(sp) && killed == old(killed)
      ensures panicked <==> old(panicked) || (old(ram.free) == [] && old(g.fifo) == [])
      ensures Valid() && g.reserved == -1
      ensures g.owner.Keys == old(g.owner.Keys) && HeldIn(g.owner) == old(HeldIn(g.owner)) - {f}
      ensures !panicked ==> v in pt && pt[v] == Present(f, perm, false) && g.fifo != []
      ensures !panicked && old(ram.free) != [] ==>
                ram.free == old(ram.free)[1..] && Brings(old(pt), List(), old(g.fifo), v)
      ensures !panicked && old(ram.free) == [] ==> |ram.free| == 1 && |g.fifo| == |old(g.fifo)|
      ensures Later(exeEnd, old(g), g, reverted)
      ensures perm == FreshPerm(image, exeEnd, v) && (v * PGSIZE < exeEnd ==> v in image) ==>
                Stands(image, exeEnd, old(pt), Tally(old(g)), pt, Tally(g), {v})
      ensures Kept(image, exeEnd, old(Now()), Now(), reverted)
    {
      hide Told, Chain, Ordered, Resident, Unlisted, Frames, Slots, Kept, Fresh, Rising, Latest, HeldIn, Later, Stands;
      ghost var before, g0 := Now(), g;
      MapFresh(v, f, perm);
      HeldUpdate(g0.owner, f, MappedAt(v));
      ghost var mapped, g1 := Now(), g;
      LaterStart(exeEnd, g0);
      LaterSame(exeEnd, g0, g0, g1, {});
      reverted := AddToResidentSet(v);
      LaterTrans(exeEnd, g0, g1, g, {}, reverted);
      if perm == FreshPerm(image, exeEnd, v) && (v * PGSIZE < exeEnd ==> v in image) {
        MapStands(image, exeEnd, before.pt, Tally(g0), v, mapped.pt[v]);
        StandsTrans(image, exeEnd, before.pt, Tally(g0), mapped.pt, Tally(g1), pt, Tally(g), v);
      }
      assert {} + reverted == reverted;
      KeptAfter(image, exeEnd, before, mapped, Now(), reverted);
    }

    predicate Valued(v: nat)
      reads this
    {
      ValuedAt(image, exeEnd, sz, sp, v)
    }

    /** There is memory for a page and its list node. */
    ghost predicate Roomy()
      reads this
    {
      g.fifo != [] || |ram.free| >= 2
    }

    /** The middle of `vmfault`: fills the new frame, for a stack page, a heap page, or a page of the
        executable; `ok` is false if the address is none of these. */
    method Initialize(v: nat, f: nat) returns (ok: bool, perm: Perm)
      requires Valid() && f in g.owner && g.owner[f] == Held
      modifies this`ram
      ensures Valid() && ram.free == old(ram.free)
      ensures ok <==> Valued(v)
      ensures ok <==>
              if v * 4096 >= sz then 4096 <= sp && sp - 4096 <= v * 4096 < sp else v * 4096 >= exeEnd || v in image
      ensures ok ==> f in ram.mem && ram.mem[f] == Fresh(image, exeEnd, v) && perm == FreshPerm(image, exeEnd, v)
      ensures ok && v * PGSIZE < exeEnd ==> v in image
      ensures ok ==> FirstTouch(image, exeEnd, v, ram.mem[f], perm)
      ensures Kept(image, exeEnd, old(Now()), Now(), {})
    {
      hide Told, Chain, Ordered, Resident, Frames, Slots, Kept, Rising, Latest;
      ghost var before := Now();
      Fill(f, Filled(0));
      ghost var zeroed := Now();
      perm := Perm(true, true, false);
      if v * PGSIZE >= sz {
        if !(v * PGSIZE < sp && sp >= PGSIZE && v * PGSIZE >= sp - PGSIZE) {
          return false, perm;
        }
      } else if v * PGSIZE < exeEnd {
        if v !in image {
          return false, perm;
        }
        Fill(f, image[v].bytes);
        KeptThen(image, exeEnd, before, zeroed, Now(), {});
        perm := image[v].perm;
      }
      ok := true;
      FreshIsFirst(image, exeEnd, v);
    }

    /** `vmfault` on a page that has a leaf table but neither frame nor slot */
    method VmFault(v: nat) returns (ok: bool, ghost reverted: set<nat>)
      requires Valid() && g.reserved == -1 && v in pt && pt[v].Empty?
      modifies this
      ensures sz == old(sz) && sp == old(sp) && killed == old(killed) && (old(panicked) ==> panicked)
      ensures Valid() && g.reserved == -1
      ensures g.owner.Keys == old(g.owner.Keys) && HeldIn(g.owner) == old(HeldIn(g.owner))
      ensures !panicked && ok ==> v in pt && pt[v].Present? && pt[v].perm == FreshPerm(image, exeEnd, v) && !pt[v].dirty
      ensures !panicked && ok ==> FirstTouch(image, exeEnd, v, Sees(v), pt[v].perm)
      ensures !old(panicked) ==> (panicked <==> old(!Roomy() && ram.free != [] && Valued(v)))
      ensures !panicked ==> (ok <==> old(Roomy() && Valued(v)))
      ensures !panicked && ok ==> g.fifo != []
      ensures panicked && !old(panicked) ==> ok
      ensures !ok ==> v in pt && pt[v].Empty?
      ensures !panicked && ok && |old(ram.free)| >= 2 ==>
                ram.free == old(ram.free)[2..] && Brings(old(pt), List(), old(g.fifo), v)
      ensures !panicked && ok && old(ram.free) == [] ==> ram.free == [] && Replaces(exeEnd, old(List()), List(), v)
      ensures Later(exeEnd, old(g), g, reverted)
      ensures Stands(image, exeEnd, old(pt), Tally(old(g)), pt, Tally(g), {v})
      ensures Kept(image, exeEnd, old(Now()), Now(), reverted)
    {
      hide Told, Chain, Ordered, Resident, Unlisted, Frames, Slots, Kept, Rising, Latest, HeldIn, Later, Evicts, Brings,
           Replaces, Stands, FirstTouch, FreshPerm, Fresh;
      ghost var s0, g0, l0, full := Now(), g, List(), ram.free == [];
      var f;
      f, reverted := Kalloc();
      StandsMore(image, exeEnd, s0.pt, Tally(g0), pt, Tally(g), v);
      if f == 0 {
        return false, reverted;
      }
      ghost var s1, g1, l1, r1, r2 := Now(), g, List(), reverted, {};
      if full {
        EvictsOther(exeEnd, l0, l1, v);
      }
      var perm;
      ok, perm := Initialize(v, f);
      KeptThen(image, exeEnd, s0, s1, Now(), reverted);
      ghost var s3 := Now();
      if !ok {
        GiveBack(f);
        LaterSame(exeEnd, g0, g1, g, reverted);
        KeptThen(image, exeEnd, s0, s3, Now(), reverted);
        return;
      }
      r2 := MapAndTrack(v, f, perm);
      LaterTrans(exeEnd, g0, g1, g, r1, r2);
      StandsTrans(image, exeEnd, s0.pt, Tally(g0), s1.pt, Tally(g1), pt, Tally(g), v);
      KeptTrans(image, exeEnd, s0, s3, Now(), r1, r2);
      if full && !panicked {
        EvictThenBring(exeEnd, l0, l1, List(), v);
      }
      TouchedFirst(image, exeEnd, s0, Now(), r1 + r2, v);
      return true, r1 + r2;
    }

    /** `kfree` of the frame just allocated */
    method GiveBack(f: nat)
      requires Valid() && f in g.owner && g.owner[f] == Held
      modifies this`ram, this`g
      ensures Valid() && g == old(g).(owner := g.owner) && g.owner.Keys == old(g.owner.Keys)
      ensures HeldIn(g.owner) == old(HeldIn(g.owner)) - {f}
      ensures Kept(image, exeEnd, old(Now()), Now(), {})
    {
      hide Told, Chain, Ordered, Resident, Frames, Slots, Kept, Rising, Latest, HeldIn;
      HeldUpdate(g.owner, f, Free);
      Kfree(f);
    }

    /** The swap-in branch of `usertrap`; the reads from the swap file are never short. */
    method SwapIn(v: nat) returns (ghost reverted: set<nat>)
      requires Valid() && g.reserved == -1 && v in pt && pt[v].Swapped? && !killed
      modifies this
      ensures sz == old(sz) && sp == old(sp) && (old(panicked) ==> panicked)
      ensures killed <==> old(ram.free) == [] && old(g.fifo) == []
      ensures Valid() && g.reserved == -1
      ensures g.owner.Keys == old(g.owner.Keys) && HeldIn(g.owner) == old(HeldIn(g.owner))
      ensures !panicked && !killed ==> v in pt && pt[v].Present? && pt[v].perm == old(pt)[v].perm && !pt[v].dirty
      ensures !old(panicked) ==> (panicked <==> old(!Roomy() && ram.free != []))
      ensures !panicked && !killed ==> g.fifo != []
      ensures !panicked && |old(ram.free)| >= 2 ==>
                ram.free == old(ram.free)[2..] && Brings(old(pt), List(), old(g.fifo), v)
      ensures !panicked && !killed && old(ram.free) == [] ==> ram.free == [] && Replaces(exeEnd, old(List()), List(), v)
      ensures Later(exeEnd, old(g), g, reverted)
      ensures Stands(image, exeEnd, old(pt), Tally(old(g)), pt, Tally(g), {v})
      ensures Kept(image, exeEnd, old(Now()), Now(), reverted)
    {
      hide Told, Chain, Ordered, Resident, Unlisted, Frames, Slots, Kept, SlotBytes, Rising, Latest, HeldIn, Later,
           Evicts, Replaces, Stands;
      ghost var s0, g0, l0, full := Now(), g, List(), ram.free == [];
      var f;
      f, reverted := Kalloc();
      StandsMore(image, exeEnd, s0.pt, Tally(g0), pt, Tally(g), v);
      if f == 0 {
        killed := true;
        return;
      }
      ghost var s1, g1, l1, r1, r2 := Now(), g, List(), reverted, {};
      if full {
        EvictsOther(exeEnd, l0, l1, v);
      }
      SwappedSlot(swap.slots, g.slotOf, g.reserved, pt, swap.hasFile, swap.file, v);
      Fill(f, SlotBytes(swap.file, pt[v].slot));
      KeptThen(image, exeEnd, s0, s1, Now(), r1);
      ghost var s2 := Now();
      MapSwapped(v, f);
      HeldUpdate(g1.owner, f, MappedAt(v));
      ghost var g2 := g;
      LaterSame(exeEnd, g0, g1, g2, r1);
      KeptThen(image, exeEnd, s0, s2, Now(), r1);
      ghost var s3 := Now();
      r2 := AddToResidentSet(v);
      LaterTrans(exeEnd, g0, g2, g, r1, r2);
      MapStands(image, exeEnd, s1.pt, Tally(g1), v, s3.pt[v]);
      StandsTrans(image, exeEnd, s0.pt, Tally(g0), s1.pt, Tally(g1), s3.pt, Tally(g2), v);
      StandsTrans(image, exeEnd, s0.pt, Tally(g0), s3.pt, Tally(g2), pt, Tally(g), v);
      KeptTrans(image, exeEnd, s0, s3, Now(), r1, r2);
      if full && !panicked {
        EvictThenBring(exeEnd, l0, l1, List(), v);
      }
      reverted := r1 + r2;
    }

    /** The page-fault branch of `usertrap` */
    method UserTrap(v: nat) returns (ghost reverted: set<nat>)
      requires Valid() && g.reserved == -1 && !killed && !panicked
      modifies this
      ensures sz == old(sz) && sp == old(sp)
      ensures Valid() && g.reserved == -1
      ensures g.owner.Keys == old(g.owner.Keys) && HeldIn(g.owner) == old(HeldIn(g.owner))
      ensures !panicked && !killed ==>
                v in pt && pt[v].Present? && !PteOf(old(pt), v).Present? && pt[v].perm == old(PermOf(v))
      ensures !panicked && !killed && PteOf(old(pt), v).Empty? ==> FirstTouch(image, exeEnd, v, Sees(v), pt[v].perm)
      ensures panicked <==> v >= MAXVPN || old(!Roomy() && ram.free != [] && Served(v))
      ensures killed <==> v < MAXVPN && old(!Served(v) || (!Roomy() && ram.free == []))
      ensures !panicked && !killed ==> g.fifo != []
      ensures killed && old(Roomy()) ==> (v in pt <==> v in old(pt)) && PteOf(pt, v) == PteOf(old(pt), v)
      ensures !panicked && !killed && |old(ram.free)| >= 2 ==>
                ram.free == old(ram.free)[2..] && Brings(old(pt), List(), old(g.fifo), v)
      ensures !panicked && !killed && old(ram.free) == [] ==> ram.free == [] && Replaces(exeEnd, old(List()), List(), v)
      ensures Later(exeEnd, old(g), g, reverted)
      ensures Stands(image, exeEnd, old(pt), Tally(old(g)), pt, Tally(g), {v})
      ensures Kept(image, exeEnd, old(Now()), Now(), reverted)
    {
      hide Told, Chain, Ordered, Resident, Unlisted, Frames, Slots, Kept, Rising, Latest, HeldIn, Later, Brings,
           Replaces, Stands, FirstTouch;
      reverted := {};
      KeptSame(image, exeEnd, Now());
      LaterStart(exeEnd, g);
      StandsSame(image, exeEnd, pt, Tally(g));
      StandsMore(image, exeEnd, pt, Tally(g), pt, Tally(g), v);
      if v >= MAXVPN {
        panicked := true;  // walk
        return;
      }
      if v in pt && pt[v].Swapped? {
        reverted := SwapIn(v);
      } else if v !in pt || pt[v].Present? {
        killed := true;
      } else {
        var ok;
        ok, reverted := VmFault(v);
        if !ok {
          killed := true;
        }
      }
    }

    /** The faults that do not kill the process */
    ghost predicate Served(v: nat)
      reads this
    {
      v in pt && (pt[v].Swapped? || (pt[v].Empty? && Valued(v)))
    }

    ghost function PermOf(v: nat): Perm
      reads this
    {
      PermAt(image, exeEnd, pt, v)
    }

    /** The access succeeds, after a fault if necessary. */
    ghost predicate Usable(v: nat, write: bool)
      reads this
    {
      UsableAt(image, exeEnd, sz, sp, pt, v, write)
    }

    /** The action is an access that may not be made. */
    ghost predicate Refused(a: Action)
      reads this
    {
      Accesses(a) && !Usable(a.vpn, a.Store?)
    }

    /** The hardware's check of the PTE */
    predicate Accessible(v: nat, write: bool)
      reads this
    {
      v in pt && pt[v].Present? && (if write then pt[v].perm.w else pt[v].perm.r)
    }

    /** What a page contains, as its user sees it */
    ghost function Sees(v: nat): Page
      reads this
    {
      Content(Now(), Fresh(image, exeEnd, v), v)
    }

    /** Fault until the access is possible; a second fault on the same page kills the process. */
    method Touch(v: nat, write: bool) returns (ok: bool, ghost reverted: set<nat>)
      requires Valid() && g.reserved == -1 && !killed && !panicked
      modifies this
      ensures sz == old(sz) && sp == old(sp)
      ensures ok <==> !killed && !panicked
      ensures Valid() && g.reserved == -1
      ensures g.owner.Keys == old(g.owner.Keys) && HeldIn(g.owner) == old(HeldIn(g.owner))
      ensures ok ==> Accessible(v, write) && pt[v].perm == old(PermOf(v))
      ensures ok && PteOf(old(pt), v).Empty? ==> FirstTouch(image, exeEnd, v, Sees(v), pt[v].perm)
      ensures v < MAXVPN && old(Roomy()) ==> !panicked && (ok <==> old(Usable(v, write)))
      ensures v < MAXVPN && old(Roomy()) ==> if ok then Roomy() else !Usable(v, write)
      ensures ok && !old(PteOf(pt, v)).Present? && |old(ram.free)| >= 2 ==>
                ram.free == old(ram.free)[2..] && Brings(old(pt), List(), old(g.fifo), v)
      ensures ok && !old(PteOf(pt, v)).Present? && old(ram.free) == [] ==>
                ram.free == [] && Replaces(exeEnd, old(List()), List(), v)
      ensures Later(exeEnd, old(g), g, reverted)
      ensures Stands(image, exeEnd, old(pt), Tally(old(g)), pt, Tally(g), {v})
      ensures Kept(image, exeEnd, old(Now()), Now(), reverted)
    {
      hide Told, Chain, Ordered, Resident, Unlisted, Frames, Slots, Kept, Rising, Latest, HeldIn, Later, Brings,
           Replaces, Stands, FirstTouch;
      reverted := {};
      KeptSame(image, exeEnd, Now());
      LaterStart(exeEnd, g);
      StandsSame(image, exeEnd, pt, Tally(g));
      StandsMore(image, exeEnd, pt, Tally(g), pt, Tally(g), v);
      if !Accessible(v, write) {
        ghost var s0, g0 := Now(), g;
        reverted := UserTrap(v);
        if killed || panicked {
          return false, reverted;
        }
        if !Accessible(v, write) {
          ghost var s1, g1, r1, r2 := Now(), g, reverted, {};
          r2 := UserTrap(v);
          LaterTrans(exeEnd, g0, g1, g, r1, r2);
          StandsTrans(image, exeEnd, s0.pt, Tally(g0), s1.pt, Tally(g1), pt, Tally(g), v);
          KeptTrans(image, exeEnd, s0, s1, Now(), r1, r2);
          return false, r1 + r2;
        }
      }
      ok := true;
    }

    /** A user load; `ok` is false if the process or the kernel stopped instead. */
    method DoLoad(v: nat, off: nat) returns (ok: bool, val: int, ghost reverted: set<nat>)
      requires Valid() && g.reserved == -1 && !killed && !panicked && off < PGSIZE
      modifies this
      ensures sz == old(sz) && sp == old(sp)
      ensures ok <==> !killed && !panicked
      ensures Valid() && g.reserved == -1
      ensures g.owner.Keys == old(g.owner.Keys) && HeldIn(g.owner) == old(HeldIn(g.owner))
      ensures ok ==> v in pt && pt[v].Present? && pt[v].perm == old(PermOf(v))
      ensures ok ==> |Sees(v)| == PGSIZE && val == Sees(v)[off] && pt[v].perm.r
      ensures ok && PteOf(old(pt), v).Empty? ==> if v * 4096 < exeEnd then v in image && |image[v].bytes| == 4096 &&
                                                    val == image[v].bytes[off] else val == 0
      ensures v < MAXVPN && old(Roomy()) ==> !panicked && (ok <==> old(Usable(v, false)))
      ensures old(Roomy()) && v in old(pt) && old(pt)[v].Empty? && exeEnd <= v * 4096 < old(sz) && v < MAXVPN ==> ok
      ensures v < MAXVPN && old(Roomy()) ==> if ok then Roomy() else !Usable(v, false)
      ensures ok && !old(PteOf(pt, v)).Present? && old(ram.free) == [] ==>
                ram.free == [] && Replaces(exeEnd, old(List()), List(), v)
      ensures Later(exeEnd, old(g), g, reverted)
      ensures Stands(image, exeEnd, old(pt), Tally(old(g)), pt, Tally(g), {v})
      ensures Kept(image, exeEnd, old(Now()), Now(), reverted)
    {
      hide Told, Chain, Ordered, Resident, Unlisted, Slots, Kept, Rising, Latest, HeldIn, Later, Brings, Replaces,
           Stands, FirstTouch;
      val := 0;
      ok, reverted := Touch(v, false);
      if ok {
        val := ram.mem[pt[v].frame][off];
        if PteOf(old(pt), v).Empty? {
          FirstByte(image, exeEnd, v, Sees(v), pt[v].perm, off);
        }
      }
    }

    /** The only resident page, at full memory */
    ghost predicate Alone(v: nat)
      reads this
    {
      ram.free == [] && |g.fifo| == 1 && IsNewest(rs.nodes, g.fifo, v) && PteOf(pt, v).Present?
    }

    /** A load that takes the memory of the only resident page, u: that page is discarded if it is
        a clean page of the executable, and its contents change only if something is lost. */
    method LoadInstead(u: nat, v: nat, off: nat) returns (val: int)
      requires Valid() && g.reserved == -1 && !killed && !panicked && off < PGSIZE && v < MAXVPN
      requires Alone(u) && u != v && !PteOf(pt, v).Present? && Usable(v, false)
      modifies this
      ensures Valid() && g.reserved == -1 && !killed && !panicked && sz == old(sz) && sp == old(sp)
      ensures Alone(v) && !pt[v].dirty && pt[v].perm == old(PermOf(v))
      ensures u in pt && !pt[u].Present? && pt == old(pt)[u := pt[u]][v := pt[v]]
      ensures pt[u].Swapped? <==> !Backed(exeEnd, old(pt), u) && old(CanSwap())
      ensures pt[u].Swapped? ==> pt[u].perm == old(pt)[u].perm
      ensures |Sees(v)| == PGSIZE && val == Sees(v)[off]
      ensures PteOf(old(pt), v).Empty? ==> Sees(v) == Fresh(image, exeEnd, v)
      ensures g.failures >= old(g.failures) && g.lost >= old(g.lost)
      ensures g.failures == old(g.failures) && g.lost == old(g.lost) ==> Kept(image, exeEnd, old(Now()), Now(), {})
    {
      hide Told, Chain, Ordered, Resident, Unlisted, Frames, Slots, Rising, Latest, HeldIn;
      var ok;
      ghost var reverted;
      ok, val, reverted := DoLoad(v, off);
    }

    method WriteByte(v: nat, off: nat, val: int)
      requires Valid() && v in pt && pt[v].Present? && off < PGSIZE
      modifies this`ram, this`pt
      ensures Valid() && pt == old(pt)[v := old(pt)[v].(dirty := true)] && ram.free == old(ram.free)
      ensures Stored(image, exeEnd, old(Now()), Now(), {}, v, off, val)
    {
      hide Told, Chain, Ordered, Slots, Rising, Latest;
      var f := pt[v].frame;
      WriteKept(image, exeEnd, g.owner, ram.free, pt, rs.nodes, ram.mem, swap.file, v, off, val);
      DirtyKeeps(swap.slots, g.slotOf, g.reserved, pt, swap.hasFile, swap.file, rs.nodes, g.fifo, v);
      ram := ram.(mem := ram.mem[f := ram.mem[f][off := val]]);
      pt := pt[v := pt[v].(dirty := true)];
    }

    /** A user store; the hardware sets the dirty bit. */
    method DoStore(v: nat, off: nat, val: int) returns (ok: bool, ghost reverted: set<nat>)
      requires Valid() && g.reserved == -1 && !killed && !panicked && off < PGSIZE
      modifies this
      ensures sz == old(sz) && sp == old(sp)
      ensures ok <==> !killed && !panicked
      ensures Valid() && g.reserved == -1
      ensures g.owner.Keys == old(g.owner.Keys) && HeldIn(g.owner) == old(HeldIn(g.owner))
      ensures v < MAXVPN && old(Roomy()) ==> !panicked && (ok <==> old(Usable(v, true)))
      ensures old(Roomy()) && v in old(pt) && old(pt)[v].Empty? && exeEnd <= v * 4096 < old(sz) && v < MAXVPN ==> ok
      ensures v < MAXVPN && old(Roomy()) ==> if ok then Roomy() else !Usable(v, true)
      ensures ok ==> v in pt && pt[v].Present? && pt[v].dirty && pt[v].perm == old(PermOf(v))
      ensures ok ==> pt[v].perm.w && |Sees(v)| > off && Sees(v)[off] == val
      ensures ok && !old(PteOf(pt, v)).Present? && |old(ram.free)| >= 2 ==>
                && ram.free == old(ram.free)[2..] && pt == old(pt)[v := pt[v]]
                && |g.fifo| == |old(g.fifo)| + 1 && IsNewest(rs.nodes, g.fifo, v)
      ensures Later(exeEnd, old(g), g, reverted)
      ensures Stands(image, exeEnd, old(pt), Tally(old(g)), pt, Tally(g), {v})
      ensures ok ==> Stored(image, exeEnd, old(Now()), Now(), reverted, v, off, val)
    {
      hide Told, Chain, Ordered, Resident, Unlisted, Frames, Slots, Kept, Stored, Rising, Latest, HeldIn, Later, Stands;
      ghost var s0, g0 := Now(), g;
      ok, reverted := Touch(v, true);
      if ok {
        ghost var s1 := Now();
        WriteByte(v, off, val);
        MapStands(image, exeEnd, s1.pt, Tally(g), v, pt[v]);
        StandsTrans(image, exeEnd, s0.pt, Tally(g0), s1.pt, Tally(g), pt, Tally(g), v);
        StoredAfter(image, exeEnd, s0, s1, Now(), reverted, v, off, val);
        StoredByte(image, exeEnd, s0, Now(), reverted, v, off, val);
      }
    }

    /**
     Paging is invisible.  Run user code: loads, stores, growth of the heap, moves of the stack
     pointer, with whatever faults and evictions they cause.  If no swap-out failed, every load
     from a page at or above the end of the executable returned the value last stored there, or
     else the value at the start; and so did every other load, if no clean page was discarded
     that was not as in the executable.  No swap-out fails if the file system gives good answers and
     the process has no more pages than there are usable slots; each failure has one of these causes.
     Frames are conserved and none is left in hand, the victims come in the order of their faults,
     and the invariant holds, however the run ends.
     Given memory for one page the kernel does not panic.  The process is killed only for an access
     that it may not make; and if no swap-out failed, which accesses those are does not depend on
     what was evicted: the run goes on exactly as far as the accesses are legal.
     */
    method Execute(actions: seq<Action>) returns (outs: seq<int>)
      requires Valid() && g.reserved == -1 && !killed && !panicked
      requires forall i :: 0 <= i < |actions| ==> InPage(actions[i])
      modifies this
      ensures |outs| <= |actions| && (|outs| < |actions| <==> killed || panicked)
      ensures Valid() && g.reserved == -1
      ensures g.owner.Keys == old(g.owner.Keys) && HeldIn(g.owner) == old(HeldIn(g.owner))
      ensures old(g.victims) <= g.victims && Rising(g.victims)
      ensures old(Supported(actions)) ==> Undisturbed(old(g), g)
      ensures Heeds(old(g), g)
      ensures g.full != old(g.full) ==> |Pages(old(pt), actions)| > USABLE_SLOTS
      ensures Undisturbed(old(g), g) ==> AllRight(image, exeEnd, false, old(Now()), actions, outs)
      ensures Undisturbed(old(g), g) && g.lost == old(g.lost) ==>
                AllRight(image, exeEnd, true, old(Now()), actions, outs)
      ensures Undisturbed(old(g), g) ==>
                forall i :: 0 <= i < |outs| && actions[i].Load? && actions[i].vpn * 4096 >= exeEnd &&
                            PteOf(old(pt), actions[i].vpn).Empty? ==>
                              outs[i] == LastStored(actions[..i], actions[i].vpn, actions[i].off, 0)
      ensures Undisturbed(old(g), g) && g.lost == old(g.lost) ==>
                forall i :: 0 <= i < |outs| && actions[i].Load? && actions[i].vpn * 4096 < exeEnd &&
                            actions[i].vpn in image && PteOf(old(pt), actions[i].vpn).Empty? ==>
                              && actions[i].off < |image[actions[i].vpn].bytes|
                              && outs[i] == LastStored(actions[..i], actions[i].vpn, actions[i].off,
                                                       image[actions[i].vpn].bytes[actions[i].off])
      ensures old(Roomy()) && PagesExist(actions) ==>
                && !panicked && (killed ==> Refused(actions[|outs|]))
                && (Undisturbed(old(g), g) && old(Regular(image, exeEnd, pt)) ==>
                      AsFarAsLegal(Start(image, exeEnd, old(pt), old(sz), old(sp)), actions, |outs|))
    {
      hide Told, Chain, Ordered, Resident, Unlisted, Frames, Slots, Remembers, Right, AllRight, Rising, Latest, HeldIn,
           Regular, Heeds, Stands, Lawful, Pages, Had, AsFarAsLegal, UsableAt, Carries;
      outs := [];
      ghost var first, g0, t0 := Now(), g, swap.tries;
      HeedsSame(g);
      ghost var s, roomy := Start(image, exeEnd, pt, sz, sp), Roomy() && PagesExist(actions);
      LawfulStart(s, roomy, Tally(g), actions);
      FirstRemembers(false);
      FirstRemembers(true);
      assert actions[..0] == [];
      NothingLoaded(image, exeEnd, first, actions);
      while |outs| < |actions|
        invariant Valid() && g.reserved == -1 && !killed && !panicked && |outs| <= |actions|
        invariant g.owner.Keys == g0.owner.Keys && HeldIn(g.owner) == HeldIn(g0.owner) && g0.victims <= g.victims
        invariant Faithful(image, exeEnd, false, first, g0, Now(), g, actions, outs)
        invariant Faithful(image, exeEnd, true, first, g0, Now(), g, actions, outs)
        invariant Heeds(g0, g)
        invariant Lawful(s, roomy, Tally(g0), Tally(g), pt, sz, sp, actions, |outs|) && (roomy ==> Roomy())
        decreases |actions| - |outs|
      {
        ghost var s1, g1, z, q := Now(), g, sz, sp;
        var ok, out := Perform(actions[|outs|], first, actions[..|outs|]);
        if !ok {
          LawfulStop(s, roomy, Tally(g0), Tally(g1), s1.pt, z, q, Tally(g), pt, actions, |outs|);
          HeedsTrans(g0, g1, g);
          CauseHeard(g0, t0, g, swap.tries, answers);
          ZerosFirst(image, exeEnd, first, actions, outs);
          ImageFirst(image, exeEnd, first, actions, outs);
          return;
        }
        HeedsTrans(g0, g1, g);
        LawfulNext(s, roomy, Tally(g0), Tally(g1), s1.pt, z, q, Tally(g), pt, sz, sp, actions, |outs|);
        FaithfulNext(image, exeEnd, false, first, g0, s1, g1, Now(), g, actions, outs, out);
        FaithfulNext(image, exeEnd, true, first, g0, s1, g1, Now(), g, actions, outs, out);
        outs := outs + [out];
      }
      LawfulEnd(s, roomy, Tally(g0), Tally(g), pt, sz, sp, actions);
      CauseHeard(g0, t0, g, swap.tries, answers);
      ZerosFirst(image, exeEnd, first, actions, outs);
      ImageFirst(image, exeEnd, first, actions, outs);
    }

    /** The file system will give good answers, and the process will have no more pages than there are
        usable slots. */
    ghost predicate Supported(actions: seq<Action>)
      reads this
    {
      (forall t :: t >= swap.tries ==> Good(answers(t))) && |Pages(pt, actions)| <= USABLE_SLOTS
    }

    /** All pages are whole, so at the start everything is as it was. */
    lemma FirstRemembers(all: bool)
      requires Valid()
      ensures forall v :: |Sees(v)| == PGSIZE
      ensures Remembers(image, exeEnd, all, Now(), Now(), [])
    {
      hide Told, Chain, Ordered, Resident, Rising, Latest;
      forall v: nat ensures |Sees(v)| == PGSIZE {
      }
      forall v: nat, off: nat | Watched(exeEnd, all, v) && off < PGSIZE
        ensures RemembersByte(Now(), Now(), Fresh(image, exeEnd, v), [], v, off)
      {
        assert |Sees(v)| == PGSIZE;
      }
    }

    /** One action of the user */
    method Perform(a: Action, ghost first: Places, ghost done: seq<Action>) returns (ok: bool, out: int)
      requires Valid() && g.reserved == -1 && !killed && !panicked && InPage(a)
      modifies this
      ensures ok <==> !killed && !panicked
      ensures Valid() && g.reserved == -1
      ensures g.owner.Keys == old(g.owner.Keys) && HeldIn(g.owner) == old(HeldIn(g.owner))
      ensures g.failures >= old(g.failures) && g.lost >= old(g.lost) && old(g.victims) <= g.victims
      ensures Heeds(old(g), g)
      ensures sz == old(sz) + (if a.Grow? then a.n else 0) && sp == (if a.Move? then a.sp else old(sp))
      ensures Stands(image, exeEnd, old(pt), Tally(old(g)), pt, Tally(g), if Accesses(a) then {a.vpn} else {})
      ensures ok && Accesses(a) ==> PteOf(pt, a.vpn).Present?
      ensures old(Roomy()) && (Accesses(a) ==> a.vpn < MAXVPN) ==>
                && !panicked && (ok <==> (Accesses(a) ==> old(Usable(a.vpn, a.Store?))))
                && (if ok then Roomy() else Refused(a))
      ensures ok ==> Carries(image, exeEnd, false, first, old(Now()), old(g), Now(), g, done, a, out)
      ensures ok ==> Carries(image, exeEnd, true, first, old(Now()), old(g), Now(), g, done, a, out)
    {
      hide Told, Chain, Ordered, Resident, Unlisted, Frames, Slots, Kept, Stored, Rising, Latest, HeldIn, Carries,
           Stands, UsableAt;
      ghost var s0, g0, reverted := Now(), g, {};
      out := 0;
      HeedsSame(g);
      StandsSame(image, exeEnd, pt, Tally(g));
      match a {
        case Load(v, off) =>
          ok, out, reverted := DoLoad(v, off);
        case Store(v, off, val) =>
          ok, reverted := DoStore(v, off, val);
        case Grow(n) =>
          sz := sz + n;
          ok := true;
        case Move(p) =>
          sp := p;
          ok := true;
      }
      if ok {
        KeptSame(image, exeEnd, s0);
        if a.Store? {
          StoreCarries(image, exeEnd, false, first, s0, g0, Now(), g, reverted, done, a, out);
          StoreCarries(image, exeEnd, true, first, s0, g0, Now(), g, reverted, done, a, out);
        } else {
          KeptCarries(image, exeEnd, false, first, s0, g0, Now(), g, reverted, done, a, out);
          KeptCarries(image, exeEnd, true, first, s0, g0, Now(), g, reverted, done, a, out);
        }
      }
    }
  }

  lemma NothingLoaded(image: Image, exeEnd: nat, first: Places, actions: seq<Action>)
    ensures AllRight(image, exeEnd, false, first, actions, []) && AllRight(image, exeEnd, true, first, actions, [])
  {
  }

  /**
   Stores to data pages can be lost: swapping a page back in clears its dirty bit, and then the
   next eviction discards it.  After exec, with memory for one page: store to a data page; touch
   a heap page, which evicts the data page to its slot; load the data page, which brings it back;
   touch the heap page again, which discards the data page; and the load after that returns what
   the executable has there.  If no swap-out failed, the load before returned the stored value.
   */
  method ForgetsDataPage(image: Image, exeEnd: nat, sz: nat, sp: nat, free: seq<nat>, mem: Memory, pt: Ptes,
                         ghost owner: Owners, answers: nat -> Answer, u: nat, v: nat, off: nat, val: int)
      returns (seen: int, later: int, ghost book: Book)
    requires Frames(owner, free, pt, map[], mem) && |free| == 2
    requires forall w :: w in pt ==> !pt[w].Swapped?
    requires forall w :: w in image ==> |image[w].bytes| == PGSIZE
    requires u in pt && v in pt && pt[u].Empty? && pt[v].Empty? && u < MAXVPN && v < MAXVPN && off < PGSIZE
    requires v * PGSIZE < exeEnd <= u * PGSIZE < sz && v in image && image[v].perm.r && image[v].perm.w
    requires image[v].bytes[off] != val
    ensures later == image[v].bytes[off] != val
    ensures book.failures == 0 && book.lost == 0 ==> seen == val
  {
    hide Told, Chain, Ordered, Resident, Unlisted, Frames, Slots, Rising, Latest, HeldIn;
    var p := new Pager(image, exeEnd, sz, sp, free, mem, pt, 0, owner, answers);
    var ok, out;
    ghost var reverted;
    ok, reverted := p.DoStore(v, off, val);
    out := p.LoadInstead(v, u, 0);
    seen := p.LoadInstead(u, v, off);
    book := p.g;
    out := p.LoadInstead(v, u, 0);
    later := p.LoadInstead(u, v, off);
  }

  /** A concrete process for which the store of 7 is lost: one data page, one heap page, two frames */
  method ForgetsExample() returns (later: int)
    ensures later == 0
  {
    var image := map[0 := ExecPage(Filled(0), Perm(true, true, false))];
    var seen;
    ghost var book;
    seen, later, book := ForgetsDataPage(image, PGSIZE, 2 * PGSIZE, 0, [1, 2], map[1 := Filled(0), 2 := Filled(0)],
                                         map[0 := Empty, 1 := Empty], map[1 := Free, 2 := Free],
                                         _ => Answer(true, [], PGSIZE), 1, 0, 0, 7);
  }
}
