/**
 The three-level page table of kernel/vm.c: `walk`, `mappages`, `uvmunmap`, `freewalk`,
 `uvmfree` (the Sv39 scheme, section 4.4 of the RISC-V Privileged Architecture v1.12).

 A page-table page is 512 words.  Frames are named by their page number.  The ghosts `at`
 and `node` say which page-table page stands at which node of the radix tree; `PteAt` reads
 the whole tree as a map from virtual page numbers to words.
 */
module Sv39 {
  import opened Params

  const ENTRIES := 512

  // ----- Page table entries -----

  predicate V(w: int) {
    w % 2 == 1
  }

  function Rwx(w: int): int {
    w / 2 % 8
  }

  predicate OnSwap(w: int) {
    w / 0x100 % 2 == 1 && !V(w)
  }

  /** The frame of a valid word, or the swap slot of a swapped one */
  function Ppn(w: int): int {
    w / 0x400
  }

  /** PA2PTE(pa) | perm | PTE_V */
  function MakePte(ppn: int, perm: int): int {
    ppn * 0x400 + perm + (if V(perm) then 0 else 1)
  }

  lemma MakePteMeaning(ppn: int, perm: int)
    requires 0 <= perm < 0x400
    ensures V(MakePte(ppn, perm)) && Ppn(MakePte(ppn, perm)) == ppn && Rwx(MakePte(ppn, perm)) == Rwx(perm)
    ensures var w := MakePte(ppn, perm); w % 2 == 1 && w % 0x400 / 2 == perm / 2 && w / 0x400 == ppn
  {
    var p := 2 * (perm / 2) + 1;
    var w := MakePte(ppn, perm);
    Fields(ppn, p);
    assert w == 0x400 * ppn + p;
  }

  /** The fields of a word with low ten bits p */
  lemma Fields(ppn: int, p: int)
    requires 0 <= p < 0x400
    ensures var w := 0x400 * ppn + p;
            w / 0x400 == ppn && w % 0x400 == p && w % 2 == p % 2 && w / 2 % 8 == p / 2 % 8 &&
            w / 0x100 % 2 == p / 0x100 % 2
  {
    var w := 0x400 * ppn + p;
    assert w == 2 * (0x200 * ppn + p / 2) + p % 2;
    assert w / 2 == 8 * (0x40 * ppn + p / 16) + p / 2 % 8;
    assert w / 0x100 == 2 * (2 * ppn + p / 0x200) + p / 0x100 % 2;
  }

  /** A swapped page's word, SLOT_PTE(slot) | perms | PTE_S: bit 8 marks it, and it is not valid. */
  lemma SwapWordMeaning(slot: nat, perm: nat)
    requires perm < 0x100 && perm % 2 == 0
    ensures OnSwap(slot * 0x400 + 0x100 + perm) && Ppn(slot * 0x400 + 0x100 + perm) == slot
    ensures Rwx(slot * 0x400 + 0x100 + perm) == Rwx(perm)
  {
    Fields(slot, 0x100 + perm);
    assert (0x100 + perm) / 2 % 8 == perm / 2 % 8 by { assert (0x100 + perm) / 2 == 8 * 0x10 + perm / 2; }
  }

  // ----- The radix tree -----

  /** A node: level 2 is the root, level 0 holds the leaf words.  The prefix is the virtual
      page number without the indices used at and below the level. */
  datatype Node = Node(level: int, prefix: int)

  function Child(n: Node, i: int): Node {
    Node(n.level - 1, ENTRIES * n.prefix + i)
  }

  function Parent(n: Node): Node {
    Node(n.level + 1, n.prefix / ENTRIES)
  }

  function NodeOf(level: int, vpn: int): Node {
    Node(level, if level == 0 then vpn / 0x200 else if level == 1 then vpn / 0x4_0000 else vpn / 0x800_0000)
  }

  /** PX(level, va) */
  function Index(level: int, va: int): int {
    (if level == 0 then va / 0x1000 else if level == 1 then va / 0x20_0000 else va / 0x4000_0000) % ENTRIES
  }

  lemma IndexMeaning(va: nat)
    requires va < MAXVA
    ensures NodeOf(2, va / PGSIZE) == Node(2, 0)
    ensures Child(NodeOf(2, va / PGSIZE), Index(2, va)) == NodeOf(1, va / PGSIZE)
    ensures Child(NodeOf(1, va / PGSIZE), Index(1, va)) == NodeOf(0, va / PGSIZE)
    ensures Index(0, va) == va / PGSIZE % ENTRIES
  {
    assert va / 0x20_0000 == va / PGSIZE / 0x200;
    assert va / 0x4000_0000 == va / PGSIZE / 0x4_0000;
    assert va / PGSIZE / 0x4_0000 == va / PGSIZE / 0x200 / 0x200;
  }

  type Tables = map<int, seq<int>>
  type Places = map<Node, int>
  type NodeMap = map<int, Node>

  ghost predicate Nodes(tables: Tables, root: int, at: Places, node: NodeMap) {
    && Node(2, 0) in at && at[Node(2, 0)] == root
    && (forall n :: n in at ==> 0 <= n.level <= 2 && (n.level == 2 ==> n == Node(2, 0)))
    && (forall n :: n in at ==> at[n] in tables && |tables[at[n]]| == ENTRIES && at[n] in node && node[at[n]] == n)
    && (forall t :: t in tables ==> |tables[t]| == ENTRIES && t in node && node[t] in at && at[node[t]] == t)
  }

  /** An inner word is either not valid or names the table of the child node. */
  predicate DownAt(tables: Tables, at: Places, t: int, n: Node, i: int) {
    t in tables && 0 <= i < |tables[t]| &&
    (V(tables[t][i]) ==> Child(n, i) in at && Ppn(tables[t][i]) == at[Child(n, i)] && Rwx(tables[t][i]) == 0)
  }

  ghost predicate Down(tables: Tables, at: Places) {
    forall n, i :: n in at && n.level > 0 && 0 <= i < ENTRIES ==> DownAt(tables, at, at[n], n, i)
  }

  predicate UpAt(tables: Tables, at: Places, n: Node) {
    Parent(n) in at && at[Parent(n)] in tables && |tables[at[Parent(n)]]| == ENTRIES
    && V(tables[at[Parent(n)]][n.prefix % ENTRIES])
  }

  /** Every table but the root is named by its parent. */
  ghost predicate Up(tables: Tables, at: Places) {
    forall n :: n in at && n.level < 2 ==> UpAt(tables, at, n)
  }

  ghost predicate Tree(tables: Tables, root: int, at: Places, node: NodeMap) {
    Nodes(tables, root, at, node) && Down(tables, at) && Up(tables, at)
  }

  /** The word for a virtual page; 0 if there is no leaf table for it. */
  ghost function PteAt(tables: Tables, at: Places, vpn: int): int {
    var n := NodeOf(0, vpn);
    if n in at && at[n] in tables && |tables[at[n]]| == ENTRIES then tables[at[n]][vpn % ENTRIES] else 0
  }

  // ----- What the hardware reads -----

  function WordIn(tables: Tables, t: int, i: int): int {
    if t in tables && 0 <= i < |tables[t]| then tables[t][i] else 0
  }

  /** Translation of a virtual address, section 4.3.2 of the RISC-V Privileged Architecture: three tables
      indexed by bits 30-38, 21-29 and 12-20; bits 10 and up of a word name the next one.  The result is
      the leaf word, or 0 if a word on the way is not valid. */
  function HardwareWord(tables: Tables, root: int, va: nat): int {
    var w2 := WordIn(tables, root, va / 0x4000_0000 % 512);
    if w2 % 2 == 0 then 0
    else
      var w1 := WordIn(tables, w2 / 0x400, va / 0x20_0000 % 512);
      if w1 % 2 == 0 then 0 else WordIn(tables, w1 / 0x400, va / 0x1000 % 512)
  }

  /** The tree is the map it is meant to be, over the whole Sv39 space. */
  lemma HardwareReads(tables: Tables, root: int, at: Places, node: NodeMap, va: nat)
    requires Tree(tables, root, at, node) && va < 0x80_0000_0000
    ensures HardwareWord(tables, root, va) == PteAt(tables, at, va / PGSIZE)
  {
    var vpn := va / PGSIZE;
    var n2, n1, n0 := NodeOf(2, vpn), NodeOf(1, vpn), NodeOf(0, vpn);
    var i2, i1 := vpn / 0x4_0000, vpn / 0x200 % 0x200;
    IndicesOf(va);
    NoChild(tables, root, at, node, n2, i2);
    hide Down;
    if n1 in at {
      NoChild(tables, root, at, node, n1, i1);
    } else if n0 in at {
      assert false;
    }
  }

  lemma IndicesOf(va: nat)
    requires va < 0x80_0000_0000
    ensures var vpn := va / PGSIZE;
            && NodeOf(2, vpn) == Node(2, 0)
            && va / 0x4000_0000 % 512 == vpn / 0x4_0000 && va / 0x20_0000 % 512 == vpn / 0x200 % 0x200
            && va / 0x1000 % 512 == vpn % 0x200
            && NodeOf(1, vpn) == Child(NodeOf(2, vpn), vpn / 0x4_0000)
            && NodeOf(0, vpn) == Child(NodeOf(1, vpn), vpn / 0x200 % 0x200)
            && 0 <= vpn / 0x4_0000 < 512
  {
    assert va / 0x20_0000 == va / PGSIZE / 0x200;
    assert va / 0x4000_0000 == va / PGSIZE / 0x4_0000;
    assert va / PGSIZE / 0x4_0000 == va / PGSIZE / 0x200 / 0x200;
  }

  /** No word outside the Sv39 space is set. */
  lemma InSpace(tables: Tables, root: int, at: Places, node: NodeMap, vpn: int)
    requires Tree(tables, root, at, node) && PteAt(tables, at, vpn) != 0
    ensures 0 <= vpn < 0x800_0000
  {
    var n := NodeOf(0, vpn);
    assert UpAt(tables, at, n);
    assert UpAt(tables, at, Parent(n));
  }

  // ----- A new table -----

  function ZeroPage(): seq<int> {
    seq(ENTRIES, _ => 0)
  }

  function WithTable(tables: Tables, t: int, i: int, t': int): Tables
    requires t in tables && 0 <= i < |tables[t]|
  {
    tables[t' := ZeroPage()][t := tables[t][i := MakePte(t', 0)]]
  }

  lemma NewNodes(tables: Tables, root: int, at: Places, node: NodeMap, n: Node, i: int, t': int)
    requires Nodes(tables, root, at, node) && n in at && n.level > 0 && 0 <= i < ENTRIES && t' !in tables
    requires Child(n, i) !in at
    ensures Nodes(WithTable(tables, at[n], i, t'), root, at[Child(n, i) := t'], node[t' := Child(n, i)])
  {
  }

  lemma NewDown(tables: Tables, root: int, at: Places, node: NodeMap, n: Node, i: int, t': int)
    requires Nodes(tables, root, at, node) && n in at && n.level > 0 && 0 <= i < ENTRIES && t' !in tables
    requires Child(n, i) !in at && Down(tables, at)
    ensures Down(WithTable(tables, at[n], i, t'), at[Child(n, i) := t'])
  {
    var tables', at' := WithTable(tables, at[n], i, t'), at[Child(n, i) := t'];
    MakePteMeaning(t', 0);
    forall m, j | m in at' && m.level > 0 && 0 <= j < ENTRIES ensures DownAt(tables', at', at'[m], m, j) {
      if m in at {
        assert DownAt(tables, at, at[m], m, j);
        assert node[at[m]] == m;
      }
    }
  }

  lemma NewUp(tables: Tables, root: int, at: Places, node: NodeMap, n: Node, i: int, t': int)
    requires Nodes(tables, root, at, node) && n in at && n.level > 0 && 0 <= i < ENTRIES && t' !in tables
    requires Child(n, i) !in at && Up(tables, at)
    ensures Up(WithTable(tables, at[n], i, t'), at[Child(n, i) := t'])
  {
    var tables', at' := WithTable(tables, at[n], i, t'), at[Child(n, i) := t'];
    MakePteMeaning(t', 0);
    forall m | m in at' && m.level < 2 ensures UpAt(tables', at', m) {
      if m in at {
        assert UpAt(tables, at, m);
      } else {
        assert Parent(m) == n;
      }
    }
  }

  /** An inner word that is not valid has no child table. */
  lemma NoChild(tables: Tables, root: int, at: Places, node: NodeMap, n: Node, i: int)
    requires Tree(tables, root, at, node) && n in at && n.level > 0 && 0 <= i < ENTRIES
    ensures V(tables[at[n]][i]) <==> Child(n, i) in at
    ensures V(tables[at[n]][i]) ==> at[Child(n, i)] == Ppn(tables[at[n]][i]) && Rwx(tables[at[n]][i]) == 0
  {
    assert DownAt(tables, at, at[n], n, i);
    if Child(n, i) in at {
      assert UpAt(tables, at, Child(n, i));
      assert Parent(Child(n, i)) == n;
    }
  }

  /** Adding an empty table leaves the tree well formed and every translation as it was. */
  lemma NewTable(tables: Tables, root: int, at: Places, node: NodeMap, n: Node, i: int, t': int)
    requires Tree(tables, root, at, node) && n in at && n.level > 0 && 0 <= i < ENTRIES && t' !in tables
    requires !V(tables[at[n]][i])
    ensures var tables', at' := WithTable(tables, at[n], i, t'), at[Child(n, i) := t'];
            && Tree(tables', root, at', node[t' := Child(n, i)])
            && forall vpn :: PteAt(tables', at', vpn) == PteAt(tables, at, vpn)
  {
    NoChild(tables, root, at, node, n, i);
    NewNodes(tables, root, at, node, n, i, t');
    NewDown(tables, root, at, node, n, i, t');
    NewUp(tables, root, at, node, n, i, t');
    hide Down, Up;
    var tables', at' := WithTable(tables, at[n], i, t'), at[Child(n, i) := t'];
    forall vpn ensures PteAt(tables', at', vpn) == PteAt(tables, at, vpn) {
      var m := NodeOf(0, vpn);
      if m in at {
        assert node[at[m]] == m;
      }
    }
  }

  // ----- Changing a leaf word -----

  function WithWord(tables: Tables, t: int, i: int, w: int): Tables
    requires t in tables && 0 <= i < |tables[t]|
  {
    tables[t := tables[t][i := w]]
  }

  /** Two pages never share a word. */
  lemma SlotsDistinct(tables: Tables, root: int, at: Places, node: NodeMap, vpn: int, vpn': int)
    requires Nodes(tables, root, at, node) && vpn != vpn'
    requires NodeOf(0, vpn) in at && NodeOf(0, vpn') in at
    ensures at[NodeOf(0, vpn)] != at[NodeOf(0, vpn')] || vpn % ENTRIES != vpn' % ENTRIES
  {
    assert node[at[NodeOf(0, vpn)]] == NodeOf(0, vpn) && node[at[NodeOf(0, vpn')]] == NodeOf(0, vpn');
  }

  lemma WordSet(tables: Tables, root: int, at: Places, node: NodeMap, vpn: int, w: int)
    requires Tree(tables, root, at, node) && NodeOf(0, vpn) in at
    ensures var t := at[NodeOf(0, vpn)];
            && t in tables && |tables[t]| == ENTRIES
            && var tables' := WithWord(tables, t, vpn % ENTRIES, w);
            && Tree(tables', root, at, node)
            && forall p :: PteAt(tables', at, p) == if p == vpn then w else PteAt(tables, at, p)
  {
    var t := at[NodeOf(0, vpn)];
    var tables' := WithWord(tables, t, vpn % ENTRIES, w);
    forall p ensures PteAt(tables', at, p) == if p == vpn then w else PteAt(tables, at, p) {
      if p != vpn && NodeOf(0, p) in at {
        SlotsDistinct(tables, root, at, node, vpn, p);
      }
    }
    forall n, i | n in at && n.level > 0 && 0 <= i < ENTRIES ensures DownAt(tables', at, at[n], n, i) {
      assert DownAt(tables, at, at[n], n, i);
      assert node[at[n]] == n && node[t] == NodeOf(0, vpn);
    }
    forall n | n in at && n.level < 2 ensures UpAt(tables', at, n) {
      assert UpAt(tables, at, n);
      assert node[at[Parent(n)]] == Parent(n);
    }
  }

  /** A leaf table has its inner tables above it. */
  lemma InnerAbove(tables: Tables, root: int, at: Places, node: NodeMap, vpn: int)
    requires Tree(tables, root, at, node)
    ensures NodeOf(0, vpn) in at ==> NodeOf(1, vpn) in at
  {
    assert vpn / 0x200 / 0x200 == vpn / 0x4_0000;
    if NodeOf(0, vpn) in at {
      assert UpAt(tables, at, NodeOf(0, vpn));
    }
  }

  /** The word walk finds is the one the tree assigns to the page. */
  lemma LeafWord(tables: Tables, root: int, at: Places, node: NodeMap, va: nat)
    requires Tree(tables, root, at, node) && va < MAXVA && NodeOf(0, va / PGSIZE) in at
    ensures var t := at[NodeOf(0, va / PGSIZE)];
            t in tables && |tables[t]| == ENTRIES && 0 <= Index(0, va) < ENTRIES
            && tables[t][Index(0, va)] == PteAt(tables, at, va / PGSIZE)
  {
    IndexMeaning(va);
  }

  lemma NoTable(tables: Tables, at: Places, vpn: int)
    requires NodeOf(0, vpn) !in at
    ensures PteAt(tables, at, vpn) == 0
  {
  }

  lemma Aligned(v: nat, pa: nat, n: nat)
    ensures v * PGSIZE / PGSIZE == v && (pa + n * PGSIZE) / PGSIZE == pa / PGSIZE + n
  {
  }

  function FrameOf(w: int): seq<int> {
    if V(w) then [Ppn(w)] else []
  }

  function SlotOf(w: int): seq<int> {
    if OnSwap(w) then [Ppn(w)] else []
  }

  /** The frames mapped by n pages from v on, in order */
  ghost function FramesIn(tables: Tables, at: Places, v: int, n: nat): seq<int> {
    if n == 0 then [] else FramesIn(tables, at, v, n - 1) + FrameOf(PteAt(tables, at, v + n - 1))
  }

  /** The swap slots named by n pages from v on, in order */
  ghost function SlotsIn(tables: Tables, at: Places, v: int, n: nat): seq<int> {
    if n == 0 then [] else SlotsIn(tables, at, v, n - 1) + SlotOf(PteAt(tables, at, v + n - 1))
  }

  /** The frames of the valid words in a range, and the slots of those that are swapped out */
  lemma {:induction false} HandedOver(tables: Tables, at: Places, v: int, n: nat, x: int)
    ensures x in FramesIn(tables, at, v, n) <==>
              exists vpn :: v <= vpn < v + n && PteAt(tables, at, vpn) % 2 == 1 && PteAt(tables, at, vpn) / 0x400 == x
    ensures x in SlotsIn(tables, at, v, n) <==>
              exists vpn :: v <= vpn < v + n && PteAt(tables, at, vpn) % 2 == 0
                            && PteAt(tables, at, vpn) / 0x100 % 2 == 1 && PteAt(tables, at, vpn) / 0x400 == x
    decreases n
  {
    hide PteAt;
    if n > 0 {
      HandedOver(tables, at, v, n - 1, x);
      var w := PteAt(tables, at, v + n - 1);
      assert x in SlotOf(w) <==> w % 2 == 0 && w / 0x100 % 2 == 1 && w / 0x400 == x;
      assert x in FramesIn(tables, at, v, n) <==> x in FramesIn(tables, at, v, n - 1) || (w % 2 == 1 && w / 0x400 == x);
    }
  }

  lemma NothingIn(tables: Tables, at: Places, v: int)
    ensures FramesIn(tables, at, v, 0) == [] && SlotsIn(tables, at, v, 0) == []
  {
  }

  // ----- Freeing the tree -----

  function Shrink(p: int, k: int): int {
    if k <= 0 then p else if k == 1 then p / ENTRIES else p / ENTRIES / ENTRIES
  }

  /** Node m is n or lies below it. */
  predicate Under(n: Node, m: Node) {
    0 <= m.level <= n.level <= 2 && Shrink(m.prefix, n.level - m.level) == n.prefix
  }

  /** The index at n that leads to m */
  function Branch(n: Node, m: Node): int {
    Shrink(m.prefix, n.level - 1 - m.level) % ENTRIES
  }

  lemma UnderChild(n: Node, m: Node, i: int)
    requires 0 < n.level <= 2 && 0 <= i < ENTRIES
    ensures Under(Child(n, i), m) <==> Under(n, m) && m.level < n.level && Branch(n, m) == i
  {
  }

  ghost function TablesUnder(orig: Tables, node: NodeMap, n: Node): set<int> {
    set t | t in orig && t in node && Under(n, node[t])
  }

  /** The tables below the first i words of n */
  ghost function TablesBelow(orig: Tables, node: NodeMap, n: Node, i: int): set<int> {
    set t | t in orig && t in node && Under(n, node[t]) && node[t].level < n.level && Branch(n, node[t]) < i
  }

  lemma BelowNext(orig: Tables, node: NodeMap, n: Node, i: int)
    requires 0 < n.level <= 2 && 0 <= i < ENTRIES
    ensures TablesBelow(orig, node, n, i + 1) == TablesBelow(orig, node, n, i) + TablesUnder(orig, node, Child(n, i))
    ensures TablesBelow(orig, node, n, i) !! TablesUnder(orig, node, Child(n, i))
  {
    forall t | t in orig && t in node
      ensures Under(Child(n, i), node[t]) <==> Under(n, node[t]) && node[t].level < n.level && Branch(n, node[t]) == i {
      UnderChild(n, node[t], i);
    }
  }

  lemma BelowAll(orig: Tables, root: int, at: Places, node: NodeMap, n: Node)
    requires Nodes(orig, root, at, node) && n in at
    ensures TablesUnder(orig, node, n) == TablesBelow(orig, node, n, ENTRIES) + {at[n]}
    ensures at[n] !in TablesBelow(orig, node, n, ENTRIES) && TablesBelow(orig, node, n, 0) == {}
  {
    forall t | t in orig && t in node && Under(n, node[t])
      ensures t == at[n] || t in TablesBelow(orig, node, n, ENTRIES)
    {
    }
    forall t ensures t !in TablesBelow(orig, node, n, 0) {
    }
  }

  /** Nothing lies below a node that has no table. */
  lemma TableAbove(orig: Tables, root: int, at: Places, node: NodeMap, n: Node)
    requires Tree(orig, root, at, node) && 0 <= n.level < 2
    ensures TablesUnder(orig, node, n) == {} || n in at
    ensures forall vpn :: Under(n, NodeOf(0, vpn)) && V(PteAt(orig, at, vpn)) ==> n in at
  {
    forall m | m in at && Under(n, m) ensures n in at {
      if m != n {
        assert UpAt(orig, at, m);
      }
    }
    forall t | t in TablesUnder(orig, node, n) ensures n in at {
      assert node[t] in at;
    }
  }

  /** Leaf words are told from table words by their permissions. */
  ghost predicate LeavesMarked(tables: Tables, at: Places) {
    forall vpn :: V(PteAt(tables, at, vpn)) ==> Rwx(PteAt(tables, at, vpn)) != 0
  }

  /** A page is mapped below the node, with a permission or without. */
  ghost predicate LeafUnder(tables: Tables, at: Places, n: Node, marked: bool) {
    exists vpn ::
      Under(n, NodeOf(0, vpn)) && V(PteAt(tables, at, vpn)) && (Rwx(PteAt(tables, at, vpn)) != 0 <==> marked)
  }

  lemma LeafUnderChild(tables: Tables, at: Places, n: Node, i: int, marked: bool)
    requires 0 < n.level <= 2 && 0 <= i < ENTRIES && LeafUnder(tables, at, Child(n, i), marked)
    ensures LeafUnder(tables, at, n, marked)
  {
    var vpn :| Under(Child(n, i), NodeOf(0, vpn)) && V(PteAt(tables, at, vpn)) &&
               (Rwx(PteAt(tables, at, vpn)) != 0 <==> marked);
    UnderChild(n, NodeOf(0, vpn), i);
  }

  lemma LeafUnderLast(tables: Tables, at: Places, n: Node, i: int)
    requires n in at && n.level == 0 && at[n] in tables && |tables[at[n]]| == ENTRIES && 0 <= i < ENTRIES
    requires V(tables[at[n]][i])
    ensures LeafUnder(tables, at, n, Rwx(tables[at[n]][i]) != 0)
  {
    var vpn := ENTRIES * n.prefix + i;
    assert NodeOf(0, vpn) == n && vpn % ENTRIES == i;
    assert Under(n, NodeOf(0, vpn)) && PteAt(tables, at, vpn) == tables[at[n]][i];
  }

  /** No page is mapped below the node. */
  ghost predicate NoLeaf(tables: Tables, at: Places, n: Node) {
    forall vpn :: Under(n, NodeOf(0, vpn)) ==> !V(PteAt(tables, at, vpn))
  }

  /** The word index at n for a page below it */
  function Step(n: Node, vpn: int): int {
    if n.level == 0 then vpn % ENTRIES else Branch(n, NodeOf(0, vpn))
  }

  ghost predicate NoLeafBefore(tables: Tables, at: Places, n: Node, i: int) {
    forall vpn :: Under(n, NodeOf(0, vpn)) && Step(n, vpn) < i ==> !V(PteAt(tables, at, vpn))
  }

  lemma NoLeafEnds(tables: Tables, at: Places, n: Node)
    ensures NoLeafBefore(tables, at, n, 0)
    ensures NoLeafBefore(tables, at, n, ENTRIES) <==> NoLeaf(tables, at, n)
  {
    forall vpn ensures 0 <= Step(n, vpn) < ENTRIES {
    }
  }

  lemma NoLeafInner(tables: Tables, at: Places, n: Node, i: int)
    requires 0 < n.level <= 2 && 0 <= i < ENTRIES
    ensures NoLeafBefore(tables, at, n, i + 1) <==> NoLeafBefore(tables, at, n, i) && NoLeaf(tables, at, Child(n, i))
  {
    forall vpn ensures Under(Child(n, i), NodeOf(0, vpn)) <==> Under(n, NodeOf(0, vpn)) && Step(n, vpn) == i {
      UnderChild(n, NodeOf(0, vpn), i);
    }
  }

  lemma NoLeafLast(tables: Tables, at: Places, n: Node, i: int)
    requires n in at && n.level == 0 && at[n] in tables && |tables[at[n]]| == ENTRIES && 0 <= i < ENTRIES
    ensures PteAt(tables, at, ENTRIES * n.prefix + i) == tables[at[n]][i]
    ensures NoLeafBefore(tables, at, n, i + 1) <==> NoLeafBefore(tables, at, n, i) && !V(tables[at[n]][i])
  {
    var vpn := ENTRIES * n.prefix + i;
    assert NodeOf(0, vpn) == n && vpn % ENTRIES == i;
    assert Under(n, NodeOf(0, vpn)) && Step(n, vpn) == i;
    forall p | Under(n, NodeOf(0, p)) && Step(n, p) == i ensures p == vpn {
    }
  }

  lemma NoneBelowLeaf(orig: Tables, root: int, at: Places, node: NodeMap, n: Node)
    requires Nodes(orig, root, at, node) && n in at
    ensures n.level == 0 ==> forall i :: TablesBelow(orig, node, n, i) == {}
    ensures at[n] in TablesUnder(orig, node, n)
  {
    assert Under(n, n);
    if n.level == 0 {
      forall i ensures TablesBelow(orig, node, n, i) == {} {
        assert forall t :: t in orig ==> node[t].level >= 0;
      }
    }
  }

  lemma BelowIn(orig: Tables, root: int, at: Places, node: NodeMap, n: Node, i: int)
    requires Nodes(orig, root, at, node) && n in at && i <= ENTRIES
    ensures TablesBelow(orig, node, n, i) <= TablesUnder(orig, node, n) && at[n] !in TablesBelow(orig, node, n, i)
  {
  }

  lemma NoLeafAbove(tables: Tables, at: Places, n: Node)
    requires forall vpn :: Under(n, NodeOf(0, vpn)) && V(PteAt(tables, at, vpn)) ==> n in at
    ensures n !in at ==> NoLeaf(tables, at, n)
  {
  }

  lemma NoLeafMore(tables: Tables, at: Places, n: Node, i: int)
    requires !NoLeafBefore(tables, at, n, i)
    ensures !NoLeaf(tables, at, n)
  {
  }

  // ----- The operations -----

  datatype Outcome = Done | NoMemory | Panic

  /** The end of a range of pages, in 64-bit arithmetic */
  function EndOf(va: nat, npages: nat): nat {
    (va + npages * PGSIZE) % U64
  }

  lemma EndAligned(v: nat, npages: nat)
    ensures EndOf(v * PGSIZE, npages) % PGSIZE == 0
  {
    var x := (v + npages) * PGSIZE;
    assert x % U64 == x - x / U64 * U64;
    assert x - x / U64 * U64 == (v + npages - x / U64 * (U64 / PGSIZE)) * PGSIZE;
  }

  /** Free frames: no duplicates, and none in use as a page table */
  ghost predicate Spare(free: seq<int>, tables: Tables) {
    && (forall i :: 0 <= i < |free| ==> free[i] !in tables)
    && (forall i, j :: 0 <= i < j < |free| ==> free[i] != free[j])
  }

  ghost function Frames(free: seq<int>): set<int> {
    set f | f in free
  }

  lemma SpareSame(free: seq<int>, tables: Tables, tables': Tables)
    requires Spare(free, tables) && tables'.Keys == tables.Keys
    ensures Spare(free, tables')
  {
  }

  /** PGROUNDUP(sz) / PGSIZE, in 64-bit arithmetic */
  function PagesOf(sz: nat): nat {
    (sz + PGSIZE - 1) % U64 / PGSIZE
  }

  lemma PagesBelow(sz: nat, vpn: nat)
    requires sz + 4095 < U64
    ensures vpn < PagesOf(sz) <==> vpn * 4096 < sz
    ensures PagesOf(sz) <= MAXVPN <==> sz <= MAXVA
  {
    assert PagesOf(sz) == (sz + 4095) / 4096;
  }

  /** The valid words of the first n pages have become 0. */
  ghost predicate Unmapped(tables: Tables, tables': Tables, at: Places, n: nat) {
    forall vpn :: PteAt(tables', at, vpn) ==
      if 0 <= vpn < n && V(PteAt(tables, at, vpn)) then 0 else PteAt(tables, at, vpn)
  }

  /** A leaf word without permissions that is left was there before. */
  lemma Unmarked(tables: Tables, tables': Tables, at: Places, n: nat, marked: bool)
    requires Unmapped(tables, tables', at, n) && LeafUnder(tables', at, Node(2, 0), marked)
    ensures !marked ==> !LeavesMarked(tables, at)
  {
    var vpn :| Under(Node(2, 0), NodeOf(0, vpn)) && V(PteAt(tables', at, vpn)) &&
               (Rwx(PteAt(tables', at, vpn)) != 0 <==> marked);
    assert PteAt(tables', at, vpn) == PteAt(tables, at, vpn);
  }

  lemma UnmappedBelow(tables: Tables, tables': Tables, at: Places, n: nat)
    requires Unmapped(tables, tables', at, n)
    ensures (forall vpn :: !V(PteAt(tables', at, vpn))) <==> (forall vpn :: V(PteAt(tables, at, vpn)) ==> 0 <= vpn < n)
  {
  }

  lemma SameTables(tables: Tables, tables': Tables, root: int, at: Places, node: NodeMap)
    requires Tree(tables, root, at, node) && Tree(tables', root, at, node)
    ensures tables.Keys == tables'.Keys
  {
    forall t ensures t in tables.Keys <==> t in tables'.Keys {
      if t in tables {
        assert at[node[t]] in tables';
      }
      if t in tables' {
        assert at[node[t]] in tables;
      }
    }
  }

  lemma WholeTree(tables: Tables, root: int, at: Places, node: NodeMap)
    requires Tree(tables, root, at, node)
    ensures Node(2, 0) in at && at[Node(2, 0)] == root
    ensures TablesUnder(tables, node, Node(2, 0)) == tables.Keys
    ensures NoLeaf(tables, at, Node(2, 0)) <==> forall vpn :: !V(PteAt(tables, at, vpn))
    ensures forall vpn :: V(PteAt(tables, at, vpn)) ==> vpn >= 0
  {
    forall m | m in at ensures Under(Node(2, 0), m) {
      if m.level < 2 {
        assert UpAt(tables, at, m);
        if m.level == 0 {
          assert UpAt(tables, at, Parent(m));
        }
      }
    }
    forall t | t in tables ensures t in TablesUnder(tables, node, Node(2, 0)) {
      assert node[t] in at;
    }
  }

  class PageTable {
    const root: int
    var tables: Tables
    var free: seq<int>
    ghost var at: Places
    ghost var node: NodeMap

    ghost predicate Valid()
      reads this
    {
      Tree(tables, root, at, node) && Spare(free, tables)
    }

    ghost function Pte(vpn: int): int
      reads this
    {
      PteAt(tables, at, vpn)
    }

    /** uvmcreate */
    constructor (free: seq<int>, root: int)
      requires root !in free && (forall i, j :: 0 <= i < j < |free| ==> free[i] != free[j])
      ensures Valid() && this.free == free && forall vpn :: Pte(vpn) == 0
    {
      this.root, this.free := root, free;
      tables := map[root := ZeroPage()];
      at, node := map[Node(2, 0) := root], map[root := Node(2, 0)];
    }

    /** Finds the word of a virtual page, adding tables on the way if asked to.  No translation
        changes, whatever happens. */
    method Walk(va: nat, alloc: bool) returns (r: Outcome, t: int)
      requires Valid()
      modifies this
      ensures Valid() && (forall vpn :: Pte(vpn) == old(Pte(vpn)))
      ensures r == Panic <==> va >= MAXVA
      ensures r == Done ==> NodeOf(0, va / PGSIZE) in at && t == at[NodeOf(0, va / PGSIZE)]
      ensures r == NoMemory ==> NodeOf(0, va / PGSIZE) !in at && (alloc ==> free == [])
      ensures !alloc ==> tables == old(tables) && at == old(at) && node == old(node) && free == old(free)
      ensures |free| <= |old(free)| && free == old(free)[|old(free)| - |free|..]
      ensures tables.Keys + Frames(free) == old(tables.Keys + Frames(free))
    {
      hide Down, Up, PteAt, Spare, Frames;
      if va >= MAXVA {
        return Panic, 0;
      }
      IndexMeaning(va);
      ghost var vpn := va / PGSIZE;
      t := root;
      var level := 2;
      while level > 0
        invariant 0 <= level <= 2 && Valid()
        invariant NodeOf(level, vpn) in at && t == at[NodeOf(level, vpn)]
        invariant forall p :: Pte(p) == old(Pte(p))
        invariant !alloc ==> tables == old(tables) && at == old(at) && node == old(node) && free == old(free)
        invariant |free| <= |old(free)| && free == old(free)[|old(free)| - |free|..]
        invariant tables.Keys + Frames(free) == old(tables.Keys + Frames(free))
      {
        var i := Index(level, va);
        ghost var n := NodeOf(level, vpn);
        assert Child(n, i) == NodeOf(level - 1, vpn);
        NoChild(tables, root, at, node, n, i);
        if V(tables[t][i]) {
          t := Ppn(tables[t][i]);
        } else {
          if !alloc || free == [] {
            InnerAbove(tables, root, at, node, vpn);
            return NoMemory, 0;
          }
          t := AddTable(t, i, n);
        }
        level := level - 1;
      }
      r := Done;
    }

    /** Takes a frame for a new table and links it. */
    method AddTable(t: int, i: int, ghost n: Node) returns (t': int)
      requires Valid() && free != [] && n in at && n.level > 0 && t == at[n] && 0 <= i < ENTRIES
      requires |tables[t]| == ENTRIES && !V(tables[t][i])
      modifies this
      ensures Valid() && (forall vpn :: Pte(vpn) == old(Pte(vpn)))
      ensures at == old(at)[Child(n, i) := t'] && free == old(free)[1..]
      ensures t' == old(free)[0] && tables.Keys == old(tables.Keys) + {t'}
      ensures tables.Keys + Frames(free) == old(tables.Keys + Frames(free))
    {
      hide Down, Up, PteAt;
      assert free == [free[0]] + free[1..];
      t' := free[0];
      NewTable(tables, root, at, node, n, i, t');
      hide Nodes;
      free := free[1..];
      tables := tables[t' := ZeroPage()];
      tables := tables[t := tables[t][i := MakePte(t', 0)]];
      at, node := at[Child(n, i) := t'], node[t' := Child(n, i)];
    }

    /** Maps pages from va to frames from pa.  `n` pages are mapped and nothing else changes;
        it stops short when a table cannot be had, or panics at a page already mapped or
        beyond the address space. */
    method Mappages(va: nat, size: nat, pa: nat, perm: nat) returns (r: Outcome, n: nat)
      requires Valid() && perm < 0x400 && va < U64 && size < U64
      modifies this
      ensures Valid()
      ensures forall vpn :: Pte(vpn) == if va / PGSIZE <= vpn < va / PGSIZE + n
                                        then MakePte(pa / PGSIZE + (vpn - va / PGSIZE), perm) else old(Pte(vpn))
      ensures r == Done ==> n * PGSIZE == size && va % PGSIZE == 0 && va + size <= MAXVA
      ensures forall vpn :: va / PGSIZE <= vpn < va / PGSIZE + n ==> !V(old(Pte(vpn)))
      ensures r == NoMemory ==> n * PGSIZE < size && free == [] && NodeOf(0, va / PGSIZE + n) !in at
      ensures tables.Keys + Frames(free) == old(tables.Keys + Frames(free))
      ensures va % PGSIZE != 0 || size % PGSIZE != 0 || size == 0 ==> r == Panic && n == 0
      ensures r == Panic && va % PGSIZE == 0 && size % PGSIZE == 0 && size != 0 ==>
                n * PGSIZE < size && (va + n * PGSIZE >= MAXVA || V(old(Pte(va / PGSIZE + n))))
      ensures forall k :: 0 <= k < n ==>
                var w := HardwareWord(tables, root, va + k * PGSIZE);
                w % 2 == 1 && w % 0x400 / 2 == perm / 2 && w / 0x400 == pa / PGSIZE + k
    {
      hide HardwareWord, Tree, Spare, PteAt, MakePte, V, Frames;
      ghost var v0 := va / PGSIZE;
      n := 0;
      if va % PGSIZE != 0 {
        return Panic, n;
      }
      if size % PGSIZE != 0 {
        return Panic, n;
      }
      if size == 0 {
        return Panic, n;
      }
      assert va == v0 * PGSIZE;
      r, n := MapRange(va, size, pa, perm, v0);
      forall k | 0 <= k < n
        ensures var w := HardwareWord(tables, root, va + k * PGSIZE);
                w % 2 == 1 && w % 0x400 / 2 == perm / 2 && w / 0x400 == pa / PGSIZE + k
      {
        PageAt(v0, k);
        assert Pte(v0 + k) == MakePte(pa / PGSIZE + (v0 + k - v0), perm);
        MakePteMeaning(pa / PGSIZE + k, perm);
        InSpace(tables, root, at, node, v0 + k);
        HardwareReads(tables, root, at, node, va + k * PGSIZE);
      }
    }

    lemma PageAt(v0: nat, k: nat)
      ensures (v0 * PGSIZE + k * PGSIZE) / PGSIZE == v0 + k
    {
      assert v0 * PGSIZE + k * PGSIZE == (v0 + k) * PGSIZE;
    }

    /** The loop of mappages */
    method MapRange(va: nat, size: nat, pa: nat, perm: nat, ghost v0: nat) returns (r: Outcome, n: nat)
      requires Valid() && perm < 0x400 && va == v0 * PGSIZE && size % PGSIZE == 0 && size != 0
      requires va < U64 && size < U64
      modifies this
      ensures Valid()
      ensures forall vpn ::
                Pte(vpn) == if v0 <= vpn < v0 + n then MakePte(pa / PGSIZE + (vpn - v0), perm) else old(Pte(vpn))
      ensures forall vpn :: v0 <= vpn < v0 + n ==> !V(old(Pte(vpn)))
      ensures if r == Done then n * PGSIZE == size && va + size <= MAXVA else n * PGSIZE < size
      ensures r == NoMemory ==> free == [] && NodeOf(0, v0 + n) !in at
      ensures tables.Keys + Frames(free) == old(tables.Keys + Frames(free))
      ensures r == Panic ==> va + n * PGSIZE >= MAXVA || V(old(Pte(v0 + n)))
    {
      hide Tree, Spare, PteAt, MakePte, V, Frames;
      n := 0;
      var a, p, last := va, pa, (va + size - PGSIZE) % U64;
      ghost var end := va + size - PGSIZE;
      while true
        invariant Valid() && a == va + n * PGSIZE <= end && p == pa + n * PGSIZE
        invariant tables.Keys + Frames(free) == old(tables.Keys + Frames(free))
        invariant forall vpn :: v0 <= vpn < v0 + n ==> !V(old(Pte(vpn)))
        invariant forall vpn ::
                    Pte(vpn) == if v0 <= vpn < v0 + n then MakePte(pa / PGSIZE + (vpn - v0), perm) else old(Pte(vpn))
        decreases end - a
      {
        Aligned(v0 + n, pa, n);
        r := MapOne(a, p, perm);
        if r != Done {
          return;
        }
        n := n + 1;
        if a == last {
          break;
        }
        a := a + PGSIZE;
        p := p + PGSIZE;
      }
    }

    /** One step of mappages */
    method MapOne(a: nat, pa: nat, perm: nat) returns (r: Outcome)
      requires Valid() && perm < 0x400
      modifies this
      ensures Valid()
      ensures forall vpn ::
                Pte(vpn) == if r == Done && vpn == a / PGSIZE then MakePte(pa / PGSIZE, perm) else old(Pte(vpn))
      ensures r == Done ==> a < MAXVA && !V(old(Pte(a / PGSIZE)))
      ensures r == Panic ==> a >= MAXVA || V(old(Pte(a / PGSIZE)))
      ensures r == NoMemory ==> free == [] && NodeOf(0, a / PGSIZE) !in at
      ensures tables.Keys + Frames(free) == old(tables.Keys + Frames(free))
    {
      hide Tree, Spare, PteAt, MakePte, V, Frames;
      var t;
      r, t := Walk(a, true);
      if r != Done {
        return;
      }
      LeafWord(tables, root, at, node, a);
      if V(tables[t][Index(0, a)]) {
        return Panic;
      }
      SetWord(t, a, MakePte(pa / PGSIZE, perm));
    }

    /** Stores into the word that walk found. */
    method SetWord(t: int, va: nat, w: int)
      requires Valid() && va < MAXVA && NodeOf(0, va / PGSIZE) in at && t == at[NodeOf(0, va / PGSIZE)]
      modifies this`tables
      ensures Valid() && tables.Keys == old(tables.Keys)
      ensures forall vpn :: Pte(vpn) == if vpn == va / PGSIZE then w else old(Pte(vpn))
    {
      hide PteAt, Down, Up;
      IndexMeaning(va);
      WordSet(tables, root, at, node, va / PGSIZE, w);
      tables := tables[t := tables[t][Index(0, va) := w]];
    }

    /** Removes the mappings of npages pages.  Exactly the valid words in the range become 0;
        their frames, in order, are given to kfree if asked, and the slots of swapped pages to
        swap_slot_free. */
    method Uvmunmap(va: nat, npages: nat, doFree: bool) returns (r: Outcome, frames: seq<int>, slots: seq<int>, n: nat)
      requires Valid() && va < U64
      modifies this
      ensures Valid() && at == old(at) && node == old(node) && free == old(free)
      ensures forall vpn ::
                Pte(vpn) == if va / PGSIZE <= vpn < va / PGSIZE + n && V(old(Pte(vpn))) then 0 else old(Pte(vpn))
      ensures frames == if doFree then FramesIn(old(tables), old(at), va / PGSIZE, n) else []
      ensures slots == SlotsIn(old(tables), old(at), va / PGSIZE, n)
      ensures r == Done <==> va % PGSIZE == 0 && (EndOf(va, npages) <= va || EndOf(va, npages) <= MAXVA)
      ensures r == Done ==> n * PGSIZE == if EndOf(va, npages) <= va then 0 else EndOf(va, npages) - va
      ensures r == Done && va + npages * PGSIZE < U64 ==> n == npages
      ensures r != NoMemory && (va % PGSIZE != 0 ==> n == 0)
    {
      hide Tree, Spare, PteAt, V, FramesIn, SlotsIn;
      ghost var v0 := va / PGSIZE;
      if va % PGSIZE != 0 {
        NothingIn(tables, at, v0);
        return Panic, [], [], 0;
      }
      assert va == v0 * PGSIZE;
      r, frames, slots, n := UnmapRange(va, npages, doFree, v0);
    }

    /** The loop of uvmunmap */
    method UnmapRange(va: nat, npages: nat, doFree: bool, ghost v0: nat)
        returns (r: Outcome, frames: seq<int>, slots: seq<int>, n: nat)
      requires Valid() && va == v0 * PGSIZE && va < U64
      modifies this
      ensures Valid() && at == old(at) && node == old(node) && free == old(free)
      ensures forall vpn :: Pte(vpn) == if v0 <= vpn < v0 + n && V(old(Pte(vpn))) then 0 else old(Pte(vpn))
      ensures frames == if doFree then FramesIn(old(tables), old(at), v0, n) else []
      ensures slots == SlotsIn(old(tables), old(at), v0, n)
      ensures r != NoMemory
      ensures r == Done <==> EndOf(va, npages) <= va || EndOf(va, npages) <= MAXVA
      ensures r == Done ==> n * PGSIZE == if EndOf(va, npages) <= va then 0 else EndOf(va, npages) - va
    {
      hide Tree, Spare, PteAt, V;
      r, frames, slots, n := Done, [], [], 0;
      var a, end := va, (va + npages * PGSIZE) % U64;
      EndAligned(v0, npages);
      while a < end
        invariant a == va + n * PGSIZE && (n > 0 ==> a <= MAXVA && a <= end)
        decreases end - a
        invariant Valid() && at == old(at) && node == old(node) && free == old(free)
        invariant forall vpn :: Pte(vpn) == if v0 <= vpn < v0 + n && V(old(Pte(vpn))) then 0 else old(Pte(vpn))
        invariant frames == if doFree then FramesIn(old(tables), old(at), v0, n) else []
        invariant slots == SlotsIn(old(tables), old(at), v0, n)
      {
        Aligned(v0 + n, 0, n);
        var w, frame, slot := UnmapOne(a);
        if w == Panic {
          return Panic, frames, slots, n;
        }
        if doFree {
          frames := frames + frame;
        }
        slots := slots + slot;
        n := n + 1;
        a := a + PGSIZE;
      }
    }

    /** One step of uvmunmap: what it gives to kfree and to swap_slot_free */
    method UnmapOne(a: nat) returns (r: Outcome, frame: seq<int>, slot: seq<int>)
      requires Valid()
      modifies this
      ensures Valid() && at == old(at) && node == old(node) && free == old(free)
      ensures r == if a >= MAXVA then Panic else Done
      ensures forall vpn :: Pte(vpn) == if r == Done && vpn == a / PGSIZE && V(old(Pte(vpn))) then 0 else old(Pte(vpn))
      ensures r == Done ==> frame == FrameOf(old(Pte(a / PGSIZE))) && slot == SlotOf(old(Pte(a / PGSIZE)))
    {
      hide Tree, Spare, Frames, PteAt, NodeOf;
      frame, slot := [], [];
      var t;
      r, t := Walk(a, false);
      if r == NoMemory {
        NoTable(tables, at, a / PGSIZE);
        r := Done;
      } else if r == Done {
        LeafWord(tables, root, at, node, a);
        var w := tables[t][Index(0, a)];
        if OnSwap(w) {
          slot := [Ppn(w)];
        }
        if V(w) {
          frame := [Ppn(w)];
          SetWord(t, a, 0);
        }
      }
    }

    /** Frees a table and the tables below it, each once, provided no page is mapped there.
        Otherwise the kernel panics, or, at a leaf word without permissions, goes `astray`: it
        takes the page for a table.  `orig` is the tree before anything was freed. */
    method Freewalk(t: int, level: int, ghost n: Node, ghost orig: Tables) returns (ok: bool, astray: bool)
      requires Tree(orig, root, at, node) && n in at && t == at[n] && level == n.level
      requires tables.Keys <= orig.Keys && Spare(free, tables)
      requires forall u :: u in TablesUnder(orig, node, n) ==> u in tables && tables[u] == orig[u]
      modifies this`tables, this`free
      ensures ok <==> NoLeaf(orig, at, n)
      ensures (astray ==> !ok) && (!ok ==> LeafUnder(orig, at, n, !astray))
      ensures ok ==> tables.Keys == old(tables).Keys - TablesUnder(orig, node, n) && Spare(free, tables)
      ensures ok ==> Frames(free) == old(Frames(free)) + TablesUnder(orig, node, n)
      ensures ok ==> forall u :: u in tables ==> tables[u] == old(tables)[u]
      decreases n.level, 1
    {
      hide Down, Up, NoLeaf, NoLeafBefore, TablesUnder, TablesBelow, Under, LeafUnder;
      ghost var tables0, free0 := tables, free;
      BelowAll(orig, root, at, node, n);
      NoLeafEnds(orig, at, n);
      NoneBelowLeaf(orig, root, at, node, n);
      astray := false;
      var i := 0;
      while i < ENTRIES
        invariant 0 <= i <= ENTRIES && !astray && NoLeafBefore(orig, at, n, i) && Spare(free, tables)
        invariant tables.Keys == tables0.Keys - TablesBelow(orig, node, n, i)
        invariant Frames(free) == Frames(free0) + TablesBelow(orig, node, n, i)
        invariant forall u :: u in tables && u != t ==> tables[u] == tables0[u]
        invariant t in tables && |tables[t]| == ENTRIES && forall j :: i <= j < ENTRIES ==> tables[t][j] == orig[t][j]
      {
        if n.level > 0 {
          BelowNext(orig, node, n, i);
          NoLeafInner(orig, at, n, i);
          BelowIn(orig, root, at, node, n, i + 1);
        } else {
          NoLeafLast(orig, at, n, i);
        }
        ok, astray := FreeEntry(t, level, i, n, orig);
        if !ok {
          NoLeafMore(orig, at, n, i + 1);
          return;
        }
        i := i + 1;
      }
      tables, free := tables - {t}, [t] + free;
      ok := true;
    }

    /** One word of freewalk */
    method FreeEntry(t: int, level: int, i: int, ghost n: Node, ghost orig: Tables) returns (ok: bool, astray: bool)
      requires Tree(orig, root, at, node) && n in at && t == at[n] && level == n.level && 0 <= i < ENTRIES
      requires tables.Keys <= orig.Keys && Spare(free, tables)
      requires t in tables && |tables[t]| == ENTRIES && tables[t][i] == orig[t][i]
      requires n.level > 0 ==> t !in TablesUnder(orig, node, Child(n, i))
      requires n.level > 0 ==>
                 forall u :: u in TablesUnder(orig, node, Child(n, i)) ==> u in tables && tables[u] == orig[u]
      modifies this`tables, this`free
      ensures ok <==> if n.level > 0 then NoLeaf(orig, at, Child(n, i)) else !V(orig[t][i])
      ensures (astray ==> !ok) && (!ok ==> LeafUnder(orig, at, n, !astray))
      ensures var gone := if n.level > 0 then TablesUnder(orig, node, Child(n, i)) else {};
              ok ==>
                tables.Keys == old(tables).Keys - gone && Frames(free) == old(Frames(free)) + gone &&
                Spare(free, tables)
      ensures ok ==> forall u :: u in tables && u != t ==> tables[u] == old(tables)[u]
      ensures ok ==> t in tables && |tables[t]| == ENTRIES
      ensures ok ==> forall j :: 0 <= j < ENTRIES && j != i ==> tables[t][j] == old(tables)[t][j]
      decreases n.level, 0
    {
      hide Down, Up, NoLeaf, TablesUnder, Spare, PteAt, LeafUnder;
      ghost var c := Child(n, i);
      if n.level > 0 {
        NoChild(orig, root, at, node, n, i);
        TableAbove(orig, root, at, node, c);
        NoLeafAbove(orig, at, c);
      } else if V(orig[t][i]) {
        LeafUnderLast(orig, at, n, i);
      }
      astray := false;
      var pte := tables[t][i];
      if V(pte) && Rwx(pte) == 0 {
        if level == 0 {
          return false, true;
        }
        ok, astray := Freewalk(Ppn(pte), level - 1, c, orig);
        if ok {
          SpareSame(free, tables, tables[t := tables[t][i := 0]]);
          tables := tables[t := tables[t][i := 0]];
        } else {
          LeafUnderChild(orig, at, n, i, !astray);
        }
      } else {
        ok := !V(pte);
      }
    }

    /** uvmfree: unmaps the pages below sz, giving their frames to kfree, and frees every
        table.  It succeeds exactly when every mapped page lies below sz, and then every frame
        of a table is free again, once.  It can go astray only at a leaf word without permissions. */
    method Uvmfree(sz: nat) returns (ok: bool, astray: bool, frames: seq<int>)
      requires Valid() && sz < U64
      modifies this
      ensures ok <==> PagesOf(sz) <= MAXVPN && forall vpn :: V(old(Pte(vpn))) ==> 0 <= vpn < PagesOf(sz)
      ensures sz + 4095 < U64 ==>
                (ok <==> sz <= MAXVA && forall vpn :: old(Pte(vpn)) % 2 == 1 ==> 0 <= vpn && vpn * 4096 < sz)
      ensures ok ==> tables == map[] && Spare(free, tables) && Frames(free) == old(Frames(free)) + old(tables).Keys
      ensures ok ==> frames == FramesIn(old(tables), old(at), 0, PagesOf(sz))
      ensures astray ==> !ok && !LeavesMarked(old(tables), old(at))
    {
      hide Tree, Spare, NoLeaf, PteAt, LeavesMarked, LeafUnder;
      ghost var tables0 := tables;
      astray := false;
      ok, frames := UnmapBelow(sz);
      if !ok {
        return;
      }
      UnmappedBelow(tables0, tables, at, PagesOf(sz));
      SameTables(tables0, tables, root, at, node);
      WholeTree(tables0, root, at, node);
      WholeTree(tables, root, at, node);
      assert forall vpn :: old(Pte(vpn)) == PteAt(tables0, at, vpn);
      ghost var tables1 := tables;
      ok, astray := Freewalk(root, 2, Node(2, 0), tables);
      assert ok ==> tables.Keys == {};
      if !ok {
        Unmarked(tables0, tables1, at, PagesOf(sz), !astray);
      }
      if sz + 4095 < U64 {
        forall vpn: nat ensures vpn < PagesOf(sz) <==> vpn * 4096 < sz {
          PagesBelow(sz, vpn);
        }
      }
    }

    /** The unmapping step of uvmfree */
    method UnmapBelow(sz: nat) returns (ok: bool, frames: seq<int>)
      requires Valid() && sz < U64
      modifies this
      ensures Valid() && at == old(at) && node == old(node) && free == old(free)
      ensures ok <==> PagesOf(sz) <= MAXVPN
      ensures ok ==>
                Unmapped(old(tables), tables, at, PagesOf(sz)) && frames == FramesIn(old(tables), at, 0, PagesOf(sz))
    {
      hide Tree, Spare, PteAt, V;
      ok, frames := true, [];
      if sz > 0 {
        var r, slots, n;
        r, frames, slots, n := Uvmunmap(0, PagesOf(sz), true);
        ok := r == Done;
        forall vpn
          ensures PteAt(tables, at, vpn) ==
                  if 0 <= vpn < n && V(PteAt(old(tables), at, vpn)) then 0 else PteAt(old(tables), at, vpn)
        {
          assert Pte(vpn) == if 0 <= vpn < n && V(old(Pte(vpn))) then 0 else old(Pte(vpn));
        }
      }
    }
  }
}
