/**
 Inode contents and the block free map of kernel/fs.c: `balloc`, `bfree`, `bmap`, `itrunc`,
 `readi`, `writei`.

 Blocks are seen through the buffer cache, so a block read is the block last written.  The
 bitmap blocks hold eight bits to a byte; `bits` is the sequence of bits they hold.  The ghost
 `owner` says what each allocated block is used for, and `files` gives every inode's contents
 as one byte sequence.
 */
module Fs {
  import opened Bytes
  import opened Params

  const BPB := 8192

  datatype Inode = Inode(addrs: seq<int>, size: int)
  datatype Disk = Disk(bits: seq<bool>, blocks: seq<seq<int>>, inodes: seq<Inode>)

  /** What a block is used for: data block k of inode i for k < MAXFILE, its block of
      indirect entries for k == MAXFILE. */
  datatype Use = Use(i: int, k: int)

  // ----- Indirect entries: 32-bit little-endian words -----

  function Entry(data: seq<int>, j: nat): int
    requires 4 * j + 4 <= |data|
  {
    data[4 * j] + 0x100 * data[4 * j + 1] + 0x1_0000 * data[4 * j + 2] + 0x100_0000 * data[4 * j + 3]
  }

  function SetEntry(data: seq<int>, j: nat, v: int): seq<int>
    requires 4 * j + 4 <= |data|
  {
    data[4 * j := v % 0x100][4 * j + 1 := v / 0x100 % 0x100]
        [4 * j + 2 := v / 0x1_0000 % 0x100][4 * j + 3 := v / 0x100_0000]
  }

  lemma SetEntryMeaning(data: seq<int>, j: nat, v: int, k: nat)
    requires 4 * j + 4 <= |data| && 4 * k + 4 <= |data| && 0 <= v < U32
    ensures Entry(SetEntry(data, j, v), k) == if k == j then v else Entry(data, k)
    ensures |SetEntry(data, j, v)| == |data|
  {
    Digits(v);
    var data' := SetEntry(data, j, v);
    if k == j {
      assert data'[4 * j] == v % 0x100 && data'[4 * j + 1] == v / 0x100 % 0x100;
      assert data'[4 * j + 2] == v / 0x1_0000 % 0x100 && data'[4 * j + 3] == v / 0x100_0000;
    }
  }

  lemma Digits(v: nat)
    ensures v == v % 0x100 + 0x100 * (v / 0x100 % 0x100)
                 + 0x1_0000 * (v / 0x1_0000 % 0x100) + 0x100_0000 * (v / 0x100_0000)
  {
    var a := v / 0x100;
    var b := a / 0x100;
    var c := b / 0x100;
    assert v / 0x1_0000 == b && v / 0x100_0000 == c;
    assert v == 0x100 * a + v % 0x100 && a == 0x100 * b + a % 0x100 && b == 0x100 * c + b % 0x100;
  }

  function Zeros(): (z: seq<int>)
    ensures |z| == BSIZE && forall p :: 0 <= p < BSIZE ==> z[p] == 0
  {
    seq(BSIZE, _ => 0)
  }

  // ----- The bitmap blocks -----

  type Bitmap = seq<seq<bv8>>

  /** 1 << k */
  function Mask(k: nat): bv8
    requires k < 8
  {
    if k == 0 then 1 else if k == 1 then 2 else if k == 2 then 4 else if k == 3 then 8
    else if k == 4 then 16 else if k == 5 then 32 else if k == 6 then 64 else 128
  }

  predicate BitIn(x: bv8, k: nat)
    requires k < 8
  {
    x & Mask(k) != 0
  }

  function ByteWith(x: bv8, k: nat, on: bool): bv8
    requires k < 8
  {
    if on then x | Mask(k) else x & !Mask(k)
  }

  lemma ByteWithBits(x: bv8, k: nat, on: bool, j: nat)
    requires k < 8 && j < 8
    ensures BitIn(ByteWith(x, k, on), j) <==> if j == k then on else BitIn(x, j)
  {
  }

  /** The bit of a block: the bitmap block, the byte in it, and the bit in that */
  function BlockOf(b: nat): nat {
    b / BPB
  }

  function ByteOf(b: nat): (k: nat)
    ensures k < BSIZE
  {
    b % BPB / 8
  }

  function BitOf(b: nat): (k: nat)
    ensures k < 8
  {
    b % 8
  }

  lemma LowBits(b: int, m: int, k: int)
    requires b == 8 * m + k && 0 <= k < 8
    ensures b % 8 == k
  {
  }

  lemma PlaceSum(b: nat)
    ensures b == BlockOf(b) * BPB + ByteOf(b) * 8 + BitOf(b)
  {
    var q, r := b / BPB, b % BPB;
    var s := r / 8;
    LowBits(b, q * (BPB / 8) + s, r - 8 * s);
  }

  lemma PlaceUnique(b: nat, c: nat)
    requires BlockOf(b) == BlockOf(c) && ByteOf(b) == ByteOf(c) && BitOf(b) == BitOf(c)
    ensures b == c
  {
    hide BlockOf, ByteOf, BitOf;
    PlaceSum(b);
    PlaceSum(c);
  }

  predicate BitAt(bitmap: Bitmap, b: nat) {
    BlockOf(b) < |bitmap| && ByteOf(b) < |bitmap[BlockOf(b)]| && BitIn(bitmap[BlockOf(b)][ByteOf(b)], BitOf(b))
  }

  ghost predicate Packed(bitmap: Bitmap, bits: seq<bool>) {
    && |bits| <= |bitmap| * BPB && (forall q :: 0 <= q < |bitmap| ==> |bitmap[q]| == BSIZE)
    && forall b :: 0 <= b < |bits| ==> (bits[b] <==> BitAt(bitmap, b))
  }

  /** Bit bi of the bitmap block that starts with the bit of block b */
  lemma PlaceIn(bitmap: Bitmap, bits: seq<bool>, b: nat, bi: nat)
    requires Packed(bitmap, bits) && b % BPB == 0 && bi < BPB && b + bi < |bits|
    ensures b / BPB < |bitmap| && |bitmap[b / BPB]| == BSIZE
    ensures bits[b + bi] <==> BitIn(bitmap[b / BPB][bi / 8], bi % 8)
  {
    hide BitIn;
    assert BlockOf(b + bi) == b / BPB && ByteOf(b + bi) == bi / 8 && BitOf(b + bi) == bi % 8;
    assert bits[b + bi] <==> BitAt(bitmap, b + bi);
  }

  function WithBit(bitmap: Bitmap, b: nat, on: bool): Bitmap
    requires BlockOf(b) < |bitmap| && ByteOf(b) < |bitmap[BlockOf(b)]|
  {
    var q, p := BlockOf(b), ByteOf(b);
    var x := bitmap[q][p];
    bitmap[q := bitmap[q][p := ByteWith(x, BitOf(b), on)]]
  }

  lemma SetBitAt(bitmap: Bitmap, b: nat, on: bool, c: nat)
    requires BlockOf(b) < |bitmap| && ByteOf(b) < |bitmap[BlockOf(b)]|
    ensures BitAt(WithBit(bitmap, b, on), c) <==> if c == b then on else BitAt(bitmap, c)
  {
    hide BlockOf, ByteOf, BitOf, BitIn, ByteWith;
    if BlockOf(c) == BlockOf(b) && ByteOf(c) == ByteOf(b) {
      ByteWithBits(bitmap[BlockOf(b)][ByteOf(b)], BitOf(b), on, BitOf(c));
      if BitOf(c) == BitOf(b) {
        PlaceUnique(b, c);
      }
    }
  }

  lemma PackedWith(bitmap: Bitmap, bits: seq<bool>, b: nat, on: bool)
    requires Packed(bitmap, bits) && b < |bits|
    ensures BlockOf(b) < |bitmap| && ByteOf(b) < |bitmap[BlockOf(b)]|
    ensures Packed(WithBit(bitmap, b, on), bits[b := on])
  {
    assert BlockOf(b) < |bitmap|;
    hide BitAt;
    forall c | 0 <= c < |bits| ensures bits[b := on][c] <==> BitAt(WithBit(bitmap, b, on), c) {
      SetBitAt(bitmap, b, on, c);
    }
  }

  /** Bit b % 8, the lowest first, of byte b % 8192 / 8 of bitmap block b / 8192 is block b's. */
  lemma BitmapOnDisk(bitmap: Bitmap, bits: seq<bool>, b: nat)
    requires Packed(bitmap, bits) && b < |bits|
    ensures b / 8192 < |bitmap| && |bitmap[b / 8192]| == 1024
    ensures bits[b] <==> (bitmap[b / 8192][b % 8192 / 8] >> (b % 8)) & 1 == 1
  {
    PlaceIn(bitmap, bits, b - b % BPB, b % BPB);
    assert b % BPB % 8 == b % 8 by { LowBits(b, b / BPB * 1024 + b % BPB / 8, b % BPB % 8); }
    hide BitIn;
    assert (b - b % BPB) / BPB == b / BPB;
    BitByShift(bitmap[b / BPB][b % BPB / 8], b % 8);
  }

  lemma BitByShift(x: bv8, k: nat)
    requires k < 8
    ensures BitIn(x, k) <==> (x >> k) & 1 == 1
  {
    if
    case k == 0 => assert x >> 0 == x;
    case k == 1 => assert x & 2 != 0 <==> (x >> 1) & 1 == 1;
    case k == 2 => assert x & 4 != 0 <==> (x >> 2) & 1 == 1;
    case k == 3 => assert x & 8 != 0 <==> (x >> 3) & 1 == 1;
    case k == 4 => assert x & 16 != 0 <==> (x >> 4) & 1 == 1;
    case k == 5 => assert x & 32 != 0 <==> (x >> 5) & 1 == 1;
    case k == 6 => assert x & 64 != 0 <==> (x >> 6) & 1 == 1;
    case k == 7 => assert x & 128 != 0 <==> (x >> 7) & 1 == 1;
  }

  // ----- Well-formed disks -----

  ghost predicate Shaped(d: Disk) {
    && |d.bits| == |d.blocks| < U32
    && (forall b :: 0 <= b < |d.blocks| ==> |d.blocks[b]| == BSIZE)
    && (forall i :: 0 <= i < |d.inodes| ==> |d.inodes[i].addrs| == NDIRECT + 1)
  }

  /** The block number recorded for use k of inode i; 0 if there is none. */
  function Slot(d: Disk, i: int, k: int): int
    requires Shaped(d) && 0 <= i < |d.inodes| && 0 <= k <= MAXFILE
  {
    var addrs := d.inodes[i].addrs;
    if k < NDIRECT then addrs[k]
    else if k == MAXFILE then addrs[NDIRECT]
    else if 0 < addrs[NDIRECT] < |d.blocks| then Entry(d.blocks[addrs[NDIRECT]], k - NDIRECT)
    else 0
  }

  predicate IsUse(d: Disk, i: int, k: int) {
    0 <= i < |d.inodes| && 0 <= k <= MAXFILE
  }

  /** Each block number recorded is in range and recorded once; the set bits of the free map
      are those of the metadata blocks and of the blocks recorded. */
  ghost predicate Owns(d: Disk, owner: map<int, Use>, meta: int)
    requires Shaped(d)
  {
    && 1 <= meta <= |d.blocks|
    && (forall i, k :: IsUse(d, i, k) && Slot(d, i, k) != 0 ==>
          Slot(d, i, k) in owner && owner[Slot(d, i, k)] == Use(i, k))
    && (forall b :: b in owner ==>
          meta <= b < |d.blocks| && IsUse(d, owner[b].i, owner[b].k) && Slot(d, owner[b].i, owner[b].k) == b)
    && (forall b :: 0 <= b < |d.bits| ==> (d.bits[b] <==> b < meta || b in owner))
  }

  /** The first |s| bytes of inode i are s, with no block missing. */
  ghost predicate Holds(d: Disk, i: int, s: seq<int>)
    requires Shaped(d)
  {
    && 0 <= i < |d.inodes| && |s| <= MAXFILE * BSIZE
    && forall p :: 0 <= p < |s| ==> HoldsAt(d, i, p, s[p])
  }

  predicate HoldsAt(d: Disk, i: int, p: int, v: int)
    requires Shaped(d) && 0 <= i < |d.inodes| && 0 <= p < MAXFILE * BSIZE
  {
    var b := Slot(d, i, p / BSIZE);
    0 < b < |d.blocks| && d.blocks[b][p % BSIZE] == v
  }

  /** Where byte p of a file is: at p % 1024 in the block whose number is word p / 1024 of the inode, or
      for words 12 and up the little-endian 32-bit word p / 1024 - 12 of the block in word 12. */
  lemma FileOnDisk(d: Disk, i: int, s: seq<int>, p: nat)
    requires Shaped(d) && Holds(d, i, s) && p < |s|
    ensures p < 12 * 1024 ==>
              var b := d.inodes[i].addrs[p / 1024];
              0 < b < |d.blocks| && d.blocks[b][p % 1024] == s[p]
    ensures p >= 12 * 1024 ==>
              var ind, w := d.inodes[i].addrs[12], 4 * (p / 1024 - 12);
              && 0 < ind < |d.blocks| && w + 4 <= 1024
              && var e := d.blocks[ind];
              var b := e[w] + 0x100 * e[w + 1] + 0x1_0000 * e[w + 2] + 0x100_0000 * e[w + 3];
              0 < b < |d.blocks| && d.blocks[b][p % 1024] == s[p]
  {
    assert HoldsAt(d, i, p, s[p]);
  }

  /** Data blocks recorded in d are recorded in d', with the same contents. */
  ghost predicate Keeps(d: Disk, d': Disk, i: int)
    requires Shaped(d) && Shaped(d')
  {
    && |d'.inodes| == |d.inodes| && |d'.blocks| == |d.blocks|
    && forall k :: IsUse(d, i, k) && k < MAXFILE && 0 < Slot(d, i, k) < |d.blocks| ==>
         Slot(d', i, k) == Slot(d, i, k) && d'.blocks[Slot(d, i, k)] == d.blocks[Slot(d, i, k)]
  }

  lemma KeepsHolds(d: Disk, d': Disk, i: int, s: seq<int>)
    requires Shaped(d) && Shaped(d') && Keeps(d, d', i) && Holds(d, i, s)
    ensures Holds(d', i, s)
  {
    forall p | 0 <= p < |s| ensures HoldsAt(d', i, p, s[p]) {
      assert HoldsAt(d, i, p, s[p]);
      assert IsUse(d, i, p / BSIZE);
    }
  }

  // ----- Recording a new block -----

  /** Only use k of inode i changed, to b. */
  ghost predicate Recorded(d: Disk, d': Disk, i: int, k: int, b: int)
    requires Shaped(d) && Shaped(d')
  {
    && |d'.inodes| == |d.inodes| && |d'.blocks| == |d.blocks|
    && forall i', k' :: IsUse(d, i', k') ==> Slot(d', i', k') == if i' == i && k' == k then b else Slot(d, i', k')
  }

  lemma RecordOwns(d: Disk, d': Disk, owner: map<int, Use>, meta: int, i: int, k: int, b: int)
    requires Shaped(d) && Shaped(d') && Owns(d, owner, meta)
    requires 0 <= b < |d.bits| && !d.bits[b] && d'.bits == d.bits[b := true]
    requires IsUse(d, i, k) && Slot(d, i, k) == 0 && Recorded(d, d', i, k, b)
    ensures Owns(d', owner[b := Use(i, k)], meta) && b !in owner && b >= meta
  {
  }

  /** A block just taken from the free map, cleared. */
  function Taken(d: Disk, b: nat): Disk
    requires b < |d.bits| == |d.blocks|
  {
    d.(bits := d.bits[b := true], blocks := d.blocks[b := Zeros()])
  }

  function WithAddr(d: Disk, i: nat, k: nat, b: int): Disk
    requires i < |d.inodes| && k < |d.inodes[i].addrs|
  {
    d.(inodes := d.inodes[i := d.inodes[i].(addrs := d.inodes[i].addrs[k := b])])
  }

  /** A block whose bit is clear is not recorded anywhere. */
  lemma FreeUnrecorded(d: Disk, owner: map<int, Use>, meta: int, b: nat)
    requires Shaped(d) && Owns(d, owner, meta) && b < |d.bits| && !d.bits[b]
    ensures b >= meta >= 1 && b !in owner
    ensures forall i, k :: IsUse(d, i, k) ==> Slot(d, i, k) != b
  {
  }

  lemma IndirectBlock(d: Disk, owner: map<int, Use>, meta: int, i: nat)
    requires Shaped(d) && Owns(d, owner, meta) && i < |d.inodes| && d.inodes[i].addrs[NDIRECT] != 0
    ensures var b := d.inodes[i].addrs[NDIRECT];
            0 < b < |d.blocks| && b in owner && owner[b] == Use(i, MAXFILE) && b == Slot(d, i, MAXFILE)
  {
    assert IsUse(d, i, MAXFILE);
  }

  lemma TakenSlots(d: Disk, owner: map<int, Use>, meta: int, b: nat)
    requires Shaped(d) && Owns(d, owner, meta) && b < |d.bits| && !d.bits[b]
    ensures Shaped(Taken(d, b))
    ensures forall i, k :: IsUse(d, i, k) ==> Slot(Taken(d, b), i, k) == Slot(d, i, k)
    ensures forall i :: Keeps(d, Taken(d, b), i)
  {
    FreeUnrecorded(d, owner, meta, b);
    forall i, k | IsUse(d, i, k) ensures Slot(Taken(d, b), i, k) == Slot(d, i, k) {
      assert IsUse(d, i, MAXFILE);
    }
  }

  lemma AddrRecorded(d: Disk, i: nat, k: nat, b: nat)
    requires Shaped(d) && i < |d.inodes| && k <= NDIRECT && 0 < b < |d.blocks| && d.blocks[b] == Zeros()
    requires d.inodes[i].addrs[k] == 0
    ensures Shaped(WithAddr(d, i, k, b))
    ensures Recorded(d, WithAddr(d, i, k, b), i, if k < NDIRECT then k else MAXFILE, b)
  {
    var d' := WithAddr(d, i, k, b);
    forall j | 0 <= j < NINDIRECT ensures Entry(d.blocks[b], j) == 0 {
    }
    forall i', k' | IsUse(d, i', k')
      ensures Slot(d', i', k') == if i' == i && k' == (if k < NDIRECT then k else MAXFILE) then b else Slot(d, i', k') {
      if i' != i {
        assert d'.inodes[i'] == d.inodes[i'];
      }
    }
  }

  /** Taking a block and recording it in the inode */
  lemma TakeAddr(d: Disk, owner: map<int, Use>, meta: int, i: nat, k: nat, b: nat)
    requires Shaped(d) && Owns(d, owner, meta) && b < |d.bits| && !d.bits[b]
    requires i < |d.inodes| && k <= NDIRECT && d.inodes[i].addrs[k] == 0
    ensures var d' := WithAddr(Taken(d, b), i, k, b);
            var use := if k < NDIRECT then k else MAXFILE;
            && Shaped(d') && Owns(d', owner[b := Use(i, use)], meta) && b >= 1
            && Slot(d', i, use) == b
            && (forall j :: Keeps(d, d', j))
            && Recorded(d, d', i, use, b)
  {
    var d1 := Taken(d, b);
    var use := if k < NDIRECT then k else MAXFILE;
    FreeUnrecorded(d, owner, meta, b);
    TakenSlots(d, owner, meta, b);
    AddrRecorded(d1, i, k, b);
    var d' := WithAddr(d1, i, k, b);
    hide Packed, Owns, Slot;
    assert Recorded(d, d', i, use, b);
    assert Slot(d, i, use) == 0 by { AddrSlot(d, i, k); }
    RecordOwns(d, d', owner, meta, i, use, b);
    forall j ensures Keeps(d, d', j) {
      forall k' | IsUse(d, j, k') && k' < MAXFILE && 0 < Slot(d, j, k') < |d.blocks|
        ensures Slot(d', j, k') == Slot(d, j, k') && d'.blocks[Slot(d, j, k')] == d.blocks[Slot(d, j, k')] {
        assert Keeps(d, d1, j);
      }
    }
  }

  lemma AddrSlot(d: Disk, i: nat, k: nat)
    requires Shaped(d) && i < |d.inodes| && k <= NDIRECT
    ensures d.inodes[i].addrs[k] == Slot(d, i, if k < NDIRECT then k else MAXFILE)
  {
  }

  /** Writing into a block of indirect entries */
  function WithEntry(d: Disk, ind: nat, j: nat, b: int): Disk
    requires Shaped(d) && ind < |d.blocks| && j < NINDIRECT
  {
    d.(blocks := d.blocks[ind := SetEntry(d.blocks[ind], j, b)])
  }

  lemma TakeEntry(d: Disk, owner: map<int, Use>, meta: int, i: nat, j: nat, b: nat)
    requires Shaped(d) && Owns(d, owner, meta) && b < |d.bits| && !d.bits[b]
    requires i < |d.inodes| && j < NINDIRECT && d.inodes[i].addrs[NDIRECT] != 0 && Slot(d, i, NDIRECT + j) == 0
    ensures var ind := d.inodes[i].addrs[NDIRECT];
            && 0 < ind < |d.blocks| && Shaped(Taken(d, b))
            && var d' := WithEntry(Taken(d, b), ind, j, b);
            && Shaped(d') && Owns(d', owner[b := Use(i, NDIRECT + j)], meta) && b >= 1
            && Slot(d', i, NDIRECT + j) == b
            && (forall i' :: Keeps(d, d', i'))
  {
    var d1, ind := Taken(d, b), d.inodes[i].addrs[NDIRECT];
    FreeUnrecorded(d, owner, meta, b);
    IndirectBlock(d, owner, meta, i);
    TakenSlots(d, owner, meta, b);
    EntryRecorded(d1, owner, i, j, b);
    var d' := WithEntry(d1, ind, j, b);
    RecordOwns(d, d', owner, meta, i, NDIRECT + j, b);
    hide Slot, WithEntry;
    forall i' ensures Keeps(d, d', i') {
      forall k | IsUse(d, i', k) && k < MAXFILE && 0 < Slot(d, i', k) < |d.blocks|
        ensures Slot(d', i', k) == Slot(d, i', k) && d'.blocks[Slot(d, i', k)] == d.blocks[Slot(d, i', k)] {
        assert Keeps(d, d1, i');
        assert Slot(d, i', k) != ind;
      }
    }
  }

  lemma EntryRecorded(d: Disk, owner: map<int, Use>, i: nat, j: nat, b: nat)
    requires Shaped(d) && i < |d.inodes| && j < NINDIRECT && 0 < b < |d.blocks|
    requires var ind := d.inodes[i].addrs[NDIRECT]; 0 < ind < |d.blocks|
    requires forall i', k :: IsUse(d, i', k) && Slot(d, i', k) != 0 ==>
               Slot(d, i', k) in owner && owner[Slot(d, i', k)] == Use(i', k)
    ensures var ind := d.inodes[i].addrs[NDIRECT];
            var d' := WithEntry(d, ind, j, b);
            && Shaped(d') && Recorded(d, d', i, NDIRECT + j, b)
            && forall c :: 0 <= c < |d.blocks| && c != ind ==> d'.blocks[c] == d.blocks[c]
  {
    var ind := d.inodes[i].addrs[NDIRECT];
    var d' := WithEntry(d, ind, j, b);
    assert |SetEntry(d.blocks[ind], j, b)| == BSIZE;
    assert ind == Slot(d, i, MAXFILE) && IsUse(d, i, MAXFILE);
    forall i', k | IsUse(d, i', k)
      ensures Slot(d', i', k) == if i' == i && k == NDIRECT + j then b else Slot(d, i', k)
    {
      if NDIRECT <= k < MAXFILE {
        if i' == i {
          SetEntryMeaning(d.blocks[ind], j, b, k - NDIRECT);
        } else {
          assert IsUse(d, i', MAXFILE) && d.inodes[i'].addrs[NDIRECT] == Slot(d, i', MAXFILE);
        }
      }
    }
  }

  // ----- Writing part of a data block -----

  function Stored(d: Disk, b: nat, at: nat, data: seq<int>): Disk
    requires b < |d.blocks| && at <= |d.blocks[b]|
  {
    d.(blocks := d.blocks[b := Splice(d.blocks[b], at, data)])
  }

  lemma StoredOwns(d: Disk, owner: map<int, Use>, meta: int, i: int, n: int, at: nat, data: seq<int>)
    requires Shaped(d) && Owns(d, owner, meta) && IsUse(d, i, n) && n < MAXFILE && Slot(d, i, n) != 0
    requires at + |data| <= BSIZE
    ensures 0 < Slot(d, i, n) < |d.blocks|
    ensures var d' := Stored(d, Slot(d, i, n), at, data);
            && Shaped(d') && Owns(d', owner, meta)
            && (forall i', k :: IsUse(d, i', k) ==> Slot(d', i', k) == Slot(d, i', k))
            && (forall i' :: i' != i ==> Keeps(d, d', i'))
  {
    var b := Slot(d, i, n);
    var d' := Stored(d, b, at, data);
    forall i', k | IsUse(d, i', k) ensures Slot(d', i', k) == Slot(d, i', k) {
      assert IsUse(d, i', MAXFILE) && d.inodes[i'].addrs[NDIRECT] == Slot(d, i', MAXFILE);
    }
  }

  lemma StoredHolds(d: Disk, owner: map<int, Use>, meta: int, i: int, off: nat, data: seq<int>, s: seq<int>)
    requires Shaped(d) && Owns(d, owner, meta) && Holds(d, i, s) && off <= |s|
    requires off / BSIZE < MAXFILE && Slot(d, i, off / BSIZE) != 0 && off % BSIZE + |data| <= BSIZE
    ensures 0 < Slot(d, i, off / BSIZE) < |d.blocks|
    ensures var d' := Stored(d, Slot(d, i, off / BSIZE), off % BSIZE, data);
            Shaped(d') && Holds(d', i, Splice(s, off, data))
  {
    var n, at := off / BSIZE, off % BSIZE;
    var b := Slot(d, i, n);
    StoredOwns(d, owner, meta, i, n, at, data);
    var d', s' := Stored(d, b, at, data), Splice(s, off, data);
    forall p | 0 <= p < |s'| ensures HoldsAt(d', i, p, s'[p]) {
      assert IsUse(d, i, p / BSIZE);
      if off <= p < off + |data| {
        assert p / BSIZE == n && p % BSIZE == at + (p - off);
        assert s'[p] == s'[off..off + |data|][p - off];
        assert Splice(d.blocks[b], at, data)[at..at + |data|][p - off] == data[p - off];
      } else {
        assert HoldsAt(d, i, p, s[p]);
        if p / BSIZE == n {
          assert !(at <= p % BSIZE < at + |data|);
        } else {
          assert Slot(d, i, p / BSIZE) != b;
        }
      }
    }
  }

  lemma SpliceNext(s: seq<int>, off: nat, src: seq<int>, tot: nat, m: nat)
    requires off <= |s| && tot + m <= |src|
    ensures off + tot <= |Splice(s, off, src[..tot])|
    ensures Splice(Splice(s, off, src[..tot]), off + tot, src[tot..tot + m]) == Splice(s, off, src[..tot + m])
  {
    assert src[..tot + m] == src[..tot] + src[tot..tot + m];
  }

  lemma SpliceRest(s: seq<int>, off: nat, src: seq<int>, tot: nat, n: nat)
    requires off <= |s| && tot + n <= |src|
    ensures off + tot <= |Splice(s, off, src[..tot])|
    ensures Splice(Splice(s, off, src[..tot]), off + tot, src[tot..][..n]) == Splice(s, off, src[..tot + n])
  {
    assert src[tot..][..n] == src[tot..tot + n];
    SpliceNext(s, off, src, tot, n);
  }

  lemma SpliceNothing(s: seq<int>, off: nat, src: seq<int>)
    requires off <= |s|
    ensures Splice(s, off, src[..0]) == s
  {
  }

  // ----- Truncation -----

  /** The bits with those of uses 0 to c-1 of inode i cleared */
  ghost predicate Cleared(bits: seq<bool>, bits': seq<bool>, owner: map<int, Use>, i: int, c: int) {
    && |bits'| == |bits|
    && forall b :: 0 <= b < |bits| ==> (bits'[b] <==> bits[b] && !(b in owner && owner[b].i == i && owner[b].k < c))
  }

  lemma ClearNext(d: Disk, bits: seq<bool>, owner: map<int, Use>, meta: int, i: int, c: int)
    requires Shaped(d) && Owns(d, owner, meta) && IsUse(d, i, c) && Cleared(d.bits, bits, owner, i, c)
    ensures var b := Slot(d, i, c);
            if b == 0 then Cleared(d.bits, bits, owner, i, c + 1)
            else 0 < b < |bits| && bits[b] && Cleared(d.bits, bits[b := false], owner, i, c + 1)
  {
  }

  function OthersUses(owner: map<int, Use>, i: int): map<int, Use> {
    map b | b in owner && owner[b].i != i :: owner[b]
  }

  function Emptied(): Inode {
    Inode(seq(NDIRECT + 1, _ => 0), 0)
  }

  lemma TruncOwns(d: Disk, d': Disk, owner: map<int, Use>, meta: int, i: int)
    requires Shaped(d) && Owns(d, owner, meta) && 0 <= i < |d.inodes|
    requires Cleared(d.bits, d'.bits, owner, i, MAXFILE + 1)
    requires d'.blocks == d.blocks && d'.inodes == d.inodes[i := Emptied()]
    ensures Shaped(d') && Owns(d', OthersUses(owner, i), meta)
    ensures forall i' :: i' != i ==> Keeps(d, d', i')
  {
    forall i', k | IsUse(d, i', k) ensures Slot(d', i', k) == if i' == i then 0 else Slot(d, i', k) {
      if i' != i {
        assert d'.inodes[i'] == d.inodes[i'];
      }
    }
  }

  ghost predicate Full(bits: seq<bool>) {
    forall b :: 0 <= b < |bits| ==> bits[b]
  }

  ghost predicate SameButAddrs(d: Disk, d': Disk, i: int) {
    && |d'.inodes| == |d.inodes| && |d'.bits| == |d.bits| && |d'.blocks| == |d.blocks|
    && forall j :: 0 <= j < |d.inodes| ==>
         d'.inodes[j].size == d.inodes[j].size && (j != i ==> d'.inodes[j] == d.inodes[j])
  }

  lemma SameAddrs(d: Disk, i: int)
    ensures SameButAddrs(d, d, i)
  {
  }

  lemma SameAddrsTrans(a: Disk, b: Disk, c: Disk, i: int)
    requires SameButAddrs(a, b, i) && SameButAddrs(b, c, i)
    ensures SameButAddrs(a, c, i)
  {
  }

  lemma KeepsSame(d: Disk)
    requires Shaped(d)
    ensures forall i :: Keeps(d, d, i)
  {
  }

  lemma KeepsAll(d: Disk, d': Disk, d'': Disk)
    requires Shaped(d) && Shaped(d') && Shaped(d'')
    requires forall i :: Keeps(d, d', i)
    requires forall i :: Keeps(d', d'', i)
    ensures forall i :: Keeps(d, d'', i)
  {
    forall i ensures Keeps(d, d'', i) {
      assert Keeps(d, d', i) && Keeps(d', d'', i);
    }
  }

  /** Block 0 is never handed out, so 0 can stand for "no block". */
  lemma BootInUse(d: Disk, owner: map<int, Use>, meta: int)
    requires Shaped(d) && Owns(d, owner, meta)
    ensures |d.bits| > 0 && d.bits[0]
  {
  }

  lemma NoIndirect(d: Disk, i: nat, n: nat)
    requires Shaped(d) && i < |d.inodes| && NDIRECT <= n < MAXFILE && d.inodes[i].addrs[NDIRECT] == 0
    ensures Slot(d, i, n) == 0
  {
  }

  lemma KeepsOthers(d: Disk, d': Disk, d'': Disk, i: int)
    requires Shaped(d) && Shaped(d') && Shaped(d'')
    requires forall j :: Keeps(d, d', j)
    requires forall j :: j != i ==> Keeps(d', d'', j)
    ensures forall j :: j != i ==> Keeps(d, d'', j)
  {
    forall j | j != i ensures Keeps(d, d'', j) {
      assert Keeps(d, d', j) && Keeps(d', d'', j);
    }
  }

  /** Changing only sizes changes neither ownership nor contents. */
  lemma SizeOnly(d: Disk, d': Disk, owner: map<int, Use>, meta: int)
    requires Shaped(d) && Owns(d, owner, meta)
    requires d'.bits == d.bits && d'.blocks == d.blocks && |d'.inodes| == |d.inodes|
    requires forall i :: 0 <= i < |d.inodes| ==> d'.inodes[i].addrs == d.inodes[i].addrs
    ensures Shaped(d') && Owns(d', owner, meta)
    ensures forall i, s :: Holds(d, i, s) ==> Holds(d', i, s)
  {
    forall i, k | IsUse(d, i, k) ensures Slot(d', i, k) == Slot(d, i, k) {
    }
    forall i, s | Holds(d, i, s) ensures Holds(d', i, s) {
      KeepsHolds(d, d', i, s);
    }
  }

  lemma ChunkOf(d: Disk, i: int, s: seq<int>, at: nat, m: nat)
    requires Shaped(d) && Holds(d, i, s) && at + m <= |s| && at % BSIZE + m <= BSIZE && m > 0
    ensures at / BSIZE < MAXFILE
    ensures var b := Slot(d, i, at / BSIZE);
            0 < b < |d.blocks| && d.blocks[b][at % BSIZE..at % BSIZE + m] == s[at..at + m]
  {
    var b := Slot(d, i, at / BSIZE);
    forall p | at <= p < at + m ensures 0 < b < |d.blocks| && d.blocks[b][p % BSIZE] == s[p] {
      assert HoldsAt(d, i, p, s[p]);
      assert p / BSIZE == at / BSIZE;
    }
    assert HoldsAt(d, i, at, s[at]);
    var x, y := d.blocks[b][at % BSIZE..at % BSIZE + m], s[at..at + m];
    forall q | 0 <= q < m ensures x[q] == y[q] {
      assert (at + q) % BSIZE == at % BSIZE + q;
      assert s[at + q] == y[q];
    }
  }

  /** The first k addresses of inode i are 0; nothing else about the inodes changed. */
  ghost predicate NoDirect(d: Disk, d': Disk, i: nat, k: nat)
    requires i < |d.inodes|
  {
    && |d'.inodes| == |d.inodes| && |d'.inodes[i].addrs| == |d.inodes[i].addrs|
    && (forall j :: 0 <= j < |d.inodes| && j != i ==> d'.inodes[j] == d.inodes[j])
    && forall j :: 0 <= j < |d.inodes[i].addrs| ==> d'.inodes[i].addrs[j] == if j < k then 0 else d.inodes[i].addrs[j]
  }

  lemma ClearedNone(d: Disk, owner: map<int, Use>, meta: int, i: int)
    requires Shaped(d) && Owns(d, owner, meta)
    ensures Cleared(d.bits, d.bits, owner, i, 0)
  {
  }

  lemma NothingIndirect(d: Disk, bits: seq<bool>, owner: map<int, Use>, meta: int, i: nat)
    requires Shaped(d) && Owns(d, owner, meta) && i < |d.inodes| && d.inodes[i].addrs[NDIRECT] == 0
    requires Cleared(d.bits, bits, owner, i, NDIRECT)
    ensures Cleared(d.bits, bits, owner, i, MAXFILE + 1)
  {
  }

  /** What reading n bytes of a file at off gives: the part that is there */
  function ReadAt(s: seq<int>, off: nat, n: nat): seq<int> {
    if off > |s| || off + n >= U32 then [] else s[off..Min(off + n, |s|)]
  }

  lemma EmptyOwns(d: Disk, meta: nat)
    requires 1 <= meta <= |d.bits| == |d.blocks| < U32
    requires forall b :: 0 <= b < |d.blocks| ==> |d.blocks[b]| == BSIZE
    requires forall i :: 0 <= i < |d.inodes| ==> d.inodes[i] == Emptied()
    requires forall b :: 0 <= b < |d.bits| ==> (d.bits[b] <==> b < meta)
    ensures Shaped(d) && Owns(d, map[], meta) && forall i :: 0 <= i < |d.inodes| ==> Holds(d, i, [])
  {
  }

  /** How much of n bytes at off one step takes: up to the end of the block */
  function Piece(off: nat, n: nat): nat {
    Min(n, BSIZE - off % BSIZE)
  }

  /** A file after writing r bytes of src at off, when `extra` more were copied but not counted */
  function Written(s: seq<int>, off: nat, src: seq<int>, r: nat, extra: nat): seq<int>
    requires off <= |s| && r + extra <= |src|
  {
    Splice(s, off, src[..r + extra])[..Max(|s|, off + r)]
  }

  lemma WrittenBytes(s: seq<int>, off: nat, src: seq<int>, r: nat, extra: nat)
    requires off <= |s| && r + extra <= |src|
    ensures var s' := Written(s, off, src, r, extra);
            && |s'| == (if off + r > |s| then off + r else |s|)
            && forall p :: 0 <= p < |s'| ==> s'[p] == if off <= p < off + r + extra then src[p - off] else s[p]
  {
  }

  /** Without a failed copy: the old file with the bytes written spliced in */
  lemma WrittenExactly(s: seq<int>, off: nat, src: seq<int>, r: nat)
    requires off <= |s| && r <= |src|
    ensures Written(s, off, src, r, 0) == Splice(s, off, src[..r])
  {
  }

  lemma HoldsPrefix(d: Disk, i: int, s: seq<int>, n: nat)
    requires Shaped(d) && Holds(d, i, s) && n <= |s|
    ensures Holds(d, i, s[..n])
  {
    forall p | 0 <= p < n ensures HoldsAt(d, i, p, s[..n][p]) {
      assert HoldsAt(d, i, p, s[p]);
    }
  }

  // ----- What is logged -----

  /** The indirect block of an inode, or 0 */
  function Ind(d: Disk, i: nat): int {
    if i < |d.inodes| && |d.inodes[i].addrs| > NDIRECT then d.inodes[i].addrs[NDIRECT] else 0
  }

  /** The block a call of log_write is for: one of the bitmap, a data or indirect block, or the one
      with an inode */
  datatype Logged = Bits(q: nat) | Block(b: int) | InodeOf(i: nat)

  ghost function Elems(calls: seq<Logged>): set<Logged> {
    set x | x in calls
  }

  /** The calls in balloc */
  function NewBlock(addr: int): seq<Logged> {
    if addr <= 0 then [] else [Bits(BlockOf(addr)), Block(addr)]
  }

  ghost function About(addr: int): set<Logged> {
    if addr <= 0 then {} else {Bits(BlockOf(addr)), Block(addr)}
  }

  /** The new calls are for these blocks only. */
  ghost predicate Adds(before: seq<Logged>, after: seq<Logged>, what: set<Logged>) {
    before <= after && Elems(after[|before|..]) <= what
  }

  /** Every change of a block or of the bitmap was logged. */
  ghost predicate Logs(d: Disk, m: Bitmap, before: seq<Logged>, d': Disk, m': Bitmap, after: seq<Logged>) {
    && before <= after && |d'.blocks| == |d.blocks| && |m'| == |m|
    && (forall b :: 0 <= b < |d.blocks| && d'.blocks[b] != d.blocks[b] ==> Block(b) in after[|before|..])
    && (forall q :: 0 <= q < |m| && m'[q] != m[q] ==> Bits(q) in after[|before|..])
  }

  lemma LogsSame(d: Disk, m: Bitmap, calls: seq<Logged>)
    ensures Logs(d, m, calls, d, m, calls) && Adds(calls, calls, {})
  {
  }

  /** Changes of inodes and more calls do not matter. */
  lemma LogsMore(d: Disk, m: Bitmap, a: seq<Logged>, d': Disk, m': Bitmap, b: seq<Logged>, d'': Disk, x: Logged)
    requires Logs(d, m, a, d', m', b) && d''.blocks == d'.blocks
    ensures Logs(d, m, a, d'', m', b + [x])
  {
    assert (b + [x])[|a|..] == b[|a|..] + [x];
  }

  lemma LogsAnyInodes(d: Disk, m: Bitmap, a: seq<Logged>, d': Disk, m': Bitmap, b: seq<Logged>, x: Logged)
    requires Logs(d, m, a, d', m', b)
    ensures forall inodes :: Logs(d, m, a, d'.(inodes := inodes), m', b + [x])
  {
    forall inodes ensures Logs(d, m, a, d'.(inodes := inodes), m', b + [x]) {
      LogsMore(d, m, a, d', m', b, d'.(inodes := inodes), x);
    }
  }

  lemma Later(before: seq<Logged>, middle: seq<Logged>, after: seq<Logged>, x: Logged)
    requires before <= middle <= after
    ensures x in after[|before|..] <==> x in middle[|before|..] || x in after[|middle|..]
  {
    assert after[|before|..] == middle[|before|..] + after[|middle|..];
  }

  lemma LogsTrans(d: Disk, m: Bitmap, a: seq<Logged>, d': Disk, m': Bitmap, b: seq<Logged>, d'': Disk, m'': Bitmap,
                  c: seq<Logged>)
    requires Logs(d, m, a, d', m', b) && Logs(d', m', b, d'', m'', c)
    ensures Logs(d, m, a, d'', m'', c)
  {
    forall k | 0 <= k < |d.blocks| && d''.blocks[k] != d.blocks[k] ensures Block(k) in c[|a|..] {
      Later(a, b, c, Block(k));
    }
    forall q | 0 <= q < |m| && m''[q] != m[q] ensures Bits(q) in c[|a|..] {
      Later(a, b, c, Bits(q));
    }
  }

  lemma AddsTrans(a: seq<Logged>, b: seq<Logged>, c: seq<Logged>, x: set<Logged>, y: set<Logged>, what: set<Logged>)
    requires Adds(a, b, x) && Adds(b, c, y) && x + y <= what
    ensures Adds(a, c, what)
  {
    forall z | z in c[|a|..] ensures z in what {
      Later(a, b, c, z);
      assert z in b[|a|..] ==> z in Elems(b[|a|..]);
      assert z in c[|b|..] ==> z in Elems(c[|b|..]);
    }
  }

  lemma AddsMore(a: seq<Logged>, b: seq<Logged>, x: set<Logged>, what: set<Logged>)
    requires Adds(a, b, x) && x <= what
    ensures Adds(a, b, what)
  {
  }

  lemma NewBlockIs(before: seq<Logged>, after: seq<Logged>, addr: int)
    ensures addr == 0 && after == before ==> after == before + NewBlock(addr)
    ensures addr > 0 && after == before + [Bits(BlockOf(addr)), Block(addr)] ==> after == before + NewBlock(addr)
  {
  }

  lemma AddsAny(calls: seq<Logged>)
    ensures forall what :: Adds(calls, calls, what)
  {
  }

  lemma NewBlockAdds(calls: seq<Logged>, addr: int)
    ensures Adds(calls, calls + NewBlock(addr), About(addr))
  {
    assert (calls + NewBlock(addr))[|calls|..] == NewBlock(addr);
  }

  lemma AboutBlock(addr: int)
    ensures addr > 0 ==> Block(addr) in About(addr)
  {
  }

  /** A block is written and logged. */
  lemma BlockLogs(d: Disk, m: Bitmap, calls: seq<Logged>, b: int, data: seq<int>)
    requires 0 <= b < |d.blocks|
    ensures Logs(d, m, calls, d.(blocks := d.blocks[b := data]), m, calls + [Block(b)])
    ensures Adds(calls, calls + [Block(b)], {Block(b)})
  {
    assert (calls + [Block(b)])[|calls|..] == [Block(b)];
  }

  /** balloc: the bit is set and the block cleared. */
  lemma TakenLogs(d: Disk, m: Bitmap, calls: seq<Logged>, addr: nat)
    requires addr < |d.blocks| == |d.bits| && BlockOf(addr) < |m| && ByteOf(addr) < |m[BlockOf(addr)]|
    ensures Logs(d, m, calls, Taken(d, addr), WithBit(m, addr, true), calls + [Bits(BlockOf(addr)), Block(addr)])
  {
    var more := [Bits(BlockOf(addr)), Block(addr)];
    assert (calls + more)[|calls|..] == more;
  }

  lemma FreedLogs(d: Disk, m: Bitmap, calls: seq<Logged>, b: nat)
    ensures BlockOf(b) < |m| && ByteOf(b) < |m[BlockOf(b)]| ==>
              forall bits :: Logs(d, m, calls, d.(bits := bits), WithBit(m, b, false), calls + [Bits(BlockOf(b))])
  {
    assert (calls + [Bits(BlockOf(b))])[|calls|..] == [Bits(BlockOf(b))];
  }

  // ----- How many blocks a write logs -----

  /** How many blocks n bytes at off touch */
  function Span(off: nat, n: nat): nat {
    if n == 0 then 0 else (off + n - 1) / BSIZE - off / BSIZE + 1
  }

  /** Logged blocks apart from the indirect block and its bit: two for each block written, but one for
      a block the file has already, as the first has unless off is at its start */
  function SpanCost(off: nat, n: nat): int {
    if n == 0 then 0 else 2 * Span(off, n) - (if off % BSIZE == 0 then 0 else 1)
  }

  lemma SpanNext(off: nat, tot: nat, m: nat)
    requires tot > 0 ==> (off + tot) % BSIZE == 0
    requires 0 < m <= BSIZE - (off + tot) % BSIZE
    ensures Span(off, tot + m) == Span(off, tot) + 1
  {
  }

  lemma SpanGrows(off: nat, n: nat, n': nat)
    requires n <= n'
    ensures SpanCost(off, n) <= SpanCost(off, n')
  {
  }

  /** The most that filewrite passes to writei at once */
  const MAXWRITE := (MAXOPBLOCKS - 1 - 1 - 2) / 2 * BSIZE

  lemma WriteFits(off: nat, n: nat)
    requires n <= MAXWRITE
    ensures SpanCost(off, n) + 2 < MAXOPBLOCKS && MAXWRITE == 3 * 1024
  {
  }

  lemma NothingStored(d: Disk, m: Bitmap, calls: seq<Logged>, b: int, off: nat, data: seq<int>)
    requires 0 <= b < |d.blocks| && off <= |d.blocks[b]|
    ensures data == [] ==> Logs(d, m, calls, d.(blocks := d.blocks[b := Splice(d.blocks[b], off, data)]), m, calls)
  {
  }

  lemma MoreElems(calls: seq<Logged>, k: nat)
    requires k <= |calls|
    ensures Elems(calls[..k]) <= Elems(calls) && |Elems(calls[..k])| <= |Elems(calls)|
  {
    SubsetSize(Elems(calls[..k]), Elems(calls));
  }

  lemma {:induction false} SubsetSize(a: set<Logged>, b: set<Logged>)
    requires a <= b
    ensures |a| <= |b|
    decreases b
  {
    if x :| x in b {
      SubsetSize(a - {x}, b - {x});
    }
  }

  /** Not counting the indirect block and its bit, the new calls are for at most n blocks. */
  ghost predicate Few(before: seq<Logged>, after: seq<Logged>, ind: int, n: int) {
    before <= after && |Elems(after[|before|..]) - About(ind)| <= n
  }

  lemma FewNext(a: seq<Logged>, b: seq<Logged>, c: seq<Logged>, ind: int, ind': int, at: int, n: int)
    requires Few(a, b, ind, n) && (ind != 0 ==> ind' == ind)
    ensures Adds(b, c, About(ind') + About(at)) ==> Few(a, c, ind', n + 2)
    ensures Adds(b, c, {Block(at)}) ==> Few(a, c, ind', n + 1)
  {
    if Adds(b, c, About(ind') + About(at)) {
      FewMore(a, b, c, ind, ind', About(at), n);
    }
    if Adds(b, c, {Block(at)}) {
      FewMore(a, b, c, ind, ind', {Block(at)}, n);
    }
  }

  lemma FewMore(a: seq<Logged>, b: seq<Logged>, c: seq<Logged>, ind: int, ind': int, what: set<Logged>, n: int)
    requires Few(a, b, ind, n) && (ind != 0 ==> ind' == ind) && Adds(b, c, About(ind') + what)
    ensures Few(a, c, ind', n + |what|)
  {
    hide About;
    AboutNone(ind);
    var x, y := Elems(b[|a|..]) - About(ind), Elems(c[|a|..]) - About(ind');
    forall z | z in y ensures z in x + what {
      Later(a, b, c, z);
      assert z in c[|b|..] ==> z in Elems(c[|b|..]);
    }
    SubsetSize(y, x + what);
  }

  lemma AboutNone(ind: int)
    ensures ind == 0 ==> About(ind) == {}
    ensures |About(ind)| <= 2
  {
  }

  lemma CostNext(off: nat, tot: nat, left: nat)
    requires (tot > 0 ==> (off + tot) % BSIZE == 0) && left > 0
    ensures var m := Piece(off + tot, left);
            SpanCost(off, tot + m) == SpanCost(off, tot) + (if tot == 0 && off % BSIZE != 0 then 1 else 2)
  {
    SpanNext(off, tot, Piece(off + tot, left));
  }

  lemma ChunkCost(a: seq<Logged>, b: seq<Logged>, c: seq<Logged>, ind: int, ind': int, at: int, off: nat, tot: nat,
                  n: nat)
    requires tot < n && (tot > 0 ==> (off + tot) % BSIZE == 0) && Few(a, b, ind, SpanCost(off, tot))
    requires (ind != 0 ==> ind' == ind) && Adds(b, c, About(ind') + About(at))
    requires tot == 0 && off % BSIZE != 0 ==> Adds(b, c, {Block(at)})
    ensures var m := Piece(off + tot, n - tot);
            && 0 < m <= n - tot && (tot + m < n ==> (off + tot + m) % BSIZE == 0)
            && Few(a, c, ind', SpanCost(off, tot + m)) && Few(a, c, ind', SpanCost(off, n))
  {
    hide Few, Adds, About, SpanCost, Piece;
    var m := Piece(off + tot, n - tot);
    FewNext(a, b, c, ind, ind', at, SpanCost(off, tot));
    CostNext(off, tot, n - tot);
    PieceFits(off + tot, n - tot);
    SpanGrows(off, tot + m, n);
    FewWider(a, c, ind', SpanCost(off, tot + m), SpanCost(off, n));
  }

  lemma FrugalNone()
    ensures Frugal([])
  {
  }

  lemma FewPrefix(a: seq<Logged>, b: seq<Logged>, ind: int, n: int)
    requires Few(a, b, ind, n)
    ensures a <= b
  {
  }

  lemma LogsShape(d: Disk, m: Bitmap, a: seq<Logged>, d': Disk, m': Bitmap, b: seq<Logged>)
    requires Logs(d, m, a, d', m', b)
    ensures |m'| == |m| && |d'.blocks| == |d.blocks| && a <= b
  {
  }

  lemma LogsInodes(d: Disk, m: Bitmap, a: seq<Logged>, d': Disk, m': Bitmap, b: seq<Logged>)
    requires Logs(d, m, a, d', m', b)
    ensures forall inodes :: Logs(d, m, a, d'.(inodes := inodes), m', b)
  {
  }

  lemma BitsAdd(a: seq<Logged>, b: seq<Logged>, n: nat)
    requires b == a || exists q: nat :: q < n && b == a + [Bits(q)]
    ensures Adds(a, b, AllBits(n))
  {
    if b != a {
      var q: nat :| q < n && b == a + [Bits(q)];
      assert b[|a|..] == [Bits(q)];
    }
  }

  lemma FrugalBits(a: seq<Logged>, b: seq<Logged>, n: nat, x: Logged)
    requires Adds(a, b, AllBits(n))
    ensures n < MAXOPBLOCKS ==> Frugal((b + [x])[|a|..])
  {
    assert (b + [x])[|a|..] == b[|a|..] + [x];
    if n < MAXOPBLOCKS {
      FrugalThen(b[|a|..], AllBits(n), x);
    }
  }

  lemma FewNone(calls: seq<Logged>, ind: int, off: nat)
    ensures Few(calls, calls, ind, SpanCost(off, 0))
  {
    assert Elems(calls[|calls|..]) - About(ind) == {};
  }

  lemma FewWider(a: seq<Logged>, b: seq<Logged>, ind: int, n: int, n': int)
    requires Few(a, b, ind, n) && n <= n'
    ensures Few(a, b, ind, n')
  {
  }

  lemma PieceFits(off: nat, n: nat)
    requires n > 0
    ensures 0 < Piece(off, n) <= n && (Piece(off, n) < n ==> (off + Piece(off, n)) % BSIZE == 0)
  {
  }

  /** A file has the block before its end, unless that starts a block. */
  lemma HeldSlot(d: Disk, i: int, s: seq<int>, off: nat)
    requires Shaped(d) && Holds(d, i, s) && off <= |s| && off % BSIZE != 0
    ensures off / BSIZE < MAXFILE && Slot(d, i, off / BSIZE) != 0
  {
    assert HoldsAt(d, i, off - 1, s[off - 1]);
    assert (off - 1) / BSIZE == off / BSIZE;
  }

  function AllBits(n: nat): (r: set<Logged>)
    ensures |r| == n && forall x :: x in r <==> x.Bits? && x.q < n
  {
    if n == 0 then {} else AllBits(n - 1) + {Bits(n - 1)}
  }

  /** A few blocks, then the inode */
  lemma FrugalThen(calls: seq<Logged>, what: set<Logged>, x: Logged)
    requires Elems(calls) <= what && |what| < MAXOPBLOCKS
    ensures Frugal(calls + [x])
  {
    SubsetSize(Elems(calls), what);
    forall k | 0 <= k < |calls + [x]| ensures |Elems((calls + [x])[..k])| < MAXOPBLOCKS {
      assert (calls + [x])[..k] == calls[..k];
      MoreElems(calls, k);
    }
  }

  lemma FrugalWrite(before: seq<Logged>, after: seq<Logged>, ind: int, off: nat, n: nat, x: Logged)
    requires Few(before, after, ind, SpanCost(off, n)) && n <= MAXWRITE
    ensures Frugal((after + [x])[|before|..])
  {
    var calls := after[|before|..];
    assert (after + [x])[|before|..] == calls + [x];
    WriteFits(off, n);
    AboutNone(ind);
    var what := (Elems(calls) - About(ind)) + About(ind);
    FrugalThen(calls, what, x);
  }

  /** What an operation may do to the log without overfilling it: no call once MAXOPBLOCKS different
      blocks have been logged */
  ghost predicate Frugal(calls: seq<Logged>) {
    forall k :: 0 <= k < |calls| ==> |Elems(calls[..k])| < MAXOPBLOCKS
  }

  /** Whatever the block numbers of the three kinds are, that many different blocks they are at most. */
  lemma FrugalBlocks(calls: seq<Logged>, number: Logged -> int, k: nat)
    requires Frugal(calls) && k < |calls|
    ensures |set x | x in calls[..k] :: number(x)| < MAXOPBLOCKS
  {
    ImageSize(Elems(calls[..k]), number);
    assert (set x | x in calls[..k] :: number(x)) == set x | x in Elems(calls[..k]) :: number(x);
  }

  lemma {:induction false} ImageSize(a: set<Logged>, number: Logged -> int)
    ensures |set x | x in a :: number(x)| <= |a|
    decreases a
  {
    if y :| y in a {
      ImageSize(a - {y}, number);
      assert (set x | x in a :: number(x)) == (set x | x in a - {y} :: number(x)) + {number(y)};
    }
  }

  class FileSystem {
    const meta: int
    var d: Disk
    var bitmap: Bitmap
    var dinodes: seq<Inode>  // the inodes on disk
    ghost var owner: map<int, Use>
    ghost var files: seq<seq<int>>
    ghost var calls: seq<Logged>  // of log_write

    ghost predicate Consistent()
      reads this
    {
      Shaped(d) && Packed(bitmap, d.bits) && Owns(d, owner, meta) && |files| == |dinodes| == |d.inodes|
    }

    /** What holds between operations: ownership, the meaning of every file, and inodes on
        disk equal to those in memory. */
    ghost predicate Valid()
      reads this
    {
      && Consistent() && dinodes == d.inodes
      && (forall i :: 0 <= i < |files| ==> |files[i]| == d.inodes[i].size && Holds(d, i, files[i]))
    }

    /** An empty file system: the first `meta` blocks are in use, no inode has a block. */
    constructor (size: nat, meta: nat, ninodes: nat)
      requires 1 <= meta <= size < U32
      ensures Valid() && files == seq(ninodes, _ => []) && owner == map[] && calls == []
    {
      this.meta := meta;
      d := Disk(seq(size, _ => false), seq(size, _ => Zeros()), seq(ninodes, _ => Emptied()));
      bitmap := seq(size / BPB + 1, _ => seq(BSIZE, _ => 0));
      dinodes := seq(ninodes, _ => Emptied());
      owner, files, calls := map[], seq(ninodes, _ => []), [];
      new;
      var used := 0;
      while used < meta
        invariant used <= meta && |d.bits| == size && Packed(bitmap, d.bits)
        invariant d == Disk(d.bits, seq(size, _ => Zeros()), seq(ninodes, _ => Emptied()))
        invariant forall b :: 0 <= b < size ==> (d.bits[b] <==> b < used)
        invariant dinodes == d.inodes && owner == map[] && files == seq(ninodes, _ => []) && calls == []
      {
        PackedWith(bitmap, d.bits, used, true);
        bitmap := WithBit(bitmap, used, true);
        d := d.(bits := d.bits[used := true]);
        used := used + 1;
      }
      EmptyOwns(d, meta);
    }

    /** Takes the lowest free block and clears it; 0 if there is none. */
    method Balloc() returns (addr: int)
      requires |d.bits| == |d.blocks| && Packed(bitmap, d.bits)
      modifies this`d, this`bitmap, this`calls
      ensures Packed(bitmap, d.bits)
      ensures Full(old(d.bits)) ==> addr == 0 && d == old(d) && bitmap == old(bitmap)
      ensures !Full(old(d.bits)) ==>
                && 0 <= addr < |old(d.bits)| && !old(d.bits)[addr]
                && (forall b :: 0 <= b < addr ==> old(d.bits)[b])
                && d == Taken(old(d), addr) && calls == old(calls) + [Bits(BlockOf(addr)), Block(addr)]
      ensures Full(old(d.bits)) ==> calls == old(calls)
      ensures Logs(old(d), old(bitmap), old(calls), d, bitmap, calls)
    {
      addr := LowestClear();
      LogsSame(d, bitmap, calls);
      if addr == |d.bits| {
        return 0;
      }
      PackedWith(bitmap, d.bits, addr, true);
      hide Packed, WithBit, Logs;
      TakenLogs(d, bitmap, calls, addr);
      bitmap := WithBit(bitmap, addr, true);
      d := d.(bits := d.bits[addr := true]);
      d := d.(blocks := d.blocks[addr := Zeros()]);
      calls := calls + [Bits(BlockOf(addr)), Block(addr)];
    }

    /** The loops of balloc, over the bitmap blocks and the bits of each: the lowest clear bit, or
        the size if there is none. */
    method LowestClear() returns (addr: nat)
      requires Packed(bitmap, d.bits)
      ensures addr <= |d.bits| && (addr < |d.bits| ==> !d.bits[addr])
      ensures forall b :: 0 <= b < addr ==> d.bits[b]
    {
      hide Packed, BitIn, BitAt;
      var b := 0;
      while b < |d.bits|
        invariant b >= 0 && b % BPB == 0
        invariant forall c :: 0 <= c < b && c < |d.bits| ==> d.bits[c]
      {
        PlaceIn(bitmap, d.bits, b, 0);
        var data := bitmap[b / BPB];
        var bi := 0;
        while bi < BPB && b + bi < |d.bits|
          invariant 0 <= bi <= BPB
          invariant forall c :: 0 <= c < b + bi && c < |d.bits| ==> d.bits[c]
        {
          PlaceIn(bitmap, d.bits, b, bi);
          if !BitIn(data[bi / 8], bi % 8) {
            return b + bi;
          }
          bi := bi + 1;
        }
        b := b + BPB;
      }
      addr := |d.bits|;
    }

    /** Clears a block's bit; `ok` is false where the kernel panics. */
    method Bfree(b: nat) returns (ok: bool)
      requires b < |d.bits| && Packed(bitmap, d.bits)
      modifies this`d, this`bitmap, this`calls
      ensures Packed(bitmap, d.bits) && ok == old(d.bits)[b]
      ensures BlockOf(b) < |old(bitmap)| && calls == old(calls) + (if ok then [Bits(BlockOf(b))] else [])
      ensures Logs(old(d), old(bitmap), old(calls), d, bitmap, calls)
      ensures d == if ok then old(d).(bits := old(d.bits)[b := false]) else old(d)
    {
      hide BlockOf, ByteOf, BitOf, BitIn, WithBit, Logs;
      FreedLogs(d, bitmap, calls, b);
      PackedWith(bitmap, d.bits, b, false);
      if !BitIn(bitmap[BlockOf(b)][ByteOf(b)], BitOf(b)) {
        LogsSame(d, bitmap, calls);
        return false;
      }
      bitmap := WithBit(bitmap, b, false);
      d := d.(bits := d.bits[b := false]);
      calls := calls + [Bits(BlockOf(b))];
      ok := true;
    }

    /** Takes a block for entry k of an inode's address list. */
    method TakeForAddr(i: nat, k: nat) returns (addr: int)
      requires Consistent() && i < |d.inodes| && k <= NDIRECT && d.inodes[i].addrs[k] == 0
      modifies this`d, this`bitmap, this`owner, this`calls
      ensures Consistent() && (forall j :: Keeps(old(d), d, j)) && SameButAddrs(old(d), d, i)
      ensures addr == 0 ==> Full(d.bits) && d == old(d) && owner == old(owner) && bitmap == old(bitmap)
      ensures calls == old(calls) + NewBlock(addr) && addr >= 0
      ensures Logs(old(d), old(bitmap), old(calls), d, bitmap, calls)
      ensures k < NDIRECT ==> d.inodes[i].addrs[NDIRECT] == old(d.inodes[i].addrs[NDIRECT])
      ensures addr != 0 ==>
                addr == d.inodes[i].addrs[k] && Recorded(old(d), d, i, if k < NDIRECT then k else MAXFILE, addr)
    {
      BootInUse(d, owner, meta);
      hide Packed, Owns, Slot, Recorded, Logs;
      KeepsSame(d);
      ghost var d0 := d;
      addr := Balloc();
      if addr != 0 {
        TakeAddr(d0, owner, meta, i, k, addr);
        d := d.(inodes := d.inodes[i := d.inodes[i].(addrs := d.inodes[i].addrs[k := addr])]);
        owner := owner[addr := Use(i, if k < NDIRECT then k else MAXFILE)];
      }
    }

    /** Takes a block for an entry of the indirect block, if the entry has none. */
    method TakeForEntry(i: nat, ind: int, j: nat) returns (addr: int)
      requires Consistent() && i < |d.inodes| && ind == d.inodes[i].addrs[NDIRECT] != 0 && j < NINDIRECT
      modifies this`d, this`bitmap, this`owner, this`calls
      ensures Consistent() && (forall i' :: Keeps(old(d), d, i')) && SameButAddrs(old(d), d, i)
      ensures addr == 0 ==> Full(d.bits)
      ensures Adds(old(calls), calls, About(ind) + About(addr)) && d.inodes == old(d.inodes)
      ensures Logs(old(d), old(bitmap), old(calls), d, bitmap, calls)
      ensures addr != 0 ==> addr == Slot(d, i, NDIRECT + j)
      ensures old(Slot(d, i, NDIRECT + j)) != 0 ==>
                d == old(d) && owner == old(owner) && bitmap == old(bitmap) && calls == old(calls) &&
                addr == old(Slot(d, i, NDIRECT + j))
    {
      hide Packed, Owns, Keeps, Logs, Adds, About, NewBlock;
      BootInUse(d, owner, meta);
      IndirectBlock(d, owner, meta, i);
      KeepsSame(d);
      ghost var d0, m0, c0 := d, bitmap, calls;
      LogsSame(d, bitmap, calls);
      AddsMore(calls, calls, {}, About(ind) + About(Entry(d.blocks[ind], j)));
      addr := Entry(d.blocks[ind], j);
      assert addr == Slot(d, i, NDIRECT + j);
      if addr == 0 {
        addr := Balloc();
        NewBlockIs(c0, calls, addr);
        NewBlockAdds(c0, addr);
        AddsMore(c0, calls, About(addr), About(ind) + About(addr));
        if addr != 0 {
          TakeEntry(d0, owner, meta, i, j, addr);
          BlockLogs(d, bitmap, calls, ind, SetEntry(d.blocks[ind], j, addr));
          LogsTrans(d0, m0, c0, d, bitmap, calls,
                    d.(blocks := d.blocks[ind := SetEntry(d.blocks[ind], j, addr)]), bitmap, calls + [Block(ind)]);
          AboutBlock(ind);
          AddsTrans(c0, calls, calls + [Block(ind)], About(addr), {Block(ind)}, About(ind) + About(addr));
          calls := calls + [Block(ind)];
          d := d.(blocks := d.blocks[ind := SetEntry(d.blocks[ind], j, addr)]);
          owner := owner[addr := Use(i, NDIRECT + j)];
        }
      }
    }

    /** The block of position bn, allocating it and the indirect block as needed; 0 if the
        disk is full, `ok` false where the kernel panics.  Nothing already in a file is lost,
        and a position that has a block is only looked up. */
    method Bmap(i: nat, bn: nat) returns (ok: bool, addr: int)
      requires Consistent() && i < |d.inodes|
      modifies this`d, this`bitmap, this`owner, this`calls
      ensures Consistent() && ok == (bn < MAXFILE)
      ensures (forall j :: Keeps(old(d), d, j)) && SameButAddrs(old(d), d, i)
      ensures ok && addr != 0 ==> addr == Slot(d, i, bn)
      ensures ok && addr == 0 ==> Full(d.bits)
      ensures !ok || old(Slot(d, i, bn)) != 0 ==>
                d == old(d) && owner == old(owner) && bitmap == old(bitmap) && calls == old(calls)
      ensures var was, ind := old(Ind(d, i)), Ind(d, i);
              (was != 0 ==> ind == was) && Adds(old(calls), calls, About(ind) + About(addr))
      ensures Logs(old(d), old(bitmap), old(calls), d, bitmap, calls)
      ensures ok && old(Slot(d, i, bn)) != 0 ==> addr == old(Slot(d, i, bn))
    {
      hide Packed, Owns, Slot, WithAddr, WithEntry, Taken, Full, Entry, Logs, Adds, About, NewBlock;
      ghost var d0, m0, c0 := d, bitmap, calls;
      KeepsSame(d);
      LogsSame(d, bitmap, calls);
      AddsAny(calls);
      ok, addr := true, 0;
      if bn < NDIRECT {
        AddrSlot(d, i, bn);
        addr := d.inodes[i].addrs[bn];
        if addr == 0 {
          addr := TakeForAddr(i, bn);
          NewBlockAdds(c0, addr);
          AddsMore(c0, calls, About(addr), About(Ind(d, i)) + About(addr));
        }
      } else if bn - NDIRECT < NINDIRECT {
        AddrSlot(d, i, NDIRECT);
        var ind := d.inodes[i].addrs[NDIRECT];
        if ind == 0 {
          NoIndirect(d, i, bn);
          ind := TakeForAddr(i, NDIRECT);
          NewBlockAdds(c0, ind);
          AddsMore(c0, calls, About(ind), About(ind) + About(0));
          if ind == 0 {
            return;
          }
        }
        ghost var d1, m1, c1 := d, bitmap, calls;
        addr := TakeForEntry(i, ind, bn - NDIRECT);
        LogsTrans(d0, m0, c0, d1, m1, c1, d, bitmap, calls);
        AddsTrans(c0, c1, calls, About(ind), About(ind) + About(addr), About(ind) + About(addr));
        KeepsAll(d0, d1, d);
      } else {
        ok := false;
      }
    }

    /** One step of writei: the next bytes up to the end of the block; `m` is 0 if there is no
        block, or if copying from the caller fails, after `part` bytes. */
    method WriteChunk(i: nat, off: nat, rest: seq<int>, sound: nat, ghost s: seq<int>)
      returns (m: nat, part: nat, ghost at: int)
      requires Consistent() && i < |d.inodes| && off + |rest| <= MAXFILE * BSIZE && rest != []
      requires Holds(d, i, s) && off <= |s|
      modifies this`d, this`bitmap, this`owner, this`calls
      ensures Consistent() && SameButAddrs(old(d), d, i) && m + part <= |rest|
      ensures Holds(d, i, Splice(s, off, rest[..m + part]))
      ensures forall j :: j != i ==> Keeps(old(d), d, j)
      ensures m == 0 || m == Piece(off, |rest|)
      ensures m == 0 ==> Full(d.bits) || sound < Piece(off, |rest|)
      ensures part == 0 ==> Logs(old(d), old(bitmap), old(calls), d, bitmap, calls)
      ensures var was, ind := old(Ind(d, i)), Ind(d, i);
              (was != 0 ==> ind == was) && Adds(old(calls), calls, About(ind) + About(at))
      ensures old(Slot(d, i, off / BSIZE)) != 0 ==> Adds(old(calls), calls, {Block(at)})
      ensures if part > 0 then m == 0 && part <= sound < |rest| else m <= sound
    {
      hide Packed, Owns, Slot, Holds, Keeps, Logs, Adds, About;
      ghost var d0, m0, c0 := d, bitmap, calls;
      m, part := 0, 0;
      var ok, addr := Bmap(i, off / BSIZE);
      at := addr;
      AddsAny(calls);
      assert Keeps(d0, d, i);
      KeepsHolds(d0, d, i, s);
      if addr == 0 {
        assert Splice(s, off, rest[..0]) == s;
        return;
      }
      ghost var d1, c1 := d, calls;
      m, part := StoreChunk(i, off, addr, rest, sound, s);
      KeepsOthers(d0, d1, d, i);
      if part == 0 {
        LogsTrans(d0, m0, c0, d1, bitmap, c1, d, bitmap, calls);
      }
      AboutBlock(addr);
      ghost var near := About(Ind(d, i)) + About(addr);
      AddsTrans(c0, c1, calls, near, {Block(addr)}, near);
    }

    /** The rest of a step of writei, once the block is found */
    method StoreChunk(i: nat, off: nat, addr: int, rest: seq<int>, sound: nat, ghost s: seq<int>)
      returns (m: nat, part: nat)
      requires Consistent() && i < |d.inodes| && off + |rest| <= MAXFILE * BSIZE && rest != []
      requires Holds(d, i, s) && off <= |s| && addr == Slot(d, i, off / BSIZE) != 0
      modifies this`d, this`calls
      ensures Consistent() && m + part <= |rest| && (m == 0 || m == Piece(off, |rest|))
      ensures 0 < addr < |old(d).blocks| && d == old(d).(blocks := old(d).blocks[addr := d.blocks[addr]])
      ensures Holds(d, i, Splice(s, off, rest[..m + part]))
      ensures forall j :: j != i ==> Keeps(old(d), d, j)
      ensures m == 0 ==> sound < Piece(off, |rest|)
      ensures if part > 0 then m == 0 && part <= sound < |rest| else m <= sound
      ensures part == 0 ==> Logs(old(d), bitmap, old(calls), d, bitmap, calls)
      ensures Adds(old(calls), calls, {Block(addr)})
    {
      hide Packed, Owns, Slot, Holds, Keeps, Logs, Adds;
      m, part := Piece(off, |rest|), 0;
      ghost var fits := m <= sound;
      if m > sound {
        part :| 0 <= part <= sound;
        m := 0;
      }
      var data := rest[..m + part];
      StoredOwns(d, owner, meta, i, off / BSIZE, off % BSIZE, data);
      StoredHolds(d, owner, meta, i, off, data, s);
      AddsAny(calls);
      BlockLogs(d, bitmap, calls, addr, Splice(d.blocks[addr], off % BSIZE, data));
      NothingStored(d, bitmap, calls, addr, off % BSIZE, data);
      d := d.(blocks := d.blocks[addr := Splice(d.blocks[addr], off % BSIZE, data)]);
      if fits {
        calls := calls + [Block(addr)];
      }
    }

    /** Writes src at off; copying from the caller fails behind `sound` bytes.  The file becomes the
        old one with the bytes reported spliced in, other files keep theirs, and fewer bytes are
        reported only if the disk is full or the next piece could not be copied.  A copy that failed
        may have changed `extra` more bytes, but not the size. */
    method Writei(i: nat, off: nat, src: seq<int>, sound: nat) returns (r: int, ghost extra: nat)
      requires Valid() && i < |d.inodes| && off < U32 && |src| < U32
      modifies this
      ensures Valid()
      ensures off > old(|files[i]|) || off + |src| >= U32 || off + |src| > MAXFILE * BSIZE ==>
                r == -1 && d == old(d) && files == old(files) && calls == old(calls)
      ensures off <= old(|files[i]|) && off + |src| < U32 && off + |src| <= MAXFILE * BSIZE ==>
                && 0 <= r <= |src| && r + extra <= |src|
                && files == old(files)[i := Written(old(files)[i], off, src, r, extra)]
                && |files[i]| == (if off + r > |old(files)[i]| then off + r else |old(files)[i]|)
                && (forall p :: 0 <= p < |files[i]| ==>
                      files[i][p] == if off <= p < off + r + extra then src[p - off] else old(files)[i][p])
                && (r < |src| ==> Full(d.bits) || sound < r + Piece(off + r, |src| - r))
                && r <= sound && (extra > 0 ==> r + extra <= sound < |src|)
                && (extra == 0 ==> Logs(old(d), old(bitmap), old(calls), d, bitmap, calls))
                && old(calls) < calls && calls[|calls| - 1] == InodeOf(i)
      ensures i < |dinodes| == |old(dinodes)| && dinodes == old(dinodes)[i := dinodes[i]]
      ensures old(calls) <= calls && (|src| <= MAXWRITE ==> Frugal(calls[|old(calls)|..]))
    {
      hide Packed, Owns, Holds, Slot, Keeps, Full, Piece, Few, Frugal, Logs, SpanCost, Ind;
      extra := 0;
      assert calls[|calls|..] == [];
      FrugalNone();
      var n := |src|;
      if off > d.inodes[i].size || (off + n) % U32 < off {
        return -1, 0;
      }
      if (off + n) % U32 > MAXFILE * BSIZE {
        return -1, 0;
      }
      ghost var s := files[i];
      var tot;
      tot, extra := WriteChunks(i, off, src, sound);
      FewPrefix(old(calls), calls, Ind(d, i), SpanCost(off, n));
      if n <= MAXWRITE {
        FrugalWrite(old(calls), calls, Ind(d, i), off, n, InodeOf(i));
      }
      ghost var d1, c1 := d, calls;
      if extra == 0 {
        LogsAnyInodes(old(d), old(bitmap), old(calls), d, bitmap, calls, InodeOf(i));
      }
      Finish(i, off + tot, Splice(s, off, src[..tot + extra]));
      r := tot;
      WrittenBytes(s, off, src, r, extra);
    }

    /** The end of writei: the size, and the inode to disk */
    method Finish(i: nat, end: nat, ghost s: seq<int>)
      requires Consistent() && i < |d.inodes| && Holds(d, i, s) && |files[i]| <= |s| && end <= |s|
      requires d.inodes[i].size == |files[i]| && forall j :: 0 <= j < |files| && j != i ==> dinodes[j] == d.inodes[j]
      requires forall j :: 0 <= j < |files| && j != i ==> |files[j]| == d.inodes[j].size && Holds(d, j, files[j])
      modifies this`d, this`dinodes, this`files, this`calls
      ensures Valid() && d == old(d).(inodes := d.inodes) && calls == old(calls) + [InodeOf(i)]
      ensures i < |dinodes| == |old(dinodes)| && dinodes == old(dinodes)[i := dinodes[i]]
      ensures files == old(files)[i := s[..Max(|old(files)[i]|, end)]]
    {
      hide Packed, Owns, Holds, Slot;
      ghost var d1 := d;
      if end > d.inodes[i].size {
        d := d.(inodes := d.inodes[i := d.inodes[i].(size := end)]);
      }
      HoldsPrefix(d1, i, s, Max(|files[i]|, end));
      SizeOnly(d1, d, owner, meta);
      dinodes := dinodes[i := d.inodes[i]];
      files := files[i := s[..Max(|files[i]|, end)]];
      calls := calls + [InodeOf(i)];
    }

    /** What the loop of writei keeps: n bytes are in the file, the other files are as before. */
    ghost predicate Writing(i: nat, off: nat, data: seq<int>, d0: Disk)
      reads this
    {
      && Consistent() && SameButAddrs(d0, d, i) && i < |files| && off <= |files[i]|
      && Holds(d, i, Splice(files[i], off, data))
      && forall j :: 0 <= j < |files| && j != i ==> Holds(d, j, files[j])
    }

    /** The loop of writei */
    method WriteChunks(i: nat, off: nat, src: seq<int>, sound: nat) returns (tot: nat, ghost extra: nat)
      requires Valid() && i < |d.inodes| && off <= |files[i]| && off + |src| <= MAXFILE * BSIZE
      modifies this`d, this`bitmap, this`owner, this`calls
      ensures tot + extra <= |src| && Writing(i, off, src[..tot + extra], old(d))
      ensures tot < |src| ==> Full(d.bits) || sound < tot + Piece(off + tot, |src| - tot)
      ensures Few(old(calls), calls, Ind(d, i), SpanCost(off, |src|))
      ensures extra == 0 ==> Logs(old(d), old(bitmap), old(calls), d, bitmap, calls)
      ensures tot <= sound && (extra > 0 ==> tot + extra <= sound < |src|)
    {
      hide Packed, Owns, Holds, Full, Logs, Few, SpanCost, Piece, Ind, SameButAddrs;
      tot, extra := 0, 0;
      ghost var d0, m0, c0 := d, bitmap, calls;
      LogsSame(d, bitmap, calls);
      SameAddrs(d, i);
      FewNone(calls, Ind(d, i), off);
      SpanGrows(off, 0, |src|);
      FewWider(calls, calls, Ind(d, i), SpanCost(off, 0), SpanCost(off, |src|));
      assert Splice(files[i], off, src[..0]) == files[i];
      while tot < |src|
        invariant tot <= |src| && tot <= sound && extra == 0 && Writing(i, off, src[..tot], d0)
        invariant Logs(d0, m0, c0, d, bitmap, calls) && Few(c0, calls, Ind(d, i), SpanCost(off, |src|))
        invariant Few(c0, calls, Ind(d, i), SpanCost(off, tot)) && (0 < tot < |src| ==> (off + tot) % BSIZE == 0)
      {
        var m, part := WriteOne(i, off, src, tot, sound, d0, m0, c0);
        if m == 0 {
          extra := part;
          break;
        }
        tot := tot + m;
      }
    }

    /** One round of it */
    method WriteOne(i: nat, off: nat, src: seq<int>, tot: nat, sound: nat, ghost d0: Disk, ghost m0: Bitmap,
                    ghost c0: seq<Logged>)
      returns (m: nat, part: nat)
      requires tot < |src| && tot <= sound && off + |src| <= MAXFILE * BSIZE && Writing(i, off, src[..tot], d0)
      requires Logs(d0, m0, c0, d, bitmap, calls) && Few(c0, calls, Ind(d, i), SpanCost(off, tot))
      requires tot > 0 ==> (off + tot) % BSIZE == 0
      modifies this`d, this`bitmap, this`owner, this`calls
      ensures tot + m + part <= |src| && Writing(i, off, src[..tot + m + part], d0)
      ensures m == 0 ==> Full(d.bits) || sound < tot + Piece(off + tot, |src| - tot)
      ensures if part > 0 then m == 0 && tot + part <= sound < |src| else tot + m <= sound
      ensures part == 0 ==> Logs(d0, m0, c0, d, bitmap, calls)
      ensures Few(c0, calls, Ind(d, i), SpanCost(off, |src|))
      ensures m > 0 ==> Few(c0, calls, Ind(d, i), SpanCost(off, tot + m))
      ensures m > 0 && tot + m < |src| ==> (off + tot + m) % BSIZE == 0
    {
      hide Packed, Owns, Holds, Slot, Keeps, Full, Logs, Adds, About, Few, SpanCost, Piece, Ind, SameButAddrs, Splice;
      ghost var d1, m1, c1, s := d, bitmap, calls, files[i];
      ghost var at;
      if tot == 0 && off % BSIZE != 0 {
        SpliceNothing(s, off, src);
        HeldSlot(d, i, s, off);
      }
      m, part, at := WriteChunk(i, off + tot, src[tot..], sound - tot, Splice(s, off, src[..tot]));
      forall j | 0 <= j < |files| && j != i ensures Holds(d, j, files[j]) {
        KeepsHolds(d1, d, j, files[j]);
      }
      SpliceRest(s, off, src, tot, m + part);
      SameAddrsTrans(d0, d1, d, i);
      if part == 0 {
        LogsTrans(d0, m0, c0, d1, m1, c1, d, bitmap, calls);
      }
      ChunkCost(c0, c1, calls, Ind(d1, i), Ind(d, i), at, off, tot, |src|);
    }

    /** Reads up to n bytes from off, copying them to a caller that can take `room`: the part of the
        file there is, or -1 if that does not fit; and nothing changes. */
    method Readi(i: nat, off: nat, n: nat, room: nat) returns (r: int, out: seq<int>)
      requires Valid() && i < |d.inodes| && off < U32 && n < U32
      modifies this`d, this`bitmap, this`owner, this`calls
      ensures d == old(d) && owner == old(owner) && bitmap == old(bitmap) && calls == old(calls)
      ensures r == -1 <==> |ReadAt(files[i], off, n)| > room
      ensures r != -1 ==> out == ReadAt(files[i], off, n) && r == |out|
      ensures off > |files[i]| || off + n >= U32 ==> r == 0
      ensures r == -1 <==> off <= |files[i]| && off + n < U32 && room < n && room < |files[i]| - off
      ensures off <= |files[i]| && off + n < U32 && r != -1 ==>
                && r == (if n < |files[i]| - off then n else |files[i]| - off)
                && |out| == r && forall k :: 0 <= k < r ==> out[k] == files[i][off + k]
    {
      hide Packed, Shaped, Owns, Holds, Logs;
      if off > d.inodes[i].size || (off + n) % U32 < off {
        return 0, [];
      }
      var n := n;
      if (off + n) % U32 > d.inodes[i].size {
        n := d.inodes[i].size - off;
      }
      r, out := ReadChunks(i, off, n, room);
    }

    /** The loop of readi */
    method ReadChunks(i: nat, off: nat, n: nat, room: nat) returns (r: int, out: seq<int>)
      requires Valid() && i < |d.inodes| && off + n <= |files[i]|
      modifies this`d, this`bitmap, this`owner, this`calls
      ensures d == old(d) && owner == old(owner) && bitmap == old(bitmap) && calls == old(calls)
      ensures r == -1 <==> n > room
      ensures r != -1 ==> r == n && out == files[i][off..off + n]
    {
      hide Packed, Shaped, Owns, Holds, Logs;
      out := [];
      ghost var s := files[i];
      while |out| < n
        invariant |out| <= n && |out| <= room
        invariant d == old(d) && owner == old(owner) && bitmap == old(bitmap) && calls == old(calls)
        invariant out == s[off..off + |out|]
      {
        var chunk := ReadChunk(i, off + |out|, n - |out|);
        if chunk == [] {
          break;
        }
        if |out| + |chunk| > room {
          return -1, out;
        }
        out := out + chunk;
      }
      r := |out|;
    }

    /** One step of readi: the next bytes up to the end of the block; none if there is no block. */
    method ReadChunk(i: nat, at: nat, left: nat) returns (chunk: seq<int>)
      requires Valid() && i < |d.inodes| && left > 0 && at + left <= |files[i]|
      modifies this`d, this`bitmap, this`owner, this`calls
      ensures d == old(d) && owner == old(owner) && bitmap == old(bitmap) && calls == old(calls)
      ensures 0 < |chunk| <= left && chunk == files[i][at..at + |chunk|]
    {
      hide Packed, Owns, Slot, Keeps, Holds, SameButAddrs, Full, Logs, Adds;
      var m := Piece(at, left);
      ChunkOf(d, i, files[i], at, m);
      var ok, addr := Bmap(i, at / BSIZE);
      if addr == 0 {
        return [];
      }
      chunk := d.blocks[addr][at % BSIZE..at % BSIZE + m];
    }

    /** Gives back every block of a file, and no other; the panic is never reached. */
    method Itrunc(i: nat) returns (ok: bool)
      requires Valid() && i < |d.inodes|
      modifies this
      ensures Valid() && ok
      ensures files == old(files)[i := []]
      ensures owner == OthersUses(old(owner), i)
      ensures Cleared(old(d.bits), d.bits, old(owner), i, MAXFILE + 1)
      ensures Logs(old(d), old(bitmap), old(calls), d, bitmap, calls)
      ensures dinodes == old(dinodes)[i := dinodes[i]] && old(calls) < calls && calls[|calls| - 1] == InodeOf(i)
      ensures |bitmap| < MAXOPBLOCKS ==> Frugal(calls[|old(calls)|..])
    {
      hide Packed, Logs, Adds, Frugal, Cleared;
      ghost var d0, m0, c0 := d, bitmap, calls;
      ok := FreeAll(i);
      FrugalBits(c0, calls, |m0|, InodeOf(i));
      LogsShape(d0, m0, c0, d, bitmap, calls);
      LogsAnyInodes(d0, m0, c0, d, bitmap, calls, InodeOf(i));
      Clear(i, d0);
    }

    /** The end of itrunc: the size, and the inode to disk */
    method Clear(i: nat, ghost d0: Disk)
      requires Shaped(d0) && Owns(d0, owner, meta) && i < |d0.inodes| == |dinodes| == |files| && dinodes == d0.inodes
      requires forall j :: 0 <= j < |files| ==> |files[j]| == d0.inodes[j].size && Holds(d0, j, files[j])
      requires Cleared(d0.bits, d.bits, owner, i, MAXFILE + 1) && Packed(bitmap, d.bits)
      requires d.blocks == d0.blocks && |d.inodes| == |d0.inodes|
      requires |d.inodes[i].addrs| == NDIRECT + 1 && forall k :: 0 <= k <= NDIRECT ==> d.inodes[i].addrs[k] == 0
      requires forall j :: 0 <= j < |d.inodes| && j != i ==> d.inodes[j] == d0.inodes[j]
      modifies this`d, this`dinodes, this`files, this`owner, this`calls
      ensures Valid() && d == old(d).(inodes := d.inodes) && calls == old(calls) + [InodeOf(i)]
      ensures i < |dinodes| == |old(dinodes)| && dinodes == old(dinodes)[i := dinodes[i]]
      ensures files == old(files)[i := []] && owner == OthersUses(old(owner), i)
    {
      hide Packed, Cleared;
      assert d.inodes[i].addrs == Emptied().addrs;
      d := d.(inodes := d.inodes[i := d.inodes[i].(size := 0)]);
      TruncOwns(d0, d, owner, meta, i);
      dinodes := dinodes[i := d.inodes[i]];
      owner := OthersUses(owner, i);
      files := files[i := []];
      calls := calls + [InodeOf(i)];
      forall j | 0 <= j < |files| ensures Holds(d, j, files[j]) {
        if j != i {
          KeepsHolds(d0, d, j, files[j]);
        }
      }
    }

    /** `bfree`, as one of the steps since (d0, m0, c0) */
    method FreeLogged(b: nat, ghost d0: Disk, ghost m0: Bitmap, ghost c0: seq<Logged>) returns (ok: bool)
      requires b < |d.bits| && Packed(bitmap, d.bits)
      requires Logs(d0, m0, c0, d, bitmap, calls) && Adds(c0, calls, AllBits(|m0|))
      modifies this`d, this`bitmap, this`calls
      ensures Packed(bitmap, d.bits) && ok == old(d.bits)[b]
      ensures d == if ok then old(d).(bits := old(d.bits)[b := false]) else old(d)
      ensures Logs(d0, m0, c0, d, bitmap, calls) && Adds(c0, calls, AllBits(|m0|))
    {
      hide Packed, Logs, Adds, BlockOf;
      ghost var d1, m1, c1, bits := d, bitmap, calls, AllBits(|m0|);
      LogsShape(d0, m0, c0, d1, m1, c1);
      ok := Bfree(b);
      BitsAdd(c1, calls, |m1|);
      AddsTrans(c0, c1, calls, bits, bits, bits);
      LogsTrans(d0, m0, c0, d1, m1, c1, d, bitmap, calls);
    }

    /** Both loops of itrunc */
    method FreeAll(i: nat) returns (ok: bool)
      requires Consistent() && i < |d.inodes|
      modifies this`d, this`bitmap, this`calls
      ensures ok && Cleared(old(d.bits), d.bits, owner, i, MAXFILE + 1) && Packed(bitmap, d.bits)
      ensures d.blocks == old(d.blocks) && |d.inodes| == |old(d.inodes)|
      ensures |d.inodes[i].addrs| == NDIRECT + 1 && forall k :: 0 <= k <= NDIRECT ==> d.inodes[i].addrs[k] == 0
      ensures forall j :: 0 <= j < |d.inodes| && j != i ==> d.inodes[j] == old(d.inodes)[j]
      ensures Logs(old(d), old(bitmap), old(calls), d, bitmap, calls)
      ensures Adds(old(calls), calls, AllBits(|old(bitmap)|))
    {
      hide Packed, Owns, Logs, Adds, Cleared;
      ghost var d0, m0, c0, bits := d, bitmap, calls, AllBits(|bitmap|);
      ok := FreeDirect(i);
      LogsShape(d0, m0, c0, d, bitmap, calls);
      ghost var d1, m1, c1 := d, bitmap, calls;
      var freed := FreeIndirect(i, d0);
      LogsTrans(d0, m0, c0, d1, m1, c1, d, bitmap, calls);
      AddsTrans(c0, c1, calls, bits, bits, bits);
      ok := ok && freed;
    }

    /** The first loop of itrunc */
    method FreeDirect(i: nat) returns (ok: bool)
      requires Consistent() && i < |d.inodes|
      modifies this`d, this`bitmap, this`calls
      ensures ok && Cleared(old(d.bits), d.bits, owner, i, NDIRECT) && Packed(bitmap, d.bits)
      ensures Logs(old(d), old(bitmap), old(calls), d, bitmap, calls)
      ensures Adds(old(calls), calls, AllBits(|old(bitmap)|))
      ensures d.blocks == old(d.blocks) && NoDirect(old(d), d, i, NDIRECT)
    {
      hide Packed, Owns, Cleared, Logs, Adds;
      ghost var d0, m0, c0, bits := d, bitmap, calls, AllBits(|bitmap|);
      LogsSame(d, bitmap, calls);
      AddsAny(calls);
      ok := true;
      var k := 0;
      ClearedNone(d0, owner, meta, i);
      while k < NDIRECT
        invariant 0 <= k <= NDIRECT && ok && Cleared(d0.bits, d.bits, owner, i, k) && Packed(bitmap, d.bits)
        invariant d.blocks == d0.blocks && NoDirect(d0, d, i, k)
        invariant Logs(d0, m0, c0, d, bitmap, calls) && Adds(c0, calls, bits)
      {
        ClearNext(d0, d.bits, owner, meta, i, k);
        if d.inodes[i].addrs[k] != 0 {
          var freed := FreeLogged(d.inodes[i].addrs[k], d0, m0, c0);
          ok := ok && freed;
          LogsInodes(d0, m0, c0, d, bitmap, calls);
          d := d.(inodes := d.inodes[i := d.inodes[i].(addrs := d.inodes[i].addrs[k := 0])]);
        }
        k := k + 1;
      }
    }

    /** The second loop of itrunc */
    method FreeEntries(i: nat, a: seq<int>, ghost d0: Disk) returns (ok: bool)
      requires Shaped(d0) && Owns(d0, owner, meta) && i < |d0.inodes| && 0 < Ind(d0, i) < |d0.blocks|
      requires a == d0.blocks[Ind(d0, i)] && d.blocks == d0.blocks
      requires Cleared(d0.bits, d.bits, owner, i, NDIRECT) && Packed(bitmap, d.bits)
      modifies this`d, this`bitmap, this`calls
      ensures ok && Cleared(d0.bits, d.bits, owner, i, MAXFILE) && Packed(bitmap, d.bits)
      ensures d == old(d).(bits := d.bits)
      ensures Logs(old(d), old(bitmap), old(calls), d, bitmap, calls)
      ensures Adds(old(calls), calls, AllBits(|old(bitmap)|))
    {
      hide Packed, Owns, Cleared, Entry, Logs, Adds;
      ghost var d1, m1, c1 := d, bitmap, calls;
      LogsSame(d, bitmap, calls);
      AddsAny(calls);
      ok := true;
      var j := 0;
      while j < NINDIRECT
        invariant 0 <= j <= NINDIRECT && ok && d == d1.(bits := d.bits)
        invariant Cleared(d0.bits, d.bits, owner, i, NDIRECT + j) && Packed(bitmap, d.bits)
        invariant Logs(d1, m1, c1, d, bitmap, calls) && Adds(c1, calls, AllBits(|m1|))
      {
        ClearNext(d0, d.bits, owner, meta, i, NDIRECT + j);
        if Entry(a, j) != 0 {
          var freed := FreeLogged(Entry(a, j), d1, m1, c1);
          ok := ok && freed;
        }
        j := j + 1;
      }
    }

    /** What itrunc does with the indirect block */
    method FreeIndirect(i: nat, ghost d0: Disk) returns (ok: bool)
      requires Shaped(d0) && Owns(d0, owner, meta) && i < |d0.inodes|
      requires Cleared(d0.bits, d.bits, owner, i, NDIRECT) && Packed(bitmap, d.bits)
      requires d.blocks == d0.blocks && NoDirect(d0, d, i, NDIRECT)
      modifies this`d, this`bitmap, this`calls
      ensures ok && Cleared(d0.bits, d.bits, owner, i, MAXFILE + 1) && Packed(bitmap, d.bits)
      ensures Logs(old(d), old(bitmap), old(calls), d, bitmap, calls)
      ensures Adds(old(calls), calls, AllBits(|old(bitmap)|))
      ensures d.blocks == d0.blocks && |d.inodes| == |d0.inodes|
      ensures |d.inodes[i].addrs| == NDIRECT + 1 && forall k :: 0 <= k <= NDIRECT ==> d.inodes[i].addrs[k] == 0
      ensures forall j :: 0 <= j < |d.inodes| && j != i ==> d.inodes[j] == d0.inodes[j]
    {
      hide Packed, Owns, Cleared, Entry, Logs, Adds;
      ghost var d1, m1, c1 := d, bitmap, calls;
      LogsSame(d, bitmap, calls);
      AddsAny(calls);
      ok := true;
      var ind := d.inodes[i].addrs[NDIRECT];
      if ind != 0 {
        IndirectBlock(d0, owner, meta, i);
        ok := FreeEntries(i, d.blocks[ind], d0);
        LogsShape(d1, m1, c1, d, bitmap, calls);
        ClearNext(d0, d.bits, owner, meta, i, MAXFILE);
        var freed := FreeLogged(ind, d1, m1, c1);
        ok := ok && freed;
        LogsInodes(d1, m1, c1, d, bitmap, calls);
        d := d.(inodes := d.inodes[i := d.inodes[i].(addrs := d.inodes[i].addrs[NDIRECT := 0])]);
      } else {
        NothingIndirect(d0, d.bits, owner, meta, i);
      }
    }
  }
}
