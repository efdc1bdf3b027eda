/**
 Block devices and the write sequences of the redo log in kernel/log.c.

 A disk is a sequence of blocks and a `bwrite` is one atomic block write; a crash keeps
 any prefix of the writes issued so far.  `CommitWrites` and `RecoveryWrites` are the exact
 write sequences of `commit` and `recover_from_log` (module `Log` proves that the code
 issues them).  The theorems say what every crash, and every crash during recovery from a
 crash, leaves behind.
 */
module CrashLog {

  import opened Bytes
  import opened Params

  const BLOCK_WORDS := 256  // BSIZE / sizeof(int)

  /** A block is an array of `int`s, which is how the log header is laid out in it. */
  datatype Block = Block(words: seq<int>)

  type Disk = seq<Block>

  datatype Write = Write(blockno: int, data: Block)

  function Store(d: Disk, w: Write): (d': Disk)
    ensures |d'| == |d|
  {
    if 0 <= w.blockno < |d| then d[w.blockno := w.data] else d
  }

  function Apply(d: Disk, ws: seq<Write>): (d': Disk)
    ensures |d'| == |d|
  {
    if ws == [] then d else Store(Apply(d, ws[..|ws| - 1]), ws[|ws| - 1])
  }

  // ----- Layout of the log -----

  /** Block numbers outside the header block and the LOGBLOCKS log blocks behind it. */
  predicate IsHome(start: nat, size: nat, b: int) {
    0 <= b < size && !(start <= b <= start + LOGBLOCKS)
  }

  predicate GoodBlocks(start: nat, size: nat, blocks: seq<int>) {
    && |blocks| <= LOGBLOCKS
    && (forall i :: 0 <= i < |blocks| ==> IsHome(start, size, blocks[i]))
    && Distinct(blocks)
  }

  /** `write_head` overwrites the count and the first `n` entries and leaves the rest. */
  function EncodeHead(was: Block, blocks: seq<int>): (b: Block)
    requires |blocks| <= LOGBLOCKS && |was.words| == BLOCK_WORDS
    ensures |b.words| == BLOCK_WORDS
  {
    Block([|blocks|] + blocks + was.words[1 + |blocks|..])
  }

  /** `read_head` */
  function DecodeHead(b: Block): seq<int>
    requires |b.words| == BLOCK_WORDS && 0 <= b.words[0] <= LOGBLOCKS
  {
    b.words[1..1 + b.words[0]]
  }

  lemma DecodeEncode(was: Block, blocks: seq<int>)
    requires |blocks| <= LOGBLOCKS && |was.words| == BLOCK_WORDS
    ensures DecodeHead(EncodeHead(was, blocks)) == blocks
    ensures var w := EncodeHead(was, blocks).words;
            && w[0] == |blocks| && (forall i :: 0 <= i < |blocks| ==> w[1 + i] == blocks[i])
            && forall i :: |blocks| < i < 256 ==> w[i] == was.words[i]
  {
    var w := EncodeHead(was, blocks).words;
    assert forall i :: 0 <= i < |blocks| ==> w[1 + i] == blocks[i];
  }

  predicate FitsLog(start: nat, d: Disk) {
    start + LOGBLOCKS < |d| && |d[start].words| == BLOCK_WORDS
  }

  /** The on-disk header is one that `write_head` can have written. */
  predicate GoodLog(start: nat, d: Disk) {
    && FitsLog(start, d)
    && 0 <= d[start].words[0] <= LOGBLOCKS
    && GoodBlocks(start, |d|, DecodeHead(d[start]))
  }

  predicate EmptyLog(start: nat, d: Disk) {
    FitsLog(start, d) && d[start].words[0] == 0
  }

  // ----- Transactions and their writes -----

  datatype Txn = Txn(blocks: seq<int>, data: seq<Block>)

  predicate GoodTxn(start: nat, size: nat, t: Txn) {
    GoodBlocks(start, size, t.blocks) && |t.data| == |t.blocks|
  }

  /** `write_log` */
  function LogWrites(start: nat, data: seq<Block>): (ws: seq<Write>)
    ensures |ws| == |data|
  {
    seq(|data|, i requires 0 <= i < |data| => Write(start + 1 + i, data[i]))
  }

  /** `install_trans` */
  function InstallWrites(blocks: seq<int>, data: seq<Block>): (ws: seq<Write>)
    requires |blocks| == |data|
    ensures |ws| == |data|
  {
    seq(|data|, i requires 0 <= i < |data| => Write(blocks[i], data[i]))
  }

  /** `commit` on disk `d`: log blocks, header (the commit point), home blocks, empty header. */
  function CommitWrites(start: nat, d: Disk, t: Txn): seq<Write>
    requires FitsLog(start, d) && GoodTxn(start, |d|, t)
  {
    if t.blocks == [] then []
    else
      LogWrites(start, t.data)
      + [Write(start, EncodeHead(d[start], t.blocks))]
      + InstallWrites(t.blocks, t.data)
      + [Write(start, EncodeHead(EncodeHead(d[start], t.blocks), []))]
  }

  function Logged(start: nat, d: Disk): (t: Txn)
    requires GoodLog(start, d)
    ensures GoodTxn(start, |d|, t)
  {
    Txn(DecodeHead(d[start]), d[start + 1..start + 1 + d[start].words[0]])
  }

  /** `recover_from_log` on disk `d` */
  function RecoveryWrites(start: nat, d: Disk): seq<Write>
    requires GoodLog(start, d)
  {
    var t := Logged(start, d);
    InstallWrites(t.blocks, t.data) + [Write(start, EncodeHead(d[start], []))]
  }

  /** What a completed recovery makes of the disk. */
  function Recovered(start: nat, d: Disk): (d': Disk)
    requires GoodLog(start, d)
    ensures |d'| == |d|
  {
    Apply(d, RecoveryWrites(start, d))
  }

  /** The disk with a transaction's blocks at their home locations. */
  function Install(d: Disk, t: Txn): (d': Disk)
    requires |t.blocks| == |t.data|
    ensures |d'| == |d|
  {
    Apply(d, InstallWrites(t.blocks, t.data))
  }

  ghost predicate SameHome(start: nat, d: Disk, d': Disk) {
    |d| == |d'| && forall b :: IsHome(start, |d|, b) ==> d[b] == d'[b]
  }

  // ----- What prefixes of the write sequences do to the disk -----

  lemma ApplyAppend(d: Disk, ws: seq<Write>, w: Write)
    ensures Apply(d, ws + [w]) == Store(Apply(d, ws), w)
  {
    assert (ws + [w])[..|ws|] == ws;
  }

  lemma ApplyNone(d: Disk, ws: seq<Write>)
    ensures ws[..0] == [] && Apply(d, ws[..0]) == d
  {
  }

  lemma ApplySplit(d: Disk, ws: seq<Write>, ws': seq<Write>, k: nat)
    requires k <= |ws'|
    ensures (ws + ws')[..|ws| + k] == ws + ws'[..k]
    ensures Apply(d, (ws + ws')[..|ws| + k]) == Apply(Apply(d, ws), ws'[..k])
  {
    assert (ws + ws')[..|ws| + k] == ws + ws'[..k];
    ApplyConcat(d, ws, ws'[..k]);
  }

  lemma ApplyPrefix(d: Disk, ws: seq<Write>, ws': seq<Write>, k: nat)
    requires k <= |ws|
    ensures (ws + ws')[..k] == ws[..k]
    ensures k == |ws| ==> ws[..k] == ws
  {
  }

  lemma ApplyNext(d: Disk, ws: seq<Write>, k: nat)
    requires k < |ws|
    ensures Apply(d, ws[..k + 1]) == Store(Apply(d, ws[..k]), ws[k])
    ensures ws[..k + 1] == ws[..k] + [ws[k]]
  {
    assert ws[..k + 1] == ws[..k] + [ws[k]];
    ApplyAppend(d, ws[..k], ws[k]);
  }

  lemma {:induction false} ApplyConcat(d: Disk, ws: seq<Write>, ws': seq<Write>)
    ensures Apply(d, ws + ws') == Apply(Apply(d, ws), ws')
    decreases |ws'|
  {
    if ws' == [] {
      assert ws + ws' == ws;
    } else {
      var k := |ws'| - 1;
      ApplyConcat(d, ws, ws'[..k]);
      assert (ws + ws')[..|ws + ws'| - 1] == ws + ws'[..k];
    }
  }

  /** A prefix of `write_log` touches log blocks only. */
  lemma {:induction false} LogPrefix(start: nat, d: Disk, data: seq<Block>, k: nat)
    requires FitsLog(start, d) && k <= |data| <= LOGBLOCKS
    ensures var d' := Apply(d, LogWrites(start, data)[..k]);
            && (forall i :: 0 <= i < k ==> d'[start + 1 + i] == data[i])
            && (forall b :: 0 <= b < |d| && !(start + 1 <= b < start + 1 + k) ==> d'[b] == d[b])
  {
    hide Apply;
    var ws := LogWrites(start, data);
    if k == 0 {
      ApplyNone(d, ws);
    } else {
      LogPrefix(start, d, data, k - 1);
      assert ws[..k] == ws[..k - 1] + [ws[k - 1]];
      ApplyAppend(d, ws[..k - 1], ws[k - 1]);
    }
  }

  /** A prefix of `install_trans` over distinct blocks stores exactly its blocks. */
  lemma {:induction false} InstallPrefix(start: nat, d: Disk, t: Txn, k: nat)
    requires GoodTxn(start, |d|, t) && k <= |t.blocks|
    ensures var d' := Apply(d, InstallWrites(t.blocks, t.data)[..k]);
            && (forall i :: 0 <= i < k ==> d'[t.blocks[i]] == t.data[i])
            && (forall b :: 0 <= b < |d| && b !in t.blocks[..k] ==> d'[b] == d[b])
  {
    var ws := InstallWrites(t.blocks, t.data);
    if k > 0 {
      InstallPrefix(start, d, t, k - 1);
      assert ws[..k] == ws[..k - 1] + [ws[k - 1]];
      ApplyAppend(d, ws[..k - 1], ws[k - 1]);
      hide Apply;
      assert t.blocks[..k] == t.blocks[..k - 1] + [t.blocks[k - 1]];
    }
  }

  lemma InstallAll(start: nat, d: Disk, t: Txn)
    requires GoodTxn(start, |d|, t)
    ensures var d' := Install(d, t);
            && (forall i :: 0 <= i < |t.blocks| ==> d'[t.blocks[i]] == t.data[i])
            && (forall b :: 0 <= b < |d| && b !in t.blocks ==> d'[b] == d[b])
  {
    var ws := InstallWrites(t.blocks, t.data);
    assert ws[..|t.blocks|] == ws && t.blocks[..|t.blocks|] == t.blocks;
    InstallPrefix(start, d, t, |t.blocks|);
  }

  /** Installing over a disk on which some of the same blocks were already installed. */
  lemma InstallCongruence(start: nat, d: Disk, d': Disk, t: Txn)
    requires GoodTxn(start, |d|, t) && |d'| == |d|
    requires forall b :: IsHome(start, |d|, b) && b !in t.blocks ==> d[b] == d'[b]
    ensures SameHome(start, Install(d, t), Install(d', t))
  {
    InstallAll(start, d, t);
    InstallAll(start, d', t);
  }

  /** Installing contents that are already there changes no home block. */
  lemma InstallSame(start: nat, d: Disk, d': Disk, t: Txn)
    requires GoodTxn(start, |d|, t) && SameHome(start, d', d)
    requires forall i :: 0 <= i < |t.blocks| ==> t.data[i] == d[t.blocks[i]]
    ensures SameHome(start, Install(d', t), d)
  {
    InstallAll(start, d', t);
  }

  /** Recovery installs what the header names, and nothing else, and empties the header. */
  lemma RecoveryMeaning(start: nat, d: Disk)
    requires GoodLog(start, d)
    ensures SameHome(start, Recovered(start, d), Install(d, Logged(start, d)))
    ensures EmptyLog(start, Recovered(start, d))
  {
    var t := Logged(start, d);
    ApplyAppend(d, InstallWrites(t.blocks, t.data), Write(start, EncodeHead(d[start], [])));
    InstallAll(start, d, t);
  }

  lemma EmptyRecovery(start: nat, d: Disk)
    requires EmptyLog(start, d)
    ensures GoodLog(start, d) && SameHome(start, Recovered(start, d), d)
  {
    RecoveryMeaning(start, d);
    InstallAll(start, d, Logged(start, d));
  }

  // ----- One commit, cut short anywhere -----

  /** The disk after the first `k` of the writes of a commit. */
  function CrashedCommit(start: nat, d: Disk, t: Txn, k: nat): (d': Disk)
    requires FitsLog(start, d) && GoodTxn(start, |d|, t)
    requires k <= |CommitWrites(start, d, t)|
    ensures |d'| == |d|
  {
    Apply(d, CommitWrites(start, d, t)[..k])
  }

  lemma CrashBeforeHeader(start: nat, d: Disk, t: Txn, k: nat)
    requires EmptyLog(start, d) && GoodTxn(start, |d|, t)
    requires t.blocks != [] && k <= |t.blocks|
    ensures EmptyLog(start, CrashedCommit(start, d, t, k))
    ensures SameHome(start, CrashedCommit(start, d, t, k), d)
  {
    assert CommitWrites(start, d, t)[..k] == LogWrites(start, t.data)[..k];
    LogPrefix(start, d, t.data, k);
  }

  lemma EmptyCommit(start: nat, d: Disk, t: Txn)
    requires FitsLog(start, d) && GoodTxn(start, |d|, t) && t.blocks == []
    ensures CommitWrites(start, d, t) == [] && Apply(d, []) == d
  {
  }

  /** The writes up to the commit point */
  function HeadWrites(start: nat, d: Disk, t: Txn): seq<Write>
    requires FitsLog(start, d) && GoodTxn(start, |d|, t)
  {
    LogWrites(start, t.data) + [Write(start, EncodeHead(d[start], t.blocks))]
  }

  /** The disk right after the commit point. */
  lemma AtHeader(start: nat, d: Disk, t: Txn) returns (h: Disk)
    requires EmptyLog(start, d) && GoodTxn(start, |d|, t) && t.blocks != []
    ensures h == Apply(d, HeadWrites(start, d, t))
    ensures |h| == |d| && h[start] == EncodeHead(d[start], t.blocks)
    ensures GoodLog(start, h) && Logged(start, h) == t
    ensures SameHome(start, h, d)
  {
    var ws := LogWrites(start, t.data);
    var w := Write(start, EncodeHead(d[start], t.blocks));
    h := Apply(d, ws + [w]);
    ApplyAppend(d, ws, w);
    assert ws[..|t.data|] == ws;
    LogPrefix(start, d, t.data, |t.data|);
    DecodeEncode(d[start], t.blocks);
    assert h[start + 1..start + 1 + |t.blocks|] == t.data;
  }

  lemma SameLogArea(start: nat, h: Disk, d: Disk)
    requires GoodLog(start, h) && |d| == |h|
    requires forall b :: start <= b <= start + LOGBLOCKS ==> d[b] == h[b]
    ensures GoodLog(start, d) && Logged(start, d) == Logged(start, h)
  {
    assert d[start] == h[start];
    assert d[start + 1..start + 1 + h[start].words[0]] == h[start + 1..start + 1 + h[start].words[0]];
  }

  /** Partial installs keep header and log blocks, so recovery installs everything again. */
  lemma PartialInstall(start: nat, h: Disk, k: nat)
    requires GoodLog(start, h) && k <= |Logged(start, h).blocks|
    ensures var t := Logged(start, h);
            var d' := Apply(h, InstallWrites(t.blocks, t.data)[..k]);
            && GoodLog(start, d') && Logged(start, d') == t
            && SameHome(start, Install(d', t), Install(h, t))
  {
    var t := Logged(start, h);
    var d' := Apply(h, InstallWrites(t.blocks, t.data)[..k]);
    InstallPrefix(start, h, t, k);
    forall b | 0 <= b < |h| && b !in t.blocks ensures d'[b] == h[b] {
      assert b !in t.blocks[..k];
    }
    SameLogArea(start, h, d');
    InstallCongruence(start, h, d', t);
  }

  lemma CrashInInstall(start: nat, d: Disk, t: Txn, k: nat)
    requires EmptyLog(start, d) && GoodTxn(start, |d|, t) && t.blocks != []
    requires |t.blocks| < k < |CommitWrites(start, d, t)|
    ensures var d' := CrashedCommit(start, d, t, k);
            GoodLog(start, d') && SameHome(start, Recovered(start, d'), Install(d, t))
  {
    hide Apply, DecodeHead, EncodeHead, RecoveryWrites;
    var n := |t.blocks|;
    var h := AtHeader(start, d, t);
    InstallCongruence(start, h, d, t);
    var head := HeadWrites(start, d, t);
    var installs := InstallWrites(t.blocks, t.data);
    assert CommitWrites(start, d, t)[..k] == head + installs[..k - n - 1];
    ApplyConcat(d, head, installs[..k - n - 1]);
    PartialInstall(start, h, k - n - 1);
    RecoveryMeaning(start, CrashedCommit(start, d, t, k));
  }

  /** A commit is its writes up to the commit point followed by what recovery would do then. */
  lemma CommitSplits(start: nat, d: Disk, t: Txn)
    requires EmptyLog(start, d) && GoodTxn(start, |d|, t) && t.blocks != []
    ensures var h := Apply(d, HeadWrites(start, d, t));
            && GoodLog(start, h)
            && CommitWrites(start, d, t) == HeadWrites(start, d, t) + RecoveryWrites(start, h)
  {
    hide Apply, DecodeHead;
    var h := AtHeader(start, d, t);
  }

  lemma CompletedCommit(start: nat, d: Disk, t: Txn)
    requires EmptyLog(start, d) && GoodTxn(start, |d|, t) && t.blocks != []
    ensures var d' := CrashedCommit(start, d, t, |CommitWrites(start, d, t)|);
            EmptyLog(start, d') && SameHome(start, d', Install(d, t))
  {
    hide Apply, DecodeHead;
    var h := AtHeader(start, d, t);
    InstallCongruence(start, h, d, t);
    var all := CommitWrites(start, d, t);
    CommitSplits(start, d, t);
    assert all[..|all|] == all;
    ApplyConcat(d, HeadWrites(start, d, t), RecoveryWrites(start, h));
    RecoveryMeaning(start, h);
  }

  /**
   A commit is all or nothing: stop it after any number of writes and recovery yields
   either the old home blocks or all the new ones, the latter exactly when the header
   write, which is write number |blocks|, is among the completed ones.
   */
  lemma CommitIsAtomic(start: nat, d: Disk, t: Txn, k: nat)
    requires EmptyLog(start, d) && GoodTxn(start, |d|, t)
    requires k <= |CommitWrites(start, d, t)|
    ensures var d' := CrashedCommit(start, d, t, k);
            && GoodLog(start, d')
            && SameHome(start, Recovered(start, d'), if k > |t.blocks| then Install(d, t) else d)
            && (k == |CommitWrites(start, d, t)| ==>
                  EmptyLog(start, d') && SameHome(start, d', Install(d, t)))
  {
    hide Apply, DecodeHead, EncodeHead, RecoveryWrites;
    if t.blocks == [] {
      EmptyCommit(start, d, t);
      InstallAll(start, d, t);
      EmptyRecovery(start, d);
    } else if k <= |t.blocks| {
      CrashBeforeHeader(start, d, t, k);
      EmptyRecovery(start, CrashedCommit(start, d, t, k));
    } else if k < |CommitWrites(start, d, t)| {
      CrashInInstall(start, d, t, k);
    } else {
      CompletedCommit(start, d, t);
      EmptyRecovery(start, CrashedCommit(start, d, t, k));
    }
  }

  // ----- One recovery, cut short anywhere -----

  /** Crashes during recovery change nothing that a later recovery produces. */
  lemma RecoveryIsIdempotent(start: nat, d: Disk, k: nat)
    requires GoodLog(start, d) && k <= |RecoveryWrites(start, d)|
    ensures var d' := Apply(d, RecoveryWrites(start, d)[..k]);
            && GoodLog(start, d')
            && SameHome(start, Recovered(start, d'), Recovered(start, d))
            && (k == |RecoveryWrites(start, d)| ==> EmptyLog(start, d') && SameHome(start, d', Recovered(start, d)))
  {
    hide Apply, DecodeHead, EncodeHead;
    var all := RecoveryWrites(start, d);
    var t := Logged(start, d);
    RecoveryMeaning(start, d);
    if k < |all| {
      assert all[..k] == InstallWrites(t.blocks, t.data)[..k];
      PartialInstall(start, d, k);
      RecoveryMeaning(start, Apply(d, all[..k]));
    } else {
      assert all[..k] == all;
      EmptyRecovery(start, Apply(d, all));
    }
  }

  // ----- Write-ahead order -----

  /** The blocks a header lists; none if it is not well formed. */
  function Listed(head: Block): seq<int> {
    if |head.words| == BLOCK_WORDS && 0 <= head.words[0] <= LOGBLOCKS then DecodeHead(head) else []
  }

  /** Whenever a home block is written, the header on disk already lists it. */
  ghost predicate WriteAhead(start: nat, d: Disk, ws: seq<Write>)
    requires start < |d|
  {
    forall j :: 0 <= j < |ws| && IsHome(start, |d|, ws[j].blockno) ==> AheadAt(start, d, ws, j)
  }

  ghost predicate AheadAt(start: nat, d: Disk, ws: seq<Write>, j: nat)
    requires start < |d| && j < |ws|
  {
    ws[j].blockno in Listed(Apply(d, ws[..j])[start])
  }

  /** Writes to other blocks leave the header. */
  lemma {:induction false} HeadKept(start: nat, d: Disk, ws: seq<Write>, ws': seq<Write>)
    requires start < |d| && forall i :: 0 <= i < |ws'| ==> ws'[i].blockno != start
    ensures Apply(d, ws + ws')[start] == Apply(d, ws)[start]
    decreases |ws'|
  {
    if ws' == [] {
      assert ws + ws' == ws;
    } else {
      var k := |ws'| - 1;
      HeadKept(start, d, ws, ws'[..k]);
      assert (ws + ws')[..|ws + ws'| - 1] == ws + ws'[..k];
    }
  }

  lemma AheadConcat(start: nat, d: Disk, ws: seq<Write>, ws': seq<Write>)
    requires start < |d| && WriteAhead(start, d, ws) && WriteAhead(start, Apply(d, ws), ws')
    ensures WriteAhead(start, d, ws + ws') && Apply(d, ws + ws') == Apply(Apply(d, ws), ws')
  {
    ApplyConcat(d, ws, ws');
    hide Apply, Listed;
    forall j | 0 <= j < |ws + ws'| && IsHome(start, |d|, (ws + ws')[j].blockno) ensures AheadAt(start, d, ws + ws', j) {
      if j < |ws| {
        assert (ws + ws')[..j] == ws[..j];
        assert AheadAt(start, d, ws, j);
      } else {
        assert (ws + ws')[..j] == ws + ws'[..j - |ws|];
        ApplyConcat(d, ws, ws'[..j - |ws|]);
        assert AheadAt(start, Apply(d, ws), ws', j - |ws|);
      }
    }
  }

  lemma AheadPrefix(start: nat, d: Disk, ws: seq<Write>, k: nat)
    requires start < |d| && WriteAhead(start, d, ws) && k <= |ws|
    ensures WriteAhead(start, d, ws[..k])
  {
    forall j | 0 <= j < k && IsHome(start, |d|, ws[j].blockno) ensures AheadAt(start, d, ws[..k], j) {
      assert AheadAt(start, d, ws, j);
      assert ws[..k][..j] == ws[..j];
    }
  }

  /** Installing under a header that lists the blocks */
  lemma InstallAhead(start: nat, d: Disk, t: Txn)
    requires start < |d| && GoodTxn(start, |d|, t) && Listed(d[start]) == t.blocks
    ensures WriteAhead(start, d, InstallWrites(t.blocks, t.data))
  {
    var ws := InstallWrites(t.blocks, t.data);
    forall j | 0 <= j < |ws| ensures AheadAt(start, d, ws, j) {
      HeadKept(start, d, [], ws[..j]);
      assert [] + ws[..j] == ws[..j];
      assert ws[j].blockno == t.blocks[j];
    }
  }

  /** Both `commit` and `recover_from_log` write ahead. */
  lemma RecoveryAhead(start: nat, d: Disk)
    requires GoodLog(start, d)
    ensures WriteAhead(start, d, RecoveryWrites(start, d))
  {
    var t := Logged(start, d);
    InstallAhead(start, d, t);
    HeadersAhead(start, Apply(d, InstallWrites(t.blocks, t.data)), [Write(start, EncodeHead(d[start], []))]);
    AheadConcat(start, d, InstallWrites(t.blocks, t.data), [Write(start, EncodeHead(d[start], []))]);
  }

  lemma HeadersAhead(start: nat, d: Disk, ws: seq<Write>)
    requires start < |d| && forall i :: 0 <= i < |ws| ==> !IsHome(start, |d|, ws[i].blockno)
    ensures WriteAhead(start, d, ws)
  {
  }

  lemma CommitAhead(start: nat, d: Disk, t: Txn)
    requires EmptyLog(start, d) && GoodTxn(start, |d|, t)
    ensures WriteAhead(start, d, CommitWrites(start, d, t))
  {
    if t.blocks != [] {
      var h := AtHeader(start, d, t);
      CommitSplits(start, d, t);
      HeadersAhead(start, d, HeadWrites(start, d, t));
      RecoveryAhead(start, h);
      AheadConcat(start, d, HeadWrites(start, d, t), RecoveryWrites(start, h));
    }
  }

  /** Seen from an empty log: every write of a home block follows a header write that lists it,
      with no other header write between. */
  lemma HeaderBefore(start: nat, d: Disk, ws: seq<Write>, j: nat) returns (h: nat)
    requires EmptyLog(start, d) && WriteAhead(start, d, ws) && j < |ws| && IsHome(start, |d|, ws[j].blockno)
    ensures h < j && ws[h].blockno == start && ws[j].blockno in Listed(ws[h].data)
    ensures forall i :: h < i < j ==> ws[i].blockno != start
  {
    assert AheadAt(start, d, ws, j);
    h := LastHeader(start, d, ws[..j], ws[j].blockno);
  }

  lemma {:induction false} LastHeader(start: nat, d: Disk, ws: seq<Write>, b: int) returns (h: nat)
    requires EmptyLog(start, d) && b in Listed(Apply(d, ws)[start])
    ensures h < |ws| && ws[h].blockno == start && b in Listed(ws[h].data)
    ensures forall i :: h < i < |ws| ==> ws[i].blockno != start
    decreases |ws|
  {
    var k := |ws| - 1;
    if ws[k].blockno == start {
      h := k;
    } else {
      h := LastHeader(start, d, ws[..k], b);
    }
  }

  // ----- Whole runs, with crashes -----

  /**
   A run is a sequence of commits and reboots.  Each says how many of its block writes
   completed; if not all of them did, the machine went down there.
   */
  datatype Event = Commit(txn: Txn, done: nat) | Reboot(done: nat)

  datatype Machine = Machine(disk: Disk, up: bool)

  ghost predicate Enabled(start: nat, m: Machine, e: Event)
    requires GoodLog(start, m.disk)
  {
    match e
    case Commit(t, done) =>
      m.up && GoodTxn(start, |m.disk|, t) && done <= |CommitWrites(start, m.disk, t)|
    case Reboot(done) =>
      done <= |RecoveryWrites(start, m.disk)|
  }

  ghost function Next(start: nat, m: Machine, e: Event): Machine
    requires GoodLog(start, m.disk) && Enabled(start, m, e)
  {
    match e
    case Commit(t, done) =>
      var ws := CommitWrites(start, m.disk, t);
      Machine(Apply(m.disk, ws[..done]), done == |ws|)
    case Reboot(done) =>
      var ws := RecoveryWrites(start, m.disk);
      Machine(Apply(m.disk, ws[..done]), done == |ws|)
  }

  ghost predicate Step(start: nat, m: Machine, e: Event, m': Machine) {
    GoodLog(start, m.disk) && Enabled(start, m, e) && m' == Next(start, m, e)
  }

  /** The events lead from an up machine with disk `d` to machine `m`. */
  ghost predicate Run(start: nat, d: Disk, es: seq<Event>, m: Machine) {
    if es == [] then
      m == Machine(d, true)
    else
      var before, e := es[..|es| - 1], es[|es| - 1];
      exists p :: Run(start, d, before, p) && Step(start, p, e, m)
  }

  /** The transactions whose header write completed, in order. */
  function Committed(es: seq<Event>): seq<Txn> {
    if es == [] then []
    else
      var e := es[|es| - 1];
      Committed(es[..|es| - 1])
      + (if e.Commit? && e.done > |e.txn.blocks| then [e.txn] else [])
  }

  ghost predicate GoodTxns(start: nat, size: nat, ts: seq<Txn>) {
    forall i :: 0 <= i < |ts| ==> GoodTxn(start, size, ts[i])
  }

  ghost function InstallSeq(start: nat, d: Disk, ts: seq<Txn>): (d': Disk)
    requires GoodTxns(start, |d|, ts)
    ensures |d'| == |d|
  {
    if ts == [] then d else Install(InstallSeq(start, d, ts[..|ts| - 1]), ts[|ts| - 1])
  }

  /** Recovery would yield `expected`, and an up machine already shows it. */
  ghost predicate Tracks(start: nat, m: Machine, expected: Disk) {
    && GoodLog(start, m.disk)
    && SameHome(start, Recovered(start, m.disk), expected)
    && (m.up ==> EmptyLog(start, m.disk) && SameHome(start, m.disk, expected))
  }

  ghost function Expect(expected: Disk, e: Event): Disk
    requires e.Commit? ==> |e.txn.blocks| == |e.txn.data|
  {
    if e.Commit? && e.done > |e.txn.blocks| then Install(expected, e.txn) else expected
  }

  lemma StepTracks(start: nat, m: Machine, e: Event, m': Machine, expected: Disk)
    requires Tracks(start, m, expected) && Step(start, m, e, m')
    ensures |m'.disk| == |m.disk| && (e.Commit? ==> GoodTxn(start, |m.disk|, e.txn))
    ensures Tracks(start, m', Expect(expected, e))
  {
    match e
    case Commit(t, done) =>
      CommitIsAtomic(start, m.disk, t, done);
      InstallCongruence(start, m.disk, expected, t);
      if t.blocks == [] {
        InstallAll(start, m.disk, t);
      }
    case Reboot(done) =>
      RecoveryIsIdempotent(start, m.disk, done);
  }

  /**
   Crash atomicity over whole runs.  Start from an empty log and an up machine; commit and
   crash and reboot in any way.  Then recovery of the current disk yields the original home
   blocks with exactly the committed transactions applied in order; whenever the machine is
   up, the home blocks already are that and the log is empty.
   */
  lemma {:induction false} CrashAtomicity(start: nat, d: Disk, es: seq<Event>, m: Machine)
    requires EmptyLog(start, d) && Run(start, d, es, m)
    ensures |m.disk| == |d| && GoodTxns(start, |d|, Committed(es))
    ensures Tracks(start, m, InstallSeq(start, d, Committed(es)))
    decreases |es|
  {
    if es == [] {
      EmptyRecovery(start, d);
    } else {
      var last := |es| - 1;
      var p :| Run(start, d, es[..last], p) && Step(start, p, es[last], m);
      CrashAtomicity(start, d, es[..last], p);
      var before := Committed(es[..last]);
      StepTracks(start, p, es[last], m, InstallSeq(start, d, before));
      InstallSeqStep(start, d, es);
    }
  }

  lemma InstallSeqStep(start: nat, d: Disk, es: seq<Event>)
    requires es != []
    requires GoodTxns(start, |d|, Committed(es[..|es| - 1]))
    requires es[|es| - 1].Commit? ==> GoodTxn(start, |d|, es[|es| - 1].txn)
    ensures GoodTxns(start, |d|, Committed(es))
    ensures InstallSeq(start, d, Committed(es))
            == Expect(InstallSeq(start, d, Committed(es[..|es| - 1])), es[|es| - 1])
  {
    var e, before := es[|es| - 1], Committed(es[..|es| - 1]);
    if e.Commit? && e.done > |e.txn.blocks| {
      assert Committed(es) == before + [e.txn];
      assert Committed(es)[..|before|] == before;
    } else {
      assert Committed(es) == before;
    }
  }

  /** A reboot whose recovery completes brings the machine up, whatever happened before. */
  lemma RebootComesUp(start: nat, d: Disk, es: seq<Event>, m: Machine) returns (e: Event, m': Machine)
    requires EmptyLog(start, d) && Run(start, d, es, m)
    ensures GoodLog(start, m.disk) && e == Reboot(|RecoveryWrites(start, m.disk)|) && Run(start, d, es + [e], m')
    ensures |m'.disk| == |d| && GoodTxns(start, |d|, Committed(es))
    ensures m'.up && EmptyLog(start, m'.disk) && SameHome(start, m'.disk, InstallSeq(start, d, Committed(es)))
  {
    hide RecoveryWrites, InstallSeq, SameHome, GoodLog, Committed, Recovered, EmptyLog, Apply, GoodTxns;
    CrashAtomicity(start, d, es, m);
    e := Reboot(|RecoveryWrites(start, m.disk)|);
    m' := Next(start, m, e);
    assert (es + [e])[..|es|] == es && Step(start, m, e, m');
    assert Run(start, d, es + [e], m');
    StepTracks(start, m, e, m', InstallSeq(start, d, Committed(es)));
  }

  /** A commit that completes leaves the machine up, with the transaction in place. */
  lemma CommitStaysUp(start: nat, d: Disk, es: seq<Event>, m: Machine, t: Txn) returns (e: Event, m': Machine)
    requires EmptyLog(start, d) && Run(start, d, es, m) && m.up && GoodTxn(start, |m.disk|, t)
    ensures GoodLog(start, m.disk) && e == Commit(t, |CommitWrites(start, m.disk, t)|) && Run(start, d, es + [e], m')
    ensures |m'.disk| == |m.disk| && m'.up && EmptyLog(start, m'.disk)
    ensures forall i :: 0 <= i < |t.blocks| ==> m'.disk[t.blocks[i]] == t.data[i]
    ensures forall b :: IsHome(start, |m.disk|, b) && b !in t.blocks ==> m'.disk[b] == m.disk[b]
  {
    CrashAtomicity(start, d, es, m);
    e := Commit(t, |CommitWrites(start, m.disk, t)|);
    m' := Next(start, m, e);
    assert (es + [e])[..|es|] == es && Step(start, m, e, m');
    assert Run(start, d, es + [e], m');
    StepTracks(start, m, e, m', m.disk);
    InstallAll(start, m.disk, t);
  }

  /** Block by block, committed transactions applied in order leave what the last of them to write the
      block wrote, or else what was there. */
  lemma {:induction false} InstalledBlock(start: nat, d: Disk, ts: seq<Txn>, b: nat, j: nat, i: nat)
    requires GoodTxns(start, |d|, ts) && b < |d| && j <= |ts|
    requires forall k :: j <= k < |ts| ==> b !in ts[k].blocks
    requires j > 0 ==> i < |ts[j - 1].blocks| && ts[j - 1].blocks[i] == b
    ensures j == 0 ==> InstallSeq(start, d, ts)[b] == d[b]
    ensures j > 0 ==> InstallSeq(start, d, ts)[b] == ts[j - 1].data[i]
    decreases |ts|
  {
    if ts != [] {
      var last := |ts| - 1;
      InstallAll(start, InstallSeq(start, d, ts[..last]), ts[last]);
      if j < |ts| {
        InstalledBlock(start, d, ts[..last], b, j, i);
      }
    }
  }
}
