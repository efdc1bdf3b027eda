/**
 Loading an executable page by page: the size computation of kernel/exec.c and the text/data
 branch of `vmfault` in kernel/vm.c, against loading every segment whole (program headers as
 in chapter 5 of the System V gABI).

 Program headers are given as records; header i can be read if the file holds it.  The file's
 bytes are read as `readi` reads them.
 */
module LazyLoad {
  import Fs
  import opened Params
  import Paging

  datatype Proghdr = Proghdr(load: bool, exec: bool, write: bool, read: bool, off: nat, vaddr: nat, filesz: nat,
                             memsz: nat)
  datatype Result = Fail | Page(bytes: seq<int>, exec: bool, write: bool, read: bool)

  // ----- exec: where the executable ends -----

  /** What exec demands of a LOAD segment */
  predicate Accepted(h: Proghdr) {
    h.load ==> h.memsz >= h.filesz && h.vaddr + h.memsz < U64 && h.vaddr % PGSIZE == 0
  }

  ghost predicate AllAccepted(hdrs: seq<Proghdr>, phnum: nat) {
    phnum <= |hdrs| && forall i :: 0 <= i < phnum ==> Accepted(hdrs[i])
  }

  /** The largest end of a LOAD segment */
  ghost predicate IsEnd(hdrs: seq<Proghdr>, n: nat, sz: nat)
    requires n <= |hdrs|
  {
    && (forall i :: 0 <= i < n && hdrs[i].load ==> hdrs[i].vaddr + hdrs[i].memsz <= sz)
    && (sz != 0 ==> exists i :: 0 <= i < n && hdrs[i].load && hdrs[i].vaddr + hdrs[i].memsz == sz)
  }

  /** The header loop of exec */
  method ExeEnd(hdrs: seq<Proghdr>, phnum: nat) returns (ok: bool, sz: nat)
    requires forall i :: 0 <= i < |hdrs| ==> hdrs[i].vaddr < U64 && hdrs[i].memsz < U64
    ensures ok <==> AllAccepted(hdrs, phnum)
    ensures ok <==> phnum <= |hdrs| && forall i :: 0 <= i < phnum && hdrs[i].load ==>
                      hdrs[i].filesz <= hdrs[i].memsz && hdrs[i].vaddr + hdrs[i].memsz < U64 &&
                      hdrs[i].vaddr % 4096 == 0
    ensures ok ==> IsEnd(hdrs, phnum, sz)
  {
    sz := 0;
    var i := 0;
    while i < phnum
      invariant i <= phnum && AllAccepted(hdrs, i) && IsEnd(hdrs, i, sz)
    {
      if i >= |hdrs| {
        return false, sz;
      }
      var ph := hdrs[i];
      if ph.load {
        if ph.memsz < ph.filesz {
          return false, sz;
        }
        if (ph.vaddr + ph.memsz) % U64 < ph.vaddr {
          return false, sz;
        }
        if ph.vaddr % PGSIZE != 0 {
          return false, sz;
        }
        if sz < ph.vaddr + ph.memsz {
          sz := ph.vaddr + ph.memsz;
        }
      }
      i := i + 1;
    }
    ok := true;
  }

  // ----- vmfault: one page -----

  predicate Covers(h: Proghdr, va: nat) {
    h.vaddr <= va < (h.vaddr + h.memsz) % U64
  }

  /** The first of n headers that covers the address, or n */
  function FirstCover(hdrs: seq<Proghdr>, n: nat, va: nat): (k: nat)
    requires n <= |hdrs|
    ensures k <= n && (k < n ==> Covers(hdrs[k], va)) && forall i :: 0 <= i < k ==> !Covers(hdrs[i], va)
  {
    if n == 0 then 0
    else
      var k := FirstCover(hdrs, n - 1, va);
      if k == n - 1 && !Covers(hdrs[k], va) then n else k
  }

  /** How many bytes of the page at distance d into the segment come from the file */
  function FilePart(h: Proghdr, d: nat): nat {
    if h.filesz <= d then 0 else if h.filesz < d + PGSIZE then h.filesz - d else PGSIZE
  }

  /** The offset that reaches readi, whose parameter is 32 bits wide */
  function FileOffset(h: Proghdr, d: nat): nat {
    (h.off + d) % U64 % U32
  }

  /** The file supplies the bytes asked for. */
  predicate Supplies(file: seq<int>, h: Proghdr, d: nat) {
    FilePart(h, d) > 0 ==> FileOffset(h, d) + FilePart(h, d) <= |file| && FileOffset(h, d) + FilePart(h, d) < U32
  }

  /** The page d bytes into a segment: bytes of the file, then zeros */
  ghost predicate IsSegmentPage(file: seq<int>, h: Proghdr, d: nat, bytes: seq<int>)
    requires Supplies(file, h, d)
  {
    |bytes| == PGSIZE && forall j :: 0 <= j < PGSIZE ==> bytes[j] == PageByte(file, h, d, j)
  }

  function PageByte(file: seq<int>, h: Proghdr, d: nat, j: nat): int
    requires Supplies(file, h, d)
  {
    if j < FilePart(h, d) then file[FileOffset(h, d) + j] else 0
  }

  /** What a header makes of a fault on a page it covers */
  ghost predicate ServedBy(file: seq<int>, h: Proghdr, d: nat, r: Result) {
    if Supplies(file, h, d) then
      r.Page? && IsSegmentPage(file, h, d, r.bytes) && r.exec == h.exec && r.write == h.write && r.read == h.read
    else
      r == Fail
  }

  /** The first header that covers the page supplies it; with none, or if one before cannot be
      read, the fault fails. */
  ghost predicate Served(file: seq<int>, hdrs: seq<Proghdr>, phnum: nat, va: nat, r: Result) {
    var n := if phnum < |hdrs| then phnum else |hdrs|;
    var k := FirstCover(hdrs, n, va);
    if k == n then r == Fail else ServedBy(file, hdrs[k], va - hdrs[k].vaddr, r)
  }

  lemma PartAndOffset(ph: Proghdr, d: nat, filesz: nat, fileOffset: nat)
    requires fileOffset == (ph.off + d) % U64
    requires filesz == if ph.filesz <= d then 0 else if ph.filesz < d + PGSIZE then ph.filesz - d else PGSIZE
    ensures filesz == FilePart(ph, d) && fileOffset % U32 == FileOffset(ph, d)
  {
  }

  /** Fills a page from the segment that covers it */
  method ReadSegmentPage(file: seq<int>, ph: Proghdr, va: nat) returns (r: Result)
    requires ph.vaddr <= va
    ensures ServedBy(file, ph, va - ph.vaddr, r)
  {
    hide FilePart, FileOffset;
    ghost var d := va - ph.vaddr;
    var page := seq(PGSIZE, _ => 0);
    var fileOffset := (ph.off + (va - ph.vaddr)) % U64;
    var filesz;
    if ph.filesz <= va - ph.vaddr {
      filesz := 0;
    } else if ph.filesz < va - ph.vaddr + PGSIZE {
      filesz := ph.filesz - (va - ph.vaddr);
    } else {
      filesz := PGSIZE;
    }
    PartAndOffset(ph, d, filesz, fileOffset);
    if filesz > 0 {
      var bytes := Fs.ReadAt(file, fileOffset % U32, filesz);
      if |bytes| != filesz {
        return Fail;
      }
      page := bytes + page[filesz..];
    }
    r := Page(page, ph.exec, ph.write, ph.read);
  }

  /** The text/data branch of vmfault, for a page below the end of the executable */
  method LoadPage(file: seq<int>, hdrs: seq<Proghdr>, phnum: nat, va: nat) returns (r: Result)
    requires va % PGSIZE == 0 && va < U64
    ensures Served(file, hdrs, phnum, va, r)
  {
    hide ServedBy;
    var i := 0;
    while i < phnum
      invariant i <= phnum && i <= |hdrs| && forall j :: 0 <= j < i ==> !Covers(hdrs[j], va)
    {
      if i >= |hdrs| {
        return Fail;
      }
      var ph := hdrs[i];
      if va >= ph.vaddr && va < (ph.vaddr + ph.memsz) % U64 {
        r := ReadSegmentPage(file, ph, va);
        return;
      }
      i := i + 1;
    }
    r := Fail;
  }

  // ----- Loading every segment whole -----

  /** The bytes of a segment that the file is to supply are in the file. */
  predicate InFile(file: seq<int>, h: Proghdr) {
    |file| < U32 && h.off + h.filesz <= |file|
  }

  /** Byte `at` of a segment: from the file below filesz, 0 from there on */
  function SegmentByte(file: seq<int>, h: Proghdr, at: nat): int {
    if at < h.filesz && h.off + at < |file| then file[h.off + at] else 0
  }

  function RoundUp(a: nat): nat {
    (a + PGSIZE - 1) / PGSIZE * PGSIZE
  }

  /** The pages of a segment hold address a. */
  predicate Spans(h: Proghdr, a: nat) {
    h.memsz > 0 && h.vaddr <= a < RoundUp(h.vaddr + h.memsz)
  }

  /** Memory after loading the LOAD segments among the first n headers, one after another, into
      fresh pages */
  function WholeByte(file: seq<int>, hdrs: seq<Proghdr>, n: nat, a: nat): int
    requires n <= |hdrs|
  {
    if n == 0 then 0
    else if hdrs[n - 1].load && Spans(hdrs[n - 1], a) then SegmentByte(file, hdrs[n - 1], a - hdrs[n - 1].vaddr)
    else WholeByte(file, hdrs, n - 1, a)
  }

  /** A page belongs to a segment exactly if it starts below the segment's end and ends above its start. */
  lemma SpansExactly(h: Proghdr, a: nat)
    requires h.load && Accepted(h)
    ensures Spans(h, a) <==> h.memsz > 0 && h.vaddr < a / 4096 * 4096 + 4096 && a / 4096 * 4096 < h.vaddr + h.memsz
  {
    var end, v := h.vaddr + h.memsz, h.vaddr / PGSIZE;
    assert h.vaddr == v * PGSIZE;
    assert a < (end + PGSIZE - 1) / PGSIZE * PGSIZE <==> a / PGSIZE < (end + PGSIZE - 1) / PGSIZE;
    assert a / PGSIZE < (end + PGSIZE - 1) / PGSIZE <==> a / PGSIZE * PGSIZE < end;
    assert v * PGSIZE <= a <==> v <= a / PGSIZE;
  }

  /** Memory that no LOAD segment's pages hold stays as new. */
  lemma {:induction false} WholeElsewhere(file: seq<int>, hdrs: seq<Proghdr>, n: nat, a: nat)
    requires n <= |hdrs| && forall i :: 0 <= i < n && hdrs[i].load ==> !Spans(hdrs[i], a)
    ensures WholeByte(file, hdrs, n, a) == 0
  {
    if n > 0 {
      WholeElsewhere(file, hdrs, n - 1, a);
    }
  }

  /** No two LOAD segments share a page. */
  ghost predicate Apart(hdrs: seq<Proghdr>) {
    forall i, j, a :: 0 <= i < j < |hdrs| && hdrs[i].load && hdrs[j].load && Spans(hdrs[i], a) ==> !Spans(hdrs[j], a)
  }

  /** Executables that exec accepts, whose LOAD segments share no page */
  ghost predicate Ordinary(hdrs: seq<Proghdr>) {
    AllAccepted(hdrs, |hdrs|) && Apart(hdrs)
  }

  /** The file holds the LOAD segments. */
  ghost predicate Holds(file: seq<int>, hdrs: seq<Proghdr>) {
    forall i :: 0 <= i < |hdrs| && hdrs[i].load ==> InFile(file, hdrs[i])
  }

  lemma {:induction false} WholeIsSegment(file: seq<int>, hdrs: seq<Proghdr>, n: nat, k: nat, a: nat)
    requires k < n <= |hdrs| && Apart(hdrs) && hdrs[k].load && Spans(hdrs[k], a)
    ensures WholeByte(file, hdrs, n, a) == SegmentByte(file, hdrs[k], a - hdrs[k].vaddr)
  {
    if k < n - 1 {
      WholeIsSegment(file, hdrs, n - 1, k, a);
    }
  }

  /** A page at an aligned address below the end of a segment lies wholly in its pages. */
  lemma PageSpanned(h: Proghdr, va: nat, j: nat)
    requires Accepted(h) && h.load && va % PGSIZE == 0 && Covers(h, va) && j < PGSIZE
    ensures Spans(h, va + j)
  {
    var end := h.vaddr + h.memsz;
    assert va / PGSIZE * PGSIZE == va;
    assert va / PGSIZE < (end + PGSIZE - 1) / PGSIZE;
  }

  /** With the segment in the file, every read is complete and at the right place. */
  lemma SegmentSupplied(file: seq<int>, h: Proghdr, d: nat, j: nat)
    requires InFile(file, h) && j < PGSIZE
    ensures Supplies(file, h, d) && PageByte(file, h, d, j) == SegmentByte(file, h, d + j)
  {
  }

  /** The page is as after loading every segment whole, with the permissions of segment k. */
  ghost predicate IsWholePage(file: seq<int>, hdrs: seq<Proghdr>, k: nat, va: nat, r: Result)
    requires k < |hdrs|
  {
    && r.Page? && |r.bytes| == PGSIZE
    && r.exec == hdrs[k].exec && r.write == hdrs[k].write && r.read == hdrs[k].read
    && forall j :: 0 <= j < PGSIZE ==> r.bytes[j] == WholeByte(file, hdrs, |hdrs|, va + j)
  }

  /** Being served by segment k is being as after loading whole. */
  lemma SegmentIsWhole(file: seq<int>, hdrs: seq<Proghdr>, k: nat, va: nat, r: Result)
    requires Ordinary(hdrs) && Holds(file, hdrs) && va % PGSIZE == 0
    requires k < |hdrs| && hdrs[k].load && Covers(hdrs[k], va)
    ensures ServedBy(file, hdrs[k], va - hdrs[k].vaddr, r) <==> IsWholePage(file, hdrs, k, va, r)
  {
    var h := hdrs[k];
    var d := va - h.vaddr;
    assert Accepted(h) && InFile(file, h);
    hide SegmentByte, WholeByte, Spans, InFile, FilePart, Ordinary, Holds, FileOffset;
    SegmentSupplied(file, h, d, 0);
    hide Supplies;
    forall j | 0 <= j < PGSIZE ensures PageByte(file, h, d, j) == WholeByte(file, hdrs, |hdrs|, va + j) {
      SegmentSupplied(file, h, d, j);
      PageSpanned(h, va, j);
      Distant(hdrs);
      WholeIsSegment(file, hdrs, |hdrs|, k, va + j);
    }
  }

  lemma Distant(hdrs: seq<Proghdr>)
    requires Ordinary(hdrs)
    ensures Apart(hdrs)
  {
  }

  // ----- When lazy loading is right -----

  /** Two headers supply a page from the same bytes, with the same permissions. */
  predicate SameSource(h: Proghdr, h': Proghdr, va: nat)
    requires h.vaddr <= va && h'.vaddr <= va
  {
    var d, d' := va - h.vaddr, va - h'.vaddr;
    && h.exec == h'.exec && h.write == h'.write && h.read == h'.read
    && FilePart(h, d) == FilePart(h', d') && (FilePart(h, d) > 0 ==> FileOffset(h, d) == FileOffset(h', d'))
  }

  lemma SameSourceServes(file: seq<int>, h: Proghdr, h': Proghdr, va: nat, r: Result)
    requires h.vaddr <= va && h'.vaddr <= va && SameSource(h, h', va)
    ensures ServedBy(file, h, va - h.vaddr, r) <==> ServedBy(file, h', va - h'.vaddr, r)
  {
    hide FilePart, FileOffset;
    var d, d' := va - h.vaddr, va - h'.vaddr;
    assert Supplies(file, h, d) <==> Supplies(file, h', d');
    if Supplies(file, h, d) {
      assert forall j: nat :: PageByte(file, h, d, j) == PageByte(file, h', d', j);
    }
  }

  /** The fault is served as a whole load would, whatever the file holds, provided it holds the
      LOAD segments. */
  ghost predicate AlwaysWhole(hdrs: seq<Proghdr>, k: nat, va: nat)
    requires k < |hdrs|
  {
    forall file, r :: Holds(file, hdrs) && Served(file, hdrs, |hdrs|, va, r) ==> IsWholePage(file, hdrs, k, va, r)
  }

  /** The largest file, with bytes 1 where told and 0 elsewhere */
  function Marked(all: bool, at: nat): (file: seq<int>)
    ensures |file| == U32 - 1 && forall p :: 0 <= p < U32 - 1 ==> file[p] == if all || p == at then 1 else 0
  {
    seq(U32 - 1, p => if all || p == at then 1 else 0)
  }

  /** Where the pages of two headers differ on the file with marks */
  lemma Differ(file: seq<int>, h: Proghdr, h': Proghdr, d: nat, d': nat) returns (j: nat)
    requires FilePart(h, d) != FilePart(h', d') || (FilePart(h, d) > 0 && FileOffset(h, d) != FileOffset(h', d'))
    requires file == Marked(FilePart(h, d) != FilePart(h', d'), FileOffset(h', d'))
    requires Supplies(file, h, d) && Supplies(file, h', d')
    ensures j < PGSIZE && PageByte(file, h, d, j) != PageByte(file, h', d', j)
  {
    var part, part' := FilePart(h, d), FilePart(h', d');
    assert part <= PGSIZE && part' <= PGSIZE;
    hide FilePart, FileOffset;
    j := if part < part' then part else if part' < part then part' else 0;
  }

  /** Headers that are not the same source give different pages on some file. */
  lemma Distinguish(h: Proghdr, h': Proghdr, va: nat) returns (file: seq<int>)
    requires h.vaddr <= va && h'.vaddr <= va && !SameSource(h, h', va)
    ensures |file| == U32 - 1
    ensures var d, d' := va - h.vaddr, va - h'.vaddr;
            forall r :: ServedBy(file, h, d, r) && Supplies(file, h', d') ==> !ServedBy(file, h', d', r)
  {
    hide FilePart, FileOffset;
    var d, d' := va - h.vaddr, va - h'.vaddr;
    file := Marked(FilePart(h, d) != FilePart(h', d'), FileOffset(h', d'));
    if Supplies(file, h, d) && Supplies(file, h', d')
       && (FilePart(h, d) != FilePart(h', d') || (FilePart(h, d) > 0 && FileOffset(h, d) != FileOffset(h', d'))) {
      var j := Differ(file, h, h', d, d');
      hide Supplies, PageByte;
      forall r | ServedBy(file, h, d, r) ensures !ServedBy(file, h', d', r) {
        assert r.bytes[j] == PageByte(file, h, d, j);
      }
    }
  }

  function ResultOf(file: seq<int>, h: Proghdr, d: nat): (r: Result)
    ensures ServedBy(file, h, d, r)
  {
    if Supplies(file, h, d) then
      Page(seq(PGSIZE, j requires 0 <= j < PGSIZE => PageByte(file, h, d, j)), h.exec, h.write, h.read)
    else
      Fail
  }

  /** Exactly which pages are served right.  A page that LOAD segment k covers gets, for every file
      that holds the LOAD segments, what loading all segments whole gives, if and only if the first
      header that covers the page, LOAD or not, is the same source as segment k. */
  lemma LazyIsWholeExactly(hdrs: seq<Proghdr>, k: nat, va: nat)
    requires Ordinary(hdrs) && va % PGSIZE == 0 && k < |hdrs| && hdrs[k].load && Covers(hdrs[k], va)
    requires forall i :: 0 <= i < |hdrs| && hdrs[i].load ==> hdrs[i].off + hdrs[i].filesz < U32
    ensures var i := FirstCover(hdrs, |hdrs|, va);
            i <= k && (AlwaysWhole(hdrs, k, va) <==> SameSource(hdrs[i], hdrs[k], va))
  {
    var i := FirstCover(hdrs, |hdrs|, va);
    hide Ordinary, ServedBy, SameSource, IsWholePage;
    if SameSource(hdrs[i], hdrs[k], va) {
      forall file, r | Holds(file, hdrs) && Served(file, hdrs, |hdrs|, va, r)
        ensures IsWholePage(file, hdrs, k, va, r)
      {
        SameSourceServes(file, hdrs[i], hdrs[k], va, r);
        SegmentIsWhole(file, hdrs, k, va, r);
      }
    } else {
      var file := Distinguish(hdrs[i], hdrs[k], va);
      assert Holds(file, hdrs);
      var r := ResultOf(file, hdrs[i], va - hdrs[i].vaddr);
      SegmentSupplied(file, hdrs[k], va - hdrs[k].vaddr, 0);
      SegmentIsWhole(file, hdrs, k, va, r);
    }
  }

  /** On one file: the page is right if the first header that covers it is the same source, and
      otherwise it is the page of that other header. */
  lemma LazyIsWhole(file: seq<int>, hdrs: seq<Proghdr>, k: nat, va: nat, r: Result)
    requires Ordinary(hdrs) && Holds(file, hdrs) && va % PGSIZE == 0
    requires k < |hdrs| && hdrs[k].load && Covers(hdrs[k], va) && Served(file, hdrs, |hdrs|, va, r)
    ensures var i := FirstCover(hdrs, |hdrs|, va);
            && i <= k && ServedBy(file, hdrs[i], va - hdrs[i].vaddr, r) && (hdrs[i].load ==> i == k)
            && (SameSource(hdrs[i], hdrs[k], va) ==> IsWholePage(file, hdrs, k, va, r))
  {
    var i := FirstCover(hdrs, |hdrs|, va);
    if hdrs[i].load {
      PageSpanned(hdrs[i], va, 0);
      PageSpanned(hdrs[k], va, 0);
    }
    hide ServedBy, SameSource, IsWholePage, Ordinary, Holds;
    if SameSource(hdrs[i], hdrs[k], va) {
      SameSourceServes(file, hdrs[i], hdrs[k], va, r);
      SegmentIsWhole(file, hdrs, k, va, r);
    }
  }

  /** In particular: if no header of another kind lies over the page, every page of a LOAD segment is
      served, with the segment's permissions; its bytes are the segment's in the file, and zeros past them. */
  lemma PageOfSegment(file: seq<int>, hdrs: seq<Proghdr>, k: nat, va: nat, r: Result)
    requires Ordinary(hdrs) && Holds(file, hdrs) && va % PGSIZE == 0 && Served(file, hdrs, |hdrs|, va, r)
    requires k < |hdrs| && hdrs[k].load && hdrs[k].vaddr <= va < hdrs[k].vaddr + hdrs[k].memsz
    requires forall i :: 0 <= i < |hdrs| && !hdrs[i].load ==>
               hdrs[i].memsz < U64 && !(hdrs[i].vaddr <= va < hdrs[i].vaddr + hdrs[i].memsz)
    ensures r.Page? && |r.bytes| == 4096
    ensures r.exec == hdrs[k].exec && r.write == hdrs[k].write && r.read == hdrs[k].read
    ensures forall j :: 0 <= j < 4096 ==>
              var at := va - hdrs[k].vaddr + j;
              && (at < hdrs[k].filesz ==> hdrs[k].off + at < |file|)
              && r.bytes[j] == if at < hdrs[k].filesz then file[hdrs[k].off + at] else 0
  {
    var h := hdrs[k];
    assert Accepted(h) && InFile(file, h);
    assert Covers(h, va);
    LazyIsWhole(file, hdrs, k, va, r);
    var i := FirstCover(hdrs, |hdrs|, va);
    OnlyLoads(hdrs, i, va);
    hide Ordinary, Holds, Served, FilePart, FileOffset, InFile;
    SegmentSupplied(file, h, va - h.vaddr, 0);
    forall j | 0 <= j < 4096
      ensures r.bytes[j] == SegmentByte(file, h, va - h.vaddr + j)
    {
      SegmentSupplied(file, h, va - h.vaddr, j);
    }
    InFileMeaning(file, h);
  }

  lemma InFileMeaning(file: seq<int>, h: Proghdr)
    requires InFile(file, h)
    ensures h.off + h.filesz <= |file|
  {
  }

  lemma OnlyLoads(hdrs: seq<Proghdr>, i: nat, va: nat)
    requires i < |hdrs| && Covers(hdrs[i], va)
    requires forall i :: 0 <= i < |hdrs| && !hdrs[i].load ==>
               hdrs[i].memsz < U64 && !(hdrs[i].vaddr <= va < hdrs[i].vaddr + hdrs[i].memsz)
    ensures hdrs[i].load
  {
  }

  /** An executable that exec accepts, in which a header of another kind comes before the LOAD
      segment of the same page: the page holds that header's byte. */
  lemma OtherHeaderIsLoaded(r: Result)
    requires var note := Proghdr(false, false, false, true, 0, 0, 1, 1);
             var text := Proghdr(true, true, false, true, 1, 0, 1, 1);
             Served([7, 9], [note, text], 2, 0, r)
    ensures var note := Proghdr(false, false, false, true, 0, 0, 1, 1);
            var text := Proghdr(true, true, false, true, 1, 0, 1, 1);
            && AllAccepted([note, text], 2) && !SameSource(note, text, 0)
            && r.Page? && |r.bytes| == PGSIZE && r.bytes[0] == 7 && WholeByte([7, 9], [note, text], 2, 0) == 9
  {
    var file := [7, 9];
    var note := Proghdr(false, false, false, true, 0, 0, 1, 1);
    var text := Proghdr(true, true, false, true, 1, 0, 1, 1);
    var hdrs := [note, text];
    assert Covers(hdrs[0], 0) && FirstCover(hdrs, 2, 0) == 0;
    assert Supplies(file, note, 0) && PageByte(file, note, 0, 0) == 7;
    assert Spans(text, 0);
  }

  // ----- The image the pager works with -----

  /** The pages below `exeEnd` that a fault brings in, with their bytes and permissions */
  ghost function ImageOf(file: seq<int>, hdrs: seq<Proghdr>, exeEnd: nat): Paging.Image {
    map v: nat | v < exeEnd && InImage(file, hdrs, exeEnd, v) :: ExecPageOf(Faulted(file, hdrs, v * PGSIZE))
  }

  ghost predicate InImage(file: seq<int>, hdrs: seq<Proghdr>, exeEnd: nat, v: nat) {
    v * PGSIZE < exeEnd && Faulted(file, hdrs, v * PGSIZE).Page?
  }

  ghost function Faulted(file: seq<int>, hdrs: seq<Proghdr>, va: nat): (r: Result)
    ensures Served(file, hdrs, |hdrs|, va, r)
  {
    var k := FirstCover(hdrs, |hdrs|, va);
    if k == |hdrs| then Fail else ResultOf(file, hdrs[k], va - hdrs[k].vaddr)
  }

  function ExecPageOf(r: Result): Paging.ExecPage
    requires r.Page?
  {
    Paging.ExecPage(r.bytes, Paging.Perm(r.read, r.write, r.exec))
  }

  /** That image is what `LoadPage` serves, page by page, and one the pager accepts. */
  lemma ImageIsLoaded(file: seq<int>, hdrs: seq<Proghdr>, exeEnd: nat, v: nat, r: Result)
    requires v * PGSIZE < exeEnd && Served(file, hdrs, |hdrs|, v * PGSIZE, r)
    ensures var image := ImageOf(file, hdrs, exeEnd);
            && (v in image <==> r.Page?)
            && (r.Page? ==> image[v] == ExecPageOf(r) && |image[v].bytes| == PGSIZE)
            && (r.Page? ==> Paging.Fresh(image, exeEnd, v) == r.bytes)
  {
    var r' := Faulted(file, hdrs, v * PGSIZE);
    if r.Page? && r'.Page? {
      assert r.bytes == r'.bytes;
    }
    assert v in ImageOf(file, hdrs, exeEnd) <==> InImage(file, hdrs, exeEnd, v);
  }
}
