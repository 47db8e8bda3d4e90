/** Runs on which a file falls out of step: the write that is not `InStep`, with the garbage
  collector at its worst moment. */
module OutOfStep {
  import opened ScanLog
  import opened FileLog
  import opened RunLog
  import opened BlockLog
  import opened GcRule
  import opened FileSystem
  import opened Contents
  import C = ChunkView
  import S = ShortOpCache

  /** The pages of block `k` are on the log. */
  lemma {:induction false} BlockOnLog(cpb: Pos, blocks: seq<Block>, seqNumber: nat, k: nat)
    requires BlocksOk(cpb, blocks, seqNumber) && k < |blocks|
    ensures |blocks[k].pages| <= cpb
    ensures forall r :: r in PageLog(cpb, blocks[k].no, blocks[k].pages) ==> r in LogOf(cpb, blocks)
    decreases |blocks|
  {
    var n := |blocks| - 1;
    if k < n {
      FrontOk(cpb, blocks, seqNumber);
      BlockOnLog(cpb, blocks[..n], seqNumber, k);
    }
  }

  lemma {:induction false} PageLogPrefix(cpb: Pos, no: nat, pages: seq<Page>, i: nat, r: Rec)
    requires i <= |pages| && r in PageLog(cpb, no, pages[..i])
    ensures r in PageLog(cpb, no, pages)
    decreases |pages|
  {
    if i < |pages| {
      assert pages[..|pages| - 1][..i] == pages[..i];
      PageLogPrefix(cpb, no, pages[..|pages| - 1], i, r);
    } else {
      assert pages[..i] == pages;
    }
  }

  lemma PageLogStep(cpb: Pos, no: nat, pages: seq<Page>, i: nat)
    requires i < |pages|
    ensures PageLog(cpb, no, pages[..i + 1]) ==
              PageLog(cpb, no, pages[..i]) + if pages[i].Used? then [Rec(no * cpb + i, pages[i].tag)] else []
    ensures forall r :: r in PageLog(cpb, no, pages[..i + 1]) ==> r in PageLog(cpb, no, pages)
  {
    assert pages[..i + 1][..i] == pages[..i];
    forall r | r in PageLog(cpb, no, pages[..i + 1]) ensures r in PageLog(cpb, no, pages) {
      PageLogPrefix(cpb, no, pages, i + 1, r);
    }
  }

  lemma NoneLiveIs(cpb: Pos, files: Files, b: Block)
    requires forall r :: r in PageLog(cpb, b.no, b.pages) ==> !Live(files, r)
    ensures NoneLive(cpb, files, b)
  {}

  // ---------- the collector, block by block from the oldest ----------

  /** The header of `o` lies in a block that can be collected. */
  ghost predicate HdrClosed(fs: Fs, o: nat)
    requires o in fs.files
    reads fs
  {
    exists k :: 0 <= k < |fs.blocks| && HdrAt(fs.cpb, fs.blocks, fs.open, fs.files[o].hdr, k)
  }

  predicate HdrAt(cpb: Pos, blocks: seq<Block>, open: bool, hdr: nat, k: nat)
    requires k < |blocks|
  {
    Closed(blocks, open, k) && hdr in AddrsOf(cpb, blocks[k].no)
  }

  /** Copies page `i` of block `no` out of it if it is live. */
  method CopyOut(fs: Fs, ghost b: Busy, o: nat, no: nat, pages: seq<Page>, i: nat)
    requires fs.Mid(b) && (b.Busy? ==> b.o in fs.files) && i < |pages| <= fs.cpb && o in fs.files
    requires fs.files[o].hdr !in AddrsOf(fs.cpb, no)
    requires forall r :: r in PageLog(fs.cpb, no, pages) ==> r in fs.TheLog()
    requires forall r :: r in PageLog(fs.cpb, no, pages[..i]) ==> !Live(fs.files, r)
    modifies fs
    ensures fs.Mid(b) && SameFiles(old(fs.files), fs.files) && fs.files.Keys == old(fs.files).Keys
    ensures fs.Flash() == old(fs.Flash())
    ensures Grown(old(fs.blocks), old(fs.open), fs.blocks, fs.open) && fs.hasShrink == old(fs.hasShrink)
    ensures fs.gcBlock == old(fs.gcBlock) && fs.refused == old(fs.refused)
    ensures o in fs.files && fs.files[o].hdr == old(fs.files)[o].hdr
    ensures forall r :: r in PageLog(fs.cpb, no, pages) ==> r in fs.TheLog()
    ensures forall r :: r in PageLog(fs.cpb, no, pages[..i + 1]) ==> !Live(fs.files, r)
  {
    hide Inv, LogOf, BlocksOk, Stored, ChunksOf, RamOk, AllOk, Grown;
    GrownSame(fs.blocks, fs.open);
    SameRefl(fs.files);
    PageLogStep(fs.cpb, no, pages, i);
    if pages[i].Used? {
      var q := Rec(no * fs.cpb + i, pages[i].tag);
      if Live(fs.files, q) {
        if q.tag.Data? {
          var addr := fs.CopyData(b, q);
        } else {
          assert InBlock(fs.cpb, no, q.addr);
          fs.CopyHeader(b, q.tag.obj);
        }
      }
    }
  }

  /** Collects the oldest block, which passes the test whatever is flagged. */
  method CollectOldest(fs: Fs, ghost b: Busy, o: nat)
    requires fs.Mid(b) && (b.Busy? ==> b.o in fs.files) && fs.gcBlock.None? && o in fs.files && fs.blocks != []
    requires Closed(fs.blocks, fs.open, 0) && fs.files[o].hdr !in AddrsOf(fs.cpb, fs.blocks[0].no)
    modifies fs
    ensures fs.Mid(b) && SameFiles(old(fs.files), fs.files) && fs.gcBlock.None? && fs.refused == old(fs.refused)
    ensures fs.Flash() == old(fs.Flash())
    ensures o in fs.files && fs.files[o].hdr == old(fs.files)[o].hdr
    ensures forall i :: 1 <= i < |old(fs.blocks)| && Closed(old(fs.blocks), old(fs.open), i) ==>
              i - 1 < |fs.blocks| && fs.blocks[i - 1] == old(fs.blocks)[i] && Closed(fs.blocks, fs.open, i - 1)
  {
    hide Inv, LogOf, BlocksOk, Stored, ChunksOf, RamOk, AllOk, LiveIn, AllLive, NoneLive;
    ghost var blocks0, open0, files0 := fs.blocks, fs.open, fs.files;
    var no, pages := fs.blocks[0].no, fs.blocks[0].pages;
    var ok := fs.Consider(b, 0);
    fs.StartGc(b);
    EmptyBlock(fs, b, o, no, pages);
    ghost var blocks1 := fs.blocks;
    fs.EraseBlock(b, 0);
    forall i | 1 <= i < |blocks0| && Closed(blocks0, open0, i)
      ensures i - 1 < |fs.blocks| && fs.blocks[i - 1] == blocks0[i] && Closed(fs.blocks, fs.open, i - 1)
    {
      assert blocks1[i] == blocks0[i];
    }
  }

  method EmptyBlock(fs: Fs, ghost b: Busy, o: nat, no: nat, pages: seq<Page>)
    requires fs.Mid(b) && (b.Busy? ==> b.o in fs.files) && o in fs.files && fs.blocks != []
    requires fs.blocks[0].no == no && fs.blocks[0].pages == pages && Closed(fs.blocks, fs.open, 0)
    requires fs.files[o].hdr !in AddrsOf(fs.cpb, no)
    modifies fs
    ensures fs.Mid(b) && SameFiles(old(fs.files), fs.files) && fs.refused == old(fs.refused)
    ensures Grown(old(fs.blocks), old(fs.open), fs.blocks, fs.open)
    ensures fs.gcBlock == old(fs.gcBlock) && fs.hasShrink == old(fs.hasShrink)
    ensures fs.Flash() == old(fs.Flash())
    ensures o in fs.files && fs.files[o].hdr == old(fs.files)[o].hdr
    ensures fs.blocks != [] && NoneLive(fs.cpb, fs.files, fs.blocks[0])
  {
    hide Inv, LogOf, BlocksOk, Stored, ChunksOf, RamOk, AllOk, LiveIn, AllLive, NoneLive, SameFiles;
    ghost var blocks0, open0, files0 := fs.blocks, fs.open, fs.files;
    BlockOnLog(fs.cpb, fs.blocks, fs.seqNumber, 0);
    GrownSame(fs.blocks, fs.open);
    SameRefl(fs.files);
    for i := 0 to |pages|
      invariant fs.Mid(b) && SameFiles(files0, fs.files) && fs.files.Keys == files0.Keys
      invariant fs.Flash() == old(fs.Flash())
      invariant fs.refused == old(fs.refused)
      invariant Grown(blocks0, open0, fs.blocks, fs.open) && fs.gcBlock == old(fs.gcBlock)
      invariant fs.hasShrink == old(fs.hasShrink)
      invariant fs.files[o].hdr == files0[o].hdr
      invariant forall r :: r in PageLog(fs.cpb, no, pages) ==> r in fs.TheLog()
      invariant forall r :: r in PageLog(fs.cpb, no, pages[..i]) ==> !Live(fs.files, r)
    {
      ghost var blocks1, open1, files1 := fs.blocks, fs.open, fs.files;
      CopyOut(fs, b, o, no, pages, i);
      GrownTrans(blocks0, open0, blocks1, open1, fs.blocks, fs.open);
      SameTrans(files0, files1, fs.files);
    }
    assert pages[..|pages|] == pages;
    NoneLiveIs(fs.cpb, fs.files, fs.blocks[0]);
  }

  /** Collects blocks from the oldest on until the header of `o` has been copied. */
  method CollectHeader(fs: Fs, ghost b: Busy, o: nat)
    requires fs.Mid(b) && (b.Busy? ==> b.o in fs.files) && fs.gcBlock.None? && o in fs.files && HdrClosed(fs, o)
    modifies fs
    ensures fs.Mid(b) && SameFiles(old(fs.files), fs.files) && fs.refused == old(fs.refused)
    ensures fs.Flash() == old(fs.Flash())
    ensures o in fs.files
    ensures fs.TheLog() != [] && fs.TheLog()[|fs.TheLog()| - 1] ==
              Rec(fs.files[o].hdr, Header(o, fs.files[o].size, false, fs.files[o].gone))
  {
    hide Inv, LogOf, BlocksOk, Stored, ChunksOf, RamOk, AllOk, LiveIn, AllLive, SameFiles;
    ghost var files0 := fs.files;
    SameRefl(files0);
    ghost var k: nat :| k < |fs.blocks| && HdrAt(fs.cpb, fs.blocks, fs.open, fs.files[o].hdr, k);
    while fs.files[o].hdr !in AddrsOf(fs.cpb, fs.blocks[0].no)
      invariant fs.Mid(b) && SameFiles(files0, fs.files) && fs.files.Keys == files0.Keys && fs.gcBlock.None?
      invariant fs.Flash() == old(fs.Flash())
      invariant fs.refused == old(fs.refused)
      invariant k < |fs.blocks| && HdrAt(fs.cpb, fs.blocks, fs.open, fs.files[o].hdr, k)
      decreases k
    {
      ghost var files1 := fs.files;
      CollectOldest(fs, b, o);
      SameTrans(files0, files1, fs.files);
      SameKeys(files0, fs.files);
      k := k - 1;
    }
    assert Closed(fs.blocks, fs.open, 0);
    var ok := fs.Consider(b, 0);
    fs.StartGc(b);
    ghost var files2 := fs.files;
    fs.CopyHeader(b, o);
    SameTrans(files0, files2, fs.files);
  }

  lemma SameKeys(a: Files, b: Files)
    requires SameFiles(a, b)
    ensures a.Keys == b.Keys
  {}

  // ---------- what a mount makes of it ----------

  /** Data beyond the size of the newest header is lost to a mount, though RAM maps it. */
  lemma ChunkLost(cs: Pos, log: Log, files: Files, o: nat, c: ChunkId)
    requires o in files && !files[o].gone && c in files[o].chunks && Look(cs, log, o, c, MaxSize(cs), false).None?
    ensures !Restored(cs, files, {o}, Idle, o, ScanObj(cs, log, o, FreshScan(cs)))
  {
    hide Look, ScanObj;
    ScanMeansLook(cs, log, o, FreshScan(cs), c);
  }

  /** A header with another size, and no data after it, gives the file that size. */
  lemma SizeLost(cs: Pos, log: Log, files: Files, o: nat, r: Rec)
    requires o in files && !files[o].gone && ChunksFit(log)
    requires log != [] && log[|log| - 1] == r && r.tag.Header? && r.tag.obj == o && r.tag.size != files[o].size
    ensures !Restored(cs, files, {o}, Idle, o, ScanObj(cs, log, o, FreshScan(cs)))
  {
    hide Look, ScanObj;
    ScanMeansSize(cs, log, o, FreshScan(cs));
  }

  lemma HeaderHides(cs: Pos, log: Log, o: nat, c: ChunkId)
    requires log != [] && log[|log| - 1].tag.Header? && log[|log| - 1].tag.obj == o
    requires log[|log| - 1].tag.size <= Base(cs, c)
    ensures Look(cs, log, o, c, MaxSize(cs), false).None?
  {
    LookCut(cs, log[..|log| - 1], o, c, Min(MaxSize(cs), log[|log| - 1].tag.size), true);
  }

  lemma StillHidden(cs: Pos, log: Log, o: nat, c: ChunkId, r: Rec)
    requires Look(cs, log, o, c, MaxSize(cs), false).None? && r.tag.Data? && r.tag.obj == o && r.tag.chunk != c
    ensures Look(cs, log + [r], o, c, MaxSize(cs), false).None?
  {
    AppendUnfold(log, r);
  }

  /** The header RAM knows lies in some block. */
  lemma HdrSomewhere(fs: Fs, b: Busy, o: nat) returns (k: nat)
    requires fs.Mid(b) && o in fs.files
    ensures k < |fs.blocks| && fs.files[o].hdr in AddrsOf(fs.cpb, fs.blocks[k].no)
  {
    hide Inv, LogOf, BlocksOk, AllOk, RamOk;
    var log := fs.TheLog();
    InvAt(fs.cs, log, fs.files, fs.synced, b, o);
    FileLog.HdrIn(log, o);
    var h := NewestHdr(log, o).value;
    LogAddrs(fs.cpb, fs.blocks, fs.seqNumber, h);
    k :| 0 <= k < |fs.blocks| && h in PageLog(fs.cpb, fs.blocks[k].no, fs.blocks[k].pages);
    BlockOnLog(fs.cpb, fs.blocks, fs.seqNumber, k);
    PageAddrs(fs.cpb, fs.blocks[k].no, fs.blocks[k].pages, h);
  }

  lemma ChunksFitNow(fs: Fs, b: Busy)
    requires fs.Mid(b)
    ensures ChunksFit(fs.TheLog())
  {}

  // ---------- the run ----------

  /** The state a write of `pos - offset` bytes at `offset` has reached, on a file of `size` bytes. */
  function Under(o: nat, size: nat, offset: nat, pos: nat): Busy {
    Busy(o, Max(size, pos), true, if pos == offset then size else Max(size, pos), false)
  }

  /** One piece, written after one failed attempt, so that the header's block is closed. */
  method PutPiece(fs: Fs, o: nat, offset: nat, pos: nat, chunk: ChunkId, bytes: seq<Byte>, nWriteback: nat,
                  failures: nat)
    requires o in fs.files && offset <= pos && fs.Mid(Under(o, fs.files[o].size, offset, pos))
    requires bytes != [] && 0 < nWriteback <= fs.cs && pos + |bytes| <= MaxSize(fs.cs)
    requires Base(fs.cs, chunk) <= pos < Base(fs.cs, chunk) + fs.cs && pos + |bytes| <= Base(fs.cs, chunk) + fs.cs
    requires Base(fs.cs, chunk) + nWriteback ==
               if pos + |bytes| == Base(fs.cs, chunk) + fs.cs then pos + |bytes|
               else Max(pos + |bytes|, Min(fs.files[o].size, Base(fs.cs, chunk) + fs.cs))
    modifies fs
    ensures o in fs.files && OthersSame(old(fs.files), fs.files, o) && fs.files[o].size == old(fs.files)[o].size
    ensures fs.files[o].gone == old(fs.files)[o].gone && fs.files[o].hdr == old(fs.files)[o].hdr
    ensures fs.files[o].chunks.Keys == old(fs.files)[o].chunks.Keys + {chunk}
    ensures C.Edited(fs.cs, old(fs.M()), fs.M(), o, pos, bytes)
    ensures fs.Mid(Under(o, fs.files[o].size, offset, pos + |bytes|))
    ensures fs.gcBlock == old(fs.gcBlock) && fs.refused == old(fs.refused)
    ensures failures > 0 ==> HdrClosed(fs, o)
    ensures exists r :: fs.TheLog() == old(fs.TheLog()) + [r] && r.tag == Data(o, chunk, nWriteback)
  {
    hide Inv, LogOf, BlocksOk, Stored, ChunksOf, ZeroFrom, C.Edited, AllOk, RamOk, LiveIn, OthersSame;
    var size := fs.files[o].size;
    ghost var b := Under(o, size, offset, pos);
    ghost var z' := Max(size, pos + |bytes|);
    ghost var k := HdrSomewhere(fs, b, o);
    ghost var blocks0, hdr := fs.blocks, fs.files[o].hdr;
    PieceFits(fs.cs, pos, chunk);
    fs.FitsNow(b, o);
    NextBase(fs.cs, pos, |bytes|, chunk);
    var data := fs.PieceData(o, chunk, pos, bytes, b, z');
    fs.PutChunk(o, chunk, nWriteback, data, b, z', z', failures);
    if failures > 0 { assert HdrAt(fs.cpb, fs.blocks, fs.open, fs.files[o].hdr, k); }
  }

  lemma NextBase(cs: Pos, pos: nat, nCopy: nat, chunk: ChunkId)
    requires Base(cs, chunk) <= pos && pos + nCopy <= Base(cs, chunk) + cs
    ensures forall d: ChunkId :: pos <= Base(cs, d) < pos + nCopy ==> d == chunk
  {
    forall d: ChunkId | pos <= Base(cs, d) < pos + nCopy ensures d == chunk { BaseOrder(cs, d, chunk); }
  }

  /** All pieces of the write but the last; `prev` is the chunk written last. */
  method AllButLast(fs: Fs, o: nat, offset: nat, data: seq<Byte>)
      returns (nDone: nat, ghost prev: ChunkId)
    requires o in fs.files && fs.Mid(Under(o, fs.files[o].size, offset, offset)) && fs.gcBlock.None?
    requires data != [] && offset + |data| <= MaxSize(fs.cs) && !OneChunk(fs.cs, offset, |data|)
    modifies fs
    ensures o in fs.files && OthersSame(old(fs.files), fs.files, o) && fs.files[o].size == old(fs.files)[o].size
    ensures fs.files[o].gone == old(fs.files)[o].gone && fs.gcBlock.None? && fs.refused == old(fs.refused)
    ensures 0 < nDone < |data| && fs.Mid(Under(o, fs.files[o].size, offset, offset + nDone)) && HdrClosed(fs, o)
    ensures prev in fs.files[o].chunks && Base(fs.cs, prev) + fs.cs == offset + nDone
    ensures C.Edited(fs.cs, old(fs.M()), fs.M(), o, offset, data[..nDone])
    ensures offset + |data| <= offset + nDone + fs.cs
  {
    hide Inv, LogOf, BlocksOk, Stored, ChunksOf, C.Edited, AllOk, RamOk, LiveIn, OthersSame, Base;
    ghost var files0, m0 := fs.files, fs.M();
    var n := |data|;
    var fileSize := fs.files[o].size;
    OthersRefl(fs.files, o);
    S.EditedNone(fs.cs, m0, o, offset);
    assert data[..0] == [];
    nDone := 0;
    var chunk, nCopy, nWriteback := NextPiece(fs.cs, offset, n, fileSize);
    prev := chunk;
    while nCopy < n - nDone
      invariant o in fs.files && OthersSame(files0, fs.files, o) && fs.files[o].size == fileSize
      invariant fs.files[o].gone == files0[o].gone && fs.gcBlock.None? && fs.refused == old(fs.refused)
      invariant nDone < n && 0 < nCopy <= n - nDone && 0 < nWriteback <= fs.cs
      invariant C.Edited(fs.cs, m0, fs.M(), o, offset, data[..nDone])
      invariant fs.Mid(Under(o, fileSize, offset, offset + nDone))
      invariant Base(fs.cs, chunk) <= offset + nDone < Base(fs.cs, chunk) + fs.cs
      invariant nCopy == Min(n - nDone, Base(fs.cs, chunk) + fs.cs - (offset + nDone))
      invariant nCopy < n - nDone ==> Base(fs.cs, chunk) + nWriteback == Base(fs.cs, chunk) + fs.cs
      invariant nDone == 0 ==> nCopy < n
      invariant nDone > 0 ==>
                  HdrClosed(fs, o) && prev in fs.files[o].chunks && Base(fs.cs, prev) + fs.cs == offset + nDone
      decreases n - nDone
    {
      ghost var files1, m1 := fs.files, fs.M();
      var bytes := data[nDone..nDone + nCopy];
      PutPiece(fs, o, offset, offset + nDone, chunk, bytes, nWriteback, 1);
      C.EditedTwice(fs.cs, m0, m1, fs.M(), o, offset, data[..nDone], bytes);
      assert data[..nDone] + bytes == data[..nDone + nCopy];
      OthersTrans(files0, files1, fs.files, o);
      prev := chunk;
      assert prev in fs.files[o].chunks.Keys;
      nDone := nDone + nCopy;
      chunk, nCopy, nWriteback := NextPiece(fs.cs, offset + nDone, n - nDone, fileSize);
    }
  }

  /** A write that is not `InStep`, the collector copying the header between its last two pieces:
    the write is done, and a mount would find the file otherwise.  It can happen on every device
    on which no collection is half done. */
  method FallOutOfStep(fs: Fs, o: nat, offset: nat, data: seq<Byte>)
    requires fs.Valid() && o in fs.files && !fs.files[o].gone && fs.gcBlock.None?
    requires offset + |data| <= MaxSize(fs.cs) && !InStep(fs.cs, offset, |data|, fs.files[o].size)
    modifies fs
    ensures fs.Valid() && o in fs.files && OthersSame(old(fs.files), fs.files, o) && !fs.files[o].gone
    ensures C.Edited(fs.cs, old(fs.M()), fs.M(), o, offset, data)
    ensures fs.files[o].size == Max(old(fs.files)[o].size, offset + |data|) && fs.refused == old(fs.refused)
    ensures !Restored(fs.cs, fs.files, {o}, Idle, o, ScanObj(fs.cs, fs.TheLog(), o, FreshScan(fs.cs)))
  {
    hide Inv, LogOf, BlocksOk, Stored, ChunksOf, C.Edited, AllOk, RamOk, LiveIn, OthersSame, SameFiles, Base;
    hide LastStart, Restored, OneChunk;
    ghost var files0, m0, n := fs.files, fs.M(), |data|;
    var size := fs.files[o].size;
    OthersRefl(fs.files, o);
    if offset > size {
      fs.PutHoleHeader(o, offset);
      OthersOf(files0, fs.files, o);
    } else {
      fs.BelowNow(o);
    }
    ghost var files1 := fs.files;
    if data == [] {
      S.EditedNone(fs.cs, m0, o, offset);
      ChunksFitNow(fs, Under(o, size, offset, offset));
      fs.FinishWrite(o, offset, size, false);
      SizeLost(fs.cs, fs.TheLog(), fs.files, o, fs.TheLog()[|fs.TheLog()| - 1]);
      OthersPut(files1, o, fs.files[o]);
      OthersTrans(files0, files1, fs.files, o);
      return;
    }
    ghost var prev;
    var nDone;
    nDone, prev := AllButLast(fs, o, offset, data);
    ghost var files2 := fs.files;
    OthersTrans(files0, files1, files2, o);
    CollectHeader(fs, Under(o, size, offset, offset + nDone), o);
    ghost var files3 := fs.files;
    OthersOf(files2, files3, o);
    OthersTrans(files0, files2, files3, o);
    LastPieceFar(fs.cs, offset, n, nDone, prev, size);
    HeaderHides(fs.cs, fs.TheLog(), o, prev);
    ghost var m1 := fs.M();
    WriteLast(fs, o, offset, data, nDone, prev);
    C.EditedTwice(fs.cs, m0, m1, fs.M(), o, offset, data[..nDone], data[nDone..]);
    assert data[..nDone] + data[nDone..] == data;
    OthersTrans(files0, files3, fs.files, o);
    ChunkLost(fs.cs, fs.TheLog(), fs.files, o, prev);
  }

  /** The last piece and the end of the write. */
  method WriteLast(fs: Fs, o: nat, offset: nat, data: seq<Byte>, nDone: nat, ghost prev: ChunkId)
    requires o in fs.files && fs.Mid(Under(o, fs.files[o].size, offset, offset + nDone))
    requires 0 < nDone < |data| <= nDone + fs.cs && offset + |data| <= MaxSize(fs.cs)
    requires prev in fs.files[o].chunks.Keys && Base(fs.cs, prev) + fs.cs == offset + nDone
    requires Look(fs.cs, fs.TheLog(), o, prev, MaxSize(fs.cs), false).None?
    modifies fs
    ensures fs.Valid() && o in fs.files && OthersSame(old(fs.files), fs.files, o)
    ensures C.Edited(fs.cs, old(fs.M()), fs.M(), o, offset + nDone, data[nDone..])
    ensures fs.files[o].size == Max(old(fs.files)[o].size, offset + |data|) && fs.files[o].gone == old(fs.files)[o].gone
    ensures fs.refused == old(fs.refused) && prev in fs.files[o].chunks
    ensures Look(fs.cs, fs.TheLog(), o, prev, MaxSize(fs.cs), false).None?
  {
    hide Inv, LogOf, BlocksOk, Stored, ChunksOf, C.Edited, AllOk, RamOk, LiveIn, OthersSame, Base, Look;
    var n := |data|;
    ghost var files0, log := fs.files, fs.TheLog();
    var size := fs.files[o].size;
    var chunk, nCopy, nWriteback := NextPiece(fs.cs, offset + nDone, n - nDone, size);
    WholeLast(fs.cs, offset + nDone, n - nDone, prev, chunk);
    PutPiece(fs, o, offset, offset + nDone, chunk, data[nDone..], nWriteback, 0);
    ghost var r :| fs.TheLog() == log + [r] && r.tag == Data(o, chunk, nWriteback);
    StillHidden(fs.cs, log, o, prev, r);
    ghost var files1 := fs.files;
    assert prev in fs.files[o].chunks.Keys;
    fs.FinishWrite(o, Max(size, offset + n), Max(size, offset + n), false);
    OthersPut(files1, o, fs.files[o]);
    OthersTrans(files0, files1, fs.files, o);
  }

  lemma WholeLast(cs: Pos, pos: nat, left: nat, prev: ChunkId, chunk: ChunkId)
    requires Base(cs, prev) + cs == pos && 0 < left <= cs && Base(cs, chunk) <= pos < Base(cs, chunk) + cs
    ensures chunk == prev + 1 && Base(cs, chunk) == pos
  {
    assert Base(cs, prev + 1) == pos;
    BaseOrder(cs, chunk, prev + 1);
  }

  /** The piece before the last lies wholly beyond the end of the file. */
  lemma LastPieceFar(cs: Pos, offset: nat, n: nat, nDone: nat, prev: ChunkId, size: nat)
    requires 0 < nDone < n <= nDone + cs && Base(cs, prev) + cs == offset + nDone && !InStep(cs, offset, n, size)
    ensures size <= Base(cs, prev)
  {
    assert Base(cs, prev + 1) == offset + nDone;
    LastPiece(cs, offset + nDone, n - nDone, prev + 1);
  }
}
