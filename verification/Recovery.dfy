/** Power failure and mount: what comes back. */
module Recovery {
  import opened ScanLog
  import opened FileLog
  import opened RunLog
  import opened BlockLog
  import opened MountScan
  import opened MountTable
  import opened FileSystem
  import opened Contents
  import C = ChunkView
  import S = ShortOpCache

  /** Power fails at moment `m` of some run, inside a call or between calls, and the device is
    mounted by the backward scan.  What was in step reads back byte for byte.  If every file was in
    step then, the device goes on from the mounted table as it would have between calls. */
  method Remount(cs: Pos, cpb: Pos, ghost m: Moment, nand: seq<Option<Block>>, pages: Pages)
      returns (objs: map<nat, FileScan>, fs: Fs)
    requires MomentOk(cs, cpb, m) && OnFlash(m.blocks, nand) && Window(m.blocks) && pages == m.pages
    ensures forall o: nat :: Restored(cs, m.files, m.synced, m.b, o, StateOf(cs, objs, o))
    ensures fresh(fs) && fs.cs == cs && fs.cpb == cpb && fs.files == Table(objs)
    ensures fs.TheLog() == LogOf(cpb, m.blocks)
    ensures forall o: nat :: o in m.files && !m.files[o].gone && o in m.synced ==>
              fs.Text(o) == S.TextOf(cs, C.Mem([], ChunksOf(m.files, m.pages)), o, Until(m.b, o, m.files[o]))
    ensures AllInStep(m.files, m.synced) ==> fs.Valid() && fs.synced == fs.files.Keys
  {
    hide Inv, LogOf, BlocksOk, OnFlash, Window, OnCourse, Restored, ScanObj, AllInStep, Stored, ChunksOf;
    var found;
    objs, found := ScanBackwards(cs, cpb, nand, m.blocks, m.seqNumber);
    ghost var log := LogOf(cpb, m.blocks);
    forall o: nat
      ensures StateOf(cs, objs, o) == ScanObj(cs, log, o, FreshScan(cs))
      ensures Restored(cs, m.files, m.synced, m.b, o, StateOf(cs, objs, o))
    {
      CourseDone(cs, log, objs, o);
      MountRebuilds(cs, log, m.files, m.synced, m.b, o);
    }
    forall o | o in m.files && !m.files[o].gone && o in m.synced ensures Found(m.b, o, m.files[o]) >= 0 {
      FoundSize(cs, log, m.files, m.synced, m.b, o);
    }
    FoundOk(cpb, m.blocks, m.seqNumber);
    if AllInStep(m.files, m.synced) {
      MountedInv(cs, log, m.files, m.synced, m.b, objs);
      MountedStored(cs, log, m.files, m.synced, m.pages, m.b, objs);
    }
    fs := new Fs.Mount(cs, cpb, found, HighestSeq(found), pages, Table(objs), Table(objs).Keys);
    forall o: nat | o in m.files && !m.files[o].gone && o in m.synced
      ensures fs.Text(o) == S.TextOf(cs, C.Mem([], ChunksOf(m.files, m.pages)), o, Until(m.b, o, m.files[o]))
    {
      RestoredText(cs, m.files, m.synced, m.pages, m.b, o, objs);
    }
  }

  lemma {:induction false} ScanSize(cs: Pos, log: Log, o: nat, st: FileScan)
    requires 0 <= st.size == st.scanned
    ensures ScanObj(cs, log, o, st).size >= 0
    decreases |log|
  {
    if log != [] {
      var r := log[|log| - 1];
      ScanSize(cs, log[..|log| - 1], o, if r.tag.obj == o then Step(cs, r, st) else st);
    }
  }

  lemma FoundSize(cs: Pos, log: Log, files: Files, synced: set<nat>, b: Busy, o: nat)
    requires Inv(cs, log, files, synced, b) && o in files && !files[o].gone && o in synced
    ensures Found(b, o, files[o]) >= 0
  {
    hide Inv, ScanObj;
    MountRebuilds(cs, log, files, synced, b, o);
    ScanSize(cs, log, o, FreshScan(cs));
  }

  /** A file in step has the chunk map RAM had, and the size written so far. */
  lemma RestoredFile(cs: Pos, files: Files, synced: set<nat>, b: Busy, o: nat, objs: map<nat, FileScan>)
    requires Restored(cs, files, synced, b, o, StateOf(cs, objs, o)) && o in files && !files[o].gone && o in synced
    requires Found(b, o, files[o]) >= 0
    ensures o in Table(objs) && !Table(objs)[o].gone && Table(objs)[o].chunks == files[o].chunks
    ensures Table(objs)[o].size == Until(b, o, files[o])
  {
    assert !FreshScan(cs).valid;
  }

  lemma RestoredText(cs: Pos, files: Files, synced: set<nat>, pages: Pages, b: Busy, o: nat, objs: map<nat, FileScan>)
    requires Restored(cs, files, synced, b, o, StateOf(cs, objs, o)) && o in files && !files[o].gone && o in synced
    requires Found(b, o, files[o]) >= 0
    ensures o in Table(objs)
    ensures S.TextOf(cs, C.Mem([], ChunksOf(Table(objs), pages)), o, Table(objs)[o].size) ==
              S.TextOf(cs, C.Mem([], ChunksOf(files, pages)), o, Until(b, o, files[o]))
  {
    RestoredFile(cs, files, synced, b, o, objs);
    hide C.ByteAt, ChunksOf, Restored, Table;
    forall i: nat
      ensures C.ByteAt(cs, C.Mem([], ChunksOf(Table(objs), pages)), o, i) ==
                C.ByteAt(cs, C.Mem([], ChunksOf(files, pages)), o, i)
    {
      SameByte(cs, files, Table(objs), pages, o, i);
    }
  }

  /** If every file was in step, the mounted files are zero past their sizes. */
  lemma MountedStored(cs: Pos, log: Log, files: Files, synced: set<nat>, pages: Pages, b: Busy,
                      objs: map<nat, FileScan>)
    requires Stored(cs, log, files, pages, b) && AllInStep(files, synced)
    requires forall o: nat :: Restored(cs, files, synced, b, o, StateOf(cs, objs, o))
    requires forall o :: o in files && !files[o].gone && o in synced ==> Found(b, o, files[o]) >= 0
    ensures Stored(cs, log, Table(objs), pages, Idle)
  {
    var t := Table(objs);
    hide C.ByteAt, ChunksOf, Backed;
    forall o | o in t && !t[o].gone
      ensures C.ZeroPast(cs, C.Mem([], ChunksOf(t, pages)), o, Until(Idle, o, t[o]))
    {
      assert Restored(cs, files, synced, b, o, StateOf(cs, objs, o));
      RestoredFile(cs, files, synced, b, o, objs);
      assert C.ZeroPast(cs, C.Mem([], ChunksOf(files, pages)), o, Until(b, o, files[o]));
      forall i: nat | i >= t[o].size
        ensures C.ByteAt(cs, C.Mem([], ChunksOf(t, pages)), o, i) == 0
      {
        SameByte(cs, files, t, pages, o, i);
      }
    }
  }

  /** Every moment of a run qualifies, and so does the state a run has come to. */
  lemma MomentsQualify(fs: Fs, b: Busy, i: nat)
    requires fs.Mid(b)
    ensures MomentOk(fs.cs, fs.cpb, fs.Now(b))
    ensures i < |fs.moments| ==> MomentOk(fs.cs, fs.cpb, fs.moments[i])
  {}

  // ---------- where the guarantee ends ----------

  /** A garbage collection that copies the header between two chunk writes of one growing
    write: the first chunk is on flash, RAM maps it, and a mount no longer finds it. */
  lemma StaleHeaderLosesChunk(cs: Pos)
    ensures var beforeGc := [Rec(64, Header(7, 0, false, false)), Rec(65, Data(7, 1, cs))];
            var afterGc := beforeGc + [Rec(128, Header(7, 0, false, false))];
            var finished := afterGc + [Rec(129, Data(7, 2, cs))];
            && ScanObj(cs, beforeGc, 7, FreshScan(cs)).chunks == map[1 := 65]
            && ScanObj(cs, finished, 7, FreshScan(cs)).chunks == map[2 := 129]
  {
    var h0, d1 := Rec(64, Header(7, 0, false, false)), Rec(65, Data(7, 1, cs));
    var h1, d2 := Rec(128, Header(7, 0, false, false)), Rec(129, Data(7, 2, cs));
    BaseBelowMax(cs, 1);
    BaseBelowMax(cs, 2);
    ScanFour(cs, h0, d1, h1, d2, FreshScan(cs));
  }

  lemma ScanFour(cs: Pos, h0: Rec, d1: Rec, h1: Rec, d2: Rec, st: FileScan)
    requires h0.tag.obj == 7 && d1.tag.obj == 7 && h1.tag.obj == 7 && d2.tag.obj == 7
    ensures ScanObj(cs, [h0, d1], 7, st) == Step(cs, h0, Step(cs, d1, st))
    ensures ScanObj(cs, [h0, d1] + [h1] + [d2], 7, st) == Step(cs, h0, Step(cs, d1, Step(cs, h1, Step(cs, d2, st))))
  {
    assert [h0, d1][..1] == [h0] && [h0][..0] == [];
    assert ([h0, d1] + [h1])[..2] == [h0, d1];
    assert ([h0, d1] + [h1] + [d2])[..3] == [h0, d1] + [h1];
    forall s: FileScan ensures ScanObj(cs, [h0, d1], 7, s) == Step(cs, h0, Step(cs, d1, s)) {
      assert ScanObj(cs, [h0, d1], 7, s) == ScanObj(cs, [h0], 7, Step(cs, d1, s));
      assert ScanObj(cs, [h0], 7, Step(cs, d1, s)) == ScanObj(cs, [], 7, Step(cs, h0, Step(cs, d1, s)));
    }
  }

  /** Erasing a block with a shrink header while an older block still holds a discarded page
    brings that page back: chunk 2 was truncated away, and reappears in the hole. */
  lemma UnsafeEraseRevives(cs: Pos)
    ensures var kept := [Rec(64, Data(7, 2, cs))];
            var shrink := [Rec(128, Header(7, 0, true, false))];
            var last := [Rec(192, Header(7, 3 * cs, false, false))];
            && ScanObj(cs, kept + shrink + last, 7, FreshScan(cs)).chunks == map[]
            && ScanObj(cs, Keep(kept + shrink + last, {128}), 7, FreshScan(cs)).chunks == map[2 := 64]
  {
    var d, h, l := Rec(64, Data(7, 2, cs)), Rec(128, Header(7, 0, true, false)),
    Rec(192, Header(7, 3 * cs, false, false));
    var st := FreshScan(cs);
    BaseBelowMax(cs, 2);
    var log := [d] + [h] + [l];
    assert log[..2] == [d, h] && [d, h][..1] == [d] && [d][..0] == [];
    assert Keep([d], {128}) == [d];
    assert Keep([d, h], {128}) == [d];
    assert Keep(log, {128}) == [d] + [l];
    assert ([d] + [l])[..1] == [d];
    var a := Step(cs, l, st);
    assert ScanObj(cs, log, 7, st) == ScanObj(cs, [d, h], 7, a);
    assert ScanObj(cs, [d, h], 7, a) == ScanObj(cs, [d], 7, Step(cs, h, a));
    assert ScanObj(cs, [d], 7, Step(cs, h, a)) == ScanObj(cs, [], 7, Step(cs, d, Step(cs, h, a)));
    assert ScanObj(cs, [d] + [l], 7, st) == ScanObj(cs, [d], 7, a);
    assert ScanObj(cs, [d], 7, a) == ScanObj(cs, [], 7, Step(cs, d, a));
  }

  /** A mount of a file that was out of step gives a table that does not satisfy the invariant: the
    chunk it lost comes back once a later header covers it, over a table that maps nothing there. */
  lemma LostChunkRevives(cs: Pos)
    ensures var finished := [Rec(64, Header(7, 0, false, false)), Rec(65, Data(7, 1, cs))]
                              + [Rec(128, Header(7, 0, false, false))] + [Rec(129, Data(7, 2, cs))];
            var mounted := ScanObj(cs, finished, 7, FreshScan(cs));
            var flushed := finished + [Rec(130, Header(7, 2 * cs, false, false))];
            && Mountable(mounted) && mounted.size == 2 * cs && mounted.chunks == map[2 := 129]
            && !FileInv(cs, finished, 7, Mounted(mounted), Claim(2 * cs, true, false, false, 2 * cs))
            && ScanObj(cs, flushed, 7, FreshScan(cs)).chunks == map[1 := 65, 2 := 129]
  {
    var h0, d1 := Rec(64, Header(7, 0, false, false)), Rec(65, Data(7, 1, cs));
    var h1, d2 := Rec(128, Header(7, 0, false, false)), Rec(129, Data(7, 2, cs));
    var h2 := Rec(130, Header(7, 2 * cs, false, false));
    var finished := [h0, d1] + [h1] + [d2];
    BaseBelowMax(cs, 1);
    BaseBelowMax(cs, 2);
    ScanFour(cs, h0, d1, h1, d2, FreshScan(cs));
    StaleHeaderLosesChunk(cs);
    AppendUnfold(finished, h2);
    AppendUnfold([h0, d1] + [h1], d2);
    AppendUnfold([h0, d1], h1);
    assert [h0, d1] == [h0] + [d1];
    AppendUnfold([h0], d1);
    assert Look(cs, [h0, d1], 7, 1, MaxSize(cs), true) == Some(d1);
    assert Look(cs, [h0, d1] + [h1], 7, 1, MaxSize(cs), true) == Some(d1);
    assert Look(cs, finished, 7, 1, MaxSize(cs), true) == Some(d1);
    var st := Step(cs, h2, FreshScan(cs));
    ScanFour(cs, h0, d1, h1, d2, st);
    assert Step(cs, d2, st).chunks == map[2 := 129];
    assert map[2 := 129][1 := 65] == map[1 := 65, 2 := 129];
  }

  /** A chunk write that was refused although its last attempt has left a readable page: a mount
    maps that page, RAM does not. */
  lemma RefusedWriteShows(cs: Pos, log: Log, files: Files, synced: set<nat>, b: Busy, r: Rec)
    requires Inv(cs, log, files, synced, b) && r.tag.Data? && Fits(cs, r.tag) && r.tag.obj in files
    requires forall q :: q in log ==> q.addr != r.addr
    ensures var st := ScanObj(cs, log + [r], r.tag.obj, FreshScan(cs));
            At(st.chunks, r.tag.chunk) == Some(r.addr) != At(files[r.tag.obj].chunks, r.tag.chunk)
  {
    hide Inv, FileInv, ScanObj;
    var o, c := r.tag.obj, r.tag.chunk;
    AppendUnfold(log, r);
    BaseBelowMax(cs, c);
    ScanMeansLook(cs, log + [r], o, FreshScan(cs), c);
    InvAt(cs, log, files, synced, b, o);
    if c in files[o].chunks { MappedOnLog(cs, log, o, files[o], ClaimOf(b, synced, o, files[o]), c); }
  }

  lemma MappedOnLog(cs: Pos, log: Log, o: nat, f: File, k: Claim, c: ChunkId)
    requires FileInv(cs, log, o, f, k) && c in f.chunks
    ensures exists r :: r in log && r.addr == f.chunks[c]
  {
    var r :| r in log && IsChunk(r, o, c, f.chunks[c]);
  }
}
