/** The file table a mount builds from the scan, and when it satisfies the invariant again, so
  that runs go on across power failures. */
module MountTable {
  import opened ScanLog
  import opened FileLog
  import opened RunLog

  /** The file a mount makes of the scan of an object it has found a header for. */
  predicate Mountable(st: FileScan) { st.valid && st.hdr.Some? && st.size >= 0 }

  function Mounted(st: FileScan): File
    requires Mountable(st)
  {
    File(st.size, st.hdr.value, st.chunks, st.gone)
  }

  /** The scanned size covers the newest header and all data after it. */
  lemma {:induction false} SizeCovers(cs: Pos, log: Log, o: nat)
    requires NewestHdr(log, o).Some? && Bounded(cs, log)
    ensures NewestHdr(log, o).value.tag.size <= SizeOf(cs, log, o, 0) <= MaxSize(cs)
    ensures forall r :: InTail(log, o, r) ==> End(cs, r) <= SizeOf(cs, log, o, 0)
    decreases |log|
  {
    var q := log[|log| - 1];
    var rest := log[..|log| - 1];
    assert q in log && forall r :: r in rest ==> r in log;
    if q.tag.obj != o {
      assert forall r :: InTail(log, o, r) == InTail(rest, o, r);
      SizeCovers(cs, rest, o);
    } else if q.tag.Data? {
      assert forall r :: InTail(log, o, r) ==> r == q || InTail(rest, o, r);
      SizeCovers(cs, rest, o);
      SizeAcc(cs, rest, o, Max(0, End(cs, q)));
      EndFits(cs, q);
    }
  }

  lemma EndFits(cs: Pos, r: Rec)
    requires r.tag.Data? && Fits(cs, r.tag)
    ensures Base(cs, r.tag.chunk) < End(cs, r) <= MaxSize(cs)
  {
    BaseOrder(cs, r.tag.chunk, MAX_CHUNK_ID + 1);
    assert Base(cs, MAX_CHUNK_ID + 1) == MaxSize(cs);
  }

  /** The data a mount maps begins below the size it finds. */
  lemma {:induction false} LookBelowSize(cs: Pos, log: Log, o: nat, c: ChunkId, limit: int)
    requires Bounded(cs, log) && NewestHdr(log, o).Some? && Look(cs, log, o, c, limit, false).Some?
    ensures Base(cs, c) < SizeOf(cs, log, o, 0)
    decreases |log|
  {
    var q := log[|log| - 1];
    var rest := log[..|log| - 1];
    assert q in log && forall r :: r in rest ==> r in log;
    if q.tag.obj != o {
      LookBelowSize(cs, rest, o, c, limit);
    } else if q.tag.Data? {
      SizeAcc(cs, rest, o, Max(0, End(cs, q)));
      if q.tag.chunk == c {
        EndFits(cs, q);
      } else {
        LookBelowSize(cs, rest, o, c, limit);
      }
    } else {
      LookUnder(cs, rest, o, c, LimitAfter(q.tag, limit, false));
    }
  }

  lemma LookUnder(cs: Pos, log: Log, o: nat, c: ChunkId, limit: int)
    requires Look(cs, log, o, c, limit, true).Some?
    ensures Base(cs, c) < limit
  {}

  /** A file in step, as a mount finds it, is as good as one between calls. */
  lemma MountedLive(cs: Pos, log: Log, o: nat, f: File, k: Claim)
    requires FileInv(cs, log, o, f, k) && k.sync && !f.gone && Bounded(cs, log)
    ensures var st := ScanObj(cs, log, o, FreshScan(cs));
            && Mountable(st) && Mounted(st) == f.(size := st.size)
            && FileInv(cs, log, o, Mounted(st), Claim(st.size, true, true, false, st.size))
  {
    hide Look, InTail, LiveBelow;
    var st := ScanObj(cs, log, o, FreshScan(cs));
    MountSynced(cs, log, o, f, k.zs);
    assert st.size >= 0;
    var f' := f.(size := st.size);
    forall c: ChunkId | Look(cs, log, o, c, MaxSize(cs), false).Some?
      ensures Base(cs, c) < k.zs
    {
      LookBelow(cs, log, o, c, MaxSize(cs));
    }
    forall c | c in f'.chunks ensures Base(cs, c) < k.zs {
      assert At(f.chunks, c).Some?;
      assert Look(cs, log, o, c, MaxSize(cs), false).Some?;
    }
    forall c: ChunkId | Base(cs, c) < k.zs && Look(cs, log, o, c, MaxSize(cs), true).Some?
      ensures End(cs, Look(cs, log, o, c, MaxSize(cs), true).value) <= k.zs
    {
      assert At(f.chunks, c).Some?;
      assert Look(cs, log, o, c, MaxSize(cs), false).Some?;
      LookMore(cs, log, o, c, MaxSize(cs));
    }
    assert Synced(cs, log, o, f', k.zs);
    assert Anchored(cs, log, o, f', k.zs) && Within(cs, log, o, k.zs);
  }

  lemma LookBelow(cs: Pos, log: Log, o: nat, c: ChunkId, limit: int)
    requires Bounded(cs, log) && Look(cs, log, o, c, limit, false).Some?
    ensures Base(cs, c) < End(cs, Look(cs, log, o, c, limit, false).value)
  {
    EndFits(cs, Look(cs, log, o, c, limit, false).value);
  }

  // ---------- unlinked and deleted files ----------

  /** The chunk a reading arrives at is not cut off by any shrink header it passed, the newest
    header included. */
  lemma {:induction false} LookPastNewest(cs: Pos, log: Log, o: nat, c: ChunkId, limit: int, i: nat, j: nat)
    requires Unique(log) && i < j < |log| && Look(cs, log, o, c, limit, false) == Some(log[i])
    requires log[j].tag.Header? && log[j].tag.obj == o && log[j].tag.shrink
    requires NewestHdr(log, o).Some? ==> EmptyIfShrunk(NewestHdr(log, o).value)
    ensures Uncut(cs, log[i], log[j])
    decreases |log|
  {
    var r, rest := log[|log| - 1], log[..|log| - 1];
    assert rest[i] == log[i] && Unique(rest) && r.addr != log[i].addr;
    if r.tag.obj == o && r.tag.Header? {
      if j == |log| - 1 {
        MulGapZero(cs);
      } else {
        assert rest[j] == log[j];
        LookPast(cs, rest, o, c, LimitAfter(r.tag, limit, false), i, j);
      }
    } else {
      assert rest[j] == log[j];
      LookPastNewest(cs, rest, o, c, limit, i, j);
    }
  }

  lemma {:induction false} MountedBelow(cs: Pos, log: Log, o: nat, f: File, m: nat)
    requires Unique(log) && m <= |log|
    requires NewestHdr(log, o).Some? ==> EmptyIfShrunk(NewestHdr(log, o).value)
    requires forall c: ChunkId :: At(f.chunks, c) == AddrOf(Look(cs, log, o, c, MaxSize(cs), false))
    ensures LiveBelow(cs, log[..m], o, f)
    decreases m
  {
    if m > 0 {
      var rest := log[..m - 1];
      assert log[..m][..m - 1] == rest;
      MountedBelow(cs, log, o, f, m - 1);
      var h := log[m - 1];
      if h.tag.Header? && h.tag.obj == o && h.tag.shrink {
        forall q | q in rest && q.tag.obj == o && q.tag.Data? && LiveIn(f, q) ensures Uncut(cs, q, h) {
          var i :| 0 <= i < m - 1 && rest[i] == q;
          var l := Look(cs, log, o, q.tag.chunk, MaxSize(cs), false);
          assert At(f.chunks, q.tag.chunk) == Some(q.addr);
          assert log[i] == q;
          SameRec(log, l.value, q);
          LookPastNewest(cs, log, o, q.tag.chunk, MaxSize(cs), i, m - 1);
        }
      }
    }
  }

  /** A file whose header names a dead directory, as a mount finds it. */
  lemma MountedGone(cs: Pos, log: Log, o: nat)
    requires Unique(log) && Bounded(cs, log) && NewestHdr(log, o).Some?
    requires NewestHdr(log, o).value.tag.gone && EmptyIfShrunk(NewestHdr(log, o).value)
    ensures var st := ScanObj(cs, log, o, FreshScan(cs));
            Mountable(st) && FileInv(cs, log, o, Mounted(st), Claim(st.size, true, true, false, st.size))
  {
    hide Look, LiveBelow, ScanObj, NewestHdr, Synced, Nearly, Anchored, Within;
    var st := ScanObj(cs, log, o, FreshScan(cs));
    ScanMeansLook(cs, log, o, FreshScan(cs), 1);
    ScanMeansSize(cs, log, o, FreshScan(cs));
    SizeCovers(cs, log, o);
    var f := Mounted(st);
    forall c: ChunkId
      ensures At(f.chunks, c) == AddrOf(Look(cs, log, o, c, MaxSize(cs), false))
      ensures c in f.chunks ==> Base(cs, c) < st.size && exists r :: r in log && IsChunk(r, o, c, f.chunks[c])
    {
      ScanMeansLook(cs, log, o, FreshScan(cs), c);
      if c in f.chunks {
        LookBelowSize(cs, log, o, c, MaxSize(cs));
        var r := Look(cs, log, o, c, MaxSize(cs), false).value;
        assert r in log && IsChunk(r, o, c, f.chunks[c]);
      }
    }
    MountedBelow(cs, log, o, f, |log|);
    assert log[..|log|] == log;
  }

  // ---------- the table ----------

  function Table(objs: map<nat, FileScan>): Files {
    map o | o in objs && Mountable(objs[o]) :: Mounted(objs[o])
  }

  ghost predicate Scanned(cs: Pos, log: Log, objs: map<nat, FileScan>)
  {
    forall o: nat :: (if o in objs then objs[o] else FreshScan(cs)) == ScanObj(cs, log, o, FreshScan(cs))
  }

  /** Every file that is not unlinked is in step. */
  ghost predicate AllInStep(files: Files, synced: set<nat>) {
    forall o :: o in files && !files[o].gone ==> o in synced
  }

  lemma {:induction false} GoneNewest(log: Log, o: nat)
    requires NewestHdr(log, o).Some? && NewestHdr(log, o).value.tag.gone
    ensures NewestGone(log, o) == NewestHdr(log, o)
    decreases |log|
  {
    var r := log[|log| - 1];
    if !(r.tag.obj == o && r.tag.Header?) { GoneNewest(log[..|log| - 1], o); }
  }

  /** One object of the table. */
  lemma MountedOne(cs: Pos, log: Log, files: Files, synced: set<nat>, b: Busy, o: nat)
    requires Inv(cs, log, files, synced, b) && AllInStep(files, synced)
    ensures var st := ScanObj(cs, log, o, FreshScan(cs));
            if Mountable(st) then
              && FileInv(cs, log, o, Mounted(st), Claim(st.size, true, true, false, st.size))
              && (NewestGone(log, o).Some? ==>
                  NewestGone(log, o).value.tag.shrink || NewestGone(log, o).value.addr == st.hdr.value)
            else
              Forgotten(log, o) && (NewestGone(log, o).Some? ==> NewestGone(log, o).value.tag.shrink)
  {
    hide Look, ScanObj, LiveBelow, Anchored, Within, Synced, Nearly;
    var st := ScanObj(cs, log, o, FreshScan(cs));
    ScanMeansLook(cs, log, o, FreshScan(cs), 1);
    assert GoneGuarded(log, o, files);
    if o in files {
      var f, k := files[o], ClaimOf(b, synced, o, files[o]);
      InvAt(cs, log, files, synced, b, o);
      KnownIn(cs, log, o, f, k);
      if f.gone {
        MountedGone(cs, log, o);
        GoneNewest(log, o);
      } else {
        MountedLive(cs, log, o, f, k);
        HeaderNotGone(log, o, f, files);
      }
    } else if NewestRec(log, o).None? {
      NoRecScan(cs, log, o, FreshScan(cs));
      ForgottenGone(log, o);
    } else {
      NewestRecHdr(log, o);
      MountedGone(cs, log, o);
      GoneNewest(log, o);
    }
  }

  /** If every file was in step when power failed, wherever that was, the mounted table satisfies
    the invariant between calls, with every file in step. */
  lemma MountedInv(cs: Pos, log: Log, files: Files, synced: set<nat>, b: Busy, objs: map<nat, FileScan>)
    requires Inv(cs, log, files, synced, b) && AllInStep(files, synced) && Scanned(cs, log, objs)
    ensures Inv(cs, log, Table(objs), Table(objs).Keys, Idle)
  {
    hide FileInv, Forgotten, NewestGone, ScanObj;
    var t := Table(objs);
    forall o: nat
      ensures GoneGuarded(log, o, t)
      ensures if o in t then FileInv(cs, log, o, t[o], ClaimOf(Idle, t.Keys, o, t[o])) else Forgotten(log, o)
    {
      MountedOne(cs, log, files, synced, b, o);
      assert o in t <==> o in objs && Mountable(objs[o]);
      assert !Mountable(FreshScan(cs));
    }
  }
}
