/** The whole file table against the log, and the steps that runs are made of. */
module RunLog {
  import opened ScanLog
  import opened FileLog

  /** Every chunk RAM maps is on the log under its own tags. */
  ghost predicate RefsOnLog(log: Log, o: nat, f: File)
  {
    forall c :: c in f.chunks ==> exists r :: r in log && IsChunk(r, o, c, f.chunks[c])
  }

  predicate IsChunk(r: Rec, o: nat, c: ChunkId, addr: nat) {
    r.addr == addr && r.tag.Data? && r.tag.obj == o && r.tag.chunk == c
  }

  /** Which call is under way: none, or one on file `o` that has reached offset `z` and data up
    to `zs`.  While a truncation has yet to rewrite its last chunk it is not tidy.  The call is
    near if a mount would find at least the chunk map, all of it below the size in RAM. */
  datatype Busy = Idle | Busy(o: nat, z: int, tidy: bool, zs: int, near: bool)

  /** What is claimed of one file. */
  datatype Claim = Claim(z: int, tidy: bool, sync: bool, near: bool, zs: int)

  function ClaimOf(b: Busy, synced: set<nat>, o: nat, f: File): Claim {
    if b.Busy? && b.o == o then Claim(b.z, b.tidy, o in synced, b.near, b.zs)
    else Claim(f.size, true, o in synced, false, f.size)
  }

  function Reached(b: Busy, o: nat, f: File): int { ClaimOf(b, {}, o, f).z }

  /** The size a mount would give a file that is in step. */
  function Found(b: Busy, o: nat, f: File): int { ClaimOf(b, {}, o, f).zs }

  predicate Tidy(b: Busy, o: nat) { !(b.Busy? && b.o == o) || b.tidy }

  /** Live data older than a shrink header is not cut off by it. */
  ghost predicate LiveBelow(cs: Pos, log: Log, o: nat, f: File)
  {
    log == [] ||
    (var h, rest := log[|log| - 1], log[..|log| - 1];
     && LiveBelow(cs, rest, o, f)
     && (h.tag.Header? && h.tag.obj == o && h.tag.shrink ==>
           forall q :: q in rest && q.tag.obj == o && q.tag.Data? && LiveIn(f, q) ==> Uncut(cs, q, h)))
  }

  /** A shrink header that names a dead directory carries size zero. */
  predicate EmptyIfShrunk(h: Rec)
    requires h.tag.Header?
  {
    h.tag.shrink ==> h.tag.size == 0
  }

  ghost predicate FileInv(cs: Pos, log: Log, o: nat, f: File, k: Claim)
  {
    && HeaderKnown(log, o, f)
    && RefsOnLog(log, o, f)
    && (forall c :: c in f.chunks ==> Base(cs, c) < k.z)
    && 0 <= k.z <= MaxSize(cs) && f.size <= MaxSize(cs)
    && (if f.gone then LiveBelow(cs, log, o, f) && EmptyIfShrunk(NewestHdr(log, o).value)
        else
          && Anchored(cs, log, o, f, k.z)
          && (k.tidy ==> Within(cs, log, o, k.z))
          && (k.sync ==> Synced(cs, log, o, f, k.zs) && k.zs <= k.z)
          && (k.near ==> Nearly(cs, log, o, f, k.zs) && MapBelow(cs, f) && f.size <= k.z && f.size <= k.zs))
  }

  ghost predicate Unique(log: Log)
  {
    forall i, j :: 0 <= i < j < |log| ==> log[i].addr != log[j].addr
  }

  /** A chunk holds at least one byte, and no size is beyond what a chunk id can reach. */
  predicate Fits(cs: Pos, t: Tag) {
    match t
    case Data(_, c, n) => c <= MAX_CHUNK_ID && 0 < n <= cs
    case Header(_, size, _, _) => size <= MaxSize(cs)
  }

  ghost predicate Bounded(cs: Pos, log: Log)
  {
    forall r :: r in log ==> Fits(cs, r.tag)
  }

  ghost predicate Inv(cs: Pos, log: Log, files: Files, synced: set<nat>, b: Busy)
  {
    && Unique(log) && Bounded(cs, log)
    && (forall o: nat :: GoneGuarded(log, o, files))
    && (forall o: nat :: o !in files ==> Forgotten(log, o))
    && (forall o :: o in files ==>
          FileInv(cs, log, o, files[o], ClaimOf(b, synced, o, files[o])))
  }

  lemma Fresh(log: Log, r: Rec)
    requires Unique(log) && forall q :: q in log ==> q.addr != r.addr
    ensures Unique(log + [r])
    ensures forall q :: q in log + [r] <==> q in log || q == r
  {}

  lemma AppendGoneGuarded(log: Log, o: nat, files: Files, files': Files, r: Rec)
    requires GoneGuarded(log, o, files)
    requires r.tag.obj != o ==> (o in files <==> o in files') && (o in files ==> files'[o].hdr == files[o].hdr)
    requires r.tag.obj == o && r.tag.Header? && r.tag.gone ==> r.tag.shrink || (o in files' && files'[o].hdr == r.addr)
    requires r.tag.obj == o && !(r.tag.Header? && r.tag.gone) ==>
               (NewestGone(log, o).Some? ==> NewestGone(log, o).value.tag.shrink) ||
               (o in files && o in files' && files'[o].hdr == files[o].hdr)
    ensures GoneGuarded(log + [r], o, files')
  {
    AppendUnfold(log, r);
  }

  // ---------- live data and shrink headers ----------

  /** Fewer live pages, nothing new on the log. */
  lemma {:induction false} LiveBelowSub(cs: Pos, log: Log, o: nat, f: File, f': File)
    requires LiveBelow(cs, log, o, f)
    requires forall q :: q in log && q.tag.Data? && q.tag.obj == o && LiveIn(f', q) ==> LiveIn(f, q)
    ensures LiveBelow(cs, log, o, f')
    decreases |log|
  {
    if log != [] {
      var rest := log[..|log| - 1];
      assert forall q :: q in rest ==> q in log;
      LiveBelowSub(cs, rest, o, f, f');
    }
  }

  lemma LiveBelowAppend(cs: Pos, log: Log, o: nat, f: File, r: Rec)
    requires LiveBelow(cs, log, o, f) && !(r.tag.Header? && r.tag.obj == o && r.tag.shrink)
    ensures LiveBelow(cs, log + [r], o, f)
  {
    AppendUnfold(log, r);
  }

  lemma {:induction false} LiveBelowKeep(cs: Pos, log: Log, o: nat, f: File, erased: set<nat>)
    requires LiveBelow(cs, log, o, f)
    ensures LiveBelow(cs, Keep(log, erased), o, f)
    decreases |log|
  {
    if log != [] {
      var rest := log[..|log| - 1];
      LiveBelowKeep(cs, rest, o, f, erased);
      KeepUnfold(log, erased);
      forall q ensures q in Keep(rest, erased) ==> q in rest { KeepMembers(rest, erased, q); }
    }
  }

  lemma {:induction false} LiveBelowAt(cs: Pos, log: Log, o: nat, f: File, i: nat, j: nat)
    requires LiveBelow(cs, log, o, f) && i < j < |log|
    requires log[j].tag.Header? && log[j].tag.obj == o && log[j].tag.shrink
    requires log[i].tag.Data? && log[i].tag.obj == o && LiveIn(f, log[i])
    ensures Uncut(cs, log[i], log[j])
    decreases |log|
  {
    var rest := log[..|log| - 1];
    if j < |log| - 1 {
      LiveBelowAt(cs, rest, o, f, i, j);
    } else {
      assert rest[i] in rest;
    }
  }

  /** The chunk a reading arrives at is not cut off by any shrink header it passed. */
  lemma {:induction false} LookPast(cs: Pos, log: Log, o: nat, c: ChunkId, limit: int, i: nat, j: nat)
    requires Unique(log) && i < j < |log| && Look(cs, log, o, c, limit, true) == Some(log[i])
    requires log[j].tag.Header? && log[j].tag.obj == o && log[j].tag.shrink
    ensures Uncut(cs, log[i], log[j])
    decreases |log|
  {
    var r, rest := log[|log| - 1], log[..|log| - 1];
    assert rest[i] == log[i];
    if j == |log| - 1 {
      MulGapZero(cs);
    } else {
      assert rest[j] == log[j] && Unique(rest);
      assert r.addr != log[i].addr;
      LookPast(cs, rest, o, c, if r.tag.obj == o && r.tag.Header? then LimitAfter(r.tag, limit, true) else limit, i, j);
    }
  }

  /** So the live data of a file whose map the shrink headers leave standing is below them. */
  lemma {:induction false} AnchoredLiveBelow(cs: Pos, log: Log, o: nat, f: File, z: int, m: nat)
    requires Unique(log) && Anchored(cs, log, o, f, z) && m <= |log|
    ensures LiveBelow(cs, log[..m], o, f)
    decreases m
  {
    if m > 0 {
      var rest := log[..m - 1];
      assert log[..m][..m - 1] == rest;
      AnchoredLiveBelow(cs, log, o, f, z, m - 1);
      var h := log[m - 1];
      if h.tag.Header? && h.tag.obj == o && h.tag.shrink {
        forall q | q in rest && q.tag.obj == o && q.tag.Data? && LiveIn(f, q) ensures Uncut(cs, q, h) {
          var i :| 0 <= i < m - 1 && rest[i] == q;
          var l := Look(cs, log, o, q.tag.chunk, MaxSize(cs), true);
          assert l.Some? && l.value.addr == q.addr;
          assert log[i] == q;
          SameRec(log, l.value, q);
          LookPast(cs, log, o, q.tag.chunk, MaxSize(cs), i, m - 1);
        }
      }
    }
  }

  lemma FileLiveBelow(cs: Pos, log: Log, o: nat, f: File, k: Claim)
    requires Unique(log) && FileInv(cs, log, o, f, k)
    ensures LiveBelow(cs, log, o, f)
  {
    if !f.gone {
      AnchoredLiveBelow(cs, log, o, f, k.z, |log|);
      assert log[..|log|] == log;
    }
  }

  lemma {:induction false} NewestHdrNewer(log: Log, o: nat, j: nat)
    requires Unique(log) && j < |log| && log[j].tag.Header? && log[j].tag.obj == o
    ensures NewestHdr(log, o).Some?
    ensures forall i :: 0 <= i < j ==> log[i].addr != NewestHdr(log, o).value.addr
    decreases |log|
  {
    var r, rest := log[|log| - 1], log[..|log| - 1];
    if r.tag.obj == o && r.tag.Header? {
    } else {
      assert rest[j] == log[j] && Unique(rest);
      NewestHdrNewer(rest, o, j);
      assert forall i :: 0 <= i < j ==> log[i] == rest[i];
    }
  }

  /** A live record older than a shrink header of the same object is data the header does not
    cut off. */
  lemma LiveUncut(cs: Pos, log: Log, files: Files, synced: set<nat>, b: Busy, i: nat, j: nat)
    requires Inv(cs, log, files, synced, b) && i < j < |log| && Live(files, log[i])
    requires log[j].tag.Header? && log[j].tag.shrink && log[i].tag.obj == log[j].tag.obj
    ensures Uncut(cs, log[i], log[j])
  {
    var o := log[j].tag.obj;
    var f := files[o];
    hide FileInv, LiveBelow;
    InvAt(cs, log, files, synced, b, o);
    if log[i].tag.Data? {
      FileLiveBelow(cs, log, o, f, ClaimOf(b, synced, o, f));
      LiveBelowAt(cs, log, o, f, i, j);
    } else {
      NewestHdrNewer(log, o, j);
      KnownIn(cs, log, o, f, ClaimOf(b, synced, o, f));
      assert false;
    }
  }

  lemma KnownIn(cs: Pos, log: Log, o: nat, f: File, k: Claim)
    requires FileInv(cs, log, o, f, k)
    ensures HeaderKnown(log, o, f)
  {}

  // ---------- one record more ----------

  /** The objects a record does not belong to keep their part of the invariant. */
  lemma StepOther(cs: Pos, log: Log, o: nat, f: File, k: Claim, r: Rec)
    requires r.tag.obj != o && FileInv(cs, log, o, f, k)
    ensures FileInv(cs, log + [r], o, f, k)
  {
    AppendUnfold(log, r);
    AppendOther(cs, log, o, f, k.z, r);
    AppendOther(cs, log, o, f, k.zs, r);
    if f.gone { LiveBelowAppend(cs, log, o, f, r); }
    assert forall c: ChunkId, v :: Look(cs, log + [r], o, c, MaxSize(cs), v) == Look(cs, log, o, c, MaxSize(cs), v);
    assert forall q :: q in log ==> q in log + [r];
  }

  /** Replacing file `o` alone: what has to be shown about `o` for the invariant to carry over
    an append of a record of `o`. */
  lemma StepOne(cs: Pos, log: Log, files: Files, synced: set<nat>, b: Busy, r: Rec,
                files': Files, synced': set<nat>, b': Busy)
    requires Inv(cs, log, files, synced, b)
    requires forall q :: q in log ==> q.addr != r.addr
    requires Fits(cs, r.tag)
    requires b.Busy? ==> b.o == r.tag.obj || b' == b
    requires b'.Busy? ==> b'.o == r.tag.obj || b' == b
    requires synced' - {r.tag.obj} == synced - {r.tag.obj}
    requires files' - {r.tag.obj} == files - {r.tag.obj}
    requires var o := r.tag.obj;
             && GoneGuarded(log + [r], o, files')
             && (o !in files' ==> Forgotten(log + [r], o))
             && (o in files' ==>
                   FileInv(cs, log + [r], o, files'[o], ClaimOf(b', synced', o, files'[o])))
    ensures Inv(cs, log + [r], files', synced', b')
  {
    Fresh(log, r);
    AppendUnfold(log, r);
    var o := r.tag.obj;
    assert forall p: nat :: p != o ==> (p in files' <==> p in files - {o}) && (p in files <==> p in files - {o});
    assert forall p: nat :: p != o && p in files ==> files'[p] == (files' - {o})[p] && files[p] == (files - {o})[p];
    forall p: nat | p != o
      ensures GoneGuarded(log + [r], p, files')
      ensures p !in files' ==> Forgotten(log + [r], p)
      ensures p in files' ==>
                FileInv(cs, log + [r], p, files'[p], ClaimOf(b', synced', p, files'[p]))
    {
      AppendGoneGuarded(log, p, files, files', r);
      assert p in synced' <==> p in synced' - {o};
      assert p in synced <==> p in synced - {o};
      if p in files {
        var f := files[p];
        StepOther(cs, log, p, f, ClaimOf(b, synced, p, f), r);
      }
    }
  }

  // ---------- the steps ----------

  /** After a chunk write that reached `z'` and `zs'`: the write stays near while what it maps
    starts below the size in RAM. */
  function BusyAfter(cs: Pos, b: Busy, f: File, c: ChunkId, z': int, zs': int): Busy
    requires b.Busy?
  {
    b.(z := z', zs := zs', near := b.near && Base(cs, c) < f.size)
  }

  /** The last piece of a write that is near brings the file back in step. */
  function SyncedAfter(cs: Pos, b: Busy, synced: set<nat>, r: Rec, zs': int): set<nat>
    requires b.Busy?
  {
    if b.near && End(cs, r) == zs' then synced + {b.o} else synced
  }

  /** Programming one data chunk of the file a write is working on. */
  lemma StepWrite(cs: Pos, log: Log, files: Files, synced: set<nat>, b: Busy, r: Rec, z': int, zs': int)
    requires Inv(cs, log, files, synced, b) && b.Busy? && b.o in files && b.o == r.tag.obj && r.tag.Data?
    requires forall q :: q in log ==> q.addr != r.addr
    requires Fits(cs, r.tag)
    requires b.z <= z' <= MaxSize(cs) && Base(cs, r.tag.chunk) < z' && End(cs, r) <= z'
    requires forall c: ChunkId :: b.z <= Base(cs, c) < z' ==> c == r.tag.chunk
    requires b.zs <= zs' <= z' && End(cs, r) <= zs' && (b.zs < zs' ==> End(cs, r) == zs')
    requires b.tidy
    requires b.zs == zs' && Base(cs, r.tag.chunk) < zs' ==> End(cs, r) >= Min(zs', Base(cs, r.tag.chunk) + cs)
    ensures var f := files[b.o];
            Inv(cs, log + [r], files[b.o := f.(chunks := f.chunks[r.tag.chunk := r.addr])],
                SyncedAfter(cs, b, synced, r, zs'), BusyAfter(cs, b, f, r.tag.chunk, z', zs'))
  {
    var o, c := b.o, r.tag.chunk;
    var f := files[o];
    var f' := f.(chunks := f.chunks[c := r.addr]);
    var files' := files[o := f'];
    var synced', b' := SyncedAfter(cs, b, synced, r, zs'), BusyAfter(cs, b, f, c, z', zs');
    hide Inv, FileInv, GoneGuarded, Forgotten, NewestGone;
    InvAt(cs, log, files, synced, b, o);
    AppendUnfold(log, r);
    Fresh(log, r);
    FileWrite(cs, log, o, f, ClaimOf(b, synced, o, f), r, z', zs', o in synced', b'.near);
    AppendGoneGuarded(log, o, files, files', r);
    assert synced' - {o} == synced - {o};
    StepOne(cs, log, files, synced, b, r, files', synced', b');
  }

  /** The file's own part of a chunk write. */
  lemma FileWrite(cs: Pos, log: Log, o: nat, f: File, k: Claim, r: Rec, z': int, zs': int, sync': bool, near': bool)
    requires FileInv(cs, log, o, f, k) && k.tidy && Bounded(cs, log)
    requires r.tag.Data? && r.tag.obj == o && Fits(cs, r.tag)
    requires forall q :: q in log ==> q.addr != r.addr
    requires k.z <= z' <= MaxSize(cs) && Base(cs, r.tag.chunk) < z' && End(cs, r) <= z'
    requires forall c: ChunkId :: k.z <= Base(cs, c) < z' ==> c == r.tag.chunk
    requires k.zs <= zs' <= z' && End(cs, r) <= zs' && (k.zs < zs' ==> End(cs, r) == zs')
    requires k.zs == zs' && Base(cs, r.tag.chunk) < zs' ==> End(cs, r) >= Min(zs', Base(cs, r.tag.chunk) + cs)
    requires sync' ==> k.sync || (k.near && End(cs, r) == zs')
    requires near' ==> k.near && Base(cs, r.tag.chunk) < f.size
    ensures FileInv(cs, log + [r], o, f.(chunks := f.chunks[r.tag.chunk := r.addr]), Claim(z', true, sync', near', zs'))
  {
    var c := r.tag.chunk;
    var f' := f.(chunks := f.chunks[c := r.addr]);
    AppendUnfold(log, r);
    RefsReplaced(log, o, f, r);
    if f.gone {
      LiveBelowSub(cs, log, o, f, f');
      LiveBelowAppend(cs, log, o, f', r);
      assert HeaderKnown(log + [r], o, f');
    } else {
      AppendData(cs, log, o, f, k.z, z', r);
      assert Within(cs, log + [r], o, z') by {
        assert forall d: ChunkId :: d != c ==>
          Look(cs, log + [r], o, d, MaxSize(cs), true) == Look(cs, log, o, d, MaxSize(cs), true);
      }
      if k.near {
        AppendDataNearly(cs, log, o, f, k.zs, zs', r);
        if End(cs, r) == zs' { AppendDataReaches(cs, log, o, f, k.zs, zs', r); }
      }
      if k.sync { FileWriteSynced(cs, log, o, f, k, r, zs'); }
    }
  }

  lemma FileWriteSynced(cs: Pos, log: Log, o: nat, f: File, k: Claim, r: Rec, zs': int)
    requires Synced(cs, log, o, f, k.zs) && Bounded(cs, log)
    requires r.tag.Data? && r.tag.obj == o && r.tag.chunk <= MAX_CHUNK_ID
    requires k.zs <= zs' && End(cs, r) <= zs' && (k.zs < zs' ==> End(cs, r) == zs')
    requires k.zs == zs' && Base(cs, r.tag.chunk) < zs' ==> End(cs, r) >= Min(zs', Base(cs, r.tag.chunk) + cs)
    ensures Synced(cs, log + [r], o, f.(chunks := f.chunks[r.tag.chunk := r.addr]), zs')
  {
    forall w | k.zs == zs' && InTail(log, o, w) && w.tag.Data? && w.tag.chunk == r.tag.chunk && LiveIn(f, w) &&
    End(cs, w) == k.zs
      ensures End(cs, r) == k.zs
    {
      TailIn(log, o, w);
      assert w.tag.nBytes <= cs;
    }
    AppendDataSynced(cs, log, o, f, k.zs, zs', r);
  }

  /** The file's own part of a garbage collector copy of data chunk `q`. */
  lemma FileCopyData(cs: Pos, log: Log, o: nat, f: File, k: Claim, q: Rec, r: Rec)
    requires FileInv(cs, log, o, f, k) && Unique(log) && Bounded(cs, log)
    requires q in log && q.tag.Data? && q.tag.obj == o && LiveIn(f, q) && r.tag == q.tag
    requires forall p :: p in log ==> p.addr != r.addr
    ensures FileInv(cs, log + [r], o, f.(chunks := f.chunks[q.tag.chunk := r.addr]), k)
  {
    if f.gone {
      GoneCopyData(cs, log, o, f, k, q, r);
    } else {
      hide LiveBelow, Look, Within, Nearly, Synced, NewestHdr, InTail, MapBelow, EmptyIfShrunk, Unique;
      RefsReplaced(log, o, f, r);
      FitsOnLog(cs, log, q);
      AppendData(cs, log, o, f, k.z, k.z, r);
      if k.tidy {
        FileCopyWithin(cs, log, o, f, k.z, q, r);
      }
      if k.near {
        FileCopyNearly(cs, log, o, f, k.zs, q, r);
        BelowMoved(cs, f, q.tag.chunk, r.addr);
      }
      if k.sync {
        FileCopySynced(cs, log, o, f, k.zs, q, r);
      }
    }
  }

  lemma BelowMoved(cs: Pos, f: File, c: ChunkId, addr: nat)
    requires c in f.chunks && MapBelow(cs, f)
    ensures MapBelow(cs, f.(chunks := f.chunks[c := addr]))
  {}

  lemma GoneCopyData(cs: Pos, log: Log, o: nat, f: File, k: Claim, q: Rec, r: Rec)
    requires FileInv(cs, log, o, f, k) && f.gone
    requires q in log && q.tag.Data? && q.tag.obj == o && LiveIn(f, q) && r.tag == q.tag
    requires forall p :: p in log ==> p.addr != r.addr
    ensures FileInv(cs, log + [r], o, f.(chunks := f.chunks[q.tag.chunk := r.addr]), k)
  {
    hide Base, Nearly, Synced, Anchored, Within;
    var f' := f.(chunks := f.chunks[q.tag.chunk := r.addr]);
    RefsReplaced(log, o, f, r);
    LiveBelowSub(cs, log, o, f, f');
    LiveBelowAppend(cs, log, o, f', r);
    AppendUnfold(log, r);
  }

  lemma FileCopyNearly(cs: Pos, log: Log, o: nat, f: File, zs: int, q: Rec, r: Rec)
    requires Nearly(cs, log, o, f, zs) && Unique(log) && Bounded(cs, log)
    requires q in log && q.tag.Data? && q.tag.obj == o && LiveIn(f, q) && r.tag == q.tag
    ensures Nearly(cs, log + [r], o, f.(chunks := f.chunks[q.tag.chunk := r.addr]), zs)
  {
    var l := Look(cs, log, o, q.tag.chunk, MaxSize(cs), false);
    assert l.Some? && l.value.addr == q.addr;
    SameRec(log, l.value, q);
    AppendDataNearly(cs, log, o, f, zs, zs, r);
  }

  lemma FileCopyWithin(cs: Pos, log: Log, o: nat, f: File, z: int, q: Rec, r: Rec)
    requires Anchored(cs, log, o, f, z) && Within(cs, log, o, z) && Unique(log)
    requires q in log && q.tag.Data? && q.tag.obj == o && LiveIn(f, q) && r.tag == q.tag
    ensures Within(cs, log + [r], o, z)
  {
    AppendUnfold(log, r);
    var l := Look(cs, log, o, q.tag.chunk, MaxSize(cs), true);
    assert l.Some? && l.value.addr == q.addr;
    SameRec(log, l.value, q);
    assert forall d: ChunkId :: d != q.tag.chunk ==>
             Look(cs, log + [r], o, d, MaxSize(cs), true) == Look(cs, log, o, d, MaxSize(cs), true);
  }

  lemma FileCopySynced(cs: Pos, log: Log, o: nat, f: File, zs: int, q: Rec, r: Rec)
    requires Synced(cs, log, o, f, zs) && Unique(log) && Bounded(cs, log)
    requires q in log && q.tag.Data? && q.tag.obj == o && LiveIn(f, q) && r.tag == q.tag
    ensures Synced(cs, log + [r], o, f.(chunks := f.chunks[q.tag.chunk := r.addr]), zs)
  {
    var l := Look(cs, log, o, q.tag.chunk, MaxSize(cs), false);
    assert l.Some? && l.value.addr == q.addr;
    SameRec(log, l.value, q);
    forall w | InTail(log, o, w) && w.tag.Data? && w.tag.chunk == q.tag.chunk && LiveIn(f, w) && End(cs, w) == zs
      ensures End(cs, r) == zs
    {
      TailIn(log, o, w);
      SameRec(log, w, q);
    }
    AppendDataSynced(cs, log, o, f, zs, zs, r);
  }

  lemma RefsReplaced(log: Log, o: nat, f: File, r: Rec)
    requires RefsOnLog(log, o, f) && r.tag.Data? && r.tag.obj == o
    ensures RefsOnLog(log + [r], o, f.(chunks := f.chunks[r.tag.chunk := r.addr]))
  {
    var f' := f.(chunks := f.chunks[r.tag.chunk := r.addr]);
    forall d | d in f'.chunks ensures exists p :: p in log + [r] && IsChunk(p, o, d, f'.chunks[d]) {
      if d == r.tag.chunk {
        assert IsChunk(r, o, d, f'.chunks[d]);
      } else {
        var p :| p in log && IsChunk(p, o, d, f.chunks[d]);
        assert p in log + [r];
      }
    }
  }

  /** What the invariant says about one file. */
  lemma InvAt(cs: Pos, log: Log, files: Files, synced: set<nat>, b: Busy, o: nat)
    requires Inv(cs, log, files, synced, b) && o in files
    ensures Unique(log) && Bounded(cs, log) && GoneGuarded(log, o, files)
    ensures FileInv(cs, log, o, files[o], ClaimOf(b, synced, o, files[o]))
  {
    hide FileInv, Unique, Bounded, GoneGuarded;
  }

  /** The garbage collector's copy of a data chunk, at any moment. */
  lemma StepCopyData(cs: Pos, log: Log, files: Files, synced: set<nat>, b: Busy, q: Rec, r: Rec)
    requires Inv(cs, log, files, synced, b)
    requires q in log && q.tag.Data? && Live(files, q) && r.tag == q.tag
    requires forall p :: p in log ==> p.addr != r.addr
    ensures var o := q.tag.obj;
            Inv(cs, log + [r], files[o := files[o].(chunks := files[o].chunks[q.tag.chunk := r.addr])], synced, b)
  {
    var o := q.tag.obj;
    var f := files[o];
    var files' := files[o := f.(chunks := f.chunks[q.tag.chunk := r.addr])];
    hide Inv, FileInv, Unique, Bounded, Fits, GoneGuarded, Forgotten, NewestGone, LiveIn, Base;
    InvAt(cs, log, files, synced, b, o);
    FitsOnLog(cs, log, q);
    assert files' - {o} == files - {o};
    assert ClaimOf(b, synced, o, files'[o]) == ClaimOf(b, synced, o, f);
    assert FileInv(cs, log + [r], o, files'[o], ClaimOf(b, synced, o, f)) by {
      FileCopyData(cs, log, o, f, ClaimOf(b, synced, o, f), q, r);
    }
    assert GoneGuarded(log + [r], o, files') by {
      AppendGoneGuarded(log, o, files, files', r);
    }
    StepOne(cs, log, files, synced, b, r, files', synced, b);
  }

  lemma FitsOnLog(cs: Pos, log: Log, q: Rec)
    requires Bounded(cs, log) && q in log
    ensures Fits(cs, q.tag)
  {}

  lemma SameRec(log: Log, p: Rec, q: Rec)
    requires Unique(log) && p in log && q in log && p.addr == q.addr
    ensures p == q
  {
    var i :| 0 <= i < |log| && log[i] == p;
    var j :| 0 <= j < |log| && log[j] == q;
    assert i == j;
  }

  lemma RefsMonotone(log: Log, o: nat, f: File, f': File, r: Rec)
    requires RefsOnLog(log, o, f) && f'.chunks == f.chunks
    ensures RefsOnLog(log + [r], o, f')
  {
    forall c | c in f'.chunks ensures exists p :: p in log + [r] && IsChunk(p, o, c, f'.chunks[c]) {
      var p :| p in log && IsChunk(p, o, c, f.chunks[c]);
      assert p in log + [r];
    }
  }

  /** A header that carries the true size of a file no call is working on. */
  lemma StepHeader(cs: Pos, log: Log, files: Files, synced: set<nat>, b: Busy, r: Rec, z: int)
    requires Inv(cs, log, files, synced, b) && r.tag.Header? && !r.tag.gone
    requires r.tag.obj in files && !files[r.tag.obj].gone && r.tag.size == files[r.tag.obj].size
    requires b.Busy? && b.o == r.tag.obj ==> b.z == files[b.o].size && b.tidy
    requires forall p :: p in log ==> p.addr != r.addr
    requires files[r.tag.obj].size <= z <= MaxSize(cs) && (z == files[r.tag.obj].size || r.tag.shrink)
    requires b == Idle || b.o == r.tag.obj
    ensures Inv(cs, log + [r], files[r.tag.obj := files[r.tag.obj].(hdr := r.addr)], synced + {r.tag.obj},
                Busy(r.tag.obj, z, true, files[r.tag.obj].size, false))
  {
    var o := r.tag.obj;
    var f := files[o];
    var f' := f.(hdr := r.addr);
    var files' := files[o := f'];
    AppendUnfold(log, r);
    assert FileInv(cs, log, o, f, ClaimOf(b, synced, o, f));
    AppendHeader(cs, log, o, f, r);
    if r.tag.shrink {
      AppendHole(cs, log, o, f, z, r);
    } else {
      AppendPlainHeader(cs, log, o, f, f.size, r);
    }
    RefsMonotone(log, o, f, f', r);
    HeaderNotGone(log, o, f, files);
    AppendGoneGuarded(log, o, files, files', r);
    assert synced + {o} - {o} == synced - {o};
    StepOne(cs, log, files, synced, b, r, files', synced + {o}, Busy(o, z, true, f.size, false));
  }

  /** Once a live header is the newest one, every header naming a dead directory is a
    shrink header. */
  lemma {:induction false} HeaderNotGone(log: Log, o: nat, f: File, files: Files)
    requires Unique(log) && o in files && files[o] == f && !f.gone && HeaderKnown(log, o, f)
    requires GoneGuarded(log, o, files)
    ensures NewestGone(log, o).Some? ==> NewestGone(log, o).value.tag.shrink
  {
    NewestIn(log, o);
    HdrIn(log, o);
    var g, h := NewestGone(log, o), NewestHdr(log, o).value;
    if g.Some? && g.value.addr == h.addr {
      SameRec(log, g.value, h);
      assert false;
    }
  }

  /** A header written now with the size in RAM would be true. */
  predicate HeaderTrue(f: File, z: int, tidy: bool, zs: int) { z == zs == f.size && tidy }

  /** Nothing has been written beyond the size in RAM, even if a hole was opened there. */
  predicate HeaderHarmless(cs: Pos, f: File, z: int, tidy: bool, zs: int) {
    zs == f.size && z >= zs && tidy && MapBelow(cs, f)
  }

  lemma FileCopyHeader(cs: Pos, log: Log, o: nat, f: File, k: Claim, r: Rec)
    requires FileInv(cs, log, o, f, k)
    requires r.tag == Header(o, f.size, false, f.gone)
    ensures FileInv(cs, log + [r], o, f.(hdr := r.addr),
                    k.(sync := HeaderTrue(f, k.z, k.tidy, k.zs) || (k.sync &&
                                                                    HeaderHarmless(cs, f, k.z, k.tidy, k.zs))))
  {
    AppendUnfold(log, r);
    var f' := f.(hdr := r.addr);
    RefsMonotone(log, o, f, f', r);
    if f.gone {
      LiveBelowSub(cs, log, o, f, f');
      LiveBelowAppend(cs, log, o, f', r);
    } else {
      AppendPlainHeader(cs, log, o, f, k.z, r);
      if k.near { HeaderNearly(cs, log, o, f, k.z, k.zs, r); }
      if HeaderTrue(f, k.z, k.tidy, k.zs) {
        AppendHeader(cs, log, o, f, r);
      } else if k.sync && HeaderHarmless(cs, f, k.z, k.tidy, k.zs) {
        HarmlessWithin(cs, log, o, f, k.z);
        AppendHeader(cs, log, o, f, r);
      }
    }
  }

  /** A stale size hides nothing while all that is mapped starts below it. */
  lemma HeaderNearly(cs: Pos, log: Log, o: nat, f: File, z: int, zs: int, r: Rec)
    requires Nearly(cs, log, o, f, zs) && Anchored(cs, log, o, f, z) && MapBelow(cs, f)
    requires HeaderKnown(log, o, f) && !f.gone && f.size <= z && f.size <= zs
    requires r.tag == Header(o, f.size, false, false)
    ensures Nearly(cs, log + [r], o, f.(hdr := r.addr), zs)
  {
    hide InTail;
    AppendUnfold(log, r);
    forall c: ChunkId
      ensures AddrOf(Look(cs, log + [r], o, c, MaxSize(cs), false)) == At(f.chunks, c)
      ensures Look(cs, log + [r], o, c, MaxSize(cs), false).Some? ==>
                End(cs, Look(cs, log + [r], o, c, MaxSize(cs), false).value) <= zs
    {
      if Base(cs, c) < f.size {
        LookLimit(cs, log, o, c, f.size, MaxSize(cs), true);
        LookMore(cs, log, o, c, MaxSize(cs));
        assert Look(cs, log + [r], o, c, MaxSize(cs), false) == Look(cs, log, o, c, MaxSize(cs), true);
      } else {
        LookCut(cs, log, o, c, f.size, true);
      }
    }
    assert SizeBounded(cs, log + [r], o, zs) by { EmptyTail(log, o, r); }
  }

  lemma EmptyTail(log: Log, o: nat, r: Rec)
    requires r.tag.Header? && r.tag.obj == o
    ensures NewestHdr(log + [r], o) == Some(r)
    ensures forall q :: !InTail(log + [r], o, q)
  {
    AppendUnfold(log, r);
  }

  lemma HarmlessWithin(cs: Pos, log: Log, o: nat, f: File, z: int)
    requires Anchored(cs, log, o, f, z) && Synced(cs, log, o, f, f.size) && MapBelow(cs, f) && z >= f.size
    requires HeaderKnown(log, o, f) && !f.gone
    ensures Anchored(cs, log, o, f, f.size) && Within(cs, log, o, f.size)
  {
    forall c: ChunkId | Base(cs, c) < f.size && Look(cs, log, o, c, MaxSize(cs), true).Some?
      ensures End(cs, Look(cs, log, o, c, MaxSize(cs), true).value) <= f.size
    {
      hide InTail;
      LookMore(cs, log, o, c, MaxSize(cs));
      assert At(f.chunks, c).Some?;
      assert Look(cs, log, o, c, MaxSize(cs), false).Some?;
    }
  }

  /** The garbage collector's copy of a header: the shrink flag is cleared and the size is
    the one in RAM.  In the middle of a write that size may be stale; then a mount no
    longer finds the data written so far. */
  lemma StepCopyHeader(cs: Pos, log: Log, files: Files, synced: set<nat>, b: Busy, r: Rec)
    requires Inv(cs, log, files, synced, b) && r.tag.obj in files
    requires r.tag == Header(r.tag.obj, files[r.tag.obj].size, false, files[r.tag.obj].gone)
    requires forall p :: p in log ==> p.addr != r.addr
    ensures Inv(cs, log + [r], files[r.tag.obj := files[r.tag.obj].(hdr := r.addr)],
                SyncedAfterCopy(cs, synced, b, r.tag.obj, files[r.tag.obj]), b)
  {
    var o := r.tag.obj;
    var f := files[o];
    var files' := files[o := f.(hdr := r.addr)];
    var synced' := SyncedAfterCopy(cs, synced, b, o, f);
    FileCopyHeader(cs, log, o, f, ClaimOf(b, synced, o, f), r);
    if !f.gone { HeaderNotGone(log, o, f, files); }
    AppendGoneGuarded(log, o, files, files', r);
    assert synced' - {o} == synced - {o};
    StepOne(cs, log, files, synced, b, r, files', synced', b);
  }

  /** Only a file in the middle of a growing write or of a truncation drops out of step. */
  function SyncedAfterCopy(cs: Pos, synced: set<nat>, b: Busy, o: nat, f: File): set<nat> {
    if HeaderTrue(f, Reached(b, o, f), Tidy(b, o), Found(b, o, f)) then synced + {o}
    else if HeaderHarmless(cs, f, Reached(b, o, f), Tidy(b, o), Found(b, o, f)) then synced
    else synced - {o}
  }

  /** Unlinking an open file: the header names the unlinked directory. */
  lemma StepUnlink(cs: Pos, log: Log, files: Files, synced: set<nat>, r: Rec)
    requires Inv(cs, log, files, synced, Idle) && r.tag.obj in files && r.tag.Header? && r.tag.gone && !r.tag.shrink
    requires r.tag.size <= MaxSize(cs)
    requires forall p :: p in log ==> p.addr != r.addr
    ensures Inv(cs, log + [r], files[r.tag.obj := files[r.tag.obj].(hdr := r.addr, gone := true)], synced, Idle)
  {
    var o := r.tag.obj;
    var f := files[o];
    var f' := f.(hdr := r.addr, gone := true);
    var files' := files[o := f'];
    AppendUnfold(log, r);
    var k := ClaimOf(Idle, synced, o, f);
    assert FileInv(cs, log, o, f, k);
    RefsMonotone(log, o, f, f', r);
    FileLiveBelow(cs, log, o, f, k);
    LiveBelowSub(cs, log, o, f, f');
    LiveBelowAppend(cs, log, o, f', r);
    AppendGoneGuarded(log, o, files, files', r);
    StepOne(cs, log, files, synced, Idle, r, files', synced, Idle);
  }

  /** Deleting a file: the last header is a shrink header naming the deleted directory. */
  lemma StepDelete(cs: Pos, log: Log, files: Files, synced: set<nat>, r: Rec)
    requires Inv(cs, log, files, synced, Idle) && r.tag.obj in files
    requires r.tag.Header? && r.tag.gone && r.tag.shrink && r.tag.size == 0
    requires forall p :: p in log ==> p.addr != r.addr
    ensures Inv(cs, log + [r], files - {r.tag.obj}, synced - {r.tag.obj}, Idle)
  {
    var o := r.tag.obj;
    AppendUnfold(log, r);
    AppendGoneGuarded(log, o, files, files - {o}, r);
    assert files - {o} - {o} == files - {o};
    assert synced - {o} - {o} == synced - {o};
    StepOne(cs, log, files, synced, Idle, r, files - {o}, synced - {o}, Idle);
  }

  /** Creating a file, possibly under an object id that was used before. */
  lemma StepCreate(cs: Pos, log: Log, files: Files, synced: set<nat>, r: Rec)
    requires Inv(cs, log, files, synced, Idle) && r.tag.obj !in files
    requires r.tag == Header(r.tag.obj, 0, false, false)
    requires forall p :: p in log ==> p.addr != r.addr
    ensures Inv(cs, log + [r], files[r.tag.obj := File(0, r.addr, map[], false)], synced + {r.tag.obj}, Idle)
  {
    var o := r.tag.obj;
    var files' := files[o := File(0, r.addr, map[], false)];
    AppendUnfold(log, r);
    AppendCreation(cs, log, o, r);
    ForgottenGone(log, o);
    AppendGoneGuarded(log, o, files, files', r);
    assert files' - {o} == files - {o};
    assert synced + {o} - {o} == synced - {o};
    StepOne(cs, log, files, synced, Idle, r, files', synced + {o}, Idle);
  }

  lemma {:induction false} ForgottenGone(log: Log, o: nat)
    requires Forgotten(log, o)
    ensures NewestGone(log, o).Some? ==> NewestGone(log, o).value.tag.shrink
    decreases |log|
  {
    if log != [] && log[|log| - 1].tag.obj != o {
      ForgottenGone(log[..|log| - 1], o);
    }
  }

  /** Erasing a safe set of pages, at any moment. */
  lemma StepErase(cs: Pos, log: Log, files: Files, synced: set<nat>, b: Busy, erased: set<nat>)
    requires Inv(cs, log, files, synced, b) && SafeToErase(cs, log, files, erased)
    ensures Inv(cs, Keep(log, erased), files, synced, b)
  {
    hide FileInv, SafeToErase, Forgotten;
    var log' := Keep(log, erased);
    forall r ensures r in log' <==> r in log && r.addr !in erased { KeepMembers(log, erased, r); }
    KeepUnique(log, erased);
    forall o: nat
      ensures GoneGuarded(log', o, files)
      ensures o !in files ==> Forgotten(log', o)
    {
      EraseGoneGuarded(cs, log, o, files, erased);
      if o !in files { EraseForgotten(cs, log, o, files, erased); }
    }
    forall o | o in files
      ensures FileInv(cs, log', o, files[o], ClaimOf(b, synced, o, files[o]))
    {
      FileErase(cs, log, o, files, ClaimOf(b, synced, o, files[o]), erased);
    }
  }

  lemma FileErase(cs: Pos, log: Log, o: nat, files: Files, k: Claim, erased: set<nat>)
    requires o in files && FileInv(cs, log, o, files[o], k) && SafeToErase(cs, log, files, erased)
    requires GoneGuarded(log, o, files)
    ensures FileInv(cs, Keep(log, erased), o, files[o], k)
  {
    hide LiveBelow, Anchored, Within, Nearly, Synced;
    var f, log' := files[o], Keep(log, erased);
    LiveBelowErased(cs, log, o, f, erased);
    EraseKeepsFile(cs, log, o, f, k.z, files, erased);
    EraseKeepsFile(cs, log, o, f, k.zs, files, erased);
    forall c | c in f.chunks ensures exists r :: r in log' && IsChunk(r, o, c, f.chunks[c]) {
      var r :| r in log && IsChunk(r, o, c, f.chunks[c]);
      assert Live(files, r);
      KeepMembers(log, erased, r);
    }
  }

  lemma LiveBelowErased(cs: Pos, log: Log, o: nat, f: File, erased: set<nat>)
    ensures LiveBelow(cs, log, o, f) ==> LiveBelow(cs, Keep(log, erased), o, f)
  {
    if LiveBelow(cs, log, o, f) { LiveBelowKeep(cs, log, o, f, erased); }
  }

  lemma {:induction false} KeepUnique(log: Log, erased: set<nat>)
    requires Unique(log)
    ensures Unique(Keep(log, erased))
    decreases |log|
  {
    if log != [] {
      var r := log[|log| - 1];
      var rest := log[..|log| - 1];
      KeepUnique(rest, erased);
      forall q | q in Keep(rest, erased) ensures q.addr != r.addr {
        KeepMembers(rest, erased, q);
        var i :| 0 <= i < |rest| && rest[i] == q;
        assert log[i].addr != log[|log| - 1].addr;
      }
      if r.addr !in erased { Fresh(Keep(rest, erased), r); }
    }
  }

  lemma ReachedFits(cs: Pos, log: Log, files: Files, synced: set<nat>, b: Busy, o: nat)
    requires Inv(cs, log, files, synced, b) && o in files
    ensures 0 <= Reached(b, o, files[o]) <= MaxSize(cs)
  {
    assert FileInv(cs, log, o, files[o], ClaimOf(b, synced, o, files[o]));
  }

  // ---------- steps in RAM only ----------

  /** A call starts on file `o`. */
  lemma StepBegin(cs: Pos, log: Log, files: Files, synced: set<nat>, o: nat)
    requires Inv(cs, log, files, synced, Idle) && o in files
    ensures Inv(cs, log, files, synced, Busy(o, files[o].size, true, files[o].size, false))
  {}

  /** A file in step, all of whose map is below its size, is near. */
  lemma StepNear(cs: Pos, log: Log, files: Files, synced: set<nat>, b: Busy)
    requires Inv(cs, log, files, synced, b) && b.Busy? && b.o in files && b.o in synced
    requires MapBelow(cs, files[b.o]) && files[b.o].size <= b.z && files[b.o].size <= b.zs
    ensures Inv(cs, log, files, synced, b.(near := true))
  {
    var b' := b.(near := true);
    forall o | o in files
      ensures FileInv(cs, log, o, files[o], ClaimOf(b', synced, o, files[o]))
    {
      assert FileInv(cs, log, o, files[o], ClaimOf(b, synced, o, files[o]));
    }
  }

  /** Claiming less. */
  lemma StepForget(cs: Pos, log: Log, files: Files, synced: set<nat>, b: Busy, o: nat)
    requires Inv(cs, log, files, synced, b)
    ensures Inv(cs, log, files, synced - {o}, b)
  {
    forall p | p in files
      ensures FileInv(cs, log, p, files[p], ClaimOf(b, synced - {o}, p, files[p]))
    {
      assert FileInv(cs, log, p, files[p], ClaimOf(b, synced, p, files[p]));
    }
  }

  /** A change to file `o` in RAM alone: what has to be shown about `o`. */
  lemma StepInRam(cs: Pos, log: Log, files: Files, synced: set<nat>, b: Busy, o: nat, f': File,
                  synced': set<nat>, b': Busy)
    requires Inv(cs, log, files, synced, b) && o in files && f'.hdr == files[o].hdr
    requires b.Busy? ==> b.o == o
    requires b'.Busy? ==> b'.o == o
    requires synced' - {o} == synced - {o}
    requires FileInv(cs, log, o, f', ClaimOf(b', synced', o, f'))
    ensures Inv(cs, log, files[o := f'], synced', b')
  {
    hide FileInv;
    var files' := files[o := f'];
    assert forall p: nat :: GoneGuarded(log, p, files) ==> GoneGuarded(log, p, files');
    forall p | p in files'
      ensures FileInv(cs, log, p, files'[p], ClaimOf(b', synced', p, files'[p]))
    {
      if p != o {
        assert p in synced' <==> p in synced' - {o};
        assert p in synced <==> p in synced - {o};
        assert FileInv(cs, log, p, files[p], ClaimOf(b, synced, p, files[p]));
      }
    }
  }

  /** A call ends: the RAM size becomes what the call has reached. */
  lemma StepEnd(cs: Pos, log: Log, files: Files, synced: set<nat>, b: Busy)
    requires Inv(cs, log, files, synced, b) && b.Busy? && b.o in files && b.tidy
    requires b.z >= 0 && (b.z == b.zs || b.o !in synced)
    ensures Inv(cs, log, files[b.o := files[b.o].(size := b.z)], synced, Idle)
  {
    var o := b.o;
    var f, f' := files[o], files[o].(size := b.z);
    hide Inv;
    InvAt(cs, log, files, synced, b, o);
    if f.gone { LiveBelowSub(cs, log, o, f, f'); }
    assert FileInv(cs, log, o, f', ClaimOf(Idle, synced, o, f'));
    StepInRam(cs, log, files, synced, b, o, f', synced, Idle);
  }

  /** An unlinked file gets no header for a hole. */
  lemma StepGoneHole(cs: Pos, log: Log, files: Files, synced: set<nat>, b: Busy, z: int)
    requires Inv(cs, log, files, synced, b) && b.Busy? && b.o in files && files[b.o].gone
    requires b.z <= z <= MaxSize(cs)
    ensures Inv(cs, log, files, synced, b.(z := z))
  {
    var b' := b.(z := z);
    forall o | o in files
      ensures FileInv(cs, log, o, files[o], ClaimOf(b', synced, o, files[o]))
    {
      assert FileInv(cs, log, o, files[o], ClaimOf(b, synced, o, files[o]));
    }
  }

  /** A truncation takes the chunks at or above `s` out of the map. */
  lemma StepCut(cs: Pos, log: Log, files: Files, synced: set<nat>, b: Busy, s: nat)
    requires Inv(cs, log, files, synced, b) && b.Busy? && b.o in files && s <= b.z
    ensures var f := files[b.o];
            Inv(cs, log, files[b.o := f.(chunks := CutAt(cs, f.chunks, s))], synced - {b.o},
                b.(z := s, tidy := false, near := false))
  {
    var o := b.o;
    var f := files[o];
    var f' := f.(chunks := CutAt(cs, f.chunks, s));
    var b' := b.(z := s, tidy := false, near := false);
    hide Inv, Synced, Nearly, Within, Look;
    InvAt(cs, log, files, synced, b, o);
    if f.gone { LiveBelowSub(cs, log, o, f, f'); }
    assert FileInv(cs, log, o, f', ClaimOf(b', synced - {o}, o, f'));
    assert synced - {o} - {o} == synced - {o};
    StepInRam(cs, log, files, synced, b, o, f', synced - {o}, b');
  }

  /** After the cut at a chunk boundary nothing reaches past it. */
  lemma StepCutWhole(cs: Pos, log: Log, files: Files, synced: set<nat>, b: Busy, k: nat)
    requires Inv(cs, log, files, synced, b) && b.Busy? && b.o in files && !b.tidy && b.z == k * cs
    ensures Inv(cs, log, files, synced, b.(tidy := true))
  {
    var b' := b.(tidy := true);
    forall c: ChunkId | Base(cs, c) < b.z && Look(cs, log, b.o, c, MaxSize(cs), true).Some?
      ensures End(cs, Look(cs, log, b.o, c, MaxSize(cs), true).value) <= b.z
    {
      var r := Look(cs, log, b.o, c, MaxSize(cs), true).value;
      assert r.tag.nBytes <= cs;
      assert b.z == Base(cs, k + 1);
      BaseOrder(cs, c, k + 1);
    }
    assert Within(cs, log, b.o, b.z);
    forall o | o in files
      ensures FileInv(cs, log, o, files[o], ClaimOf(b', synced, o, files[o]))
    {
      assert FileInv(cs, log, o, files[o], ClaimOf(b, synced, o, files[o]));
    }
  }

  /** After the cut inside a chunk that chunk is rewritten, shortened. */
  lemma StepTrim(cs: Pos, log: Log, files: Files, synced: set<nat>, b: Busy, r: Rec)
    requires Inv(cs, log, files, synced, b) && b.Busy? && b.o in files && !b.near && b.o !in synced
    requires r.tag.Data? && r.tag.obj == b.o && End(cs, r) == b.z <= MaxSize(cs) && 0 < r.tag.nBytes < cs
    requires forall p :: p in log ==> p.addr != r.addr
    ensures var f := files[b.o];
            Inv(cs, log + [r], files[b.o := f.(chunks := f.chunks[r.tag.chunk := r.addr])], synced, b.(tidy := true))
  {
    var o, c := b.o, r.tag.chunk;
    var f := files[o];
    var f' := f.(chunks := f.chunks[c := r.addr]);
    var files' := files[o := f'];
    AppendUnfold(log, r);
    assert FileInv(cs, log, o, f, ClaimOf(b, synced, o, f));
    RefsReplaced(log, o, f, r);
    AppendGoneGuarded(log, o, files, files', r);
    TrimFits(cs, r);
    if f.gone {
      LiveBelowSub(cs, log, o, f, f');
      LiveBelowAppend(cs, log, o, f', r);
      assert HeaderKnown(log + [r], o, f');
    } else {
      AppendData(cs, log, o, f, b.z, b.z, r);
      forall d: ChunkId | Base(cs, d) < b.z && Look(cs, log + [r], o, d, MaxSize(cs), true).Some?
        ensures End(cs, Look(cs, log + [r], o, d, MaxSize(cs), true).value) <= b.z
      {
        if d != c {
          var q := Look(cs, log, o, d, MaxSize(cs), true).value;
          assert q.tag.nBytes <= cs;
          BaseOrder(cs, d, c);
        }
      }
    }
    StepOne(cs, log, files, synced, b, r, files', synced, b.(tidy := true));
  }

  lemma TrimFits(cs: Pos, r: Rec)
    requires r.tag.Data? && End(cs, r) <= MaxSize(cs) && 0 < r.tag.nBytes
    ensures r.tag.chunk <= MAX_CHUNK_ID
  {
    assert Base(cs, MAX_CHUNK_ID + 1) == MaxSize(cs);
    BaseOrder(cs, r.tag.chunk, MAX_CHUNK_ID + 1);
  }

  // ---------- what a mount finds ----------

  /** The size the scan arrives at is the one the invariant names. */
  lemma {:induction false} TailBound(cs: Pos, log: Log, o: nat, z: int)
    requires NewestHdr(log, o).Some? && NewestHdr(log, o).value.tag.size <= z
    requires forall r :: InTail(log, o, r) ==> End(cs, r) <= z
    ensures SizeOf(cs, log, o, 0) <= z
    ensures NewestHdr(log, o).value.tag.size <= SizeOf(cs, log, o, 0)
    ensures forall r :: InTail(log, o, r) ==> End(cs, r) <= SizeOf(cs, log, o, 0)
    decreases |log|
  {
    var q := log[|log| - 1];
    var rest := log[..|log| - 1];
    if q.tag.obj != o {
      assert forall r :: InTail(log, o, r) == InTail(rest, o, r);
      TailBound(cs, rest, o, z);
    } else if q.tag.Data? {
      assert forall r :: InTail(rest, o, r) ==> InTail(log, o, r);
      assert InTail(log, o, q);
      TailBound(cs, rest, o, z);
      SizeAcc(cs, rest, o, Max(0, End(cs, q)));
    }
  }

  lemma {:induction false} NoRecScan(cs: Pos, log: Log, o: nat, st: FileScan)
    requires NewestRec(log, o) == None
    ensures ScanObj(cs, log, o, st) == st
    decreases |log|
  {
    if log != [] { NoRecScan(cs, log[..|log| - 1], o, st); }
  }

  lemma {:induction false} NewestRecHdr(log: Log, o: nat)
    requires NewestRec(log, o).Some? && NewestRec(log, o).value.tag.Header?
    ensures NewestHdr(log, o) == NewestRec(log, o)
    decreases |log|
  {
    if log[|log| - 1].tag.obj != o { NewestRecHdr(log[..|log| - 1], o); }
  }

  /** A file in step with the log comes back with its size, its header and every chunk
    where RAM had it. */
  lemma MountSynced(cs: Pos, log: Log, o: nat, f: File, z: int)
    requires Synced(cs, log, o, f, z) && HeaderKnown(log, o, f) && Bounded(cs, log)
    ensures var st := ScanObj(cs, log, o, FreshScan(cs));
            st.valid && st.gone == f.gone && st.hdr == Some(f.hdr) && st.size == z && st.chunks == f.chunks
  {
    hide Look, InTail;
    var st0 := FreshScan(cs);
    var st := ScanObj(cs, log, o, st0);
    forall c: ChunkId ensures At(st.chunks, c) == At(f.chunks, c) {
      ScanMeansLook(cs, log, o, st0, c);
    }
    assert st.chunks == f.chunks by {
      assert forall c :: c in st.chunks <==> At(st.chunks, c).Some?;
      assert forall c :: c in f.chunks <==> At(f.chunks, c).Some?;
    }
    ScanMeansLook(cs, log, o, st0, 1);
    ScanMeansSize(cs, log, o, st0);
    TailBound(cs, log, o, z);
  }

  /** What a mount owes object `o`: files in step with the log with the header and the chunk
    map RAM had and the size written so far, unlinked files marked for removal, and nothing
    that RAM did not have. */
  ghost predicate Restored(cs: Pos, files: Files, synced: set<nat>, b: Busy, o: nat, st: FileScan)
  {
    && (o in files && !files[o].gone && o in synced ==>
          st.valid && !st.gone && st.hdr == Some(files[o].hdr) && st.size == Found(b, o, files[o]) &&
          st.chunks == files[o].chunks)
    && (o in files && files[o].gone ==> st.valid && st.gone)
    && (o !in files ==> st == FreshScan(cs) || (st.valid && st.gone))
  }

  /** Mount after a power failure at any moment, between calls or inside one. */
  lemma MountRebuilds(cs: Pos, log: Log, files: Files, synced: set<nat>, b: Busy, o: nat)
    requires Inv(cs, log, files, synced, b)
    ensures Restored(cs, files, synced, b, o, ScanObj(cs, log, o, FreshScan(cs)))
  {
    hide Look, InTail, Anchored, Within, RefsOnLog, ScanObj;
    if o in files {
      var f := files[o];
      assert FileInv(cs, log, o, f, ClaimOf(b, synced, o, f));
      if !f.gone && o in synced {
        MountSynced(cs, log, o, f, Found(b, o, f));
      } else if f.gone {
        ScanMeansLook(cs, log, o, FreshScan(cs), 1);
      }
    } else if NewestRec(log, o).None? {
      NoRecScan(cs, log, o, FreshScan(cs));
    } else {
      NewestRecHdr(log, o);
      ScanMeansLook(cs, log, o, FreshScan(cs), 1);
    }
  }
}
