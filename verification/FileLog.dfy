/** The file table in RAM against the flash log: the invariant that makes the backward
  scan rebuild the table, and how each kind of append or erasure treats it. */
module FileLog {
  import opened ScanLog

  /** A file in RAM: its size, where its header lives, and where each data chunk lives.
    `gone` files sit in the unlinked directory, still open. */
  datatype File = File(size: nat, hdr: nat, chunks: map<ChunkId, nat>, gone: bool)

  type Files = map<nat, File>

  /** File offset just past the data of the record. */
  function End(cs: Pos, r: Rec): int {
    if r.tag.Data? then Base(cs, r.tag.chunk) + r.tag.nBytes else 0
  }

  /** The record holds the newest data of a chunk, or the header, of a file in RAM. */
  predicate LiveIn(f: File, r: Rec) {
    match r.tag
    case Data(_, c, _) => c in f.chunks && f.chunks[c] == r.addr
    case Header(_, _, _, _) => f.hdr == r.addr
  }

  predicate Live(files: Files, r: Rec) {
    r.tag.obj in files && LiveIn(files[r.tag.obj], r)
  }

  /** `r` is data of `o` newer than every header of `o`. */
  predicate InTail(log: Log, o: nat, r: Rec)
  {
    if log == [] then false
    else
      var q := log[|log| - 1];
      if q.tag.obj != o then InTail(log[..|log| - 1], o, r)
      else if q.tag.Header? then false
      else r == q || InTail(log[..|log| - 1], o, r)
  }

  function NewestGone(log: Log, o: nat): (r: Option<Rec>)
    ensures r.Some? ==> r.value.tag.Header? && r.value.tag.obj == o && r.value.tag.gone
  {
    if log == [] then None
    else
      var r := log[|log| - 1];
      if r.tag.obj == o && r.tag.Header? && r.tag.gone then Some(r) else NewestGone(log[..|log| - 1], o)
  }

  // ---------- the invariant ----------

  /** What no garbage collection can disturb, even in the middle of a write that has
    reached offset `z`: below `z` the data left standing by the shrink headers alone is
    exactly what RAM maps, and nothing is mapped at or above `z`. */
  ghost predicate Anchored(cs: Pos, log: Log, o: nat, f: File, z: int)
  {
    && (forall c :: c in f.chunks ==> Base(cs, c) < z)
    && (forall c: ChunkId :: Base(cs, c) < z ==> AddrOf(Look(cs, log, o, c, MaxSize(cs), true)) == At(f.chunks, c))
    && 0 <= z <= MaxSize(cs)
  }

  /** The newest header is the one RAM knows, and it does not name a dead directory. */
  ghost predicate HeaderKnown(log: Log, o: nat, f: File)
  {
    var h := NewestHdr(log, o);
    h.Some? && h.value.addr == f.hdr && h.value.tag.gone == f.gone
  }

  /** The scan would find no size beyond `z`. */
  ghost predicate SizeBounded(cs: Pos, log: Log, o: nat, z: int)
  {
    var h := NewestHdr(log, o);
    && h.Some? && h.value.tag.size <= z
    && forall r :: InTail(log, o, r) ==> r.tag.Data? && End(cs, r) <= z
  }

  /** The scan would find size `z`: the newest header says so, or live data after it does. */
  ghost predicate SizeReached(cs: Pos, log: Log, o: nat, f: File, z: int)
  {
    var h := NewestHdr(log, o);
    && h.Some?
    && (h.value.tag.size == z || exists r :: InTail(log, o, r) && r.tag.Data? && LiveIn(f, r) && End(cs, r) == z)
  }

  /** The data that stands below `z` does not reach past it. */
  ghost predicate Within(cs: Pos, log: Log, o: nat, z: int)
  {
    forall c: ChunkId :: Base(cs, c) < z && Look(cs, log, o, c, MaxSize(cs), true).Some? ==>
                       End(cs, Look(cs, log, o, c, MaxSize(cs), true).value) <= z
  }

  /** A mount now would rebuild the chunk map of the file, with no data and no size beyond `z`. */
  ghost predicate Nearly(cs: Pos, log: Log, o: nat, f: File, z: int)
  {
    && (forall c: ChunkId :: AddrOf(Look(cs, log, o, c, MaxSize(cs), false)) == At(f.chunks, c))
    && (forall c: ChunkId :: Look(cs, log, o, c, MaxSize(cs), false).Some? ==>
          End(cs, Look(cs, log, o, c, MaxSize(cs), false).value) <= z)
    && SizeBounded(cs, log, o, z)
  }

  /** A mount now would rebuild the chunk map of the file and size `z`. */
  ghost predicate Synced(cs: Pos, log: Log, o: nat, f: File, z: int)
  {
    Nearly(cs, log, o, f, z) && SizeReached(cs, log, o, f, z)
  }

  /** No chunk is mapped at or above the size RAM holds. */
  predicate MapBelow(cs: Pos, f: File) {
    forall c :: c in f.chunks ==> Base(cs, c) < f.size
  }

  /** Nothing of an object that RAM does not know survives a mount. */
  ghost predicate Forgotten(log: Log, o: nat)
  {
    var r := NewestRec(log, o);
    r.Some? ==> r.value.tag.Header? && r.value.tag.gone && r.value.tag.shrink && r.value.tag.size == 0
  }

  /** The newest header that names a dead directory is still RAM's, or is a shrink header. */
  ghost predicate GoneGuarded(log: Log, o: nat, files: Files)
  {
    var g := NewestGone(log, o);
    g.Some? ==> g.value.tag.shrink || Live(files, g.value)
  }

  // ---------- appending ----------

  lemma AppendUnfold(log: Log, r: Rec)
    ensures (log + [r])[..|log + [r]| - 1] == log && (log + [r])[|log + [r]| - 1] == r
  {}

  /** Records of other objects do not matter. */
  lemma AppendOther(cs: Pos, log: Log, o: nat, f: File, z: int, r: Rec)
    requires r.tag.obj != o
    ensures Anchored(cs, log, o, f, z) ==> Anchored(cs, log + [r], o, f, z)
    ensures HeaderKnown(log, o, f) ==> HeaderKnown(log + [r], o, f)
    ensures Nearly(cs, log, o, f, z) ==> Nearly(cs, log + [r], o, f, z)
    ensures Synced(cs, log, o, f, z) ==> Synced(cs, log + [r], o, f, z)
    ensures Forgotten(log, o) ==> Forgotten(log + [r], o)
  {
    AppendUnfold(log, r);
    assert forall q :: InTail(log + [r], o, q) == InTail(log, o, q);
    assert forall c: ChunkId, v :: Look(cs, log + [r], o, c, MaxSize(cs), v) == Look(cs, log, o, c, MaxSize(cs), v);
  }

  /** The size a write of one chunk reaches: `z` before, `pos` after. */
  lemma AppendData(cs: Pos, log: Log, o: nat, f: File, z: int, z': int, r: Rec)
    requires Anchored(cs, log, o, f, z)
    requires r.tag.Data? && r.tag.obj == o && r.tag.chunk <= MAX_CHUNK_ID
    requires z <= z' <= MaxSize(cs) && Base(cs, r.tag.chunk) < z'
    requires forall c: ChunkId :: z <= Base(cs, c) < z' ==> c == r.tag.chunk
    ensures Anchored(cs, log + [r], o, f.(chunks := f.chunks[r.tag.chunk := r.addr]), z')
    ensures HeaderKnown(log, o, f) ==> HeaderKnown(log + [r], o, f.(chunks := f.chunks[r.tag.chunk := r.addr]))
  {
    AppendUnfold(log, r);
    BaseBelowMax(cs, r.tag.chunk);
    var f' := f.(chunks := f.chunks[r.tag.chunk := r.addr]);
    forall c: ChunkId | Base(cs, c) < z'
      ensures AddrOf(Look(cs, log + [r], o, c, MaxSize(cs), true)) == At(f'.chunks, c)
    {
      if c != r.tag.chunk {
        assert Look(cs, log + [r], o, c, MaxSize(cs), true) == Look(cs, log, o, c, MaxSize(cs), true);
      }
    }
  }

  /** One more chunk of data, reaching up to at most `z'`. */
  lemma AppendDataNearly(cs: Pos, log: Log, o: nat, f: File, z: int, z': int, r: Rec)
    requires Nearly(cs, log, o, f, z)
    requires r.tag.Data? && r.tag.obj == o && r.tag.chunk <= MAX_CHUNK_ID
    requires z <= z' && End(cs, r) <= z'
    ensures Nearly(cs, log + [r], o, f.(chunks := f.chunks[r.tag.chunk := r.addr]), z')
  {
    AppendUnfold(log, r);
    BaseBelowMax(cs, r.tag.chunk);
    var c0 := r.tag.chunk;
    var f' := f.(chunks := f.chunks[c0 := r.addr]);
    forall c: ChunkId
      ensures AddrOf(Look(cs, log + [r], o, c, MaxSize(cs), false)) == At(f'.chunks, c)
      ensures Look(cs, log + [r], o, c, MaxSize(cs), false).Some? ==>
                End(cs, Look(cs, log + [r], o, c, MaxSize(cs), false).value) <= z'
    {
      if c != c0 {
        assert Look(cs, log + [r], o, c, MaxSize(cs), false) == Look(cs, log, o, c, MaxSize(cs), false);
      }
    }
    assert forall q :: InTail(log + [r], o, q) <==> q == r || InTail(log, o, q);
  }

  /** Data that reaches the furthest brings the size up, whatever the newest header says. */
  lemma AppendDataReaches(cs: Pos, log: Log, o: nat, f: File, z: int, z': int, r: Rec)
    requires Nearly(cs, log, o, f, z)
    requires r.tag.Data? && r.tag.obj == o && r.tag.chunk <= MAX_CHUNK_ID
    requires z <= z' == End(cs, r)
    ensures Synced(cs, log + [r], o, f.(chunks := f.chunks[r.tag.chunk := r.addr]), z')
  {
    AppendDataNearly(cs, log, o, f, z, z', r);
    AppendUnfold(log, r);
    var f' := f.(chunks := f.chunks[r.tag.chunk := r.addr]);
    assert InTail(log + [r], o, r) && LiveIn(f', r);
  }

  lemma AppendDataSynced(cs: Pos, log: Log, o: nat, f: File, z: int, z': int, r: Rec)
    requires Synced(cs, log, o, f, z)
    requires r.tag.Data? && r.tag.obj == o && r.tag.chunk <= MAX_CHUNK_ID
    requires z <= z' && End(cs, r) <= z'
    requires z < z' ==> End(cs, r) == z'
    requires z == z' ==> forall w :: InTail(log, o, w) && w.tag.Data? && w.tag.chunk == r.tag.chunk && LiveIn(f, w) ==>
                                       End(cs, w) == z ==> End(cs, r) == z
    ensures Synced(cs, log + [r], o, f.(chunks := f.chunks[r.tag.chunk := r.addr]), z')
  {
    AppendDataNearly(cs, log, o, f, z, z', r);
    AppendUnfold(log, r);
    var f' := f.(chunks := f.chunks[r.tag.chunk := r.addr]);
    if End(cs, r) == z' {
      AppendDataReaches(cs, log, o, f, z, z', r);
    } else if NewestHdr(log, o).value.tag.size != z {
      var w :| InTail(log, o, w) && w.tag.Data? && LiveIn(f, w) && End(cs, w) == z;
      assert InTail(log + [r], o, w) && LiveIn(f', w);
    }
  }

  /** A header puts RAM and log in step: whatever the log looked like, if the file's size
    covers its chunks then a mount after the header finds exactly this size and map. */
  lemma AppendHeader(cs: Pos, log: Log, o: nat, f: File, r: Rec)
    requires Anchored(cs, log, o, f, f.size) && Within(cs, log, o, f.size)
    requires r.tag.Header? && r.tag.obj == o && r.tag.size == f.size && !r.tag.gone
    ensures Anchored(cs, log + [r], o, f, f.size)
    ensures Synced(cs, log + [r], o, f.(hdr := r.addr), f.size)
    ensures HeaderKnown(log + [r], o, f.(hdr := r.addr, gone := false))
  {
    AppendUnfold(log, r);
    forall c: ChunkId
      ensures Look(cs, log + [r], o, c, MaxSize(cs), false) ==
                if Base(cs, c) < f.size then Look(cs, log, o, c, MaxSize(cs), true) else None
      ensures Base(cs, c) < f.size ==>
                Look(cs, log + [r], o, c, MaxSize(cs), true) == Look(cs, log, o, c, MaxSize(cs), true)
    {
      if Base(cs, c) < f.size {
        LookLimit(cs, log, o, c, f.size, MaxSize(cs), true);
      } else {
        LookCut(cs, log, o, c, f.size, true);
      }
    }
  }

  /** A shrink header at the file's size protects the hole above it, up to any `z`. */
  lemma AppendHole(cs: Pos, log: Log, o: nat, f: File, z: int, r: Rec)
    requires Anchored(cs, log, o, f, f.size) && Within(cs, log, o, f.size)
    requires r.tag.Header? && r.tag.obj == o && r.tag.size == f.size && r.tag.shrink && !r.tag.gone
    requires f.size <= z <= MaxSize(cs)
    ensures Anchored(cs, log + [r], o, f, z) && Within(cs, log + [r], o, z)
  {
    AppendUnfold(log, r);
    forall c: ChunkId
      ensures Look(cs, log + [r], o, c, MaxSize(cs), true) ==
                if Base(cs, c) < f.size then Look(cs, log, o, c, MaxSize(cs), true) else None
    {
      if Base(cs, c) < f.size {
        LookLimit(cs, log, o, c, f.size, MaxSize(cs), true);
      } else {
        LookCut(cs, log, o, c, f.size, true);
      }
    }
  }

  /** A header without the shrink flag, whatever size it carries, leaves the anchor alone. */
  lemma AppendPlainHeader(cs: Pos, log: Log, o: nat, f: File, z: int, r: Rec)
    requires Anchored(cs, log, o, f, z)
    requires r.tag.Header? && r.tag.obj == o && !r.tag.shrink && !r.tag.gone
    ensures Anchored(cs, log + [r], o, f.(hdr := r.addr), z)
    ensures Within(cs, log, o, z) ==> Within(cs, log + [r], o, z)
    ensures HeaderKnown(log + [r], o, f.(hdr := r.addr, gone := false))
  {
    AppendUnfold(log, r);
    assert forall c: ChunkId :: Look(cs, log + [r], o, c, MaxSize(cs), true) == Look(cs, log, o, c, MaxSize(cs), true);
  }

  /** The chunk map cut at `s`. */
  function CutAt(cs: Pos, m: map<ChunkId, nat>, s: int): map<ChunkId, nat> {
    map c | c in m && Base(cs, c) < s :: m[c]
  }

  /** A brand new object starts with an empty, synced file. */
  lemma AppendCreation(cs: Pos, log: Log, o: nat, r: Rec)
    requires r.tag == Header(o, 0, false, false)
    ensures var f := File(0, r.addr, map[], false);
            Anchored(cs, log + [r], o, f, 0) && Within(cs, log + [r], o, 0) && Synced(cs, log + [r], o, f, 0) &&
            HeaderKnown(log + [r], o, f)
  {
    var f := File(0, r.addr, map[], false);
    assert Anchored(cs, log, o, f, 0) by { MulGapZero(cs); }
    assert Within(cs, log, o, 0) by { MulGapZero(cs); }
    AppendHeader(cs, log, o, f, r);
  }

  lemma MulGapZero(cs: Pos)
    ensures forall c: ChunkId :: Base(cs, c) >= 0
  {
    forall c: ChunkId ensures Base(cs, c) >= 0 {
      BaseOrder(cs, 1, c);
      assert Base(cs, 1) == 0;
    }
  }

  // ---------- erasing ----------

  /** The log once the pages in `gone` are erased. */
  function Keep(log: Log, erased: set<nat>): Log
  {
    if log == [] then []
    else
      var r := log[|log| - 1];
      var rest := Keep(log[..|log| - 1], erased);
      if r.addr in erased then rest else rest + [r]
  }

  predicate ShrinkGoes(r: Rec, erased: set<nat>) {
    r.addr in erased && r.tag.Header? && r.tag.shrink
  }

  /** What a shrink header does not cut off: data that begins below its size. */
  predicate Uncut(cs: Pos, q: Rec, h: Rec)
    requires h.tag.Header?
  {
    q.tag.Data? && !h.tag.gone && Base(cs, q.tag.chunk) < h.tag.size
  }

  /** No shrink header among the erased pages cuts off an older record that stays behind. */
  ghost predicate Harmless(cs: Pos, log: Log, erased: set<nat>)
  {
    log == [] ||
    (var h, rest := log[|log| - 1], log[..|log| - 1];
     && Harmless(cs, rest, erased)
     && (ShrinkGoes(h, erased) ==> forall q :: q in rest && q.addr !in erased && q.tag.obj == h.tag.obj ==>
         Uncut(cs, q, h)))
  }

  ghost predicate NothingLive(log: Log, files: Files, erased: set<nat>)
  {
    forall r :: r in log && r.addr in erased ==> !Live(files, r)
  }

  /** No erased page is live, and no shrink header that goes is still needed. */
  ghost predicate SafeToErase(cs: Pos, log: Log, files: Files, erased: set<nat>)
  {
    NothingLive(log, files, erased) && Harmless(cs, log, erased)
  }

  lemma SafePrefix(cs: Pos, log: Log, files: Files, erased: set<nat>)
    requires log != [] && SafeToErase(cs, log, files, erased)
    ensures SafeToErase(cs, log[..|log| - 1], files, erased)
    ensures var r := log[|log| - 1];
            && (r.addr in erased ==> !Live(files, r))
            && (ShrinkGoes(r, erased) ==>
                  forall q :: q in log[..|log| - 1] && q.addr !in erased && q.tag.obj == r.tag.obj ==> Uncut(cs, q, r))
  {}

  /** Once harmless, always harmless: new records are newer than every header there is. */
  lemma HarmlessAppend(cs: Pos, log: Log, r: Rec, erased: set<nat>)
    requires Harmless(cs, log, erased) && !ShrinkGoes(r, erased)
    ensures Harmless(cs, log + [r], erased)
  {
    AppendUnfold(log, r);
  }

  /** And erasing other pages takes older records away. */
  lemma {:induction false} HarmlessKeep(cs: Pos, log: Log, erased: set<nat>, others: set<nat>)
    requires Harmless(cs, log, erased)
    ensures Harmless(cs, Keep(log, others), erased)
    decreases |log|
  {
    if log != [] {
      var rest := log[..|log| - 1];
      HarmlessKeep(cs, rest, erased, others);
      KeepUnfold(log, others);
      forall q ensures q in Keep(rest, others) ==> q in rest { KeepMembers(rest, others, q); }
    }
  }

  /** Pages not on the log are harmless. */
  lemma {:induction false} HarmlessNone(cs: Pos, log: Log, erased: set<nat>)
    requires forall r :: r in log ==> r.addr !in erased
    ensures Harmless(cs, log, erased)
    decreases |log|
  {
    if log != [] {
      var rest := log[..|log| - 1];
      assert log[|log| - 1] in log && forall r :: r in rest ==> r in log;
      HarmlessNone(cs, rest, erased);
    }
  }

  lemma {:induction false} KeepMembers(log: Log, erased: set<nat>, r: Rec)
    ensures r in Keep(log, erased) <==> r in log && r.addr !in erased
    decreases |log|
  {
    if log != [] {
      KeepMembers(log[..|log| - 1], erased, r);
      assert log == log[..|log| - 1] + [log[|log| - 1]];
    }
  }

  lemma KeepUnfold(log: Log, erased: set<nat>)
    requires log != []
    ensures var k := Keep(log, erased); var r := log[|log| - 1]; var rest := Keep(log[..|log| - 1], erased);
            if r.addr in erased then k == rest
            else k != [] && k[|k| - 1] == r && k[..|k| - 1] == rest
  {}

  /** Reading chunk `c` gives the same answer after a safe erasure. */
  lemma {:induction false} EraseLook(cs: Pos, log: Log, o: nat, c: ChunkId, limit: int, valid: bool,
                                     files: Files, erased: set<nat>)
    requires SafeToErase(cs, log, files, erased) && o in files
    requires AddrOf(Look(cs, log, o, c, limit, valid)) == At(files[o].chunks, c)
    requires !valid && NewestHdr(log, o).Some? ==>
               NewestHdr(log, o).value.addr !in erased && !NewestHdr(log, o).value.tag.gone
    requires limit > 0 ==> GoneGuarded(log, o, files)
    ensures Look(cs, Keep(log, erased), o, c, limit, valid) == Look(cs, log, o, c, limit, valid)
    decreases |log|
  {
    if log != [] {
      var r := log[|log| - 1];
      var rest := log[..|log| - 1];
      SafePrefix(cs, log, files, erased);
      KeepUnfold(log, erased);
      if r.tag.obj != o || (r.tag.Data? && r.tag.chunk != c) {
        EraseLook(cs, rest, o, c, limit, valid, files, erased);
      } else if r.tag.Data? {
        if r.addr in erased {
          LookCut(cs, Keep(rest, erased), o, c, limit, valid);
        }
      } else {
        var l := LimitAfter(r.tag, limit, valid);
        EraseLook(cs, rest, o, c, l, true, files, erased);
        if r.addr in erased && Base(cs, c) >= l && Base(cs, c) < limit {
          MulGapZero(cs);
          LookCut(cs, rest, o, c, l, true);
          if Look(cs, Keep(rest, erased), o, c, limit, true).Some? {
            var q := Look(cs, Keep(rest, erased), o, c, limit, true).value;
            KeepMembers(rest, erased, q);
            assert false;
          }
        } else if r.addr in erased {
          LookLimit(cs, Keep(rest, erased), o, c, l, limit, true);
        }
      }
    }
  }

  lemma {:induction false} EraseTail(log: Log, o: nat, erased: set<nat>, r: Rec)
    requires NewestHdr(log, o).Some? && NewestHdr(log, o).value.addr !in erased
    ensures InTail(Keep(log, erased), o, r) <==> InTail(log, o, r) && r.addr !in erased
    ensures NewestHdr(Keep(log, erased), o) == NewestHdr(log, o)
    decreases |log|
  {
    var q := log[|log| - 1];
    KeepUnfold(log, erased);
    if q.tag.obj != o || q.tag.Data? {
      EraseTail(log[..|log| - 1], o, erased, r);
    }
  }

  lemma {:induction false} NewestIn(log: Log, o: nat)
    ensures NewestRec(log, o).Some? ==> NewestRec(log, o).value in log && NewestRec(log, o).value.tag.obj == o
    ensures NewestGone(log, o).Some? ==> NewestGone(log, o).value in log
    decreases |log|
  {
    if log != [] {
      NewestIn(log[..|log| - 1], o);
    }
  }

  lemma {:induction false} EraseForgotten(cs: Pos, log: Log, o: nat, files: Files, erased: set<nat>)
    requires SafeToErase(cs, log, files, erased) && o !in files && Forgotten(log, o)
    ensures Forgotten(Keep(log, erased), o)
    decreases |log|
  {
    if log != [] {
      var r := log[|log| - 1];
      var rest := log[..|log| - 1];
      SafePrefix(cs, log, files, erased);
      KeepUnfold(log, erased);
      if r.tag.obj != o {
        EraseForgotten(cs, rest, o, files, erased);
      } else if r.addr in erased {
        var k := Keep(rest, erased);
        NewestIn(k, o);
        if NewestRec(k, o).Some? {
          KeepMembers(rest, erased, NewestRec(k, o).value);
        }
      }
    }
  }

  lemma {:induction false} EraseGoneGuarded(cs: Pos, log: Log, o: nat, files: Files, erased: set<nat>)
    requires SafeToErase(cs, log, files, erased) && GoneGuarded(log, o, files)
    ensures GoneGuarded(Keep(log, erased), o, files)
    decreases |log|
  {
    if log != [] {
      var r := log[|log| - 1];
      var rest := log[..|log| - 1];
      SafePrefix(cs, log, files, erased);
      KeepUnfold(log, erased);
      if r.tag.obj == o && r.tag.Header? && r.tag.gone {
        if r.addr in erased {
          var k := Keep(rest, erased);
          NewestIn(k, o);
          if NewestGone(k, o).Some? {
            KeepMembers(rest, erased, NewestGone(k, o).value);
          }
        }
      } else {
        EraseGoneGuarded(cs, rest, o, files, erased);
      }
    }
  }

  /** Erasing a safe set of pages disturbs neither the anchor nor what a mount would find. */
  lemma EraseKeepsFile(cs: Pos, log: Log, o: nat, f: File, z: int, files: Files, erased: set<nat>)
    requires SafeToErase(cs, log, files, erased) && o in files && files[o] == f && GoneGuarded(log, o, files)
    requires HeaderKnown(log, o, f)
    ensures HeaderKnown(Keep(log, erased), o, f) && NewestHdr(Keep(log, erased), o) == NewestHdr(log, o)
    ensures !f.gone && Anchored(cs, log, o, f, z) ==> Anchored(cs, Keep(log, erased), o, f, z)
    ensures !f.gone && Anchored(cs, log, o, f, z) && Within(cs, log, o, z) ==> Within(cs, Keep(log, erased), o, z)
    ensures !f.gone && Nearly(cs, log, o, f, z) ==> Nearly(cs, Keep(log, erased), o, f, z)
    ensures !f.gone && Synced(cs, log, o, f, z) ==> Synced(cs, Keep(log, erased), o, f, z)
  {
    var h := NewestHdr(log, o).value;
    HdrIn(log, o);
    assert Live(files, h);
    assert h.addr !in erased;
    forall r ensures InTail(Keep(log, erased), o, r) <==> InTail(log, o, r) && r.addr !in erased {
      EraseTail(log, o, erased, r);
    }
    EraseTail(log, o, erased, h);
    if !f.gone {
      if Anchored(cs, log, o, f, z) {
        forall c: ChunkId | Base(cs, c) < z
          ensures Look(cs, Keep(log, erased), o, c, MaxSize(cs), true) == Look(cs, log, o, c, MaxSize(cs), true)
        {
          EraseLook(cs, log, o, c, MaxSize(cs), true, files, erased);
        }
      }
      if Nearly(cs, log, o, f, z) {
        forall c: ChunkId
          ensures Look(cs, Keep(log, erased), o, c, MaxSize(cs), false) == Look(cs, log, o, c, MaxSize(cs), false)
        {
          EraseLook(cs, log, o, c, MaxSize(cs), false, files, erased);
        }
        if SizeReached(cs, log, o, f, z) && h.tag.size != z {
          var w :| InTail(log, o, w) && w.tag.Data? && LiveIn(f, w) && End(cs, w) == z;
          TailIn(log, o, w);
          assert Live(files, w);
          assert InTail(Keep(log, erased), o, w);
        }
      }
    }
  }

  lemma {:induction false} HdrIn(log: Log, o: nat)
    ensures NewestHdr(log, o).Some? ==> NewestHdr(log, o).value in log
    decreases |log|
  {
    if log != [] { HdrIn(log[..|log| - 1], o); }
  }

  lemma {:induction false} TailIn(log: Log, o: nat, r: Rec)
    requires InTail(log, o, r)
    ensures r in log && r.tag.obj == o && r.tag.Data?
    decreases |log|
  {
    var q := log[|log| - 1];
    if !(q.tag.obj == o && q == r) { TailIn(log[..|log| - 1], o, r); }
  }
}
