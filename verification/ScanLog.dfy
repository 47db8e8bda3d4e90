/** The flash log of data and header chunks, and what the backward mount scan makes of it.

  A log lists the programmed chunks of the device in the order in which they were
  programmed (oldest first).  The mount scan reads it from the newest record to the
  oldest; `Step` is what it does with one record of a given object. */
module ScanLog {

  datatype Option<T> = None | Some(value: T)

  /** Data chunks of a file are counted from 1; chunk id 0 marks an object header. */
  type ChunkId = n: int | n > 0 witness 1

  type Pos = n: int | n > 0 witness 1

  /** Highest chunk id a tnode tree can hold: 4 + 8 * 3 bits. */
  const MAX_CHUNK_ID: nat := 0xfff_ffff

  /** What the tags of a programmed chunk say.  `gone` means that the header names the
    "deleted" or the "unlinked" directory as its parent. */
  datatype Tag =
    | Data(obj: nat, chunk: ChunkId, nBytes: nat)
    | Header(obj: nat, size: nat, shrink: bool, gone: bool)

  datatype Rec = Rec(addr: nat, tag: Tag)

  type Log = seq<Rec>

  /** File offset at which data chunk `c` (counted from 1) starts. */
  function Base(cs: Pos, c: ChunkId): int { (c - 1) * cs }

  function MaxSize(cs: Pos): nat { MAX_CHUNK_ID * cs }

  lemma {:induction false} MulGap(a: int, b: int, cs: Pos)
    requires a < b
    ensures a * cs + cs <= b * cs
    decreases b - a
  {
    if a + 1 == b {
      assert (a + 1) * cs == a * cs + cs;
    } else {
      MulGap(a, b - 1, cs);
      assert (b - 1) * cs == b * cs - cs;
    }
  }

  lemma BaseOrder(cs: Pos, c: ChunkId, d: ChunkId)
    ensures c < d ==> Base(cs, c) + cs <= Base(cs, d)
    ensures d < c ==> Base(cs, d) + cs <= Base(cs, c)
  {
    if c < d { MulGap(c - 1, d - 1, cs); }
    if d < c { MulGap(d - 1, c - 1, cs); }
  }

  lemma BaseBelowMax(cs: Pos, c: ChunkId)
    requires c <= MAX_CHUNK_ID
    ensures Base(cs, c) < MaxSize(cs)
  {
    BaseOrder(cs, c, MAX_CHUNK_ID + 1);
  }

  function Min(a: int, b: int): int { if a < b then a else b }

  function Max(a: int, b: int): int { if a < b then b else a }

  // ---------- the scan of one object ----------

  /** The object as the scan has built it so far. */
  datatype FileScan = FileScan(valid: bool, gone: bool, hdr: Option<nat>, shrink: int,
                               scanned: int, size: int, chunks: map<ChunkId, nat>)

  function FreshScan(cs: Pos): FileScan
  {
    FileScan(false, false, None, MaxSize(cs), 0, 0, map[])
  }

  /** One record of the object, as yaffs2_scan_chunk treats it. */
  function Step(cs: Pos, r: Rec, st: FileScan): FileScan
  {
    match r.tag
    case Data(_, c, n) =>
      if Base(cs, c) < st.shrink then
        var st1 := if c in st.chunks then st else st.(chunks := st.chunks[c := r.addr]);
        var endPos := Base(cs, c) + n;
        if !st1.valid && st1.scanned < endPos then st1.(scanned := endPos, size := endPos) else st1
      else
        st
    case Header(_, size, shrink, gone) =>
      if st.valid then
        var thisSize := if gone then 0 else size;
        if (shrink || gone) && st.shrink > thisSize then st.(shrink := thisSize) else st
      else
        var st1 := st.(valid := true, gone := gone, hdr := Some(r.addr));
        var st2 := if st1.scanned < size then st1.(scanned := size, size := size) else st1;
        if st2.shrink > size then st2.(shrink := size) else st2
  }

  /** The scan of object `o` over the whole log, from the newest record down. */
  function ScanObj(cs: Pos, log: Log, o: nat, st: FileScan): FileScan
  {
    if log == [] then st
    else
      var r := log[|log| - 1];
      ScanObj(cs, log[..|log| - 1], o, if r.tag.obj == o then Step(cs, r, st) else st)
  }

  /** The limit a header record leaves for older data, given the limit so far and
    whether a newer header was already seen. */
  function LimitAfter(t: Tag, limit: int, valid: bool): int
    requires t.Header?
  {
    if valid then
      if t.shrink || t.gone then Min(limit, if t.gone then 0 else t.size) else limit
    else
      Min(limit, t.size)
  }

  /** The record the scan picks for chunk `c` of object `o`: the newest one, unless a
    header between it and the end of the log cuts the file below it. */
  function Look(cs: Pos, log: Log, o: nat, c: ChunkId, limit: int, valid: bool): (res: Option<Rec>)
    ensures res.Some? ==> res.value in log && res.value.tag.Data? && res.value.tag.obj == o &&
                          res.value.tag.chunk == c && Base(cs, c) < limit
  {
    if log == [] then None
    else
      var r := log[|log| - 1];
      var rest := log[..|log| - 1];
      if r.tag.obj != o then Look(cs, rest, o, c, limit, valid)
      else if r.tag.Data? then
        if r.tag.chunk != c then Look(cs, rest, o, c, limit, valid)
        else if Base(cs, c) < limit then Some(r)
        else None
      else
        Look(cs, rest, o, c, LimitAfter(r.tag, limit, valid), true)
  }

  /** The size the scan finds: the newest header's, or more if newer data reaches further. */
  function SizeOf(cs: Pos, log: Log, o: nat, acc: int): int
  {
    if log == [] then acc
    else
      var r := log[|log| - 1];
      var rest := log[..|log| - 1];
      if r.tag.obj != o then SizeOf(cs, rest, o, acc)
      else if r.tag.Data? then SizeOf(cs, rest, o, Max(acc, Base(cs, r.tag.chunk) + r.tag.nBytes))
      else Max(acc, r.tag.size)
  }

  function NewestHdr(log: Log, o: nat): (r: Option<Rec>)
    ensures r.Some? ==> r.value.tag.Header? && r.value.tag.obj == o
  {
    if log == [] then None
    else
      var r := log[|log| - 1];
      if r.tag.obj == o && r.tag.Header? then Some(r) else NewestHdr(log[..|log| - 1], o)
  }

  function NewestRec(log: Log, o: nat): Option<Rec>
  {
    if log == [] then None
    else
      var r := log[|log| - 1];
      if r.tag.obj == o then Some(r) else NewestRec(log[..|log| - 1], o)
  }

  // ---------- what the scan computes ----------

  function AddrOf(r: Option<Rec>): Option<nat> { if r.None? then None else Some(r.value.addr) }

  function At(m: map<ChunkId, nat>, c: ChunkId): Option<nat> { if c in m then Some(m[c]) else None }

  /** Every chunk id on the log fits a tnode tree. */
  ghost predicate ChunksFit(log: Log)
  {
    forall i :: 0 <= i < |log| && log[i].tag.Data? ==> log[i].tag.chunk <= MAX_CHUNK_ID
  }

  /** The state-threading scan and the per-chunk reading of the log agree. */
  lemma {:induction false} ScanMeansLook(cs: Pos, log: Log, o: nat, st: FileScan, c: ChunkId)
    ensures var r := ScanObj(cs, log, o, st);
            At(r.chunks, c) == if c in st.chunks then At(st.chunks, c)
                               else AddrOf(Look(cs, log, o, c, st.shrink, st.valid))
    ensures var r := ScanObj(cs, log, o, st);
            && r.valid == (st.valid || NewestHdr(log, o).Some?)
            && (st.valid ==> r.gone == st.gone && r.hdr == st.hdr)
            && (!st.valid && NewestHdr(log, o).Some? ==>
                  r.gone == NewestHdr(log, o).value.tag.gone && r.hdr == Some(NewestHdr(log, o).value.addr))
    decreases |log|
  {
    if log != [] {
      var r := log[|log| - 1];
      var rest := log[..|log| - 1];
      var st' := if r.tag.obj == o then Step(cs, r, st) else st;
      ScanMeansLook(cs, rest, o, st', c);
      if r.tag.obj == o && r.tag.Data? && r.tag.chunk == c && c !in st.chunks && Base(cs, c) >= st.shrink {
        LookCut(cs, rest, o, c, st.shrink, st.valid);
      }
    }
  }

  lemma {:induction false} ScanMeansSize(cs: Pos, log: Log, o: nat, st: FileScan)
    requires ChunksFit(log)
    requires st.scanned == st.size && (!st.valid ==> st.shrink == MaxSize(cs))
    ensures ScanObj(cs, log, o, st).size == if st.valid then st.size else SizeOf(cs, log, o, st.size)
    decreases |log|
  {
    if log != [] {
      var r := log[|log| - 1];
      var rest := log[..|log| - 1];
      assert ChunksFit(rest);
      if r.tag.obj == o {
        if r.tag.Data? { BaseBelowMax(cs, r.tag.chunk); }
      }
      ScanMeansSize(cs, rest, o, if r.tag.obj == o then Step(cs, r, st) else st);
    }
  }

  // ---------- facts about the per-chunk reading ----------

  /** Data at or above the limit stays invisible. */
  lemma {:induction false} LookCut(cs: Pos, log: Log, o: nat, c: ChunkId, limit: int, valid: bool)
    requires Base(cs, c) >= limit
    ensures Look(cs, log, o, c, limit, valid) == None
    decreases |log|
  {
    if log != [] {
      var r := log[|log| - 1];
      var rest := log[..|log| - 1];
      if r.tag.obj == o && r.tag.Header? {
        LookCut(cs, rest, o, c, LimitAfter(r.tag, limit, valid), true);
      } else {
        LookCut(cs, rest, o, c, limit, valid);
      }
    }
  }

  /** Only whether the limit is above the chunk matters. */
  lemma {:induction false} LookLimit(cs: Pos, log: Log, o: nat, c: ChunkId, l1: int, l2: int, valid: bool)
    requires Base(cs, c) < l1 <==> Base(cs, c) < l2
    ensures Look(cs, log, o, c, l1, valid) == Look(cs, log, o, c, l2, valid)
    decreases |log|
  {
    if log != [] {
      var r := log[|log| - 1];
      var rest := log[..|log| - 1];
      if r.tag.obj == o && r.tag.Header? {
        LookLimit(cs, rest, o, c, LimitAfter(r.tag, l1, valid), LimitAfter(r.tag, l2, valid), true);
      } else {
        LookLimit(cs, rest, o, c, l1, l2, valid);
      }
    }
  }

  /** What the newest header does not cut, the shrink headers alone do not cut either,
    unless that header names a dead directory. */
  lemma {:induction false} LookMore(cs: Pos, log: Log, o: nat, c: ChunkId, limit: int)
    requires NewestHdr(log, o).Some? ==> !NewestHdr(log, o).value.tag.gone
    ensures Look(cs, log, o, c, limit, false).Some? ==>
              Look(cs, log, o, c, limit, true) == Look(cs, log, o, c, limit, false)
    decreases |log|
  {
    if log != [] {
      var r := log[|log| - 1];
      var rest := log[..|log| - 1];
      if r.tag.obj == o && r.tag.Header? {
        var l1, l2 := LimitAfter(r.tag, limit, false), LimitAfter(r.tag, limit, true);
        if Look(cs, rest, o, c, l1, true).Some? {
          LookLimit(cs, rest, o, c, l1, l2, true);
        }
      } else {
        LookMore(cs, rest, o, c, limit);
      }
    }
  }

  lemma {:induction false} SizeAcc(cs: Pos, log: Log, o: nat, acc: int)
    requires acc >= 0
    ensures SizeOf(cs, log, o, acc) == Max(acc, SizeOf(cs, log, o, 0))
    decreases |log|
  {
    if log != [] {
      var r := log[|log| - 1];
      var rest := log[..|log| - 1];
      if r.tag.obj != o {
        SizeAcc(cs, rest, o, acc);
      } else if r.tag.Data? {
        var e := Base(cs, r.tag.chunk) + r.tag.nBytes;
        SizeAcc(cs, rest, o, Max(acc, e));
        SizeAcc(cs, rest, o, Max(0, e));
      }
    }
  }
}
