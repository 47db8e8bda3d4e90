/** The calls that change files, as loops over chunk and header writes.

  Flash is nondeterministic: a program operation may fail and move on to another block.  The
  garbage collector may run at the start of any chunk or header write: it picks a block by the
  test the code makes, clears the block's shrink flag, and copies what is live there a few pages
  at a time, over any number of calls.  A block whose last live page goes is erased if it is not
  flagged, whoever took that page away. */
module FileSystem {
  import opened ScanLog
  import opened FileLog
  import opened RunLog
  import opened BlockLog
  import opened GcRule
  import opened Contents
  import C = ChunkView
  import S = ShortOpCache

  // ---------- moments ----------

  /** What is on flash, and what RAM held, at one moment of a run. */
  datatype Moment = Moment(blocks: seq<Block>, seqNumber: nat, pages: Pages, files: Files, synced: set<nat>, b: Busy)

  ghost predicate MomentOk(cs: Pos, cpb: Pos, m: Moment)
  {
    && BlocksOk(cpb, m.blocks, m.seqNumber) && Inv(cs, LogOf(cpb, m.blocks), m.files, m.synced, m.b)
    && Stored(cs, LogOf(cpb, m.blocks), m.files, m.pages, m.b)
  }

  ghost predicate AllOk(cs: Pos, cpb: Pos, ms: seq<Moment>)
  {
    forall i :: 0 <= i < |ms| ==> MomentOk(cs, cpb, ms[i])
  }

  /** At every moment from number `from` on a mount would restore the files of `s`. */
  ghost predicate Since(ms: seq<Moment>, from: nat, s: set<nat>)
  {
    forall i :: from <= i < |ms| ==> s <= ms[i].synced
  }

  lemma SinceMore(a: seq<Moment>, b: seq<Moment>, from: nat, s: set<nat>)
    requires a <= b && Since(a, from, s) && Since(b, |a|, s)
    ensures Since(b, from, s)
  {
    assert forall i :: 0 <= i < |a| ==> b[i] == a[i];
  }

  lemma SinceLess(ms: seq<Moment>, from: nat, s: set<nat>, s': set<nat>)
    requires Since(ms, from, s) && s' <= s
    ensures Since(ms, from, s')
  {}

  lemma SinceNone(ms: seq<Moment>, s: set<nat>)
    ensures Since(ms, |ms|, s)
  {}

  lemma AllOkMore(cs: Pos, cpb: Pos, ms: seq<Moment>, m: Moment)
    requires AllOk(cs, cpb, ms) && MomentOk(cs, cpb, m)
    ensures AllOk(cs, cpb, ms + [m])
  {}

  // ---------- comparing file tables ----------

  /** File sizes, chunk ids and directories, as opposed to where things live on flash. */
  ghost predicate SameFiles(a: Files, b: Files)
  {
    && a.Keys == b.Keys
    && forall o :: o in a ==> a[o].size == b[o].size && a[o].gone == b[o].gone && a[o].chunks.Keys == b[o].chunks.Keys
  }

  /** The same as far as files other than `o` are concerned. */
  ghost predicate OthersSame(a: Files, b: Files, o: nat)
  {
    && a.Keys == b.Keys && o in a
    && forall p :: p in a && p != o ==>
         a[p].size == b[p].size && a[p].gone == b[p].gone && a[p].chunks.Keys == b[p].chunks.Keys
  }

  lemma OthersIn(a: Files, b: Files, o: nat)
    requires OthersSame(a, b, o)
    ensures o in a && o in b
  {}

  lemma UnlinkSame(a: Files, b: Files, c: Files, d: Files, o: nat)
    requires SameFiles(a, b) && SameFiles(c, d) && o in b && o in c && c == b[o := b[o].(hdr := c[o].hdr, gone := true)]
    ensures OthersSame(a, d, o) && d[o].gone && d[o].size == a[o].size && d[o].chunks.Keys == a[o].chunks.Keys
  {}

  lemma OthersTrans(a: Files, b: Files, c: Files, o: nat)
    requires OthersSame(a, b, o) && OthersSame(b, c, o)
    ensures OthersSame(a, c, o)
  {}

  lemma OthersPut(a: Files, o: nat, f: File)
    requires o in a
    ensures OthersSame(a, a[o := f], o)
  {}

  lemma OthersOf(a: Files, b: Files, o: nat)
    requires SameFiles(a, b) && o in a
    ensures OthersSame(a, b, o) && o in b && b[o].size == a[o].size && b[o].gone == a[o].gone
    ensures b[o].chunks.Keys == a[o].chunks.Keys
  {}

  /** The chunks left after a cut at `s`, the one the cut falls into being written anew. */
  ghost predicate CutKeys(cs: Pos, a: File, b: File, s: nat) {
    forall c: ChunkId :: c in b.chunks <==> (c in a.chunks && Base(cs, c) < s) || (s % cs != 0 && c == s / cs + 1)
  }

  lemma CutKeysIs(cs: Pos, a: File, b: File, s: nat)
    requires forall c: ChunkId :: c in b.chunks <==>
               (c in a.chunks && Base(cs, c) < s) || (s % cs != 0 && c == s / cs + 1)
    ensures CutKeys(cs, a, b, s)
  {
    hide Base;
  }

  lemma CutKeysSame(cs: Pos, a: File, a': File, b: File, b': File, s: nat)
    requires a.chunks.Keys == a'.chunks.Keys && b.chunks.Keys == b'.chunks.Keys
    ensures CutKeys(cs, a', b, s) ==>
              forall c: ChunkId :: c in b'.chunks <==>
                (c in a.chunks && Base(cs, c) < s) || (s % cs != 0 && c == s / cs + 1)
  {
    hide Base;
    assert forall c :: (c in a.chunks <==> c in a.chunks.Keys) && (c in a'.chunks <==> c in a'.chunks.Keys);
    assert forall c :: (c in b.chunks <==> c in b.chunks.Keys) && (c in b'.chunks <==> c in b'.chunks.Keys);
  }

  /** No call is under way that would leave a copied header with a stale size. */
  predicate Steady(cs: Pos, b: Busy, files: Files) {
    b == Idle || (b.o in files && HeaderHarmless(cs, files[b.o], b.z, b.tidy, b.zs))
  }

  /** The file a call is working on has data beyond the size in RAM, which is the size a copy of
    its header would carry. */
  predicate Ahead(b: Busy, files: Files) {
    b.Busy? && b.o in files && files[b.o].size < b.zs
  }

  lemma SteadySame(cs: Pos, b: Busy, a: Files, c: Files)
    requires SameFiles(a, c)
    ensures Steady(cs, b, a) <==> Steady(cs, b, c)
    ensures Ahead(b, a) <==> Ahead(b, c)
    ensures b.Busy? && b.o in a ==> (HeaderTrue(a[b.o], b.z, b.tidy, b.zs) <==> HeaderTrue(c[b.o], b.z, b.tidy, b.zs))
  {
    if b.Busy? && b.o in a {
      assert forall d :: d in a[b.o].chunks <==> d in a[b.o].chunks.Keys;
      assert forall d :: d in c[b.o].chunks <==> d in c[b.o].chunks.Keys;
    }
  }

  function Held(b: Busy): set<nat> { if b.Busy? then {b.o} else {} }

  /** How garbage collection may change the set of files in step with the log: only the file a
    call is working on drops out, and only if its header is copied while data lies beyond the
    size in RAM. */
  ghost predicate GcKept(cs: Pos, ms: seq<Moment>, from: nat, before: set<nat>, after: set<nat>, stale0: nat,
                         stale: nat,
                         b: Busy, files: Files)
  {
    && before - Held(b) <= after && Since(ms, from, before - Held(b))
    && (Steady(cs, b, files) || (Ahead(b, files) && stale == stale0) ==> before <= after && Since(ms, from, before))
    && (b.Busy? && !b.tidy && b.o !in before ==> b.o !in after)
    && stale0 <= stale && (!Ahead(b, files) ==> stale == stale0)
  }

  lemma GcKeptNone(cs: Pos, ms: seq<Moment>, synced: set<nat>, stale: nat, b: Busy, files: Files)
    ensures GcKept(cs, ms, |ms|, synced, synced, stale, stale, b, files)
  {}

  lemma GcKeptTrans(cs: Pos, ms: seq<Moment>, ms': seq<Moment>, from: nat, before: set<nat>, mid: set<nat>,
                    after: set<nat>,
                    stale0: nat, stale1: nat, stale: nat, b: Busy, files: Files, files1: Files)
    requires GcKept(cs, ms, from, before, mid, stale0, stale1, b, files)
    requires GcKept(cs, ms', |ms|, mid, after, stale1, stale, b, files1)
    requires SameFiles(files, files1) && ms <= ms' && from <= |ms|
    ensures GcKept(cs, ms', from, before, after, stale0, stale, b, files)
  {
    SteadySame(cs, b, files, files1);
    SinceLess(ms', |ms|, mid - Held(b), before - Held(b));
    SinceMore(ms, ms', from, before - Held(b));
    if Steady(cs, b, files) || (Ahead(b, files) && stale == stale0) {
      SinceLess(ms', |ms|, mid, before);
      SinceMore(ms, ms', from, before);
    }
  }

  /** The set of files in step after a header copy. */
  lemma CopyKeeps(cs: Pos, synced: set<nat>, b: Busy, o: nat, files: Files)
    requires o in files && (b.Busy? ==> b.o in files)
    ensures var after := SyncedAfterCopy(cs, synced, b, o, files[o]);
            && synced - Held(b) <= after
            && (Steady(cs, b, files) || (b.Busy? ==> b.o != o) ==> synced <= after)
            && (b.Busy? && !b.tidy && b.o !in synced ==> b.o !in after)
  {
    hide MapBelow;
  }

  lemma SameRefl(a: Files)
    ensures SameFiles(a, a)
  {}

  lemma SameTrans(a: Files, b: Files, c: Files)
    requires SameFiles(a, b) && SameFiles(b, c)
    ensures SameFiles(a, c)
  {}

  lemma GcKeptMore(cs: Pos, ms: seq<Moment>, ms': seq<Moment>, from: nat, before: set<nat>, mid: set<nat>,
                   after: set<nat>,
                   stale0: nat, stale: nat, b: Busy, files: Files)
    requires GcKept(cs, ms, from, before, mid, stale0, stale, b, files)
    requires ms <= ms' && Since(ms', |ms|, mid) && mid <= after && from <= |ms|
    requires b.Busy? && !b.tidy && b.o !in mid ==> b.o !in after
    ensures GcKept(cs, ms', from, before, after, stale0, stale, b, files)
  {
    SinceLess(ms', |ms|, mid, before - Held(b));
    SinceMore(ms, ms', from, before - Held(b));
    if before <= mid && Since(ms, from, before) {
      SinceLess(ms', |ms|, mid, before);
      SinceMore(ms, ms', from, before);
    }
  }

  /** The block table only grew: the blocks there were are still there, and those that were not
    being written have the same pages. */
  predicate Grown(a: seq<Block>, open: bool, b: seq<Block>, open': bool) {
    && |a| <= |b|
    && (forall i :: 0 <= i < |a| ==> b[i].no == a[i].no)
    && (forall i :: 0 <= i < |a| && Closed(a, open, i) ==> b[i] == a[i])
    && (!open && |a| == |b| ==> !open')
  }

  lemma GrownSame(a: seq<Block>, open: bool)
    ensures Grown(a, open, a, open)
  {}

  lemma WithPageGrown(a: seq<Block>, p: Page, goesOn: bool)
    requires a != []
    ensures Grown(a, true, WithPage(a, p), goesOn)
  {}

  lemma GrownTrans(a: seq<Block>, open: bool, b: seq<Block>, open': bool, c: seq<Block>, open'': bool)
    requires Grown(a, open, b, open') && Grown(b, open', c, open'')
    ensures Grown(a, open, c, open'')
  {
    assert forall i :: 0 <= i < |a| && Closed(a, open, i) ==> Closed(b, open', i);
  }

  /** A chunk of file `q.tag.obj` moved to another page. */
  function Moved(files: Files, q: Rec, addr: nat): Files
    requires q.tag.Data? && q.tag.obj in files
  {
    files[q.tag.obj := files[q.tag.obj].(chunks := files[q.tag.obj].chunks[q.tag.chunk := addr])]
  }

  lemma MovedSame(files: Files, q: Rec, addr: nat, addr': nat)
    requires q.tag.Data? && Live(files, q)
    ensures SameFiles(files, Moved(files, q, addr))
    ensures Live(Moved(files, q, addr), Rec(addr, q.tag))
    ensures Moved(Moved(files, q, addr), q, addr') == Moved(files, q, addr')
  {
    var f := files[q.tag.obj];
    assert f.chunks[q.tag.chunk := addr].Keys == f.chunks.Keys;
    assert f.chunks[q.tag.chunk := addr][q.tag.chunk := addr'] == f.chunks[q.tag.chunk := addr'];
  }

  /** The page a chunk was copied from is not live any more. */
  lemma MovedAway(files: Files, q: Rec, addr: nat)
    requires q.tag.Data? && Live(files, q) && addr != q.addr
    ensures !Live(Moved(files, q, addr), q)
  {}

  lemma HeaderAway(files: Files, q: Rec, files': Files)
    requires q.tag.Header? && q.tag.obj in files' && files'[q.tag.obj].hdr != q.addr
    ensures !Live(files', q)
  {}

  lemma CopyTwice(cs: Pos, synced: set<nat>, b: Busy, o: nat, f: File, hdr: nat)
    ensures SyncedAfterCopy(cs, SyncedAfterCopy(cs, synced, b, o, f), b, o, f.(hdr := hdr)) == SyncedAfterCopy(cs,
                synced, b, o, f)
  {}

  function HighestNo(blocks: seq<Block>): (n: nat)
    ensures forall i :: 0 <= i < |blocks| ==> blocks[i].no <= n
  {
    if blocks == [] then 0
    else
      var h := HighestNo(blocks[..|blocks| - 1]);
      assert forall i :: 0 <= i < |blocks| - 1 ==> blocks[i] == blocks[..|blocks| - 1][i];
      Max(h, blocks[|blocks| - 1].no)
  }

  lemma MappedBelow(cs: Pos, log: Log, files: Files, synced: set<nat>, o: nat)
    requires Inv(cs, log, files, synced, Idle) && o in files
    ensures MapBelow(cs, files[o])
  {
    assert FileInv(cs, log, o, files[o], ClaimOf(Idle, synced, o, files[o]));
  }

  /** Integer quotient, with the bounds that characterise it. */
  function Quot(a: nat, cs: Pos): (q: nat)
    ensures q * cs <= a < q * cs + cs
  {
    assert a == (a / cs) * cs + a % cs;
    a / cs
  }

  /** The chunk numbers yaffs_prune_chunks visits are those of the map at or above the cut. */
  lemma PrunedChunks(cs: Pos, size: nat, s: nat, c: ChunkId)
    requires s <= size
    ensures c < Quot(s + cs - 1, cs) + 1 <==> Base(cs, c) < s
    ensures Base(cs, c) < size ==> c <= if size > 0 then Quot(size - 1, cs) + 1 else 1
  {
    var startDel: ChunkId := Quot(s + cs - 1, cs) + 1;
    BaseOrder(cs, c, startDel);
    if size > 0 {
      BaseOrder(cs, Quot(size - 1, cs) + 1, c);
    } else {
      MulGapZero(cs);
    }
  }

  /** The range lies inside one chunk. */
  ghost predicate OneChunk(cs: Pos, offset: nat, n: nat) {
    exists c: ChunkId :: Base(cs, c) <= offset && offset + n <= Base(cs, c) + cs
  }

  /** File offset of the chunk that holds the byte before `e`. */
  function LastStart(cs: Pos, e: nat): nat
    requires e > 0
  {
    Quot(e - 1, cs) * cs
  }

  /** A write of `n` bytes at `offset` to a file of `size` bytes leaves it in step whatever the
    garbage collector does in between: it lies in one chunk, or its last chunk starts less than
    a chunk beyond the end of the file. */
  ghost predicate InStep(cs: Pos, offset: nat, n: nat, size: nat) {
    if n == 0 then offset <= size else OneChunk(cs, offset, n) || LastStart(cs, offset + n) < size + cs
  }

  lemma LastPiece(cs: Pos, pos: nat, left: nat, chunk: ChunkId)
    requires left > 0 && Base(cs, chunk) <= pos && pos + left <= Base(cs, chunk) + cs
    ensures LastStart(cs, pos + left) == Base(cs, chunk)
  {
    var q := Quot(pos + left - 1, cs);
    BaseOrder(cs, q + 1, chunk);
    assert Base(cs, q + 1) == q * cs;
  }

  /** How far a write of `n` bytes has come: it is near before its last piece if that starts less
    than a chunk beyond the end of the file, and in step after it. */
  ghost predicate Approach(cs: Pos, offset: nat, n: nat, size: nat, nDone: nat, near0: bool, near: bool, inStep: bool)
  {
    && (near0 && (nDone == 0 || (nDone < n && offset + nDone < size + cs)) ==> near)
    && (near0 && nDone == n && n > 0 && LastStart(cs, offset + n) < size + cs && offset + n >= size ==> inStep)
    && (0 < nDone < n ==> exists d: ChunkId :: offset + nDone == Base(cs, d))
  }

  lemma ApproachMore(cs: Pos, offset: nat, n: nat, size: nat, nDone: nat, nCopy: nat, chunk: ChunkId,
                     near0: bool, near: bool, inStep: bool, inStep': bool)
    requires Approach(cs, offset, n, size, nDone, near0, near, inStep) && 0 < nCopy && nDone + nCopy <= n
    requires Base(cs, chunk) <= offset + nDone && offset + nDone + nCopy <= Base(cs, chunk) + cs
    requires nDone + nCopy < n ==> offset + nDone + nCopy == Base(cs, chunk) + cs
    requires near && offset + nDone + nCopy >= size ==> inStep'
    ensures Approach(cs, offset, n, size, nDone + nCopy, near0, near && Base(cs, chunk) < size, inStep')
  {
    if nDone > 0 {
      var d: ChunkId :| offset + nDone == Base(cs, d);
      BaseOrder(cs, d, chunk);
    }
    if nDone + nCopy == n {
      LastPiece(cs, offset + nDone, nCopy, chunk);
    } else {
      assert offset + nDone + nCopy == Base(cs, chunk + 1);
    }
  }

  lemma ApproachEnds(cs: Pos, offset: nat, n: nat, size: nat, nDone: nat, near0: bool, near: bool, inStep: bool)
    requires Approach(cs, offset, n, size, nDone, near0, near, inStep)
    ensures near0 && nDone == n && n > 0 && InStep(cs, offset, n, size) ==>
              inStep || OneChunk(cs, offset, n) || offset + n <= size
  {}

  lemma ShortInStep(cs: Pos, offset: nat, n: nat)
    requires 0 < n <= cs
    ensures InStep(cs, offset, n, offset)
  {}

  lemma PieceFits(cs: Pos, pos: nat, chunk: ChunkId)
    requires pos < MaxSize(cs) && Base(cs, chunk) <= pos
    ensures chunk <= MAX_CHUNK_ID
  {
    assert Base(cs, MAX_CHUNK_ID + 1) == MaxSize(cs);
    BaseOrder(cs, chunk, MAX_CHUNK_ID + 1);
  }

  lemma MapBelowWith(cs: Pos, a: File, b: File, c: ChunkId)
    requires MapBelow(cs, a) && a.size == b.size && b.chunks.Keys == a.chunks.Keys + {c} && Base(cs, c) < a.size
    ensures MapBelow(cs, b)
  {
    assert forall d :: d in a.chunks <==> d in a.chunks.Keys;
    assert forall d :: d in b.chunks <==> d in b.chunks.Keys;
  }

  lemma MapBelowKeys(cs: Pos, a: File, b: File)
    requires a.size == b.size && a.chunks.Keys == b.chunks.Keys
    ensures MapBelow(cs, a) <==> MapBelow(cs, b)
  {
    assert forall c :: c in a.chunks <==> c in a.chunks.Keys;
    assert forall c :: c in b.chunks <==> c in b.chunks.Keys;
  }

  /** The chunks that `nDone` bytes from `offset` on fall into. */
  predicate Touched(cs: Pos, offset: nat, nDone: nat, c: ChunkId) {
    offset < Base(cs, c) + cs && Base(cs, c) < offset + nDone && nDone > 0
  }

  /** The map after a write of `nDone` bytes: the chunks there were and those the bytes fall into. */
  ghost predicate Written(cs: Pos, was: set<ChunkId>, now: set<ChunkId>, offset: nat, nDone: nat) {
    forall c: ChunkId :: c in now <==> c in was || Touched(cs, offset, nDone, c)
  }

  lemma WrittenMore(cs: Pos, was: set<ChunkId>, mid: set<ChunkId>, now: set<ChunkId>, offset: nat, nDone: nat,
                    nCopy: nat, chunk: ChunkId)
    requires Written(cs, was, mid, offset, nDone) && now == mid + {chunk} && nCopy > 0
    requires forall d: ChunkId :: d == chunk <==>
               offset + nDone < Base(cs, d) + cs && Base(cs, d) < offset + nDone + nCopy
    ensures Written(cs, was, now, offset, nDone + nCopy)
  {
    hide Base;
    forall c: ChunkId ensures c in now <==> c in was || Touched(cs, offset, nDone + nCopy, c) {
      GrowRange(cs, offset, nDone, nCopy, chunk, c);
    }
  }

  lemma GrowRange(cs: Pos, offset: nat, nDone: nat, nCopy: nat, chunk: ChunkId, c: ChunkId)
    requires nCopy > 0
    requires forall d: ChunkId :: d == chunk <==>
               offset + nDone < Base(cs, d) + cs && Base(cs, d) < offset + nDone + nCopy
    ensures offset < Base(cs, c) + cs && Base(cs, c) < offset + nDone + nCopy <==>
            c == chunk || (offset < Base(cs, c) + cs && Base(cs, c) < offset + nDone && nDone > 0)
  {
    hide Base;
    BaseOrder(cs, c, chunk);
  }

  /** The course of a write of `n` bytes at `offset` to a file that was `f0`: `nDone` bytes are
    done, the file is `f`, and its data reaches to `zs`. */
  ghost predicate Course(cs: Pos, f0: File, f: File, offset: nat, n: nat, nDone: nat, zs: int,
                         near0: bool, near: bool, inStep: bool, stale0: nat, stale: nat)
  {
    && nDone <= n && f.size == f0.size && f.gone == f0.gone
    && zs == (if nDone == 0 then f.size else Max(f.size, offset + nDone))
    && Written(cs, f0.chunks.Keys, f.chunks.Keys, offset, nDone)
    && (MapBelow(cs, f0) && zs == f.size ==> MapBelow(cs, f))
    && (OneChunk(cs, offset, n) ==> stale == stale0 && (nDone == 0 || nDone == n))
    && (offset + n <= f.size ==> stale == stale0)
    && Approach(cs, offset, n, f.size, nDone, near0, near, inStep)
  }

  lemma CourseStarts(cs: Pos, f: File, offset: nat, n: nat, near0: bool, inStep: bool, stale: nat)
    ensures Course(cs, f, f, offset, n, 0, f.size, near0, near0, inStep, stale, stale)
  {}

  lemma CourseMore(cs: Pos, f0: File, f: File, f': File, offset: nat, n: nat, nDone: nat, nCopy: nat, chunk: ChunkId,
                   zs: int,
                   near0: bool, near: bool, inStep: bool, inStep': bool, stale0: nat, stale: nat, stale': nat)
    requires Course(cs, f0, f, offset, n, nDone, zs, near0, near, inStep, stale0, stale)
    requires f'.size == f.size && f'.gone == f.gone && f'.chunks.Keys == f.chunks.Keys + {chunk}
    requires 0 < nCopy && nDone + nCopy <= n
    requires Base(cs, chunk) <= offset + nDone && offset + nDone + nCopy <= Base(cs, chunk) + cs
    requires nDone + nCopy < n ==> offset + nDone + nCopy == Base(cs, chunk) + cs
    requires forall d: ChunkId :: d == chunk <==>
               offset + nDone < Base(cs, d) + cs && Base(cs, d) < offset + nDone + nCopy
    requires OneChunk(cs, offset + nDone, n - nDone) ==> nDone + nCopy == n
    requires near && offset + nDone + nCopy >= f.size ==> inStep'
    requires zs == f.size ==> stale' == stale
    ensures Course(cs, f0, f', offset, n, nDone + nCopy, Max(f.size, offset + nDone + nCopy),
                   near0, near && Base(cs, chunk) < f.size, inStep', stale0, stale')
  {
    hide Written, Approach, MapBelow, Base;
    WrittenMore(cs, f0.chunks.Keys, f.chunks.Keys, f'.chunks.Keys, offset, nDone, nCopy, chunk);
    ApproachMore(cs, offset, n, f.size, nDone, nCopy, chunk, near0, near, inStep, inStep');
    if MapBelow(cs, f0) && Max(f.size, offset + nDone + nCopy) == f.size { MapBelowWith(cs, f, f', chunk); }
  }

  lemma CourseNow(cs: Pos, f0: File, f: File, offset: nat, n: nat, nDone: nat, zs: int,
                  near0: bool, near: bool, inStep: bool, stale0: nat, stale: nat)
    requires Course(cs, f0, f, offset, n, nDone, zs, near0, near, inStep, stale0, stale)
    ensures f.size <= zs <= Max(f.size, offset + nDone)
    ensures MapBelow(cs, f0) && zs == f.size ==> MapBelow(cs, f)
  {
    hide Written, MapBelow, Base;
  }

  lemma CourseFails(cs: Pos, f0: File, f: File, f': File, offset: nat, n: nat, nDone: nat, zs: int,
                    near0: bool, near: bool, inStep: bool, inStep': bool, stale0: nat, stale: nat, stale': nat)
    requires Course(cs, f0, f, offset, n, nDone, zs, near0, near, inStep, stale0, stale) && nDone < n
    requires f'.size == f.size && f'.gone == f.gone && f'.chunks.Keys == f.chunks.Keys
    requires zs == f.size ==> stale' == stale
    ensures Course(cs, f0, f', offset, n, nDone, zs, near0, near, inStep', stale0, stale')
  {
    hide Written, MapBelow, Base;
    if MapBelow(cs, f0) && zs == f.size { MapBelowKeys(cs, f, f'); }
  }

  /** The loop of yaffs_prune_chunks: deletes from the last chunk of the file down to the
    first one at or above the cut. */
  method DeleteChunks(cs: Pos, f: File, s: nat) returns (chunks: map<ChunkId, nat>)
    requires s <= f.size && MapBelow(cs, f)
    ensures chunks == CutAt(cs, f.chunks, s)
  {
    hide Base;
    var lastDel: ChunkId := if f.size > 0 then Quot(f.size - 1, cs) + 1 else 1;
    var startDel: ChunkId := Quot(s + cs - 1, cs) + 1;
    chunks := f.chunks;
    var i: int := lastDel;
    while i >= startDel
      invariant forall c :: c in chunks <==> c in f.chunks && !(i < c <= lastDel)
      invariant forall c :: c in chunks ==> chunks[c] == f.chunks[c]
      invariant i == lastDel || i >= startDel - 1
    {
      chunks := chunks - {i};
      i := i - 1;
    }
    forall c: ChunkId ensures c in chunks <==> c in f.chunks && Base(cs, c) < s {
      PrunedChunks(cs, f.size, s, c);
    }
  }

  /** One turn of the write loop at offset `pos` with `left` bytes to go: the chunk it
    touches, how far it gets and how much of the chunk is written to flash. */
  method NextPiece(cs: Pos, pos: nat, left: nat, fileSize: nat) returns (chunk: ChunkId, nCopy: nat, nWriteback: nat)
    requires left > 0
    ensures Base(cs, chunk) <= pos < Base(cs, chunk) + cs
    ensures nCopy == Min(left, Base(cs, chunk) + cs - pos) && 0 < nWriteback <= cs
    ensures Base(cs, chunk) + nWriteback ==
              if nCopy < left || pos + nCopy == Base(cs, chunk) + cs then Base(cs, chunk) + cs
              else Max(pos + nCopy, Min(fileSize, Base(cs, chunk) + cs))
    ensures forall d: ChunkId :: d == chunk <==> pos < Base(cs, d) + cs && Base(cs, d) < pos + nCopy
  {
    chunk := Quot(pos, cs) + 1;
    var chunkStart := Quot(pos, cs) * cs;
    var start := pos - chunkStart;
    if start + left < cs {
      nCopy := left;
      var nBytesRead := if chunkStart > fileSize then 0 else fileSize - chunkStart;
      if nBytesRead > cs { nBytesRead := cs; }
      nWriteback := if nBytesRead > start + left then nBytesRead else start + left;
    } else {
      nCopy := cs - start;
      nWriteback := cs;
    }
    forall d: ChunkId ensures d == chunk <==> pos < Base(cs, d) + cs && Base(cs, d) < pos + nCopy {
      BaseOrder(cs, d, chunk);
    }
  }

  /** A write that has reached offset `b.z` and data up to `b.zs` may write chunk `c` next, and
    then has reached `z'` and `zs'`. */
  ghost predicate PieceOk(cs: Pos, b: Busy, c: ChunkId, nBytes: nat, z': int, zs': int)
    requires b.Busy?
  {
    && c <= MAX_CHUNK_ID && 0 < nBytes <= cs
    && b.z <= z' <= MaxSize(cs) && Base(cs, c) < z' && Base(cs, c) + nBytes <= z'
    && (forall d: ChunkId :: b.z <= Base(cs, d) < z' ==> d == c)
    && b.zs <= zs' <= z' && Base(cs, c) + nBytes <= zs' && (b.zs < zs' ==> Base(cs, c) + nBytes == zs')
    && (b.zs == zs' && Base(cs, c) < zs' ==> Base(cs, c) + nBytes >= Min(zs', Base(cs, c) + cs))
  }

  lemma PieceAgain(cs: Pos, b: Busy, f: File, c: ChunkId, nBytes: nat, z': int, zs': int)
    requires b.Busy? && PieceOk(cs, b, c, nBytes, z', zs')
    ensures PieceOk(cs, BusyAfter(cs, b, f, c, z', zs'), c, nBytes, z', zs')
  {}

  lemma OthersRefl(a: Files, o: nat)
    requires o in a
    ensures OthersSame(a, a, o)
  {}

  /** Between calls collection takes no file out of step. */
  lemma GcIdle(cs: Pos, ms: seq<Moment>, from: nat, before: set<nat>, after: set<nat>, stale0: nat, stale: nat,
               files: Files, o: nat)
    requires exists files0 :: GcKept(cs, ms, from, before, after, stale0, stale, Idle, files0)
    ensures before <= after && Since(ms, from, before) && Since(ms, from, before - {o})
  {
    SinceLess(ms, from, before - Held(Idle), before);
    SinceLess(ms, from, before, before - {o});
  }

  /** What a write to `o` has kept so far. */
  ghost predicate SoFar(ms: seq<Moment>, from: nat, s0: set<nat>, now: set<nat>, stale0: nat, stale: nat, o: nat,
                        below: bool)
  {
    && s0 - {o} <= now && Since(ms, from, s0 - {o}) && stale0 <= stale
    && (below && stale == stale0 ==> s0 <= now && Since(ms, from, s0))
  }

  lemma SoFarNone(ms: seq<Moment>, s0: set<nat>, stale0: nat, o: nat, below: bool)
    ensures SoFar(ms, |ms|, s0, s0, stale0, stale0, o, below)
  {}

  lemma SoFarMeans(ms: seq<Moment>, from: nat, s0: set<nat>, now: set<nat>, stale0: nat, stale: nat, o: nat,
                   below: bool)
    requires SoFar(ms, from, s0, now, stale0, stale, o, below)
    ensures s0 - {o} <= now && Since(ms, from, s0 - {o}) && stale0 <= stale
    ensures below && stale == stale0 ==> s0 <= now && Since(ms, from, s0)
  {}

  /** One piece of a write keeps what the pieces before it kept. */
  lemma PieceKept(cs: Pos, ms: seq<Moment>, ms': seq<Moment>, from: nat, s0: set<nat>, mid: set<nat>, after: set<nat>,
                  stale0: nat, stale1: nat, stale: nat, b: Busy, files: Files, below: bool)
    requires GcKept(cs, ms', |ms|, mid, after, stale1, stale, b, files) && ms <= ms' && from <= |ms|
    requires b.Busy? && b.o in files && b.tidy && SoFar(ms, from, s0, mid, stale0, stale1, b.o, below)
    requires files[b.o].size <= b.zs <= b.z && (below && b.zs == files[b.o].size ==> MapBelow(cs, files[b.o]))
    ensures SoFar(ms', from, s0, after, stale0, stale, b.o, below)
    ensures b.zs == files[b.o].size ==> stale == stale1
  {
    hide MapBelow;
    SinceLess(ms', |ms|, mid - Held(b), s0 - {b.o});
    SinceMore(ms, ms', from, s0 - {b.o});
    if below && stale == stale0 {
      SinceLess(ms', |ms|, mid, s0);
      SinceMore(ms, ms', from, s0);
    }
  }

  // ---------- contents ----------

  /** A file filled with zeros from its old size up to its size. */
  ghost predicate Filled(cs: Pos, m: C.Mem, m': C.Mem, a: Files, b: Files, o: nat)
    requires o in a && o in b
  {
    && a[o].size <= b[o].size && C.Edited(cs, m, m', o, a[o].size, C.Zeros(b[o].size - a[o].size))
    && Written(cs, a[o].chunks.Keys, b[o].chunks.Keys, a[o].size, b[o].size - a[o].size)
  }

  lemma FilledNone(cs: Pos, m: C.Mem, a: Files, o: nat)
    requires o in a
    ensures Filled(cs, m, m, a, a, o)
  {
    S.EditedNone(cs, m, o, a[o].size);
  }

  lemma FilledMore(cs: Pos, m: C.Mem, m1: C.Mem, m2: C.Mem, a: Files, f1: Files, b: Files, o: nat, bytes: seq<Byte>)
    requires o in a && o in f1 && o in b && Filled(cs, m, m1, a, f1, o) && bytes == C.Zeros(|bytes|)
    requires b[o].size == f1[o].size + |bytes| && C.Edited(cs, m1, m2, o, f1[o].size, bytes)
    requires Written(cs, f1[o].chunks.Keys, b[o].chunks.Keys, f1[o].size, |bytes|)
    ensures Filled(cs, m, m2, a, b, o)
  {
    hide C.Edited, Base;
    var was := C.Zeros(f1[o].size - a[o].size);
    C.EditedTwice(cs, m, m1, m2, o, a[o].size, was, bytes);
    assert was + bytes == C.Zeros(b[o].size - a[o].size);
    forall c: ChunkId
      ensures c in b[o].chunks.Keys <==>
              c in a[o].chunks.Keys || Touched(cs, a[o].size, b[o].size - a[o].size, c)
    {
      assert Touched(cs, a[o].size, b[o].size - a[o].size, c) <==>
             Touched(cs, a[o].size, f1[o].size - a[o].size, c) || Touched(cs, f1[o].size, |bytes|, c);
    }
  }

  lemma FilledGrew(cs: Pos, m: C.Mem, m': C.Mem, a: Files, b: Files, o: nat, newSize: nat)
    requires o in a && o in b && Filled(cs, m, m', a, b, o) && b[o].size == newSize
    ensures Grew(cs, m, m', o, a[o].size, newSize, [])
    ensures Widened(cs, a[o].chunks.Keys, b[o].chunks.Keys, a[o].size, newSize, 0, 0)
  {
    hide C.Edited, Grew, Base;
    GrewZeros(cs, m, m', o, a[o].size, newSize, newSize - a[o].size);
  }

  /** The chunks of a file that has been written: those there were, those the bytes fall into, and
    possibly some of the gap from `from` to `to`. */
  ghost predicate Widened(cs: Pos, was: set<ChunkId>, now: set<ChunkId>, from: nat, to: nat, offset: nat, nDone: nat)
  {
    forall c: ChunkId ::
      && (c in was || Touched(cs, offset, nDone, c) ==> c in now)
      && (c in now ==> c in was || Touched(cs, offset, nDone, c) || (from < to && Touched(cs, from, to - from, c)))
  }

  lemma WidenedNone(cs: Pos, was: set<ChunkId>, from: nat, to: nat)
    ensures Widened(cs, was, was, from, to, 0, 0)
  {}

  lemma WidenedWrite(cs: Pos, was: set<ChunkId>, mid: set<ChunkId>, now: set<ChunkId>, from: nat, offset: nat,
                     nDone: nat)
    requires Widened(cs, was, mid, from, offset, 0, 0) && Written(cs, mid, now, offset, nDone)
    ensures Widened(cs, was, now, from, offset, offset, nDone)
  {
    hide Base;
  }

  /** A gap filled in part and cut off again: the last chunk of the file has been written anew. */
  lemma HoleUndone(cs: Pos, m: C.Mem, m1: C.Mem, m2: C.Mem, a: Files, f1: Files, b: Files, o: nat, newSize: nat)
    requires o in a && o in f1 && o in b && Filled(cs, m, m1, a, f1, o) && f1[o].size <= newSize
    requires a[o].size < newSize && MapBelow(cs, a[o]) && C.ClearedFrom(cs, m1, m2, o, a[o].size)
    requires forall c: ChunkId :: c in b[o].chunks <==>
               (c in f1[o].chunks && Base(cs, c) < a[o].size) ||
               (a[o].size % cs != 0 && c == a[o].size / cs + 1)
    ensures Grew(cs, m, m2, o, a[o].size, newSize, [])
    ensures Widened(cs, a[o].chunks.Keys, b[o].chunks.Keys, a[o].size, newSize, 0, 0)
  {
    var size := a[o].size;
    GrewCut(cs, m, m1, m2, o, size, newSize, f1[o].size - size);
    hide C.Edited, C.ClearedFrom, Grew, Base;
    PartOf(cs, size, size / cs + 1);
    forall c: ChunkId
      ensures c in a[o].chunks.Keys ==> c in b[o].chunks.Keys
      ensures c in b[o].chunks.Keys ==> c in a[o].chunks.Keys || Touched(cs, size, newSize - size, c)
    {
      assert (c in a[o].chunks <==> c in a[o].chunks.Keys) && (c in f1[o].chunks <==> c in f1[o].chunks.Keys);
      assert c in b[o].chunks <==> c in b[o].chunks.Keys;
    }
  }

  /** The chunks left by a cut begin below it. */
  lemma CutKeysAre(cs: Pos, a: File, b: File, s: nat)
    requires b == a.(chunks := CutAt(cs, a.chunks, s))
    ensures forall c: ChunkId :: c in b.chunks.Keys <==> c in a.chunks && Base(cs, c) < s
  {}

  lemma PartSize(cs: Pos, size: nat)
    ensures size == (size / cs) * cs + size % cs && Base(cs, size / cs + 1) + size % cs == size
  {}

  lemma PartOf(cs: Pos, size: nat, c: ChunkId)
    requires c == size / cs + 1
    ensures Base(cs, c) <= size < Base(cs, c) + cs
  {
    assert size == (size / cs) * cs + size % cs;
  }

  /** The contents after a cut at `newSize`. */
  lemma CutStored(cs: Pos, m: C.Mem, log: Log, files: Files, pages: Pages, b: Busy, o: nat, newSize: nat)
    requires Stored(cs, log, files, pages, b) && o in files && b.Busy? && b.o == o
    requires C.ClearedFrom(cs, m, C.Mem([], ChunksOf(files, pages)), o, newSize)
    ensures var files' := files[o := files[o].(size := newSize)];
            Stored(cs, log, files', pages, Idle) && ChunksOf(files', pages) == ChunksOf(files, pages)
  {
    var files' := files[o := files[o].(size := newSize)];
    SameChunks(files, pages, o, files'[o]);
    hide C.ByteAt, ChunksOf, Backed;
    var m' := C.Mem([], ChunksOf(files, pages));
    forall p | p in files' && !files'[p].gone
      ensures C.ZeroPast(cs, m', p, Until(Idle, p, files'[p]))
    {
      assert C.ZeroPast(cs, m', p, Until(b, p, files[p]));
    }
  }

  /** The files as byte arrays after a write to `o`. */
  lemma WroteTexts(cs: Pos, m: C.Mem, m': C.Mem, a: Files, b: Files, o: nat, offset: nat, bytes: seq<Byte>)
    requires OthersSame(a, b, o) && o in b && Grew(cs, m, m', o, a[o].size, offset, bytes)
    requires b[o].size == Max(a[o].size, offset + |bytes|)
    ensures C.ZeroPast(cs, m, o, a[o].size) ==>
              S.TextOf(cs, m', o, b[o].size) == S.PlainWrite(S.TextOf(cs, m, o, a[o].size), offset, bytes) &&
              C.ZeroPast(cs, m', o, b[o].size)
    ensures forall p: nat :: p != o ==> S.TextOf(cs, m', p, SizeIn(b, p)) == S.TextOf(cs, m, p, SizeIn(a, p))
  {
    hide C.ByteAt, C.ZeroPast;
    if C.ZeroPast(cs, m, o, a[o].size) { TextGrew(cs, m, m', o, a[o].size, offset, bytes); }
    TextsOf(cs, m, m', a, b, o);
  }

  /** The files as byte arrays after a change of the size of `o`. */
  lemma ResizedTexts(cs: Pos, m: C.Mem, m': C.Mem, a: Files, b: Files, o: nat, newSize: nat)
    requires OthersSame(a, b, o) && o in b && b[o].size == newSize
    requires if newSize < a[o].size then C.ClearedFrom(cs, m, m', o, newSize)
             else Grew(cs, m, m', o, a[o].size, newSize, [])
    ensures C.ZeroPast(cs, m, o, a[o].size) ==>
              S.TextOf(cs, m', o, newSize) == S.PlainResize(S.TextOf(cs, m, o, a[o].size), newSize) &&
              C.ZeroPast(cs, m', o, newSize)
    ensures forall p: nat :: p != o ==> S.TextOf(cs, m', p, SizeIn(b, p)) == S.TextOf(cs, m, p, SizeIn(a, p))
  {
    hide C.ByteAt, C.ZeroPast;
    if newSize < a[o].size {
      TextCutShort(cs, m, m', o, a[o].size, newSize);
    } else if C.ZeroPast(cs, m, o, a[o].size) {
      TextResized(cs, m, m', o, a[o].size, newSize);
    }
    TextsOf(cs, m, m', a, b, o);
  }

  class Fs {
    const cs: Pos
    const cpb: Pos
    /** The blocks in use, oldest first; the newest one takes pages while `open`. */
    var blocks: seq<Block>
    var open: bool
    var seqNumber: nat
    /** What the data areas of the pages hold. */
    var pages: Pages
    /** Numbers of the blocks flagged has_shrink_hdr. */
    var hasShrink: set<nat>
    /** gc_dirtiest: the candidate for the next collection, if any. */
    var dirtiest: Option<nat>
    /** gc_block: the block under collection, if any. */
    var gcBlock: Option<nat>
    var files: Files
    /** Files whose state a mount would rebuild exactly if power failed now. */
    ghost var synced: set<nat>
    /** How many chunk and header writes could not be given a page. */
    ghost var refused: nat
    /** How many header copies carried a size below data the call under way had written. */
    ghost var stale: nat
    /** Every moment so far at which power could have failed: one for each page and each erasure. */
    ghost var moments: seq<Moment>

    ghost function TheLog(): Log
      reads this
    {
      LogOf(cpb, blocks)
    }

    ghost function Now(b: Busy): Moment
      reads this
    {
      Moment(blocks, seqNumber, pages, files, synced, b)
    }

    /** Every chunk of every file with its contents. */
    ghost function Flash(): C.Flash
      reads this
    {
      ChunksOf(files, pages)
    }

    ghost function M(): C.Mem
      reads this
    {
      C.Mem([], Flash())
    }

    /** The file as a byte array. */
    ghost function Text(o: nat): seq<Byte>
      reads this
    {
      S.TextOf(cs, M(), o, SizeIn(files, o))
    }

    ghost predicate TableOk()
      reads this
    {
      BlocksOk(cpb, blocks, seqNumber) && RamOk(cs, cpb, blocks, open, hasShrink, dirtiest)
    }

    ghost predicate Mid(b: Busy)
      reads this
    {
      && TableOk()
      && Inv(cs, TheLog(), files, synced, b)
      && Stored(cs, TheLog(), files, pages, b)
      && AllOk(cs, cpb, moments)
    }

    /** Between calls. */
    ghost predicate Valid()
      reads this
    {
      Mid(Idle)
    }

    /** A formatted device. */
    constructor (cs: Pos, cpb: Pos)
      ensures Valid() && files == map[] && this.cs == cs && this.cpb == cpb
    {
      this.cs, this.cpb := cs, cpb;
      blocks, open, seqNumber, pages, files := [], false, LOWEST_SEQUENCE_NUMBER, map[], map[];
      hasShrink, dirtiest, gcBlock := {}, None, None;
      synced, refused, stale, moments := {}, 0, 0, [];
    }

    /** A device as a mount finds it: the blocks on flash, the flags of the shrink headers met on
      the way, and the table the scan has built.  The rest of the newest block is skipped. */
    constructor Mount(cs: Pos, cpb: Pos, blocks: seq<Block>, seqNumber: nat, pages: Pages, files: Files,
                      ghost synced: set<nat>)
      requires BlocksOk(cpb, blocks, seqNumber)
      ensures this.cs == cs && this.cpb == cpb && this.blocks == blocks && this.seqNumber == seqNumber
      ensures this.files == files && this.pages == pages && this.synced == synced && moments == []
      ensures Inv(cs, LogOf(cpb, blocks), files, synced, Idle) && Stored(cs, LogOf(cpb, blocks), files, pages, Idle) ==>
                Valid()
    {
      this.cs, this.cpb := cs, cpb;
      this.blocks, this.seqNumber, this.files, this.synced := blocks, seqNumber, files, synced;
      this.pages := pages;
      open, hasShrink, dirtiest, gcBlock := false, ShrinkNos(cpb, blocks), None, None;
      refused, stale, moments := 0, 0, [];
      RamMounted(cs, cpb, blocks, seqNumber);
      new;
      hide Inv, LogOf, BlocksOk, RamOk, Stored;
    }

    /** Power may fail now. */
    ghost method Mark(b: Busy)
      requires Mid(b)
      modifies this`moments
      ensures Mid(b) && moments == old(moments) + [Now(b)]
      ensures Since(moments, |old(moments)|, synced)
    {
      AllOkMore(cs, cpb, moments, Now(b));
      moments := moments + [Now(b)];
    }

    // ---------- pages and blocks ----------

    /** Takes an unused block into use. */
    method OpenBlock()
      requires TableOk() && !open
      modifies this`blocks, this`seqNumber, this`open
      ensures TableOk() && open && TheLog() == old(TheLog())
      ensures |blocks| == |old(blocks)| + 1 && Grown(old(blocks), false, blocks, true)
    {
      hide LogOf, BlocksOk, RamOk;
      assert NotInUse(blocks, HighestNo(blocks) + 1);
      var no: nat :| NotInUse(blocks, no);
      AddBlock(cpb, blocks, seqNumber, no);
      RamOpen(cs, cpb, blocks, seqNumber + 1, no, hasShrink, dirtiest);
      blocks, seqNumber, open := blocks + [Block(no, seqNumber + 1, [])], seqNumber + 1, true;
    }

    /** Closes the block pages are being allocated from: yaffs_skip_rest_of_block. */
    method SkipRest()
      requires TableOk()
      modifies this`open
      ensures TableOk() && !open
      ensures Grown(old(blocks), old(open), blocks, open)
    {
      assert dirtiest.Some? ==> ClosedNo(blocks, false, dirtiest.value) by {
        if dirtiest.Some? {
          var i :| 0 <= i < |blocks| && blocks[i].no == dirtiest.value && Closed(blocks, open, i);
          assert Closed(blocks, false, i);
        }
      }
      hide Harmless, LogOf, BlocksOk;
      open := false;
    }

    /** Programs the next page of the open block. */
    method ProgramPage(p: Page, data: seq<Byte>) returns (addr: nat)
      requires TableOk() && open
      modifies this`blocks, this`open, this`hasShrink, this`pages
      ensures TableOk() && pages == old(pages)[addr := data]
      ensures TheLog() == old(TheLog()) + if p.Used? then [Rec(addr, p.tag)] else []
      ensures forall q :: q in old(TheLog()) ==> q.addr != addr
      ensures (p.Junk? ==> !open) && |blocks| == |old(blocks)|
      ensures !(p.Used? && p.tag.Header? && p.tag.shrink) ==> hasShrink == old(hasShrink)
      ensures Grown(old(blocks), true, blocks, open)
    {
      hide LogOf, BlocksOk, Harmless, ClosedNo, Grown;
      var last := blocks[|blocks| - 1];
      var goesOn := p.Used? && |last.pages| + 1 < cpb;
      AddPage(cpb, blocks, seqNumber, p);
      RamProgram(cs, cpb, blocks, seqNumber, p, goesOn, hasShrink, dirtiest);
      hide RamOk;
      WithPageGrown(blocks, p, goesOn);
      addr := last.no * cpb + |last.pages|;
      blocks, open, hasShrink := WithPage(blocks, p), goesOn, Flagged(hasShrink, last.no, p);
      pages := pages[addr := data];
    }

    /** Writes one page after the given number of failed attempts, each of which spoils a page and
      closes its block. */
    method Program(ghost b: Busy, tag: Tag, data: seq<Byte>, failures: nat) returns (addr: nat)
      requires Mid(b) && (tag.Header? || |data| == cs)
      modifies this`blocks, this`seqNumber, this`open, this`hasShrink, this`pages, this`moments
      ensures TableOk() && AllOk(cs, cpb, moments)
      ensures TheLog() == old(TheLog()) + [Rec(addr, tag)]
      ensures forall q :: q in old(TheLog()) ==> q.addr != addr
      ensures Backed(cs, TheLog(), pages) && Flash() == old(Flash()) && PageAt(pages, addr) == data
      ensures old(moments) <= moments && Since(moments, |old(moments)|, synced)
      ensures Grown(old(blocks), old(open), blocks, open)
      ensures failures > 0 ==> |blocks| > |old(blocks)|
      ensures !(tag.Header? && tag.shrink) ==> hasShrink == old(hasShrink)
    {
      hide Inv, LogOf, BlocksOk, RamOk, AllOk, Grown, Backed, Clean, ChunksOf;
      GrownSame(blocks, open);
      if !open { OpenBlock(); }
      for i := 0 to failures
        invariant Mid(b) && open && TheLog() == old(TheLog()) && Flash() == old(Flash())
        invariant old(moments) <= moments && Since(moments, |old(moments)|, synced)
        invariant Grown(old(blocks), old(open), blocks, true)
        invariant |blocks| >= |old(blocks)| + i && hasShrink == old(hasShrink)
      {
        ghost var blocks0, ms0, pages0 := blocks, moments, pages;
        var junk: seq<Byte> := *;
        addr := ProgramPage(Junk, junk);
        assert old(TheLog()) + [] == old(TheLog());
        PageFilled(cs, TheLog(), files, synced, b, pages0, addr, junk);
        BackedMore(cs, TheLog(), pages0, Rec(addr, tag), junk);
        GrownTrans(old(blocks), old(open), blocks0, true, blocks, false);
        Mark(b);
        SinceMore(ms0, moments, |old(moments)|, synced);
        ghost var blocks1 := blocks;
        OpenBlock();
        GrownTrans(old(blocks), old(open), blocks1, false, blocks, true);
      }
      ghost var blocks2, pages2, log := blocks, pages, TheLog();
      addr := ProgramPage(Used(tag), data);
      PageFilled(cs, log, files, synced, b, pages2, addr, data);
      BackedMore(cs, log, pages2, Rec(addr, tag), data);
      GrownTrans(old(blocks), old(open), blocks2, true, blocks, open);
    }

    // ---------- garbage collection ----------

    /** One attempt at copying the live data page that holds `q`. */
    method CopyDataOnce(ghost b: Busy, q: Rec) returns (addr: nat)
      requires Mid(b) && q in TheLog() && q.tag.Data? && Live(files, q)
      modifies this`blocks, this`seqNumber, this`open, this`hasShrink, this`pages, this`moments, this`files
      ensures Mid(b) && files == Moved(old(files), q, addr) && Flash() == old(Flash())
      ensures TheLog() == old(TheLog()) + [Rec(addr, q.tag)] && forall p :: p in old(TheLog()) ==> p.addr != addr
      ensures old(moments) <= moments && Since(moments, |old(moments)|, synced)
      ensures Grown(old(blocks), old(open), blocks, open) && hasShrink == old(hasShrink)
    {
      hide Inv, LogOf, BlocksOk, RamOk, AllOk, Grown, LiveIn, Clean, ChunksOf;
      ghost var log, pages0 := TheLog(), pages;
      var buffer := PageAt(pages, q.addr);
      var failures: nat :| 0 <= failures;
      addr := Program(b, q.tag, buffer, failures);
      hide Backed;
      StepCopyData(cs, log, files, synced, b, q, Rec(addr, q.tag));
      ChunkMoved(files, pages0, pages, q, addr);
      CleanLater(cs, files, Flash(), b, Moved(files, q, addr), b);
      files := Moved(files, q, addr);
      ghost var ms := moments;
      Mark(b);
      SinceMore(ms, moments, |old(moments)|, synced);
    }

    /** Copies the live data page that holds `q` to a fresh page.  An attempt that was taken for a
      failure may have left a readable page. */
    method CopyData(ghost b: Busy, q: Rec) returns (addr: nat)
      requires Mid(b) && q in TheLog() && q.tag.Data? && Live(files, q)
      modifies this`blocks, this`seqNumber, this`open, this`hasShrink, this`pages, this`moments, this`files
      ensures Mid(b) && SameFiles(old(files), files) && Flash() == old(Flash()) && files == Moved(old(files), q, addr)
      ensures forall p :: p in old(TheLog()) ==> p.addr != addr && p in TheLog()
      ensures old(moments) <= moments && Since(moments, |old(moments)|, synced)
      ensures Grown(old(blocks), old(open), blocks, open) && hasShrink == old(hasShrink)
    {
      hide Inv, LogOf, BlocksOk, RamOk, AllOk, Stored, ChunksOf, Grown, LiveIn;
      ghost var files0, ms0 := files, moments;
      addr := CopyDataOnce(b, q);
      var attempts: nat :| 0 <= attempts;
      MovedSame(files0, q, addr, addr);
      for i := 0 to attempts
        invariant Mid(b) && Flash() == old(Flash()) && files == Moved(files0, q, addr) && Live(files, Rec(addr, q.tag))
        invariant Rec(addr, q.tag) in TheLog()
        invariant forall p :: p in old(TheLog()) ==> p.addr != addr && p in TheLog()
        invariant ms0 <= moments && Since(moments, |ms0|, synced)
        invariant Grown(old(blocks), old(open), blocks, open) && hasShrink == old(hasShrink)
      {
        ghost var blocks1, open1, ms := blocks, open, moments;
        var failed := Rec(addr, q.tag);
        SkipRest();
        GrownTrans(old(blocks), old(open), blocks, open1, blocks, false);
        addr := CopyDataOnce(b, failed);
        MovedSame(files0, q, failed.addr, addr);
        MovedSame(files0, q, addr, addr);
        GrownTrans(old(blocks), old(open), blocks1, false, blocks, open);
        SinceMore(ms, moments, |ms0|, synced);
      }
      MovedSame(files0, q, addr, addr);
    }

    /** One attempt at writing the header of `o` afresh. */
    method CopyHeaderOnce(ghost b: Busy, o: nat)
      requires Mid(b) && o in files
      modifies this`blocks, this`seqNumber, this`open, this`hasShrink, this`pages, this`moments, this`files,
               this`synced, this`stale
      ensures Mid(b) && Flash() == old(Flash()) && o in files
      ensures files == old(files)[o := old(files)[o].(hdr := files[o].hdr)]
      ensures TheLog() == old(TheLog()) + [Rec(files[o].hdr, Header(o, files[o].size, false, files[o].gone))]
      ensures forall p :: p in old(TheLog()) ==> p.addr != files[o].hdr
      ensures synced == SyncedAfterCopy(cs, old(synced), b, o, old(files)[o])
      ensures stale == old(stale) + if b.Busy? && b.o == o && Ahead(b, old(files)) then 1 else 0
      ensures old(moments) <= moments && Since(moments, |old(moments)|, synced * old(synced))
      ensures Grown(old(blocks), old(open), blocks, open) && hasShrink == old(hasShrink)
    {
      hide Inv, LogOf, BlocksOk, RamOk, AllOk, Clean, ChunksOf, Backed, Grown, LiveIn, HeaderTrue, HeaderHarmless;
      ghost var log := TheLog();
      var tag := Header(o, files[o].size, false, files[o].gone);
      var failures: nat :| 0 <= failures;
      var addr := Program(b, tag, [], failures);
      StepCopyHeader(cs, log, files, synced, b, Rec(addr, tag));
      ghost var ms := moments;
      synced := SyncedAfterCopy(cs, synced, b, o, files[o]);
      if b.Busy? && b.o == o && Ahead(b, files) { stale := stale + 1; }
      SameChunks(files, pages, o, files[o].(hdr := addr));
      CleanLater(cs, files, Flash(), b, files[o := files[o].(hdr := addr)], b);
      files := files[o := files[o].(hdr := addr)];
      Mark(b);
      SinceLess(ms, |old(moments)|, old(synced), synced * old(synced));
      SinceMore(ms, moments, |old(moments)|, synced * old(synced));
    }

    /** Writes the header of `o` afresh, without its shrink flag and with the size in RAM. */
    method CopyHeader(ghost b: Busy, o: nat)
      requires Mid(b) && o in files
      modifies this`blocks, this`seqNumber, this`open, this`hasShrink, this`pages, this`moments, this`files,
               this`synced, this`stale
      ensures Mid(b) && SameFiles(old(files), files) && Flash() == old(Flash())
      ensures files == old(files)[o := old(files)[o].(hdr := files[o].hdr)]
      ensures forall p :: p in old(TheLog()) ==> p.addr != files[o].hdr && p in TheLog()
      ensures TheLog() != []
      ensures TheLog()[|TheLog()| - 1] == Rec(files[o].hdr, Header(o, files[o].size, false, files[o].gone))
      ensures synced == SyncedAfterCopy(cs, old(synced), b, o, old(files)[o])
      ensures if b.Busy? && b.o == o && Ahead(b, old(files)) then stale > old(stale) else stale == old(stale)
      ensures old(moments) <= moments && Since(moments, |old(moments)|, synced * old(synced))
      ensures Grown(old(blocks), old(open), blocks, open) && hasShrink == old(hasShrink)
    {
      hide Inv, LogOf, BlocksOk, RamOk, AllOk, Stored, ChunksOf, Grown, LiveIn, HeaderTrue, HeaderHarmless;
      hide SyncedAfterCopy;
      ghost var files0, synced0, ms0 := files, synced, moments;
      CopyHeaderOnce(b, o);
      ghost var synced1 := synced;
      var attempts: nat :| 0 <= attempts;
      for i := 0 to attempts
        invariant Mid(b) && Flash() == old(Flash()) && o in files
        invariant files == files0[o := files0[o].(hdr := files[o].hdr)]
        invariant forall p :: p in old(TheLog()) ==> p.addr != files[o].hdr && p in TheLog()
        invariant TheLog() != []
        invariant TheLog()[|TheLog()| - 1] == Rec(files[o].hdr, Header(o, files[o].size, false, files[o].gone))
        invariant synced == synced1 && synced1 == SyncedAfterCopy(cs, synced0, b, o, files0[o])
        invariant if b.Busy? && b.o == o && Ahead(b, files0) then stale > old(stale) else stale == old(stale)
        invariant ms0 <= moments && Since(moments, |ms0|, synced1 * synced0)
        invariant Grown(old(blocks), old(open), blocks, open) && hasShrink == old(hasShrink)
      {
        ghost var blocks1, open1, ms, files1 := blocks, open, moments, files;
        SkipRest();
        GrownTrans(old(blocks), old(open), blocks, open1, blocks, false);
        CopyHeaderOnce(b, o);
        CopyTwice(cs, synced0, b, o, files0[o], files1[o].hdr);
        assert files == files0[o := files0[o].(hdr := files[o].hdr)];
        GrownTrans(old(blocks), old(open), blocks1, false, blocks, open);
        SinceLess(moments, |ms|, synced1 * synced1, synced1 * synced0);
        SinceMore(ms, moments, |ms0|, synced1 * synced0);
      }
    }

    /** Erases block `k` of the list, none of whose pages is live and which is not flagged. */
    method EraseBlock(ghost b: Busy, k: nat)
      requires Mid(b) && k < |blocks| && Closed(blocks, open, k)
      requires NoneLive(cpb, files, blocks[k]) && blocks[k].no !in hasShrink
      modifies this`blocks, this`hasShrink, this`dirtiest, this`gcBlock, this`pages, this`moments
      ensures Mid(b) && Flash() == old(Flash()) && blocks == Without(old(blocks), k)
      ensures hasShrink <= old(hasShrink)
      ensures gcBlock == if old(gcBlock) == Some(old(blocks)[k].no) then None else old(gcBlock)
      ensures old(moments) <= moments && Since(moments, |old(moments)|, synced)
    {
      hide Inv, LogOf, BlocksOk, Harmless, AllOk, LiveIn, ClosedNo, Stored, ChunksOf;
      EmptiedBlockIsSafe(cs, cpb, blocks, seqNumber, files, k);
      StepErase(cs, TheLog(), files, synced, b, AddrsOf(cpb, blocks[k].no));
      PagesErased(cs, TheLog(), files, synced, b, pages, AddrsOf(cpb, blocks[k].no));
      EraseBlockLog(cpb, blocks, seqNumber, k);
      WithoutOk(cpb, blocks, seqNumber, k);
      RamErase(cs, cpb, blocks, seqNumber, k, open, hasShrink, dirtiest);
      hide RamOk;
      var no := blocks[k].no;
      blocks, hasShrink, dirtiest := Without(blocks, k), hasShrink - {no}, DropNo(dirtiest, no);
      gcBlock, pages := DropNo(gcBlock, no), pages - AddrsOf(cpb, no);
      Mark(b);
    }

    /** The blocks that deleting pages has emptied are erased, one after another. */
    method Sweep(ghost b: Busy)
      requires Mid(b)
      modifies this`blocks, this`hasShrink, this`dirtiest, this`gcBlock, this`pages, this`moments
      ensures Mid(b) && Flash() == old(Flash())
      ensures old(moments) <= moments && Since(moments, |old(moments)|, synced)
    {
      hide Inv, LogOf, BlocksOk, RamOk, AllOk, Stored, ChunksOf, NoneLive;
      var steps: nat :| 0 <= steps;
      for i := 0 to steps
        invariant Mid(b) && Flash() == old(Flash())
        invariant old(moments) <= moments && Since(moments, |old(moments)|, synced)
      {
        var k: nat :| 0 <= k;
        if k < |blocks| && Closed(blocks, open, k) && NoneLive(cpb, files, blocks[k]) && blocks[k].no !in hasShrink {
          ghost var ms := moments;
          EraseBlock(b, k);
          SinceMore(ms, moments, |old(moments)|, synced);
        }
      }
    }

    /** yaffs_find_gc_block looks at block `k`: the block becomes the candidate if it passes
      yaffs_block_ok_for_gc. */
    method Consider(ghost b: Busy, k: nat) returns (ok: bool)
      requires Mid(b) && k < |blocks| && Closed(blocks, open, k)
      modifies this`dirtiest
      ensures Mid(b)
      ensures ok <==> blocks[k].no !in hasShrink || forall i :: 0 <= i < k ==> AllLive(cpb, files, blocks[i])
      ensures dirtiest == if ok then Some(blocks[k].no) else old(dirtiest)
    {
      hide Inv, LogOf, BlocksOk, Harmless, AllOk, Stored, LiveIn, AllLive, Closed, ClosedNo, OpenOk;
      ok := blocks[k].no !in hasShrink || forall i :: 0 <= i < k ==> AllLive(cpb, files, blocks[i]);
      if ok {
        if blocks[k].no in hasShrink {
          CleanOlderHarmless(cs, cpb, blocks, seqNumber, files, synced, b, k);
        }
        hide RamOk;
        RamConsider(cs, cpb, blocks, open, hasShrink, dirtiest, k);
        dirtiest := Some(blocks[k].no);
      }
    }

    /** The collection of the candidate starts; its flag is cleared so that it can be erased,
      however many calls that takes. */
    method StartGc(ghost b: Busy)
      requires Mid(b) && dirtiest.Some? && gcBlock.None?
      modifies this`dirtiest, this`gcBlock, this`hasShrink
      ensures Mid(b) && gcBlock == old(dirtiest) && dirtiest.None?
      ensures hasShrink == old(hasShrink) - {old(dirtiest).value}
    {
      hide Inv, LogOf, BlocksOk, Harmless, AllOk, Stored, OpenOk;
      ghost var k :| 0 <= k < |blocks| && blocks[k].no == dirtiest.value && Closed(blocks, open, k);
      RamConsider(cs, cpb, blocks, open, hasShrink, dirtiest, k);
      hide RamOk;
      gcBlock, hasShrink, dirtiest := dirtiest, hasShrink - {dirtiest.value}, None;
    }

    /** One page of the block under collection is looked at, and copied if it is live. */
    method CopyPage(ghost b: Busy, q: Rec)
      requires Mid(b) && q in TheLog() && Live(files, q) && (b.Busy? ==> b.o in files)
      modifies this`blocks, this`seqNumber, this`open, this`hasShrink, this`pages, this`moments, this`files,
               this`synced, this`stale
      ensures Mid(b) && SameFiles(old(files), files) && files.Keys == old(files).Keys
      ensures Flash() == old(Flash())
      ensures !Live(files, q)
      ensures old(moments) <= moments
      ensures GcKept(cs, moments, |old(moments)|, old(synced), synced, old(stale), stale, b, old(files))
    {
      hide Inv, LogOf, BlocksOk, RamOk, AllOk, Stored, ChunksOf, LiveIn, Grown;
      if q.tag.Data? {
        var addr := CopyData(b, q);
        MovedAway(old(files), q, addr);
        SinceLess(moments, |old(moments)|, synced, old(synced) - Held(b));
      } else {
        CopyHeader(b, q.tag.obj);
        HeaderAway(old(files), q, files);
        CopyKeeps(cs, old(synced), b, q.tag.obj, old(files));
        SinceLess(moments, |old(moments)|, synced * old(synced), old(synced) - Held(b));
        if old(synced) <= synced {
          assert synced * old(synced) == old(synced);
        }
      }
    }

    /** Any amount of garbage collection, over any number of calls. */
    method CheckGc(ghost b: Busy)
      requires Mid(b) && (b.Busy? ==> b.o in files)
      modifies this
      ensures Mid(b) && SameFiles(old(files), files) && refused == old(refused) && Flash() == old(Flash())
      ensures old(moments) <= moments
      ensures GcKept(cs, moments, |old(moments)|, old(synced), synced, old(stale), stale, b, old(files))
    {
      hide Inv, LogOf, BlocksOk, RamOk, AllOk, Stored, ChunksOf, LiveIn, Grown, SameFiles, GcKept;
      ghost var files0, ms0, synced0, stale0 := files, moments, synced, stale;
      SameRefl(files0);
      GcKeptNone(cs, moments, synced, stale, b, files);
      var steps: nat :| 0 <= steps;
      for i := 0 to steps
        invariant Mid(b) && Flash() == old(Flash()) && SameFiles(files0, files) && files.Keys == files0.Keys
        invariant refused == old(refused)
        invariant ms0 <= moments
        invariant GcKept(cs, moments, |ms0|, synced0, synced, stale0, stale, b, files0)
      {
        ghost var files1, ms1, synced1, stale1 := files, moments, synced, stale;
        GcStep(b);
        GcKeptTrans(cs, ms1, moments, |ms0|, synced0, synced1, synced, stale0, stale1, stale, b, files0, files1);
        SameTrans(files0, files1, files);
      }
    }

    /** One step of the collector. */
    method GcStep(ghost b: Busy)
      requires Mid(b) && (b.Busy? ==> b.o in files)
      modifies this
      ensures Mid(b) && SameFiles(old(files), files) && files.Keys == old(files).Keys && refused == old(refused)
      ensures old(moments) <= moments && Flash() == old(Flash())
      ensures GcKept(cs, moments, |old(moments)|, old(synced), synced, old(stale), stale, b, old(files))
    {
      hide Inv, LogOf, BlocksOk, RamOk, AllOk, Stored, ChunksOf, LiveIn, Grown, SameFiles, AllLive, NoneLive;
      SameRefl(files);
      var log := PagesInUse();
      var k: nat :| 0 <= k;
      if
      case k < |blocks| && Closed(blocks, open, k) =>
        var ok := Consider(b, k);
      case dirtiest.Some? && gcBlock.None? =>
        StartGc(b);
      case gcBlock.Some? && k < |log| && log[k].addr in AddrsOf(cpb, gcBlock.value) && Live(files, log[k]) =>
        CopyPage(b, log[k]);
      case k < |blocks| && Closed(blocks, open, k) && NoneLive(cpb, files, blocks[k]) && blocks[k].no !in hasShrink =>
        EraseBlock(b, k);
        SinceLess(moments, |old(moments)|, synced, synced - Held(b));
      case true =>
    }

    method PagesInUse() returns (log: Log)
      ensures log == TheLog()
    {
      log := LogOf(cpb, blocks);
    }

    // ---------- chunk and header writes ----------

    /** One attempt at writing a data chunk of the file a write is working on. */
    method PutChunk(o: nat, c: ChunkId, nBytes: nat, data: seq<Byte>, ghost b: Busy, ghost z': int, ghost zs': int,
                    failures: nat)
      requires Mid(b) && b.Busy? && b.o == o && o in files && b.tidy
      requires PieceOk(cs, b, c, nBytes, z', zs')
      requires |data| == cs && (files[o].gone || ZeroFrom(cs, c, data, zs'))
      modifies this`blocks, this`seqNumber, this`open, this`hasShrink, this`pages, this`moments, this`files, this`synced
      ensures o in files && OthersSame(old(files), files, o) && files[o].size == old(files)[o].size
      ensures files[o].gone == old(files)[o].gone
      ensures files[o].chunks.Keys == old(files)[o].chunks.Keys + {c} && files[o].hdr == old(files)[o].hdr
      ensures Flash() == old(Flash())[C.Key(o, c) := data]
      ensures Mid(BusyAfter(cs, b, old(files)[o], c, z', zs'))
      ensures synced == if b.near && Base(cs, c) + nBytes == zs' then old(synced) + {o} else old(synced)
      ensures old(moments) <= moments && Since(moments, |old(moments)|, old(synced))
      ensures Grown(old(blocks), old(open), blocks, open) && (failures > 0 ==> |blocks| > |old(blocks)|)
      ensures exists r :: TheLog() == old(TheLog()) + [r] && r.tag == Data(o, c, nBytes)
    {
      hide Inv, LogOf, BlocksOk, RamOk, AllOk, LiveIn, Grown, Backed, Clean, ChunksOf, ZeroFrom;
      ghost var log, flash0 := TheLog(), Flash();
      var tag := Data(o, c, nBytes);
      var addr := Program(b, tag, data, failures);
      ghost var r := Rec(addr, tag);
      assert TheLog() == log + [r] && r.tag == Data(o, c, nBytes);
      StepWrite(cs, log, files, synced, b, r, z', zs');
      ghost var f' := files[o].(chunks := files[o].chunks[c := addr]);
      OthersPut(files, o, f');
      ghost var ms := moments;
      synced := SyncedAfter(cs, b, synced, r, zs');
      ghost var b' := BusyAfter(cs, b, files[o], c, z', zs');
      ChunkPut(files, pages, o, c, addr);
      CleanPut(cs, files, flash0, b, files[o := f'], b', o, c, data);
      files := files[o := files[o].(chunks := files[o].chunks[c := addr])];
      Mark(b');
      SinceLess(moments, |ms|, synced, old(synced));
      SinceMore(ms, moments, |old(moments)|, old(synced));
    }

    /** Writes a data chunk.  An attempt that was taken for a failure may have left a readable page. */
    method PutAttempts(o: nat, c: ChunkId, nBytes: nat, data: seq<Byte>, ghost b: Busy, ghost z': int, ghost zs': int)
      requires Mid(b) && b.Busy? && b.o == o && o in files && b.tidy
      requires PieceOk(cs, b, c, nBytes, z', zs')
      requires |data| == cs && (files[o].gone || ZeroFrom(cs, c, data, zs'))
      modifies this`blocks, this`seqNumber, this`open, this`hasShrink, this`pages, this`moments, this`files, this`synced
      ensures o in files && OthersSame(old(files), files, o) && files[o].size == old(files)[o].size
      ensures files[o].gone == old(files)[o].gone
      ensures files[o].chunks.Keys == old(files)[o].chunks.Keys + {c}
      ensures Flash() == old(Flash())[C.Key(o, c) := data]
      ensures Mid(BusyAfter(cs, b, old(files)[o], c, z', zs'))
      ensures b.near && Base(cs, c) + nBytes == zs' ==> o in synced
      ensures old(moments) <= moments && old(synced) <= synced && Since(moments, |old(moments)|, old(synced))
    {
      ghost var flash0 := Flash();
      hide Inv, LogOf, BlocksOk, RamOk, AllOk, Stored, ChunksOf, LiveIn, Grown, SameFiles, OthersSame, PieceOk;
      hide ZeroFrom;
      ghost var files0, n0, synced0 := files, |moments|, synced;
      var failures: nat :| 0 <= failures;
      PutChunk(o, c, nBytes, data, b, z', zs', failures);
      ghost var b' := BusyAfter(cs, b, files0[o], c, z', zs');
      PieceAgain(cs, b, files0[o], c, nBytes, z', zs');
      var attempts: nat :| 0 <= attempts;
      for i := 0 to attempts
        invariant Flash() == flash0[C.Key(o, c) := data]
        invariant Mid(b') && old(moments) <= moments
        invariant o in files && OthersSame(files0, files, o) && files[o].size == files0[o].size
        invariant files[o].gone == files0[o].gone
        invariant files[o].chunks.Keys == files0[o].chunks.Keys + {c}
        invariant b.near && Base(cs, c) + nBytes == zs' ==> o in synced
        invariant synced0 <= synced && Since(moments, n0, synced0)
      {
        ghost var files2, ms2, synced2 := files, moments, synced;
        SkipRest();
        failures :| 0 <= failures;
        PutChunk(o, c, nBytes, data, b', z', zs', failures);
        SinceLess(moments, |ms2|, synced2, synced0);
        SinceMore(ms2, moments, n0, synced0);
        OthersTrans(files0, files2, files, o);
      }
    }

    /** Writes one data chunk of the file a write is working on: yaffs_wr_data_obj.  Fails
      without effect when no page can be allocated. */
    method WrDataObj(o: nat, c: ChunkId, nBytes: nat, data: seq<Byte>, ghost b: Busy, ghost z': int, ghost zs': int)
        returns (ok: bool)
      requires Mid(b) && b.Busy? && b.o == o && o in files && b.tidy
      requires PieceOk(cs, b, c, nBytes, z', zs')
      requires |data| == cs && (files[o].gone || ZeroFrom(cs, c, data, zs'))
      modifies this
      ensures o in files && OthersSame(old(files), files, o) && files[o].size == old(files)[o].size
      ensures files[o].gone == old(files)[o].gone
      ensures files[o].chunks.Keys == old(files)[o].chunks.Keys + (if ok then {c} else {})
      ensures Flash() == if ok then old(Flash())[C.Key(o, c) := data] else old(Flash())
      ensures refused == old(refused) + if ok then 0 else 1
      ensures Mid(if ok then BusyAfter(cs, b, old(files)[o], c, z', zs') else b)
      ensures ok && b.near && Base(cs, c) + nBytes == zs' ==> o in synced
      ensures old(moments) <= moments
      ensures GcKept(cs, moments, |old(moments)|, old(synced), synced, old(stale), stale, b, old(files))
    {
      hide Inv, LogOf, BlocksOk, RamOk, AllOk, Stored, ChunksOf, LiveIn, SameFiles, OthersSame, GcKept, PieceOk;
      hide ZeroFrom;
      ghost var files0, n0, synced0 := files, |moments|, synced;
      CheckGc(b);
      OthersOf(files0, files, o);
      var full :| full || !full;
      if full {
        refused := refused + 1;
        return false;
      }
      ghost var files1, ms1, synced1 := files, moments, synced;
      PutAttempts(o, c, nBytes, data, b, z', zs');
      OthersTrans(files0, files1, files, o);
      ghost var ms2 := moments;
      Sweep(BusyAfter(cs, b, files0[o], c, z', zs'));
      SinceLess(moments, |ms2|, synced, synced1);
      SinceMore(ms2, moments, |ms1|, synced1);
      GcKeptMore(cs, ms1, moments, n0, synced0, synced1, synced, old(stale), stale, b, files0);
      ok := true;
    }

    /** One attempt at rewriting the chunk a truncation to `b.z` ends in. */
    method PutTrimmed(o: nat, c: ChunkId, nBytes: nat, data: seq<Byte>, ghost b: Busy)
      requires Mid(b) && b.Busy? && b.o == o && o in files && !b.near && o !in synced
      requires Base(cs, c) + nBytes == b.z <= MaxSize(cs) && 0 < nBytes < cs
      requires |data| == cs && b.z <= b.zs && (files[o].gone || ZeroFrom(cs, c, data, b.zs))
      modifies this`blocks, this`seqNumber, this`open, this`hasShrink, this`pages, this`moments, this`files
      ensures o in files && OthersSame(old(files), files, o) && files[o].size == old(files)[o].size
      ensures files[o].gone == old(files)[o].gone && files[o].chunks.Keys == old(files)[o].chunks.Keys + {c}
      ensures Flash() == old(Flash())[C.Key(o, c) := data]
      ensures Mid(b.(tidy := true))
      ensures old(moments) <= moments && Since(moments, |old(moments)|, synced)
    {
      hide Inv, LogOf, BlocksOk, RamOk, AllOk, Clean, Backed, ChunksOf, ZeroFrom, LiveIn, Grown;
      ghost var log, flash0 := TheLog(), Flash();
      var tag := Data(o, c, nBytes);
      var failures: nat :| 0 <= failures;
      var addr := Program(b, tag, data, failures);
      StepTrim(cs, log, files, synced, b, Rec(addr, tag));
      ghost var f' := files[o].(chunks := files[o].chunks[c := addr]);
      OthersPut(files, o, f');
      ChunkPut(files, pages, o, c, addr);
      CleanPut(cs, files, flash0, b, files[o := f'], b.(tidy := true), o, c, data);
      ghost var ms := moments;
      files := files[o := files[o].(chunks := files[o].chunks[c := addr])];
      Mark(b.(tidy := true));
      SinceMore(ms, moments, |old(moments)|, synced);
    }

    /** Rewrites the chunk a truncation to `b.z` ends in.  An attempt that was taken for a failure may have
      left a readable page. */
    method PutTrims(o: nat, c: ChunkId, nBytes: nat, data: seq<Byte>, ghost b: Busy)
      requires Mid(b) && b.Busy? && b.o == o && o in files && !b.tidy && !b.near && o !in synced
      requires Base(cs, c) + nBytes == b.z <= MaxSize(cs) && 0 < nBytes < cs
      requires |data| == cs && b.z <= b.zs && (files[o].gone || ZeroFrom(cs, c, data, b.zs))
      modifies this`blocks, this`seqNumber, this`open, this`hasShrink, this`pages, this`moments, this`files
      ensures o in files && OthersSame(old(files), files, o) && files[o].size == old(files)[o].size
      ensures files[o].gone == old(files)[o].gone && files[o].chunks.Keys == old(files)[o].chunks.Keys + {c}
      ensures Flash() == old(Flash())[C.Key(o, c) := data]
      ensures Mid(b.(tidy := true))
      ensures old(moments) <= moments && Since(moments, |old(moments)|, synced)
    {
      hide Inv, LogOf, BlocksOk, RamOk, AllOk, Stored, ChunksOf, LiveIn, OthersSame, ZeroFrom, Since, Base;
      ghost var files0, n0, flash0 := files, |moments|, Flash();
      PutTrimmed(o, c, nBytes, data, b);
      var attempts: nat :| 0 <= attempts;
      for i := 0 to attempts
        invariant Mid(b.(tidy := true)) && old(moments) <= moments && Since(moments, n0, synced)
        invariant o in files && OthersSame(files0, files, o) && files[o].size == files0[o].size
        invariant files[o].gone == files0[o].gone && files[o].chunks.Keys == files0[o].chunks.Keys + {c}
        invariant Flash() == flash0[C.Key(o, c) := data]
      {
        ghost var files2, ms2 := files, moments;
        SkipRest();
        PutTrimmed(o, c, nBytes, data, b.(tidy := true));
        OthersTrans(files0, files2, files, o);
        SinceMore(ms2, moments, n0, synced);
      }
    }

    /** The write of yaffs_resize_file_down, which may use the reserve. */
    method WrTrimmed(o: nat, c: ChunkId, nBytes: nat, data: seq<Byte>, ghost b: Busy)
      requires Mid(b) && b.Busy? && b.o == o && o in files && !b.tidy && !b.near && o !in synced
      requires Base(cs, c) + nBytes == b.z <= MaxSize(cs) && 0 < nBytes < cs
      requires |data| == cs && b.z <= b.zs && (files[o].gone || ZeroFrom(cs, c, data, b.zs))
      modifies this
      ensures o in files && OthersSame(old(files), files, o) && files[o].size == old(files)[o].size
      ensures files[o].gone == old(files)[o].gone && files[o].chunks.Keys == old(files)[o].chunks.Keys + {c}
      ensures Flash() == old(Flash())[C.Key(o, c) := data]
      ensures Mid(b.(tidy := true)) && refused == old(refused) && stale >= old(stale)
      ensures old(synced) <= synced && o !in synced
      ensures old(moments) <= moments && Since(moments, |old(moments)|, old(synced))
    {
      hide Inv, LogOf, BlocksOk, RamOk, AllOk, Stored, ChunksOf, LiveIn, SameFiles, OthersSame, ZeroFrom, Since, Base;
      ghost var files0, n0, synced0 := files, |moments|, synced;
      CheckGc(b);
      assert synced0 - Held(b) == synced0;
      OthersOf(files0, files, o);
      ghost var files1, ms1 := files, moments;
      PutTrims(o, c, nBytes, data, b);
      OthersTrans(files0, files1, files, o);
      SinceLess(moments, |ms1|, synced, synced0);
      SinceMore(ms1, moments, n0, synced0);
      ghost var ms3 := moments;
      Sweep(b.(tidy := true));
      SinceLess(moments, |ms3|, synced, synced0);
      SinceMore(ms3, moments, n0, synced0);
    }

    /** One attempt at writing the header of a file: an unlinked file's header names the unlinked
      directory and carries size zero. */
    method PutHeader(o: nat, failures: nat)
      requires Valid() && o in files
      modifies this`blocks, this`seqNumber, this`open, this`hasShrink, this`pages, this`moments, this`files, this`synced
      ensures Valid() && SameFiles(old(files), files) && Flash() == old(Flash())
      ensures synced == if files[o].gone then old(synced) else old(synced) + {o}
      ensures old(moments) <= moments && Since(moments, |old(moments)|, old(synced))
    {
      hide Inv, LogOf, BlocksOk, RamOk, AllOk, Clean, Backed, ChunksOf, LiveIn, Grown;
      ghost var log, files0 := TheLog(), files;
      var tag := Header(o, if files[o].gone then 0 else files[o].size, false, files[o].gone);
      var addr := Program(Idle, tag, [], failures);
      ghost var r := Rec(addr, tag);
      if files[o].gone {
        StepUnlink(cs, log, files, synced, r);
      } else {
        ReachedFits(cs, log, files, synced, Idle, o);
        StepHeader(cs, log, files, synced, Idle, r, files[o].size);
        ghost var files' := files[o := files[o].(hdr := addr)];
        StepEnd(cs, log + [r], files', synced + {o}, Busy(o, files[o].size, true, files[o].size, false));
        assert files'[o := files'[o].(size := files[o].size)] == files';
      }
      ghost var ms := moments;
      synced := if files[o].gone then synced else synced + {o};
      SameChunks(files, pages, o, files[o].(hdr := addr));
      CleanLater(cs, files, Flash(), Idle, files[o := files[o].(hdr := addr)], Idle);
      files := files[o := files[o].(hdr := addr)];
      assert files[o].(gone := files[o].gone) == files[o];
      Mark(Idle);
      SinceLess(moments, |ms|, synced, old(synced));
      SinceMore(ms, moments, |old(moments)|, old(synced));
    }

    /** Writes a header.  An attempt that was taken for a failure may have left a readable page. */
    method PutHeaders(o: nat)
      requires Valid() && o in files
      modifies this`blocks, this`seqNumber, this`open, this`hasShrink, this`pages, this`moments, this`files, this`synced
      ensures Valid() && SameFiles(old(files), files) && Flash() == old(Flash()) && o in files
      ensures old(synced) <= synced && (!files[o].gone ==> o in synced)
      ensures old(moments) <= moments && Since(moments, |old(moments)|, old(synced))
    {
      hide Inv, LogOf, BlocksOk, RamOk, AllOk, Stored, ChunksOf, LiveIn, Grown;
      ghost var n0, synced0, files0 := |moments|, synced, files;
      var failures, attempts: nat :| 0 <= failures && 0 <= attempts;
      PutHeader(o, failures);
      for i := 0 to attempts
        invariant Flash() == old(Flash()) && Valid() && SameFiles(files0, files) && o in files
        invariant old(moments) <= moments
        invariant synced0 <= synced && Since(moments, n0, synced0)
        invariant !files[o].gone ==> o in synced
      {
        ghost var ms, synced1 := moments, synced;
        SkipRest();
        failures :| 0 <= failures;
        PutHeader(o, failures);
        SinceLess(moments, |ms|, synced1, synced0);
        SinceMore(ms, moments, n0, synced0);
      }
    }

    /** Writes the object header of a file: yaffs_update_oh.  It is refused when no page can be
      allocated. */
    method UpdateOh(o: nat) returns (ok: bool)
      requires Valid() && o in files
      modifies this
      ensures Valid() && SameFiles(old(files), files) && Flash() == old(Flash()) && o in files
      ensures refused == old(refused) + (if ok then 0 else 1) && stale == old(stale)
      ensures old(synced) <= synced && (ok && !files[o].gone ==> o in synced)
      ensures old(moments) <= moments && Since(moments, |old(moments)|, old(synced))
    {
      hide Inv, LogOf, BlocksOk, RamOk, AllOk, Stored, ChunksOf, LiveIn;
      ghost var n0, synced0, files0 := |moments|, synced, files;
      CheckGc(Idle);
      assert synced0 - Held(Idle) == synced0;
      var full :| full || !full;
      if full {
        refused := refused + 1;
        return false;
      }
      ghost var ms, synced1 := moments, synced;
      PutHeaders(o);
      SinceLess(moments, |ms|, synced1, synced0);
      SinceMore(ms, moments, n0, synced0);
      ghost var ms' := moments;
      Sweep(Idle);
      SinceLess(moments, |ms'|, synced, synced0);
      SinceMore(ms', moments, n0, synced0);
      ok := true;
    }

    /** Writes a shrink header, which opens a hole from the file's size up to `z`. */
    method PutHoleHeader(o: nat, ghost z: int)
      requires Valid() && o in files && !files[o].gone && files[o].size <= z <= MaxSize(cs)
      modifies this`blocks, this`seqNumber, this`open, this`hasShrink, this`pages, this`moments, this`files, this`synced
      ensures o in files && Mid(Busy(o, z, true, files[o].size, false)) && SameFiles(old(files), files)
      ensures Flash() == old(Flash())
      ensures synced == old(synced) + {o}
      ensures TheLog() != [] && TheLog()[|TheLog()| - 1] == Rec(files[o].hdr, Header(o, files[o].size, true, false))
      ensures old(moments) <= moments && Since(moments, |old(moments)|, old(synced))
    {
      hide Inv, LogOf, BlocksOk, RamOk, AllOk, Clean, Backed, ChunksOf, LiveIn, Grown;
      ghost var log := TheLog();
      var tag := Header(o, files[o].size, true, false);
      var failures: nat :| 0 <= failures;
      var addr := Program(Idle, tag, [], failures);
      StepHeader(cs, log, files, synced, Idle, Rec(addr, tag), z);
      ghost var ms := moments;
      SameChunks(files, pages, o, files[o].(hdr := addr));
      CleanLater(cs, files, Flash(), Idle, files[o := files[o].(hdr := addr)], Busy(o, z, true, files[o].size, false));
      files := files[o := files[o].(hdr := addr)];
      synced := synced + {o};
      Mark(Busy(o, z, true, files[o].size, false));
      SinceLess(moments, |ms|, synced, old(synced));
      SinceMore(ms, moments, |old(moments)|, old(synced));
    }

    /** The start-of-hole header of yaffs2_handle_hole. */
    method MarkHole(o: nat, ghost z: int)
      requires Valid() && o in files && !files[o].gone && files[o].size <= z <= MaxSize(cs)
      modifies this
      ensures o in files && Mid(Busy(o, z, true, files[o].size, false)) && SameFiles(old(files), files)
      ensures Flash() == old(Flash())
      ensures old(synced) + {o} <= synced && refused == old(refused) && stale == old(stale)
      ensures old(moments) <= moments && Since(moments, |old(moments)|, old(synced))
    {
      hide Inv, LogOf, BlocksOk, RamOk, AllOk, Stored, ChunksOf, LiveIn;
      ghost var n0, synced0 := |moments|, synced;
      CheckGc(Idle);
      assert synced0 - Held(Idle) == synced0;
      ghost var ms, synced1 := moments, synced;
      PutHoleHeader(o, z);
      SinceLess(moments, |ms|, synced1, synced0);
      SinceMore(ms, moments, n0, synced0);
      ghost var ms' := moments;
      Sweep(Busy(o, z, true, files[o].size, false));
      SinceLess(moments, |ms'|, synced, synced0);
      SinceMore(ms', moments, n0, synced0);
    }

    // ---------- the calls ----------

    /** At every moment since number `from` the files of `s` were in step, and they are now. */
    ghost predicate Kept(from: nat, s: set<nat>)
      reads this
    {
      s <= synced && Since(moments, from, s)
    }

    /** yaffs_rd_data_obj: a chunk the file does not have reads as zeros. */
    method ReadDataObj(o: nat, c: ChunkId) returns (data: seq<Byte>)
      requires o in files
      ensures data == C.Under(cs, Flash(), C.Key(o, c))
    {
      ChunkAt(files, pages, C.Key(o, c));
      if c in files[o].chunks { data := PageAt(pages, files[o].chunks[c]); } else { data := C.Zeros(cs); }
    }

    /** The buffer for writing `bytes` at `pos` in chunk `c`: part of a chunk is read first. */
    method PieceData(o: nat, c: ChunkId, pos: nat, bytes: seq<Byte>, ghost b: Busy, ghost end: int)
        returns (data: seq<Byte>)
      requires o in files && Mid(b) && Base(cs, c) <= pos && pos + |bytes| <= Base(cs, c) + cs
      requires Until(b, o, files[o]) <= end && pos + |bytes| <= end
      ensures |data| == cs && (files[o].gone || ZeroFrom(cs, c, data, end))
      ensures C.Edited(cs, M(), C.Mem([], Flash()[C.Key(o, c) := data]), o, pos, bytes)
    {
      hide Inv, LogOf, BlocksOk, RamOk, AllOk, Clean, Backed, ChunksOf, ZeroFrom, Base, C.Edited, C.MemOk, C.Under;
      MemNow(b);
      ChunkWritten(cs, Flash(), o, c, pos, bytes);
      if !files[o].gone { PieceZero(cs, files, Flash(), b, o, c, pos, bytes, end); }
      if |bytes| == cs {
        data := bytes;
        assert C.Patch(C.Under(cs, Flash(), C.Key(o, c)), 0, bytes) == bytes;
      } else {
        var buffer := ReadDataObj(o, c);
        data := C.Patch(buffer, pos - Base(cs, c), bytes);
      }
    }

    lemma MemNow(b: Busy)
      requires Mid(b)
      ensures C.MemOk(cs, M())
    {
      ChunkSizes(cs, TheLog(), files, synced, b, pages);
    }

    /** One turn of the write loop: the piece of the write at `pos` that lies in one chunk. */
    method WritePiece(o: nat, pos: nat, rest: seq<Byte>, fileSize: nat, ghost zs: int, ghost near: bool)
        returns (ok: bool, nCopy: nat, chunk: ChunkId)
      requires o in files && files[o].size == fileSize && rest != [] && pos + |rest| <= MaxSize(cs)
      requires Mid(Busy(o, Max(fileSize, pos), true, zs, near)) && zs <= Max(fileSize, pos) && zs >= fileSize
      modifies this
      ensures o in files && OthersSame(old(files), files, o) && files[o].size == fileSize
      ensures files[o].gone == old(files)[o].gone
      ensures 0 < nCopy <= |rest| && refused == old(refused) + if ok then 0 else 1
      ensures forall d: ChunkId :: d == chunk <==> pos < Base(cs, d) + cs && Base(cs, d) < pos + nCopy
      ensures Base(cs, chunk) <= pos && pos + nCopy <= Base(cs, chunk) + cs
      ensures nCopy < |rest| ==> pos + nCopy == Base(cs, chunk) + cs
      ensures OneChunk(cs, pos, |rest|) ==> nCopy == |rest|
      ensures files[o].chunks.Keys == old(files)[o].chunks.Keys + (if ok then {chunk} else {})
      ensures C.Edited(cs, old(M()), M(), o, pos, if ok then rest[..nCopy] else [])
      ensures var z' := Max(fileSize, pos + nCopy);
              Mid(if ok then Busy(o, z', true, z', near && Base(cs, chunk) < fileSize)
                  else Busy(o, Max(fileSize, pos), true, zs, near))
      ensures ok && near && pos + nCopy >= fileSize ==> o in synced
      ensures old(moments) <= moments
      ensures GcKept(cs, moments, |old(moments)|, old(synced), synced, old(stale), stale,
                     Busy(o, Max(fileSize, pos), true, zs, near), old(files))
    {
      hide Inv, LogOf, BlocksOk, RamOk, AllOk, LiveIn, Base, GcKept, Mid, OthersSame, ChunksOf, ZeroFrom, C.Edited;
      ghost var m0 := M();
      var nWriteback;
      chunk, nCopy, nWriteback := NextPiece(cs, pos, |rest|, fileSize);
      PieceFits(cs, pos, chunk);
      ghost var b := Busy(o, Max(fileSize, pos), true, zs, near);
      ghost var z' := Max(fileSize, pos + nCopy);
      FitsNow(b, o);
      var data := PieceData(o, chunk, pos, rest[..nCopy], b, z');
      ok := WrDataObj(o, chunk, nWriteback, data, b, z', z');
      S.EditedNone(cs, m0, o, pos);
    }

    lemma FitsNow(b: Busy, o: nat)
      requires Mid(b) && o in files
      ensures 0 <= Reached(b, o, files[o]) <= MaxSize(cs)
    {
      ReachedFits(cs, TheLog(), files, synced, b, o);
    }

    /** A file in step, all of whose map is below its size, lets a write start near. */
    lemma NearNow(b: Busy)
      requires Mid(b) && b.Busy? && b.o in files && b.o in synced && MapBelow(cs, files[b.o])
      requires files[b.o].size <= b.z && files[b.o].size <= b.zs
      ensures Mid(b.(near := true))
    {
      hide Clean, ChunksOf;
      CleanLater(cs, files, Flash(), b, files, b.(near := true));
      StepNear(cs, TheLog(), files, synced, b);
    }

    /** The loop of yaffs_do_file_wr: chunk by chunk, until done or refused. */
    method WritePieces(o: nat, offset: nat, data: seq<Byte>, ghost near0: bool)
        returns (nDone: nat, ghost zs: int, ghost near: bool)
      requires o in files && Mid(Busy(o, Max(files[o].size, offset), true, files[o].size, near0))
      requires offset + |data| <= MaxSize(cs)
      modifies this
      ensures o in files && OthersSame(old(files), files, o) && files[o].size == old(files)[o].size
      ensures nDone <= |data| && refused == (if nDone < |data| then old(refused) + 1 else old(refused))
      ensures C.Edited(cs, old(M()), M(), o, offset, data[..nDone])
      ensures Mid(Busy(o, Max(files[o].size, offset + nDone), true, zs, near))
      ensures Course(cs, old(files)[o], files[o], offset, |data|, nDone, zs, near0, near, o in synced, old(stale),
                     stale)
      ensures old(moments) <= moments
      ensures SoFar(moments, |old(moments)|, old(synced), synced, old(stale), stale, o, MapBelow(cs, old(files)[o]))
    {
      hide Base, MapBelow, GcKept, OthersSame, OneChunk, SoFar, Since, Mid, Course, C.Edited, ChunksOf;
      ghost var f0, n0, s0, m0 := files, |moments|, synced, M();
      var fileSize := files[o].size;
      var n := |data|;
      var left: nat, ok := n, true;
      nDone, zs, near := 0, fileSize, near0;
      ghost var below := MapBelow(cs, f0[o]);
      OthersRefl(files, o);
      S.EditedNone(cs, m0, o, offset);
      assert data[..0] == [];
      SoFarNone(moments, s0, stale, o, below);
      CourseStarts(cs, f0[o], offset, n, near0, o in synced, stale);
      while left > 0 && ok
        invariant nDone + left == n && refused == (if ok then old(refused) else old(refused) + 1) && (ok || left > 0)
        invariant o in files && OthersSame(f0, files, o) && files[o].size == fileSize
        invariant C.Edited(cs, m0, M(), o, offset, data[..nDone])
        invariant Mid(Busy(o, Max(fileSize, offset + nDone), true, zs, near))
        invariant Course(cs, f0[o], files[o], offset, n, nDone, zs, near0, near, o in synced, old(stale), stale)
        invariant old(moments) <= moments && SoFar(moments, n0, s0, synced, old(stale), stale, o, below)
        decreases left, ok
      {
        ghost var before, near1, ms1, synced1, stale1, m1 := files, near, moments, synced, stale, M();
        ghost var b := Busy(o, Max(fileSize, offset + nDone), true, zs, near);
        CourseNow(cs, f0[o], files[o], offset, n, nDone, zs, near0, near, o in synced, old(stale), stale);
        var nCopy, chunk;
        ok, nCopy, chunk := WritePiece(o, offset + nDone, data[nDone..], fileSize, zs, near);
        C.EditedTwice(cs, m0, m1, M(), o, offset, data[..nDone], if ok then data[nDone..][..nCopy] else []);
        assert data[..nDone] + [] == data[..nDone];
        OthersTrans(f0, before, files, o);
        PieceKept(cs, ms1, moments, n0, s0, synced1, synced, old(stale), stale1, stale, b, before, below);
        if ok {
          assert data[..nDone] + data[nDone..][..nCopy] == data[..nDone + nCopy];
          CourseMore(cs, f0[o], before[o], files[o], offset, n, nDone, nCopy, chunk, zs,
                     near0, near, o in synced1, o in synced, old(stale), stale1, stale);
          left := left - nCopy;
          nDone := nDone + nCopy;
          zs := Max(fileSize, offset + nDone);
          near := near && Base(cs, chunk) < fileSize;
        } else {
          assert files[o].chunks.Keys == before[o].chunks.Keys;
          CourseFails(cs, f0[o], before[o], files[o], offset, n, nDone, zs,
                      near0, near, o in synced1, o in synced, old(stale), stale1, stale);
        }
      }
    }

    /** yaffs_do_file_wr: writes `data` at `offset` chunk by chunk.  The bytes done are in place and no
      other byte of any file has changed.  The file stays in step at
      every moment unless the collector copies its header while data lies beyond the size in RAM,
      and ends up in step even then if the write is `InStep`. */
    method DoFileWr(o: nat, offset: nat, data: seq<Byte>) returns (nDone: nat)
      requires o in files && Mid(Busy(o, Max(files[o].size, offset), true, files[o].size, false))
      requires offset + |data| <= MaxSize(cs)
      modifies this
      ensures Valid() && o in files && OthersSame(old(files), files, o) && files[o].gone == old(files)[o].gone
      ensures refused == old(refused) + if nDone < |data| then 1 else 0
      ensures nDone <= |data| && C.Edited(cs, old(M()), M(), o, offset, data[..nDone])
      ensures files[o].size == Max(old(files)[o].size, offset + nDone)
      ensures Written(cs, old(files)[o].chunks.Keys, files[o].chunks.Keys, offset, nDone)
      ensures old(moments) <= moments && Kept(|old(moments)|, old(synced) - {o}) && stale >= old(stale)
      ensures stale == old(stale) && MapBelow(cs, old(files)[o]) && (nDone > 0 || offset <= old(files)[o].size) ==>
                Kept(|old(moments)|, old(synced))
      ensures OneChunk(cs, offset, |data|) || offset + |data| <= old(files)[o].size ==> stale == old(stale)
      ensures InStep(cs, offset, |data|, old(files)[o].size) && MapBelow(cs, old(files)[o]) && nDone == |data| ==>
                old(synced) <= synced
    {
      hide Inv, LogOf, BlocksOk, RamOk, AllOk, Stored, ChunksOf, C.Edited, LiveIn, Base, MapBelow, Written;
      hide OthersSame, Approach, OneChunk;
      hide LastStart, SoFar, Since;
      ghost var f0, n0, s0 := files, |moments|, synced;
      ghost var n := |data|;
      ghost var size, below := files[o].size, MapBelow(cs, files[o]);
      ghost var near0 := o in s0 && below;
      if near0 { NearNow(Busy(o, Max(size, offset), true, size, false)); }
      ghost var zs, near;
      nDone, zs, near := WritePieces(o, offset, data, near0);
      SoFarMeans(moments, n0, s0, synced, old(stale), stale, o, below);
      ApproachEnds(cs, offset, n, size, nDone, near0, near, o in synced);
      ghost var written, synced1 := files, synced;
      FinishWrite(o, Max(files[o].size, offset + nDone), zs, near);
      OthersPut(written, o, files[o]);
      OthersTrans(f0, written, files, o);
    }

    /** The size in RAM catches up with what was written. */
    method FinishWrite(o: nat, z: nat, ghost zs: int, ghost near: bool)
      requires o in files && Mid(Busy(o, z, true, zs, near)) && z >= files[o].size && zs <= z
      modifies this`files, this`synced
      ensures Valid() && Flash() == old(Flash()) && files == old(files)[o := old(files)[o].(size := z)]
      ensures synced == if z != zs then old(synced) - {o} else old(synced)
    {
      hide Inv, LogOf, BlocksOk, RamOk, AllOk, Clean, Backed, ChunksOf, LiveIn, Base;
      if z != zs {
        StepForget(cs, TheLog(), files, synced, Busy(o, z, true, zs, near), o);
      }
      ghost var synced' := if z != zs then synced - {o} else synced;
      StepEnd(cs, TheLog(), files, synced', Busy(o, z, true, zs, near));
      synced := synced';
      assert z == files[o].size ==> files[o := files[o].(size := z)] == files;
      SameChunks(files, pages, o, files[o].(size := z));
      CleanLater(cs, files, Flash(), Busy(o, z, true, zs, near), files[o := files[o].(size := z)], Idle);
      if z > files[o].size {
        files := files[o := files[o].(size := z)];
      }
    }

    /** The cut of the chunk map keeps the invariant and clears the file from the cut on. */
    lemma CutNow(o: nat, s: nat)
      requires Valid() && o in files && s <= files[o].size
      ensures var files' := files[o := files[o].(chunks := CutAt(cs, files[o].chunks, s))];
              var b := Busy(o, s, false, files[o].size, false);
              && Inv(cs, TheLog(), files', synced - {o}, b) && Stored(cs, TheLog(), files', pages, b)
              && C.ClearedFrom(cs, M(), C.Mem([], ChunksOf(files', pages)), o, S.RoundUp(cs, s))
      ensures MapBelow(cs, files[o])
    {
      MappedBelow(cs, TheLog(), files, synced, o);
      hide Inv, LogOf, BlocksOk, RamOk, AllOk, LiveIn, Base, CutAt, Backed, Clean, ChunksOf, C.ClearedFrom, S.RoundUp;
      var f := files[o];
      var files', b := files[o := f.(chunks := CutAt(cs, f.chunks, s))], Busy(o, s, false, f.size, false);
      StepBegin(cs, TheLog(), files, synced, o);
      StepCut(cs, TheLog(), files, synced, Busy(o, f.size, true, f.size, false), s);
      ChunksCut(cs, files, pages, o, s);
      CleanCut(cs, files, Flash(), Idle, files', ChunksOf(files', pages), b, o, S.RoundUp(cs, s));
    }

    /** yaffs_prune_chunks: takes the chunks at or above `s` out of the file. */
    method PruneChunks(o: nat, s: nat)
      requires Valid() && o in files && s <= files[o].size
      modifies this`blocks, this`hasShrink, this`dirtiest, this`gcBlock, this`pages, this`files, this`synced,
               this`moments
      ensures Mid(Busy(o, s, false, old(files)[o].size, false))
      ensures files == old(files)[o := old(files)[o].(chunks := CutAt(cs, old(files)[o].chunks, s))]
      ensures synced == old(synced) - {o}
      ensures C.ClearedFrom(cs, old(M()), M(), o, S.RoundUp(cs, s))
      ensures old(moments) <= moments && Since(moments, |old(moments)|, synced)
    {
      hide Inv, LogOf, BlocksOk, RamOk, AllOk, LiveIn, Base, CutAt, Stored, ChunksOf, C.ClearedFrom, S.RoundUp;
      CutNow(o, s);
      var f := files[o];
      var chunks := DeleteChunks(cs, f, s);
      files := files[o := f.(chunks := chunks)];
      synced := synced - {o};
      Sweep(Busy(o, s, false, f.size, false));
    }

    /** The last chunk is rewritten with its new size and zeros behind it. */
    method TrimLastChunk(o: nat, newFull: nat, newPartial: nat, ghost newSize: nat, ghost m: C.Mem, ghost b: Busy)
      requires o in files && Mid(b) && b.Busy? && b.o == o && b.z == newSize && !b.tidy && !b.near && o !in synced
      requires newSize <= MaxSize(cs) && newSize <= b.zs && newFull == newSize / cs && newPartial == newSize % cs > 0
      requires m.cache == [] && C.ClearedFrom(cs, m, M(), o, S.RoundUp(cs, newSize))
      modifies this
      ensures o in files && OthersSame(old(files), files, o) && files[o].size == old(files)[o].size
      ensures files[o].gone == old(files)[o].gone
      ensures files[o].chunks.Keys == old(files)[o].chunks.Keys + {newFull + 1}
      ensures Mid(b.(tidy := true)) && refused == old(refused) && stale >= old(stale)
      ensures C.ClearedFrom(cs, m, M(), o, newSize)
      ensures old(synced) <= synced && o !in synced
      ensures old(moments) <= moments && Since(moments, |old(moments)|, old(synced))
    {
      hide Inv, LogOf, BlocksOk, RamOk, AllOk, LiveIn, Since, Stored, ChunksOf, C.ClearedFrom, C.MemOk, ZeroFrom;
      hide S.NoEntry, S.RoundUp, C.Under, C.ZeroTail, OthersSame;
      PartOf(cs, newSize, newFull + 1);
      PartSize(cs, newSize);
      MemNow(b);
      NoEntries(o);
      S.UnderSize2(cs, M(), C.Key(o, newFull + 1));
      S.TrimLast(cs, m, M(), o, newSize);
      var buffer := ReadDataObj(o, newFull + 1);
      TailZero(cs, newFull + 1, buffer, newPartial, b.zs);
      WrTrimmed(o, newFull + 1, newPartial, C.ZeroTail(buffer, newPartial), b);
    }

    /** yaffs_resize_file_down; the header is still to be written. */
    method ResizeFileDown(o: nat, newSize: nat)
      requires Valid() && o in files && newSize <= files[o].size <= MaxSize(cs)
      modifies this
      ensures Valid() && o in files && OthersSame(old(files), files, o) && files[o].gone == old(files)[o].gone
      ensures files[o].size == newSize && refused == old(refused) && stale >= old(stale)
      ensures forall c: ChunkId :: c in files[o].chunks <==>
                (c in old(files)[o].chunks && Base(cs, c) < newSize) || (newSize % cs != 0 && c == newSize / cs + 1)
      ensures C.ClearedFrom(cs, old(M()), M(), o, newSize)
      ensures old(moments) <= moments && Kept(|old(moments)|, old(synced) - {o})
    {
      hide Inv, LogOf, BlocksOk, RamOk, AllOk, LiveIn, Since, Stored, ChunksOf, C.ClearedFrom, S.RoundUp, OthersSame;
      hide Base;
      ghost var n0, s0, f0, m0 := |moments|, synced, files, M();
      var newFull, newPartial := newSize / cs, newSize % cs;
      PruneChunks(o, newSize);
      OthersPut(f0, o, files[o]);
      CutKeysAre(cs, f0[o], files[o], newSize);
      ghost var f1 := files;
      ghost var ms := moments;
      ghost var b := Busy(o, newSize, false, f0[o].size, false);
      if newPartial != 0 {
        PartSize(cs, newSize);
        TrimLastChunk(o, newFull, newPartial, newSize, m0, b);
        OthersTrans(f0, f1, files, o);
        SinceMore(ms, moments, n0, s0 - {o});
      } else {
        S.NoPartial(cs, newSize);
        PartSize(cs, newSize);
        StoredLater(cs, TheLog(), files, pages, b, b.(tidy := true));
        StepCutWhole(cs, TheLog(), files, synced, b, newFull);
      }
      StepEnd(cs, TheLog(), files, synced, b.(tidy := true));
      CutStored(cs, m0, TheLog(), files, pages, b.(tidy := true), o, newSize);
      ghost var f2 := files;
      files := files[o := files[o].(size := newSize)];
      OthersPut(f2, o, files[o]);
      OthersTrans(f0, f2, files, o);
    }

    /** Writes zeros from the end of the file up to `newSize`. */
    method FillHole(o: nat, newSize: nat) returns (ok: bool)
      requires Valid() && o in files && files[o].size <= newSize <= MaxSize(cs)
      modifies this
      ensures Valid() && o in files && OthersSame(old(files), files, o) && files[o].gone == old(files)[o].gone
      ensures refused == old(refused) + if ok then 0 else 1
      ensures old(files)[o].size <= files[o].size <= newSize && (ok ==> files[o].size == newSize) && stale >= old(stale)
      ensures Filled(cs, old(M()), M(), old(files), files, o)
      ensures old(moments) <= moments && Kept(|old(moments)|, old(synced) - {o})
      ensures ok ==> old(synced) <= synced
      ensures ok && stale == old(stale) ==> Kept(|old(moments)|, old(synced))
    {
      hide Inv, LogOf, BlocksOk, RamOk, AllOk, LiveIn, Base, MapBelow, OthersSame, Since, InStep, OneChunk, Written;
      hide Stored, ChunksOf, Filled, C.Edited;
      ghost var n0, s0, f0, m0, stale0, refused0 := |moments|, synced, files, M(), stale, refused;
      OthersRefl(files, o);
      SinceNone(moments, s0);
      SinceNone(moments, s0 - {o});
      FilledNone(cs, m0, files, o);
      ok := true;
      var buffer := C.Zeros(cs);
      var pos, increase := files[o].size, newSize - files[o].size;
      while increase > 0 && ok
        invariant Valid() && o in files && OthersSame(f0, files, o) && files[o].gone == f0[o].gone
        invariant f0[o].size <= pos <= files[o].size <= newSize && increase >= 0 && pos + increase == newSize
        invariant (ok ==> pos == files[o].size) && refused == refused0 + (if ok then 0 else 1) && stale >= stale0
        invariant Filled(cs, m0, M(), f0, files, o)
        invariant old(moments) <= moments && Kept(n0, s0 - {o})
        invariant ok ==> s0 <= synced
        invariant ok && stale == stale0 ==> Kept(n0, s0)
        decreases increase, ok
      {
        ghost var ms, s1, f1, m1, stale1 := moments, synced, files, M(), stale;
        var thisWrite := Min(increase, cs);
        BelowNow(o);
        var written := DoFileWr(o, pos, buffer[..thisWrite]);
        FilledMore(cs, m0, m1, M(), f0, f1, files, o, buffer[..thisWrite][..written]);
        OthersTrans(f0, f1, files, o);
        ShortInStep(cs, pos, thisWrite);
        SinceLess(moments, |ms|, s1 - {o}, s0 - {o});
        SinceMore(ms, moments, n0, s0 - {o});
        if written == thisWrite {
          pos := pos + thisWrite;
          increase := increase - thisWrite;
          if stale == stale0 {
            SinceLess(moments, |ms|, s1, s0);
            SinceMore(ms, moments, n0, s0);
          }
        } else {
          ok := false;
        }
      }
    }

    /** Between calls no chunk is mapped at or above the end of a file, and a write may start. */
    lemma BelowNow(o: nat)
      requires Valid() && o in files
      ensures MapBelow(cs, files[o]) && files[o].size <= MaxSize(cs)
      ensures Mid(Busy(o, files[o].size, true, files[o].size, false))
    {
      MappedBelow(cs, TheLog(), files, synced, o);
      ReachedFits(cs, TheLog(), files, synced, Idle, o);
      StepBegin(cs, TheLog(), files, synced, o);
    }

    /** yaffs2_handle_hole: before a write or a growing resize at `newSize`, covers the gap
      behind the file with zeros if it is small, else with a shrink header. */
    method HandleHole(o: nat, newSize: nat)
      requires Valid() && o in files && newSize <= MaxSize(cs)
      modifies this
      ensures o in files && OthersSame(old(files), files, o) && files[o].gone == old(files)[o].gone
      ensures Grew(cs, old(M()), M(), o, old(files)[o].size, newSize, [])
      ensures Widened(cs, old(files)[o].chunks.Keys, files[o].chunks.Keys, old(files)[o].size, newSize, 0, 0)
      ensures Mid(Busy(o, Max(files[o].size, newSize), true, files[o].size, false)) && MapBelow(cs, files[o])
      ensures files[o].size == old(files)[o].size || old(files)[o].size < files[o].size == newSize
      ensures newSize <= old(files)[o].size ==> files == old(files) && synced == old(synced) && moments == old(moments)
      ensures newSize <= old(files)[o].size ==> refused == old(refused) && stale == old(stale)
      ensures refused >= old(refused) && stale >= old(stale)
      ensures old(moments) <= moments && Kept(|old(moments)|, old(synced) - {o})
      ensures refused == old(refused) ==> old(synced) <= synced
      ensures refused == old(refused) && stale == old(stale) ==> Kept(|old(moments)|, old(synced))
    {
      hide Inv, LogOf, BlocksOk, RamOk, AllOk, LiveIn, Base, MapBelow, OthersSame, Since, SameFiles, Stored, ChunksOf;
      hide Filled, Widened, Grew, C.ClearedFrom;
      ghost var n0, s0, f0, m0 := |moments|, synced, files, M();
      BelowNow(o);
      OthersRefl(files, o);
      GrewNone(cs, m0, o, f0[o].size, newSize);
      WidenedNone(cs, f0[o].chunks.Keys, f0[o].size, newSize);
      SinceNone(moments, s0);
      SinceNone(moments, s0 - {o});
      var oldSize := files[o].size;
      if newSize <= oldSize { return; }
      var small :| small ==> newSize - oldSize < 4 * cs;
      var smallOk := false;
      if small {
        smallOk := FillHole(o, newSize);
        if smallOk { FilledGrew(cs, m0, M(), f0, files, o, newSize); }
        if !smallOk {
          ghost var f1, ms, s1, m1 := files, moments, synced, M();
          BelowNow(o);
          ResizeFileDown(o, oldSize);
          OthersTrans(f0, f1, files, o);
          HoleUndone(cs, m0, m1, M(), f0, f1, files, o, newSize);
          SinceLess(moments, |ms|, s1 - {o}, s0 - {o});
          SinceMore(ms, moments, n0, s0 - {o});
        }
        BelowNow(o);
      }
      if smallOk { return; }
      if !files[o].gone {
        ghost var f2, s2, ms2 := files, synced, moments;
        MarkHole(o, newSize);
        OthersOf(f2, files, o);
        MapBelowKeys(cs, f2[o], files[o]);
        OthersTrans(f0, f2, files, o);
        SinceLess(moments, |ms2|, s2, s0 - {o});
        SinceMore(ms2, moments, n0, s0 - {o});
      } else {
        StoredLater(cs, TheLog(), files, pages, Busy(o, files[o].size, true, files[o].size, false),
                    Busy(o, newSize, true, files[o].size, false));
        StepGoneHole(cs, TheLog(), files, synced, Busy(o, files[o].size, true, files[o].size, false), newSize);
      }
    }

    /** yaffs_wr_file.  The file becomes the byte array after a zero-extending write of the bytes done,
      and no other file changes; the chunks mapped are those there were, those the bytes fall into and
      those of a gap filled with zeros.  Once the gap before `offset` is covered, the file stays in step at every
      moment unless the collector copies its header while data lies beyond the size in RAM, which
      cannot happen if the write stays inside the file or inside one chunk at its end; and it ends
      up in step whatever the collector does if the write is `InStep`. */
    method WrFile(o: nat, offset: nat, data: seq<Byte>) returns (nDone: nat)
      requires Valid() && o in files && offset + |data| <= MaxSize(cs)
      modifies this
      ensures Valid() && o in files && OthersSame(old(files), files, o) && files[o].gone == old(files)[o].gone
      ensures refused == old(refused) ==> nDone == |data|
      ensures nDone <= |data| && files[o].size == Max(old(files)[o].size, offset + nDone)
      ensures Grew(cs, old(M()), M(), o, old(files)[o].size, offset, data[..nDone])
      ensures !files[o].gone || old(Blank(o)) ==>
                Text(o) == S.PlainWrite(old(Text(o)), offset, data[..nDone]) && Blank(o)
      ensures forall p: nat :: p != o ==> Text(p) == old(Text(p))
      ensures Widened(cs, old(files)[o].chunks.Keys, files[o].chunks.Keys, old(files)[o].size, offset, offset, nDone)
      ensures old(moments) <= moments && Kept(|old(moments)|, old(synced) - {o}) && stale >= old(stale)
      ensures InStep(cs, offset, |data|, old(files)[o].size) && refused == old(refused) ==> old(synced) <= synced
      ensures stale == old(stale) && refused == old(refused) && (data != [] || offset <= old(files)[o].size) ==>
                Kept(|old(moments)|, old(synced))
      ensures offset <= old(files)[o].size &&
              (OneChunk(cs, offset, |data|) || offset + |data| <= old(files)[o].size) ==>
                Kept(|old(moments)|, old(synced)) && stale == old(stale)
    {
      hide Inv, LogOf, BlocksOk, RamOk, AllOk, LiveIn, Base, MapBelow, OthersSame, Since, SameFiles, OneChunk;
      hide Written, LastStart, Stored, ChunksOf, Widened, Grew, C.Edited;
      ghost var n0, s0, f0, m0 := |moments|, synced, files, M();
      BlankNow(o);
      HandleHole(o, offset);
      ghost var f1, s1, ms, stale1, m1 := files, synced, moments, stale, M();
      nDone := DoFileWr(o, offset, data);
      GrewWrite(cs, m0, m1, M(), o, f0[o].size, offset, data[..nDone]);
      WidenedWrite(cs, f0[o].chunks.Keys, f1[o].chunks.Keys, files[o].chunks.Keys, f0[o].size, offset, nDone);
      OthersTrans(f0, f1, files, o);
      WroteTexts(cs, m0, M(), f0, files, o, offset, data[..nDone]);
      SinceLess(moments, |ms|, s1 - {o}, s0 - {o});
      SinceMore(ms, moments, n0, s0 - {o});
      if s0 <= s1 && Since(ms, n0, s0) && Since(moments, |ms|, s1) {
        SinceLess(moments, |ms|, s1, s0);
        SinceMore(ms, moments, n0, s0);
      }
    }

    /** Past its size the file is zero. */
    ghost predicate Blank(o: nat)
      reads this
    {
      o in files && C.ZeroPast(cs, M(), o, files[o].size)
    }

    /** Between calls every file is that has not been unlinked. */
    lemma BlankNow(o: nat)
      requires Valid() && o in files
      ensures !files[o].gone ==> Blank(o)
    {
      hide C.ZeroPast;
    }

    /** The growing half of yaffs_resize_file. */
    method GrowFile(o: nat, newSize: nat)
      requires Valid() && o in files && files[o].size < newSize <= MaxSize(cs)
      modifies this
      ensures Valid() && o in files && OthersSame(old(files), files, o)
      ensures files[o].size == newSize && files[o].gone == old(files)[o].gone && refused >= old(refused)
      ensures Grew(cs, old(M()), M(), o, old(files)[o].size, newSize, [])
      ensures Widened(cs, old(files)[o].chunks.Keys, files[o].chunks.Keys, old(files)[o].size, newSize, 0, 0)
      ensures old(moments) <= moments && Kept(|old(moments)|, old(synced) - {o})
    {
      hide Inv, LogOf, BlocksOk, RamOk, AllOk, LiveIn, Base, MapBelow, OthersSame, Since, SameFiles;
      hide Stored, ChunksOf, Widened, Grew;
      ghost var f0 := files;
      HandleHole(o, newSize);
      ghost var f1 := files;
      FinishWrite(o, newSize, files[o].size, false);
      OthersPut(f1, o, files[o]);
      OthersTrans(f0, f1, files, o);
    }

    /** yaffs_resize_file: the file becomes the byte array cut or extended with zeros, and no other file
      changes.  A file that grows keeps its chunks, and any new ones lie in the gap.  Afterwards a mount
      would find the file as RAM has it, unless a page was refused. */
    method ResizeFile(o: nat, newSize: nat)
      requires Valid() && o in files && newSize <= MaxSize(cs)
      modifies this
      ensures Valid() && o in files && OthersSame(old(files), files, o)
      ensures files[o].size == newSize && files[o].gone == old(files)[o].gone
      ensures old(moments) <= moments && Kept(|old(moments)|, old(synced) - {o})
      ensures newSize != old(files)[o].size && !files[o].gone && refused == old(refused) ==> o in synced
      ensures newSize >= old(files)[o].size ==>
                && Grew(cs, old(M()), M(), o, old(files)[o].size, newSize, [])
                && Widened(cs, old(files)[o].chunks.Keys, files[o].chunks.Keys, old(files)[o].size, newSize, 0, 0)
      // an unlinked file gets no header
      ensures files[o].gone && newSize <= old(files)[o].size ==> refused == old(refused)
      ensures newSize == old(files)[o].size ==> SameFiles(old(files), files) && Flash() == old(Flash())
      ensures newSize < old(files)[o].size ==> C.ClearedFrom(cs, old(M()), M(), o, newSize)
      ensures !files[o].gone || old(Blank(o)) ==> Text(o) == S.PlainResize(old(Text(o)), newSize) && Blank(o)
      ensures forall p: nat :: p != o ==> Text(p) == old(Text(p))
      ensures newSize < old(files)[o].size ==>
                forall c: ChunkId :: c in files[o].chunks <==>
                  (c in old(files)[o].chunks && Base(cs, c) < newSize) || (newSize % cs != 0 && c == newSize / cs + 1)
    {
      hide Inv, LogOf, BlocksOk, RamOk, AllOk, LiveIn, Base, MapBelow, OthersSame, SameFiles, CutKeys, Since;
      hide Stored, ChunksOf, Widened, Grew, C.ClearedFrom;
      ghost var f0, n0, s0, m0 := files, |moments|, synced, M();
      BlankNow(o);
      GrewNone(cs, m0, o, f0[o].size, newSize);
      WidenedNone(cs, f0[o].chunks.Keys, f0[o].size, newSize);
      CheckGc(Idle);
      GcIdle(cs, moments, n0, s0, synced, old(stale), stale, files, o);
      ghost var f1, ms1, s1 := files, moments, synced;
      OthersOf(f0, f1, o);
      BelowNow(o);
      if newSize == files[o].size {
        ResizedTexts(cs, m0, M(), f0, files, o, newSize);
        return;
      }
      if newSize > files[o].size {
        GrowFile(o, newSize);
      } else {
        ResizeFileDown(o, newSize);
        CutKeysIs(cs, f1[o], files[o], newSize);
      }
      ghost var f2, ms2, s2 := files, moments, synced;
      OthersTrans(f0, f1, f2, o);
      SinceLess(ms2, |ms1|, s1 - {o}, s0 - {o});
      SinceMore(ms1, ms2, n0, s0 - {o});
      if !files[o].gone {
        var ok := UpdateOh(o);
        OthersOf(f2, files, o);
        OthersTrans(f0, f2, files, o);
        SinceLess(moments, |ms2|, s2, s0 - {o});
        SinceMore(ms2, moments, n0, s0 - {o});
      }
      CutKeysSame(cs, f0[o], f1[o], f2[o], files[o], newSize);
      ResizedTexts(cs, m0, M(), f0, files, o, newSize);
    }

    /** yaffs_flush_file with no cached data: writes the header. */
    method FlushFile(o: nat) returns (ok: bool)
      requires Valid() && o in files
      modifies this
      ensures Valid() && SameFiles(old(files), files) && Flash() == old(Flash())
      ensures refused == old(refused) + if ok then 0 else 1
      ensures ok && !old(files)[o].gone ==> o in synced
      ensures old(moments) <= moments && Kept(|old(moments)|, old(synced))
    {
      hide Inv, LogOf, BlocksOk, RamOk, AllOk, Stored, ChunksOf, LiveIn, Since;
      ok := UpdateOh(o);
    }

    /** Creating a file writes its first header; without a page for it there is no file. */
    method CreateFile(o: nat) returns (ok: bool)
      requires Valid() && o !in files
      modifies this
      ensures Valid() && refused == old(refused) + if ok then 0 else 1
      ensures files.Keys == old(files).Keys + if ok then {o} else {}
      ensures ok ==> files[o].size == 0 && files[o].chunks == map[] && !files[o].gone && o in synced
      ensures Flash() == old(Flash()) && (ok ==> Text(o) == [])
      ensures SameFiles(old(files), files - {o})
      ensures old(moments) <= moments && Kept(|old(moments)|, old(synced))
    {
      hide Inv, LogOf, BlocksOk, RamOk, AllOk, Stored, ChunksOf, LiveIn, Since, Grown;
      ghost var n0, s0 := |moments|, synced;
      CheckGc(Idle);
      GcIdle(cs, moments, n0, s0, synced, old(stale), stale, files, o);
      assert files - {o} == files;
      var full :| full || !full;
      if full {
        refused := refused + 1;
        return false;
      }
      ghost var f1, ms1, s1 := files, moments, synced;
      PutFirstHeader(o);
      SinceLess(moments, |ms1|, s1, s0);
      SinceMore(ms1, moments, n0, s0);
      ghost var f2, ms2, s2 := files, moments, synced;
      assert f2 - {o} == f1;
      var again :| again || !again;
      if again {
        SkipRest();
        PutHeaders(o);
        SinceLess(moments, |ms2|, s2, s0);
        SinceMore(ms2, moments, n0, s0);
        assert files[o].chunks.Keys == {};
        assert files[o].chunks == map[];
      }
      ok := true;
    }

    /** One attempt at writing the first header of a file. */
    method PutFirstHeader(o: nat)
      requires Valid() && o !in files
      modifies this`blocks, this`seqNumber, this`open, this`hasShrink, this`pages, this`moments, this`files, this`synced
      ensures Valid() && o in files && files == old(files)[o := File(0, files[o].hdr, map[], false)]
      ensures Flash() == old(Flash())
      ensures synced == old(synced) + {o}
      ensures old(moments) <= moments && Since(moments, |old(moments)|, old(synced))
    {
      hide Inv, LogOf, BlocksOk, RamOk, AllOk, Clean, Backed, ChunksOf, LiveIn, Grown;
      ghost var log := TheLog();
      var tag := Header(o, 0, false, false);
      var failures: nat :| 0 <= failures;
      var addr := Program(Idle, tag, [], failures);
      StepCreate(cs, log, files, synced, Rec(addr, tag));
      ghost var ms := moments;
      CleanNew(cs, files, pages, o, File(0, addr, map[], false));
      files := files[o := File(0, addr, map[], false)];
      synced := synced + {o};
      Mark(Idle);
      SinceLess(moments, |ms|, synced, old(synced));
      SinceMore(ms, moments, |old(moments)|, old(synced));
    }

    /** One attempt at writing the header that names the unlinked directory. */
    method PutUnlink(o: nat)
      requires Valid() && o in files
      modifies this`blocks, this`seqNumber, this`open, this`hasShrink, this`pages, this`moments, this`files
      ensures Valid() && o in files && files == old(files)[o := old(files)[o].(hdr := files[o].hdr, gone := true)]
      ensures Flash() == old(Flash())
      ensures old(moments) <= moments && Since(moments, |old(moments)|, synced)
    {
      hide Inv, LogOf, BlocksOk, RamOk, AllOk, Clean, Backed, ChunksOf, LiveIn, Grown;
      ghost var log := TheLog();
      var tag := Header(o, 0, false, true);
      var failures: nat :| 0 <= failures;
      var addr := Program(Idle, tag, [], failures);
      StepUnlink(cs, log, files, synced, Rec(addr, tag));
      ghost var ms := moments;
      SameChunks(files, pages, o, files[o].(hdr := addr, gone := true));
      CleanLater(cs, files, Flash(), Idle, files[o := files[o].(hdr := addr, gone := true)], Idle);
      files := files[o := files[o].(hdr := addr, gone := true)];
      Mark(Idle);
      SinceMore(ms, moments, |old(moments)|, synced);
    }

    /** Unlinking a file that is still open: it moves to the unlinked directory. */
    method UnlinkOpen(o: nat)
      requires Valid() && o in files
      modifies this
      ensures Valid() && o in files && OthersSame(old(files), files, o) && refused == old(refused)
      ensures Flash() == old(Flash())
      ensures files[o].gone && files[o].size == old(files)[o].size && files[o].chunks.Keys == old(files)[o].chunks.Keys
      ensures old(moments) <= moments && Kept(|old(moments)|, old(synced))
    {
      hide Inv, LogOf, BlocksOk, RamOk, AllOk, Stored, ChunksOf, LiveIn, Since, GcKept, SameFiles;
      ghost var files0 := files;
      ghost var n0, s0 := |moments|, synced;
      CheckGc(Idle);
      GcIdle(cs, moments, n0, s0, synced, old(stale), stale, files, o);
      ghost var files1, ms1, s1 := files, moments, synced;
      OthersOf(files0, files1, o);
      PutUnlink(o);
      ghost var files2 := files;
      SameRefl(files2);
      SinceLess(moments, |ms1|, s1, s0);
      SinceMore(ms1, moments, n0, s0);
      ghost var ms2 := moments;
      var again :| again || !again;
      if again {
        SkipRest();
        PutHeaders(o);
        SinceLess(moments, |ms2|, s1, s0);
        SinceMore(ms2, moments, n0, s0);
      }
      ghost var ms3, s3 := moments, synced;
      Sweep(Idle);
      SinceLess(moments, |ms3|, s3, s0);
      SinceMore(ms3, moments, n0, s0);
      UnlinkSame(files0, files1, files2, files, o);
    }

    /** Deleting a file for good: a shrink header naming the deleted directory, then the
      object leaves RAM. */
    method DelFile(o: nat)
      requires Valid() && o in files
      modifies this
      ensures Valid() && SameFiles(old(files) - {o}, files) && refused == old(refused)
      ensures forall p: nat :: p != o ==> Text(p) == old(Text(p))
      ensures old(moments) <= moments && Kept(|old(moments)|, old(synced) - {o})
    {
      hide Inv, LogOf, BlocksOk, RamOk, AllOk, Clean, Backed, ChunksOf, LiveIn, Since, Grown;
      ghost var n0, s0, f0, m0 := |moments|, synced, files, M();
      CheckGc(Idle);
      GcIdle(cs, moments, n0, s0, synced, old(stale), stale, files, o);
      ghost var ms1, s1, log := moments, synced, TheLog();
      var tag := Header(o, 0, true, true);
      var failures: nat :| 0 <= failures;
      var addr := Program(Idle, tag, [], failures);
      StepDelete(cs, log, files, synced, Rec(addr, tag));
      CleanWithout(cs, files, pages, o);
      files := files - {o};
      synced := synced - {o};
      ghost var ms2 := moments;
      Mark(Idle);
      SinceLess(ms2, |ms1|, s1, s1 - {o});
      SinceMore(ms2, moments, |ms1|, s1 - {o});
      ghost var ms3 := moments;
      Sweep(Idle);
      SinceMore(ms3, moments, |ms1|, s1 - {o});
      SinceLess(moments, |ms1|, s1 - {o}, s0 - {o});
      SinceLess(ms1, n0, s0, s0 - {o});
      SinceMore(ms1, moments, n0, s0 - {o});
      TextsOf(cs, m0, M(), f0, files, o);
    }
  }
}
