/** What the pages of the log hold, and what a file reads as through its chunk map.

  A page has a data area beside the tags the log is made of.  A file's contents are those of a
  cache model without entries whose flash is the chunk map looked up in the data areas. */
module Contents {
  import opened ScanLog
  import opened FileLog
  import opened RunLog
  import C = ChunkView
  import S = ShortOpCache

  type Byte = C.Byte

  /** The data areas of programmed pages, by address. */
  type Pages = map<nat, seq<Byte>>

  function PageAt(pages: Pages, addr: nat): seq<Byte> { if addr in pages then pages[addr] else [] }

  /** Every chunk of every file with what its page holds. */
  function ChunksOf(files: Files, pages: Pages): C.Flash {
    map o, c | o in files && c in files[o].chunks :: C.Key(o, c) := PageAt(pages, files[o].chunks[c])
  }

  predicate Mapped(files: Files, k: C.Key) {
    k.obj in files && k.chunk > 0 && k.chunk in files[k.obj].chunks
  }

  function AddrAt(files: Files, k: C.Key): nat
    requires Mapped(files, k)
  {
    files[k.obj].chunks[k.chunk]
  }

  lemma ChunkAt(files: Files, pages: Pages, k: C.Key)
    ensures k in ChunksOf(files, pages) <==> Mapped(files, k)
    ensures Mapped(files, k) ==> ChunksOf(files, pages)[k] == PageAt(pages, AddrAt(files, k))
  {
    var m := ChunksOf(files, pages);
    if Mapped(files, k) {
      var o, c: ChunkId := k.obj, k.chunk;
      assert k == C.Key(o, c);
    }
  }

  /** Chunk maps of files that look up the same. */
  lemma ChunksSame(files: Files, pages: Pages, files': Files, pages': Pages)
    requires forall k: C.Key :: Mapped(files, k) <==> Mapped(files', k)
    requires forall k: C.Key :: Mapped(files, k) && Mapped(files', k) ==>
               PageAt(pages, AddrAt(files, k)) == PageAt(pages', AddrAt(files', k))
    ensures ChunksOf(files, pages) == ChunksOf(files', pages')
  {
    hide ChunksOf, Mapped, AddrAt, PageAt;
    var a, b := ChunksOf(files, pages), ChunksOf(files', pages');
    forall k: C.Key ensures (k in a <==> k in b) && (k in a ==> a[k] == b[k]) {
      ChunkAt(files, pages, k);
      ChunkAt(files', pages', k);
    }
  }

  /** A change of size, header or directory leaves the contents alone. */
  lemma SameChunks(files: Files, pages: Pages, o: nat, f: File)
    requires o in files && f.chunks == files[o].chunks
    ensures ChunksOf(files[o := f], pages) == ChunksOf(files, pages)
  {
    ChunksSame(files, pages, files[o := f], pages);
  }

  /** One chunk is mapped to a page. */
  lemma ChunkPut(files: Files, pages: Pages, o: nat, c: ChunkId, addr: nat)
    requires o in files
    ensures var f := files[o];
            ChunksOf(files[o := f.(chunks := f.chunks[c := addr])], pages) ==
              ChunksOf(files, pages)[C.Key(o, c) := PageAt(pages, addr)]
  {
    var files' := files[o := files[o].(chunks := files[o].chunks[c := addr])];
    var a, b := ChunksOf(files', pages), ChunksOf(files, pages)[C.Key(o, c) := PageAt(pages, addr)];
    forall k: C.Key ensures (k in a <==> k in b) && (k in a ==> a[k] == b[k]) {
      ChunkAt(files, pages, k);
      ChunkAt(files', pages, k);
    }
  }

  /** A live chunk moved to a page with the same contents. */
  lemma ChunkMoved(files: Files, was: Pages, pages: Pages, q: Rec, addr: nat)
    requires q.tag.Data? && Live(files, q) && ChunksOf(files, pages) == ChunksOf(files, was)
    requires PageAt(pages, addr) == PageAt(was, q.addr)
    ensures var f := files[q.tag.obj];
            ChunksOf(files[q.tag.obj := f.(chunks := f.chunks[q.tag.chunk := addr])], pages) == ChunksOf(files, was)
  {
    ChunkPut(files, pages, q.tag.obj, q.tag.chunk, addr);
    ChunkAt(files, was, C.Key(q.tag.obj, q.tag.chunk));
  }

  // ---------- the log and the pages ----------

  /** Every data page of the log has its data area. */
  ghost predicate Backed(cs: Pos, log: Log, pages: Pages)
  {
    forall r :: r in log && r.tag.Data? ==> r.addr in pages && |pages[r.addr]| == cs
  }

  function Until(b: Busy, o: nat, f: File): nat { if Found(b, o, f) < 0 then 0 else Found(b, o, f) }

  /** Past the end of a file, or of what the call under way has written, there are only zeros. */
  ghost predicate Clean(cs: Pos, files: Files, flash: C.Flash, b: Busy)
  {
    forall o :: o in files && !files[o].gone ==> C.ZeroPast(cs, C.Mem([], flash), o, Until(b, o, files[o]))
  }

  /** The contents of flash are sound. */
  ghost predicate Stored(cs: Pos, log: Log, files: Files, pages: Pages, b: Busy)
  {
    Backed(cs, log, pages) && Clean(cs, files, ChunksOf(files, pages), b)
  }

  /** Mapped pages are on the log. */
  lemma MappedPage(cs: Pos, log: Log, files: Files, synced: set<nat>, b: Busy, k: C.Key)
    requires Inv(cs, log, files, synced, b) && Mapped(files, k)
    ensures exists r :: r in log && r.addr == AddrAt(files, k) && r.tag.Data?
  {
    var o, c: ChunkId := k.obj, k.chunk;
    assert FileInv(cs, log, o, files[o], ClaimOf(b, synced, o, files[o]));
    var r :| r in log && IsChunk(r, o, c, files[o].chunks[c]);
  }

  /** Programming a page that is not on the log changes the contents of no file. */
  lemma PageFilled(cs: Pos, log: Log, files: Files, synced: set<nat>, b: Busy, pages: Pages, addr: nat, data: seq<Byte>)
    requires Inv(cs, log, files, synced, b) && forall q :: q in log ==> q.addr != addr
    ensures ChunksOf(files, pages[addr := data]) == ChunksOf(files, pages)
  {
    forall k: C.Key | Mapped(files, k)
      ensures AddrAt(files, k) != addr
    {
      MappedPage(cs, log, files, synced, b, k);
    }
    hide Inv, ChunksOf;
    ChunksSame(files, pages, files, pages[addr := data]);
  }

  /** Erasing pages none of which is live changes the contents of no file. */
  lemma PagesErased(cs: Pos, log: Log, files: Files, synced: set<nat>, b: Busy, pages: Pages, erased: set<nat>)
    requires Inv(cs, Keep(log, erased), files, synced, b) && Stored(cs, log, files, pages, b)
    ensures ChunksOf(files, pages - erased) == ChunksOf(files, pages)
    ensures Stored(cs, Keep(log, erased), files, pages - erased, b)
  {
    hide Clean;
    forall r ensures r in Keep(log, erased) <==> r in log && r.addr !in erased { KeepMembers(log, erased, r); }
    forall k: C.Key | Mapped(files, k)
      ensures AddrAt(files, k) !in erased
    {
      MappedPage(cs, Keep(log, erased), files, synced, b, k);
    }
    hide Inv, ChunksOf;
    ChunksSame(files, pages, files, pages - erased);
  }

  lemma BackedMore(cs: Pos, log: Log, pages: Pages, r: Rec, data: seq<Byte>)
    requires Backed(cs, log, pages) && forall q :: q in log ==> q.addr != r.addr
    ensures Backed(cs, log, pages[r.addr := data])
    ensures r.tag.Header? || |data| == cs ==> Backed(cs, log + [r], pages[r.addr := data])
  {
    forall q | q in log + [r] && q.tag.Data?
      ensures q == r || (q.addr in pages[r.addr := data] && |pages[r.addr := data][q.addr]| == cs)
    {
      if q != r { assert q in log; }
    }
  }

  // ---------- the contents as bytes ----------

  /** Without a cache a byte is looked up in its chunk. */
  lemma ByteOf(cs: Pos, flash: C.Flash, o: nat, i: nat)
    ensures var d := C.Under(cs, flash, C.Key(o, C.Quot(cs, i) + 1));
            C.ByteAt(cs, C.Mem([], flash), o, i) == if |d| == cs then d[C.Rem(cs, i)] else 0
  {
    S.UncachedView(cs, [], flash, C.Key(o, C.Quot(cs, i) + 1));
  }

  lemma PlaceBase(cs: Pos, i: nat)
    ensures var c: ChunkId := C.Quot(cs, i) + 1; i == Base(cs, c) + C.Rem(cs, i)
  {
    C.PlaceIs(cs, i);
  }

  /** From `end` on the chunk holds zeros. */
  predicate ZeroFrom(cs: Pos, c: ChunkId, data: seq<Byte>, end: int) {
    forall i :: 0 <= i < |data| && Base(cs, c) + i >= end ==> data[i] == 0
  }

  /** A chunk is written by a call that has come as far as `b'` says. */
  lemma CleanPut(cs: Pos, files: Files, flash: C.Flash, b: Busy, files': Files, b': Busy, o: nat, c: ChunkId,
                 data: seq<Byte>)
    requires Clean(cs, files, flash, b) && |data| == cs && o in files && o in files' && files' == files[o := files'[o]]
    requires files'[o].gone == files[o].gone
    requires forall p :: p in files && p != o ==> Until(b', p, files[p]) == Until(b, p, files[p])
    requires files[o].gone ||
             (Until(b, o, files[o]) <= Until(b', o, files'[o]) && ZeroFrom(cs, c, data, Until(b', o, files'[o])))
    ensures Clean(cs, files', flash[C.Key(o, c) := data], b')
  {
    hide C.ByteAt, C.Quot, Base;
    var flash' := flash[C.Key(o, c) := data];
    var m, m' := C.Mem([], flash), C.Mem([], flash');
    forall p | p in files' && !files'[p].gone
      ensures C.ZeroPast(cs, m', p, Until(b', p, files'[p]))
    {
      assert C.ZeroPast(cs, m, p, Until(b, p, files[p]));
      forall i: nat | i >= Until(b', p, files'[p]) ensures C.ByteAt(cs, m', p, i) == 0 {
        ByteOf(cs, flash, p, i);
        ByteOf(cs, flash', p, i);
        PlaceBase(cs, i);
      }
    }
  }

  /** The call under way has come further. */
  lemma CleanLater(cs: Pos, files: Files, flash: C.Flash, b: Busy, files': Files, b': Busy)
    requires Clean(cs, files, flash, b) && files'.Keys == files.Keys
    requires forall p :: p in files && !files'[p].gone ==>
               !files[p].gone && Until(b, p, files[p]) <= Until(b', p, files'[p])
    ensures Clean(cs, files', flash, b')
  {
    hide C.ByteAt;
    forall p | p in files' && !files'[p].gone
      ensures C.ZeroPast(cs, C.Mem([], flash), p, Until(b', p, files'[p]))
    {
      assert C.ZeroPast(cs, C.Mem([], flash), p, Until(b, p, files[p]));
    }
  }

  /** Every chunk is as long as a page. */
  lemma ChunkSizes(cs: Pos, log: Log, files: Files, synced: set<nat>, b: Busy, pages: Pages)
    requires Inv(cs, log, files, synced, b) && Backed(cs, log, pages)
    ensures C.MemOk(cs, C.Mem([], ChunksOf(files, pages)))
  {
    var flash := ChunksOf(files, pages);
    forall k | k in flash ensures |flash[k]| == cs {
      ChunkAt(files, pages, k);
      MappedPage(cs, log, files, synced, b, k);
    }
  }

  /** Writing `bytes` into one chunk edits those bytes of the file and no others. */
  lemma ChunkWritten(cs: Pos, flash: C.Flash, o: nat, c: ChunkId, pos: nat, bytes: seq<Byte>)
    requires C.MemOk(cs, C.Mem([], flash)) && Base(cs, c) <= pos && pos + |bytes| <= Base(cs, c) + cs
    ensures |C.Under(cs, flash, C.Key(o, c))| == cs
    ensures var data := C.Patch(C.Under(cs, flash, C.Key(o, c)), pos - Base(cs, c), bytes);
            C.Edited(cs, C.Mem([], flash), C.Mem([], flash[C.Key(o, c) := data]), o, pos, bytes)
  {
    hide C.Edited;
    var m := C.Mem([], flash);
    S.UnderSize2(cs, m, C.Key(o, c));
    S.WroteUnder(cs, m, o, c - 1, pos - Base(cs, c), bytes);
  }

  /** A chunk into which a call writes holds zeros from where the call has come to. */
  lemma PieceZero(cs: Pos, files: Files, flash: C.Flash, b: Busy, o: nat, c: ChunkId, pos: nat, bytes: seq<Byte>,
                  end: int)
    requires Clean(cs, files, flash, b) && o in files && !files[o].gone && C.MemOk(cs, C.Mem([], flash))
    requires Base(cs, c) <= pos && pos + |bytes| <= Base(cs, c) + cs
    requires Until(b, o, files[o]) <= end && pos + |bytes| <= end
    ensures |C.Under(cs, flash, C.Key(o, c))| == cs
    ensures ZeroFrom(cs, c, C.Patch(C.Under(cs, flash, C.Key(o, c)), pos - Base(cs, c), bytes), end)
  {
    var m := C.Mem([], flash);
    S.UnderSize2(cs, m, C.Key(o, c));
    var d := C.Under(cs, flash, C.Key(o, c));
    assert C.ZeroPast(cs, m, o, Until(b, o, files[o]));
    forall i | 0 <= i < cs && Base(cs, c) + i >= end ensures d[i] == 0 {
      C.PlaceOf(cs, c - 1, i);
      ByteOf(cs, flash, o, (c - 1) * cs + i);
    }
  }

  /** The call under way has come further, on the same files. */
  lemma StoredLater(cs: Pos, log: Log, files: Files, pages: Pages, b: Busy, b': Busy)
    requires Stored(cs, log, files, pages, b)
    requires forall p :: p in files ==> Until(b, p, files[p]) <= Until(b', p, files[p])
    ensures Stored(cs, log, files, pages, b')
  {
    hide ChunksOf;
    CleanLater(cs, files, ChunksOf(files, pages), b, files, b');
  }

  // ---------- growing ----------

  /** File `o` holds `bytes` from `pos` on, and zeros may have come in from `size` on; every other
    byte of every file is as before. */
  ghost predicate Grew(cs: Pos, m: C.Mem, m': C.Mem, o: nat, size: nat, pos: nat, bytes: seq<Byte>)
  {
    forall g: nat, i: nat ::
      if g == o && pos <= i < pos + |bytes| then C.ByteAt(cs, m', g, i) == bytes[i - pos]
      else C.ByteAt(cs, m', g, i) == C.ByteAt(cs, m, g, i) || (g == o && i >= size && C.ByteAt(cs, m', g, i) == 0)
  }

  lemma GrewNone(cs: Pos, m: C.Mem, o: nat, size: nat, pos: nat)
    ensures Grew(cs, m, m, o, size, pos, [])
  {}

  /** A gap filled with zeros. */
  lemma GrewZeros(cs: Pos, m: C.Mem, m': C.Mem, o: nat, size: nat, pos: nat, k: nat)
    requires C.Edited(cs, m, m', o, size, C.Zeros(k))
    ensures Grew(cs, m, m', o, size, pos, [])
  {
    hide C.ByteAt;
  }

  /** A gap filled in part, and cut off again. */
  lemma GrewCut(cs: Pos, m: C.Mem, m1: C.Mem, m2: C.Mem, o: nat, size: nat, pos: nat, k: nat)
    requires C.Edited(cs, m, m1, o, size, C.Zeros(k)) && C.ClearedFrom(cs, m1, m2, o, size)
    ensures Grew(cs, m, m2, o, size, pos, [])
  {
    hide C.ByteAt;
  }

  lemma GrewWrite(cs: Pos, m: C.Mem, m1: C.Mem, m2: C.Mem, o: nat, size: nat, pos: nat, bytes: seq<Byte>)
    requires Grew(cs, m, m1, o, size, pos, []) && C.Edited(cs, m1, m2, o, pos, bytes)
    ensures Grew(cs, m, m2, o, size, pos, bytes)
  {
    hide C.ByteAt;
  }

  function SizeIn(files: Files, o: nat): nat { if o in files then files[o].size else 0 }

  /** A file that is zero past its size is the byte array after a zero-extending write. */
  lemma TextGrew(cs: Pos, m: C.Mem, m': C.Mem, o: nat, size: nat, pos: nat, bytes: seq<Byte>)
    requires Grew(cs, m, m', o, size, pos, bytes) && C.ZeroPast(cs, m, o, size)
    ensures S.TextOf(cs, m', o, S.Max(size, pos + |bytes|)) == S.PlainWrite(S.TextOf(cs, m, o, size), pos, bytes)
    ensures C.ZeroPast(cs, m', o, S.Max(size, pos + |bytes|))
  {
    hide C.ByteAt;
  }

  lemma TextResized(cs: Pos, m: C.Mem, m': C.Mem, o: nat, size: nat, newSize: nat)
    requires Grew(cs, m, m', o, size, newSize, []) && C.ZeroPast(cs, m, o, size) && size <= newSize
    ensures S.TextOf(cs, m', o, newSize) == S.PlainResize(S.TextOf(cs, m, o, size), newSize)
    ensures C.ZeroPast(cs, m', o, newSize)
  {
    hide C.ByteAt;
  }

  lemma TextCutShort(cs: Pos, m: C.Mem, m': C.Mem, o: nat, size: nat, newSize: nat)
    requires C.ClearedFrom(cs, m, m', o, newSize) && newSize <= size
    ensures S.TextOf(cs, m', o, newSize) == S.PlainResize(S.TextOf(cs, m, o, size), newSize)
    ensures C.ZeroPast(cs, m', o, newSize)
  {
    hide C.ByteAt;
  }

  /** The other files. */
  lemma TextsOf(cs: Pos, m: C.Mem, m': C.Mem, files: Files, files': Files, o: nat)
    requires forall p: nat :: p != o ==> SizeIn(files, p) == SizeIn(files', p)
    requires forall p: nat, i: nat :: p != o ==> C.ByteAt(cs, m', p, i) == C.ByteAt(cs, m, p, i)
    ensures forall p: nat :: p != o ==> S.TextOf(cs, m', p, SizeIn(files', p)) == S.TextOf(cs, m, p, SizeIn(files, p))
  {
    hide C.ByteAt;
  }

  // ---------- cutting ----------

  /** The chunks at or above a cut are taken out of the map. */
  lemma ChunksCut(cs: Pos, files: Files, pages: Pages, o: nat, s: nat)
    requires o in files
    ensures var files' := files[o := files[o].(chunks := CutAt(cs, files[o].chunks, s))];
            C.ClearedFrom(cs, C.Mem([], ChunksOf(files, pages)), C.Mem([], ChunksOf(files', pages)), o,
                          S.RoundUp(cs, s))
  {
    var files' := files[o := files[o].(chunks := CutAt(cs, files[o].chunks, s))];
    var flash, flash' := ChunksOf(files, pages), ChunksOf(files', pages);
    forall g: nat, i: nat
      ensures C.ByteAt(cs, C.Mem([], flash'), g, i) ==
                if g == o && i >= S.RoundUp(cs, s) then 0 else C.ByteAt(cs, C.Mem([], flash), g, i)
    {
      hide ChunksOf, C.ByteAt, S.RoundUp, C.Quot, Base;
      var k := C.Key(g, C.Quot(cs, i) + 1);
      ByteOf(cs, flash, g, i);
      ByteOf(cs, flash', g, i);
      ChunkAt(files, pages, k);
      ChunkAt(files', pages, k);
      CutPlace(cs, s, i);
    }
  }

  /** Chunks are cut off, or bytes zeroed. */
  lemma CleanCut(cs: Pos, files: Files, flash: C.Flash, b: Busy, files': Files, flash': C.Flash, b': Busy, o: nat,
                 s: nat)
    requires Clean(cs, files, flash, b) && o in files && o in files' && files' == files[o := files'[o]]
    requires files'[o].gone == files[o].gone && C.ClearedFrom(cs, C.Mem([], flash), C.Mem([], flash'), o, s)
    requires forall p :: p in files && p != o ==> Until(b', p, files[p]) == Until(b, p, files[p])
    requires Until(b, o, files[o]) <= Until(b', o, files'[o]) || s <= Until(b', o, files'[o])
    ensures Clean(cs, files', flash', b')
  {
    hide C.ByteAt;
    var m, m' := C.Mem([], flash), C.Mem([], flash');
    forall p | p in files' && !files'[p].gone
      ensures C.ZeroPast(cs, m', p, Until(b', p, files'[p]))
    {
      assert C.ZeroPast(cs, m, p, Until(b, p, files[p]));
    }
  }

  /** The tail of a chunk cleared for a cut at `newSize` inside it. */
  lemma TailZero(cs: Pos, c: ChunkId, buffer: seq<Byte>, n: nat, end: int)
    requires |buffer| == cs && n <= cs && Base(cs, c) + n <= end
    ensures |C.ZeroTail(buffer, n)| == cs && ZeroFrom(cs, c, C.ZeroTail(buffer, n), end)
  {}

  lemma NoEntries(o: nat)
    ensures S.NoEntry([], o)
  {}

  lemma CutPlace(cs: Pos, s: nat, i: nat)
    ensures i >= S.RoundUp(cs, s) <==> Base(cs, C.Quot(cs, i) + 1) >= s
  {
    hide C.Quot;
    S.StartChunk(cs, s, s);
    var q, r := C.Quot(cs, s + cs - 1), C.Quot(cs, i);
    C.PlaceIs(cs, i);
    BaseOrder(cs, q + 1, r + 1);
  }

  // ---------- creating and deleting ----------

  /** A new file has no chunks. */
  lemma CleanNew(cs: Pos, files: Files, pages: Pages, o: nat, f: File)
    requires o !in files && f.chunks == map[] && Clean(cs, files, ChunksOf(files, pages), Idle)
    ensures ChunksOf(files[o := f], pages) == ChunksOf(files, pages)
    ensures Clean(cs, files[o := f], ChunksOf(files, pages), Idle)
  {
    var files' := files[o := f];
    ChunksSame(files, pages, files', pages);
    var flash := ChunksOf(files, pages);
    hide ChunksOf;
    forall p | p in files' && !files'[p].gone
      ensures C.ZeroPast(cs, C.Mem([], flash), p, Until(Idle, p, files'[p]))
    {
      if p != o {
        assert C.ZeroPast(cs, C.Mem([], flash), p, Until(Idle, p, files[p]));
      } else {
        forall i: nat ensures C.ByteAt(cs, C.Mem([], flash), o, i) == 0 {
          ChunkAt(files, pages, C.Key(o, C.Quot(cs, i) + 1));
          ByteOf(cs, flash, o, i);
        }
      }
    }
  }

  /** The other files keep their contents when one leaves the table. */
  lemma CleanWithout(cs: Pos, files: Files, pages: Pages, o: nat)
    requires Clean(cs, files, ChunksOf(files, pages), Idle)
    ensures Clean(cs, files - {o}, ChunksOf(files - {o}, pages), Idle)
    ensures forall p: nat, i: nat :: p != o ==>
              C.ByteAt(cs, C.Mem([], ChunksOf(files - {o}, pages)), p, i) ==
              C.ByteAt(cs, C.Mem([], ChunksOf(files, pages)), p, i)
  {
    var files' := files - {o};
    var flash, flash' := ChunksOf(files, pages), ChunksOf(files', pages);
    hide ChunksOf;
    forall p: nat, i: nat | p != o
      ensures C.ByteAt(cs, C.Mem([], flash'), p, i) == C.ByteAt(cs, C.Mem([], flash), p, i)
    {
      SameByte(cs, files, files', pages, p, i);
    }
    hide C.ByteAt;
    forall p | p in files' && !files'[p].gone
      ensures C.ZeroPast(cs, C.Mem([], flash'), p, Until(Idle, p, files'[p]))
    {
      assert C.ZeroPast(cs, C.Mem([], flash), p, Until(Idle, p, files[p]));
    }
  }

  /** A file with the same chunk map in two tables reads the same. */
  lemma SameByte(cs: Pos, files: Files, files': Files, pages: Pages, p: nat, i: nat)
    requires p in files <==> p in files'
    requires p in files ==> files'[p].chunks == files[p].chunks
    ensures C.ByteAt(cs, C.Mem([], ChunksOf(files', pages)), p, i) == C.ByteAt(cs, C.Mem([], ChunksOf(files, pages)), p,
                i)
  {
    var k := C.Key(p, C.Quot(cs, i) + 1);
    ChunkAt(files, pages, k);
    ChunkAt(files', pages, k);
    hide ChunksOf;
    ByteOf(cs, ChunksOf(files, pages), p, i);
    ByteOf(cs, ChunksOf(files', pages), p, i);
  }
}
