/** The short-op cache shared by all files, and reading, writing and resizing files through it.

  Programs of flash succeed; the checks for free space may still say no, and then a write
  stops short. */
module ShortOpCache {
  import opened ChunkView

  // ---------- a plain byte array ----------

  /** A byte array read past its end gives zeros. */
  function PlainRead(t: seq<Byte>, pos: nat, n: nat): seq<Byte> {
    seq(n, k requires 0 <= k < n => if pos + k < |t| then t[pos + k] else 0)
  }

  function Max(a: nat, b: nat): nat { if a < b then b else a }

  /** A write past the end first extends the array with zeros. */
  function PlainWrite(t: seq<Byte>, pos: nat, data: seq<Byte>): seq<Byte> {
    seq(Max(|t|, pos + |data|), i requires 0 <= i < Max(|t|, pos + |data|) =>
      if pos <= i < pos + |data| then data[i - pos] else if i < |t| then t[i] else 0)
  }

  function PlainResize(t: seq<Byte>, n: nat): seq<Byte> {
    if n <= |t| then t[..n] else t + Zeros(n - |t|)
  }

  function DirtyCount(cache: Cache, f: nat): nat {
    if cache == [] then 0
    else DirtyCount(cache[..|cache| - 1], f) + if cache[|cache| - 1].obj == Some(f) && cache[|cache| - 1].dirty then 1
                                               else 0
  }

  lemma {:induction false} DirtyLess(cache: Cache, f: nat, i: nat, e: Entry)
    requires i < |cache| && cache[i].obj == Some(f) && cache[i].dirty && e.obj.None?
    ensures DirtyCount(cache[i := e], f) == DirtyCount(cache, f) - 1
    decreases |cache|
  {
    var n := |cache| - 1;
    if i == n {
      assert cache[i := e][..n] == cache[..n];
    } else {
      assert cache[i := e][..n] == cache[..n][i := e];
      DirtyLess(cache[..n], f, i, e);
    }
  }

  /** Entries of other files, and clean ones, are as they were; dirty ones of file `f` may be free. */
  ghost predicate OnlyFreed(c: Cache, c': Cache, f: nat) {
    |c'| == |c| && forall i :: 0 <= i < |c| ==> c'[i] == c[i] || (c[i].obj == Some(f) && c[i].dirty && c'[i].obj.None?)
  }

  ghost predicate NoDirty(c: Cache, f: nat) { forall i :: 0 <= i < |c| ==> !(c[i].obj == Some(f) && c[i].dirty) }

  ghost predicate NoEntry(c: Cache, f: nat) { forall i :: 0 <= i < |c| ==> c[i].obj != Some(f) }

  class Files {
    const cs: Pos
    const bypass: bool
    var cache: Cache
    var flash: Flash
    var sizes: map<nat, nat>
    var lastUse: int
    /** How many pieces of writes found no space. */
    ghost var refused: nat

    ghost function M(): Mem
      reads this
    {
      Mem(cache, flash)
    }

    /** Past the end of a file there are only zeros. */
    ghost predicate Valid()
      reads this
    {
      MemOk(cs, M()) && forall f :: f in sizes ==> ZeroPast(cs, M(), f, sizes[f])
    }

    /** The file as a byte array. */
    ghost function Text(f: nat): seq<Byte>
      reads this
    {
      TextOf(cs, M(), f, if f in sizes then sizes[f] else 0)
    }

    constructor (chunkSize: Pos, nCaches: nat, bypassAligned: bool)
      ensures Valid() && cs == chunkSize && |cache| == nCaches && sizes == map[]
    {
      cs, bypass := chunkSize, bypassAligned;
      cache := seq(nCaches, _ => Entry(None, 0, false, 0, 0, []));
      flash, sizes, lastUse, refused := map[], map[], 0, 0;
    }

    /** A new, empty file. */
    method Create(f: nat)
      requires Valid() && f !in sizes && ZeroPast(cs, M(), f, 0)
      modifies this`sizes
      ensures Valid() && sizes == old(sizes)[f := 0] && Text(f) == []
    {
      sizes := sizes[f := 0];
    }

    /** yaffs_find_chunk_cache. */
    method FindChunkCache(k: Key) returns (r: int)
      ensures -1 <= r < |cache| && (r < 0 <==> !Cached(cache, k)) && (r >= 0 ==> IsFor(cache[r], k))
    {
      for i := 0 to |cache|
        invariant forall j :: 0 <= j < i ==> !IsFor(cache[j], k)
      {
        if IsFor(cache[i], k) { return i; }
      }
      return -1;
    }

    /** yaffs_flush_file_cache: the file's dirty chunks are written, lowest first, and freed. */
    method FlushFileCache(f: nat)
      requires MemOk(cs, M())
      modifies this`cache, this`flash
      ensures MemOk(cs, M()) && SameView(cs, old(cache), old(flash), cache, flash) && OnlyFreed(old(cache), cache, f)
      ensures NoDirty(cache, f)
    {
      hide CacheOk, View, EntryOk, DirtyCount;
      ghost var m0 := M();
      var more := true;
      while more
        invariant MemOk(cs, M()) && SameView(cs, m0.cache, m0.flash, cache, flash) && OnlyFreed(m0.cache, cache, f)
        invariant !more ==> NoDirty(cache, f)
        decreases DirtyCount(cache, f), more
      {
        var low := -1;
        for i := 0 to |cache|
          invariant -1 <= low < |cache| && (low >= 0 ==> cache[low].obj == Some(f) && cache[low].dirty)
          invariant forall j :: 0 <= j < i && cache[j].obj == Some(f) && cache[j].dirty ==>
                      low >= 0 && cache[low].chunk <= cache[j].chunk
        {
          if cache[i].obj == Some(f) && cache[i].dirty {
            if low < 0 || cache[i].chunk < cache[low].chunk { low := i; }
          }
        }
        if low >= 0 {
          ghost var m := M();
          var free := cache[low].(dirty := false, obj := None);
          FlushEntry(cs, cache, flash, low, free);
          DirtyLess(cache, f, low, free);
          flash := flash[Key(f, cache[low].chunk) := cache[low].data];
          cache := cache[low := free];
        } else {
          more := false;
        }
      }
    }

    /** yaffs_grab_chunk_worker. */
    method GrabWorker() returns (r: int)
      ensures -1 <= r < |cache| && (r >= 0 ==> cache[r].obj.None?)
      ensures r < 0 ==> forall i :: 0 <= i < |cache| ==> cache[i].obj.Some?
    {
      for i := 0 to |cache|
        invariant forall j :: 0 <= j < i ==> cache[j].obj.Some?
      {
        if cache[i].obj.None? { return i; }
      }
      return -1;
    }

    /** yaffs_grab_chunk_cache: a free entry, or the least recently used one if it is clean, or,
      after its file has been flushed, a free one. */
    method GrabChunkCache() returns (r: nat)
      requires MemOk(cs, M()) && |cache| > 0
      modifies this`cache, this`flash
      ensures MemOk(cs, M()) && SameView(cs, old(cache), old(flash), cache, flash) && |cache| == old(|cache|)
      ensures r < |cache| && (cache[r].obj.None? || !cache[r].dirty)
      // an entry in use is handed out only if none is free, and it is the one used longest ago
      ensures cache[r].obj.Some? ==> cache == old(cache) && forall j :: 0 <= j < |cache| ==>
                cache[j].obj.Some? && cache[r].lastUse <= cache[j].lastUse
      ensures forall k :: !Cached(old(cache), k) ==> !Cached(cache, k)
    {
      hide CacheOk, View, EntryOk;
      var w := GrabWorker();
      if w >= 0 { return w; }
      var lru: nat := 0;
      for i := 0 to |cache|
        invariant lru < |cache| && forall j :: 0 <= j < i ==> cache[lru].lastUse <= cache[j].lastUse
      {
        if i == 0 || cache[i].lastUse < cache[lru].lastUse { lru := i; }
      }
      if cache[lru].dirty {
        ghost var c0 := cache;
        FlushFileCache(cache[lru].obj.value);
        assert c0[lru] != cache[lru];
        FreedKeys(c0, cache, c0[lru].obj.value);
        w := GrabWorker();
        return w;
      }
      return lru;
    }

    /** yaffs_use_cache; a writer marks the entry dirty when it puts its data in. */
    method UseCache(i: nat)
      requires MemOk(cs, M()) && i < |cache|
      modifies this`cache, this`lastUse
      ensures MemOk(cs, M()) && SameView(cs, old(cache), flash, cache, flash) && |cache| == old(|cache|)
      ensures cache[i] == old(cache[i]).(lastUse := cache[i].lastUse)
      // the entry has the latest time stamp; when the clock starts anew, all but the first are reset
      ensures var wrap := old(lastUse) < 0 || old(lastUse) > 100000000;
              && cache[i].lastUse == lastUse == (if wrap then 0 else old(lastUse)) + 1
              && forall j :: 0 <= j < |cache| && j != i ==>
                   cache[j].lastUse == if wrap && j > 0 then 0 else old(cache)[j].lastUse
    {
      ghost var c0 := cache;
      if lastUse < 0 || lastUse > 100000000 {
        for j := 1 to |cache|
          invariant |cache| == |c0| && forall n :: 0 <= n < |cache| ==> cache[n] == c0[n].(lastUse := cache[n].lastUse)
          invariant forall n :: 0 <= n < |cache| ==> cache[n].lastUse == if 1 <= n < j then 0 else c0[n].lastUse
        {
          cache := cache[j := cache[j].(lastUse := 0)];
        }
        lastUse := 0;
      }
      lastUse := lastUse + 1;
      cache := cache[i := cache[i].(lastUse := lastUse)];
      TouchEntry(cs, c0, flash, cache);
    }

    /** An entry for chunk `k`, filled from flash. */
    method LoadCache(k: Key) returns (r: nat)
      requires MemOk(cs, M()) && |cache| > 0 && !Cached(cache, k)
      modifies this`cache, this`flash
      ensures MemOk(cs, M()) && SameView(cs, old(cache), old(flash), cache, flash) && |cache| == old(|cache|)
      ensures r < |cache| && IsFor(cache[r], k)
    {
      hide CacheOk, View, EntryOk, Cached, Under;
      ghost var m0 := M();
      r := GrabChunkCache();
      ghost var m1 := M();
      var e := Entry(Some(k.obj), k.chunk, false, cache[r].lastUse, 0, Under(cs, flash, k));
      ghost var free := cache[r].(obj := None);
      FreeFirst(cs, cache, flash, r, free, k);
      ghost var c2 := cache[r := free];
      FillEntry(cs, c2, flash, r, e, k);
      assert c2[r := e] == cache[r := e];
      cache := cache[r := e];
    }

    /** yaffs_file_rd. */
    method FileRd(f: nat, buf: array<Byte>, offset: nat, n: nat)
      requires Valid() && f in sizes && n <= buf.Length
      modifies this`cache, this`flash, this`lastUse, buf
      ensures Valid() && SameBytes(cs, old(M()), M())
      ensures buf[..n] == PlainRead(old(Text(f)), offset, n)
    {
      hide MemOk, View, ByteAt, SameView, Quot, Rem, Cached, IsFor, BytesOf;
      ghost var m0 := M();
      SelfView(cs, cache, flash);
      NoBytes(cs, m0, f, offset);
      var nDone := 0;
      while nDone < n
        invariant nDone <= n && MemOk(cs, M()) && SameView(cs, m0.cache, m0.flash, cache, flash)
        invariant buf[..nDone] == BytesOf(cs, m0, f, offset, nDone)
        decreases n - nDone
      {
        var pos := offset + nDone;
        var chunk, start := Quot(cs, pos), Rem(cs, pos);
        PlaceIs(cs, pos);
        var nCopy: nat := if start + (n - nDone) < cs then n - nDone else cs - start;
        var key := Key(f, chunk + 1);
        ghost var m := M();
        var data := ChunkData(key, nCopy);
        TransView(cs, m0, m, M());
        CopyOut(buf, nDone, data[start..start + nCopy]);
        ReadPiece(cs, m0, M(), f, chunk, start, nCopy, data);
        MoreBytes(cs, m0, f, offset, nDone, nCopy);
        nDone := nDone + nCopy;
      }
      ViewBytes(cs, m0, M());
      TextRead(cs, m0, f, sizes[f], offset, n, buf[..n]);
      KeepZero(cs, m0, M(), sizes);
    }

    method CopyOut(buf: array<Byte>, at: nat, part: seq<Byte>)
      requires at + |part| <= buf.Length
      modifies buf
      ensures buf[..at + |part|] == old(buf[..at]) + part
    {
      forall k | 0 <= k < |part| { buf[at + k] := part[k]; }
    }

    /** The data of one chunk for a read of `nCopy` bytes of it: part of a chunk goes through the
      cache, as does a chunk already there; a whole chunk comes from flash. */
    method ChunkData(key: Key, nCopy: nat) returns (data: seq<Byte>)
      requires MemOk(cs, M()) && nCopy <= cs
      modifies this`cache, this`flash, this`lastUse
      ensures MemOk(cs, M()) && SameView(cs, old(cache), old(flash), cache, flash)
      ensures |data| == cs && data == View(cs, cache, flash, key)
    {
      hide CacheOk, View, EntryOk, SameView, Cached, IsFor, Under;
      ghost var m0 := M();
      SelfView(cs, cache, flash);
      UnderSize(cs, cache, flash, key);
      var i := FindChunkCache(key);
      if i >= 0 || nCopy != cs {
        if |cache| > 0 {
          if i < 0 { i := LoadCache(key); }
          ghost var m1 := M();
          UseCache(i);
          TransView(cs, m0, m1, M());
          StillFor(m1.cache[i], cache[i], key);
          ViewAt(cs, cache, flash, key, i);
          data := cache[i].data;
        } else {
          EmptyCache(cache, key);
          UncachedView(cs, cache, flash, key);
          data := Under(cs, flash, key);
        }
      } else {
        UncachedView(cs, cache, flash, key);
        data := Under(cs, flash, key);
      }
    }

    /** yaffs_invalidate_chunk_cache, for a chunk whose cached copy flash repeats or supersedes. */
    method InvalidateChunk(k: Key)
      requires MemOk(cs, M())
      modifies this`cache
      ensures MemOk(cs, M()) && !Cached(cache, k) && OnlyAt(cs, old(cache), flash, cache, flash, k, Under(cs, flash, k))
      ensures |cache| == old(|cache|)
    {
      hide CacheOk, View, EntryOk;
      var i := FindChunkCache(k);
      if i >= 0 {
        var free := cache[i].(obj := None);
        DropAny(cs, cache, flash, i, free, k);
        cache := cache[i := free];
      } else {
        UncachedView(cs, cache, flash, k);
      }
    }

    /** A whole chunk finds no space on flash.  Its cached copy is dropped all the same, so the case
      in which that copy holds anything flash does not is left out: see DropLoses. */
    method RefuseWhole(k: Key) returns (refusal: bool)
      requires MemOk(cs, M())
      modifies this`cache
      ensures MemOk(cs, M()) && |cache| == old(|cache|) && SameBytes(cs, old(M()), M())
      ensures !refusal ==> cache == old(cache)
      ensures !refusal ==>
                exists i ::
                  0 <= i < |cache| && IsFor(cache[i], k) && cache[i].dirty && cache[i].data != Under(cs, flash, k)
    {
      hide Under;
      ghost var m0 := M();
      SelfView(cs, cache, flash);
      ViewBytes(cs, m0, m0);
      var i := FindChunkCache(k);
      if i < 0 { return true; }
      if cache[i].dirty && cache[i].data != Under(cs, flash, k) { return false; }
      var free := cache[i].(obj := None);
      DropLoses(cs, cache, flash, i, free, k);
      cache := cache[i := free];
      ViewBytes(cs, m0, M());
      refusal := true;
    }

    /** One round of the loop in yaffs_do_file_wr: bytes for one chunk, into the cache or to flash. */
    method WrPiece(f: nat, q: nat, start: nat, bytes: seq<Byte>, nBytes: nat, writeThrough: bool) returns (ok: bool)
      requires MemOk(cs, M()) && start + |bytes| <= cs
      modifies this`cache, this`flash, this`lastUse, this`refused
      ensures MemOk(cs, M()) && |cache| == old(|cache|) && refused == old(refused) + if ok then 0 else 1
      ensures if ok then Edited(cs, old(M()), M(), f, q * cs + start, bytes) else SameBytes(cs, old(M()), M())
    {
      hide MemOk, CacheOk, View, EntryOk, SameView, Cached, IsFor, Under, OnlyAt, Edited, SameBytes, Patch;
      ghost var m0 := M();
      var key := Key(f, q + 1);
      SelfView(cs, cache, flash);
      ViewBytes(cs, m0, m0);
      var space: bool := *;
      if |bytes| != cs || !bypass {
        if |cache| > 0 {
          var i := FindChunkCache(key);
          if i < 0 {
            if !space {
              refused := refused + 1;
              return false;
            }
            i := LoadCache(key);
          } else if !cache[i].dirty && !space {
            refused := refused + 1;
            return false;
          }
          ghost var m1 := M();
          UseCache(i);
          ghost var m2 := M();
          StillFor(m1.cache[i], cache[i], key);
          TransView(cs, m0, m1, m2);
          EntrySize(cs, m2, i, key);
          var data := Patch(cache[i].data, start, bytes);
          var e := cache[i].(data := data, nBytes := nBytes, dirty := !writeThrough);
          Stored(cs, m0, m2, i, e, f, q, start, bytes, writeThrough);
          cache := cache[i := e];
          if writeThrough { flash := flash[key := data]; }
        } else {
          if !space {
            refused := refused + 1;
            return false;
          }
          EmptyCache(cache, key);
          UnderSize2(cs, m0, key);
          var data := Patch(Under(cs, flash, key), start, bytes);
          WroteUnder(cs, m0, f, q, start, bytes);
          flash := flash[key := data];
        }
      } else {
        if !space {
          var refusal := RefuseWhole(key);
          if refusal {
            refused := refused + 1;
            return false;
          }
        }
        InvalidateChunk(key);
        ghost var m1 := M();
        WroteWhole(cs, m0, m1, f, q, bytes);
        flash := flash[key := bytes];
      }
      ok := true;
    }

    /** yaffs_do_file_wr. */
    method DoFileWr(f: nat, data: seq<Byte>, offset: nat, writeThrough: bool) returns (nDone: nat)
      requires Valid() && f in sizes
      modifies this`cache, this`flash, this`lastUse, this`sizes, this`refused
      ensures Valid() && nDone <= |data| && |cache| == old(|cache|) &&
              refused == old(refused) + if nDone < |data| then 1 else 0
      ensures sizes == old(sizes)[f := Max(old(sizes[f]), offset + nDone)]
      ensures Edited(cs, old(M()), M(), f, offset, data[..nDone])
    {
      hide MemOk, Edited, SameBytes, ZeroPast, Quot, Rem;
      ghost var m0 := M();
      var ok := true;
      nDone := 0;
      EditedNone(cs, m0, f, offset);
      assert data[..0] == [];
      while nDone < |data| && ok
        invariant nDone <= |data| && MemOk(cs, M()) && |cache| == old(|cache|) && sizes == old(sizes)
        invariant Edited(cs, m0, M(), f, offset, data[..nDone]) && refused == (old(refused) + if ok then 0 else 1) &&
                  (ok || nDone < |data|)
        decreases |data| - nDone, ok
      {
        var pos := offset + nDone;
        var q, start := Quot(cs, pos), Rem(cs, pos);
        PlaceIs(cs, pos);
        var left := |data| - nDone;
        var nCopy: nat := cs - start;
        var nWriteback: nat := cs;
        if start + left < cs {
          nCopy := left;
          var chunkStart := q * cs;
          var nRead: nat := if chunkStart > sizes[f] then 0 else sizes[f] - chunkStart;
          if nRead > cs { nRead := cs; }
          nWriteback := if nRead > start + left then nRead else start + left;
          assert start + nCopy <= nWriteback <= cs;
        }
        ghost var m := M();
        var bytes := data[nDone..nDone + nCopy];
        ok := WrPiece(f, q, start, bytes, nWriteback, writeThrough);
        if ok {
          EditedTwice(cs, m0, m, M(), f, offset, data[..nDone], bytes);
          assert data[..nDone] + bytes == data[..nDone + nCopy];
          nDone := nDone + nCopy;
        } else {
          EditedSame(cs, m0, m, M(), f, offset, data[..nDone]);
        }
      }
      EditedValid(cs, m0, M(), sizes, f, offset, data[..nDone]);
      if offset + nDone > sizes[f] { sizes := sizes[f := offset + nDone]; }
      assert sizes == old(sizes)[f := Max(old(sizes[f]), offset + nDone)];
    }

    /** The loop of yaffs_prune_chunks. */
    method PruneChunks(f: nat, newSize: nat)
      requires MemOk(cs, M()) && f in sizes && newSize <= sizes[f] && ZeroPast(cs, M(), f, sizes[f])
      requires NoEntry(cache, f) || ZeroPast(cs, M(), f, newSize)
      modifies this`flash
      ensures MemOk(cs, M()) && ClearedFrom(cs, old(M()), M(), f, RoundUp(cs, newSize))
    {
      hide MemOk, ZeroPast, Quot, Rem, ClearedFrom, RoundUp, NoEntry;
      var oldSize := sizes[f];
      var lastDel: nat := if oldSize > 0 then Quot(cs, oldSize - 1) + 1 else 1;
      var startDel: nat := Quot(cs, newSize + cs - 1) + 1;
      ghost var m0 := M();
      LastChunk(cs, oldSize);
      NothingToClear(cs, m0, f, oldSize, lastDel);
      StartChunk(cs, newSize, oldSize);
      LastNotBelow(cs, newSize, lastDel);
      var i: int := lastDel;
      while i >= startDel
        invariant startDel - 1 <= i <= lastDel
        invariant MemOk(cs, M()) && ClearedFrom(cs, m0, M(), f, i * cs) && cache == m0.cache
      {
        ghost var m := M();
        PruneOne(cs, m0, m, f, i, newSize);
        flash := flash - {Key(f, i)};
        i := i - 1;
      }
    }

    /** yaffs_resize_file_down.  It works on flash alone, so the file must not be cached, or hold
      nothing but zeros where it is cut. */
    method ResizeFileDown(f: nat, newSize: nat)
      requires Valid() && f in sizes && newSize <= sizes[f]
      requires NoEntry(cache, f) || ZeroPast(cs, M(), f, newSize)
      modifies this`flash, this`sizes
      ensures Valid() && sizes == old(sizes)[f := newSize] && ClearedFrom(cs, old(M()), M(), f, newSize)
    {
      hide MemOk, ZeroPast, Quot, Rem, ClearedFrom, RoundUp, NoEntry, Under, View;
      ghost var m0 := M();
      var newFull, newPartial := Quot(cs, newSize), Rem(cs, newSize);
      PruneChunks(f, newSize);
      ghost var m1 := M();
      if newPartial != 0 {
        var key := Key(f, newFull + 1);
        UnderSize2(cs, m1, key);
        TrimLast(cs, m0, m1, f, newSize);
        flash := flash[key := ZeroTail(Under(cs, flash, key), newPartial)];
      } else {
        NoPartial(cs, newSize);
      }
      ClearedValid(cs, m0, M(), sizes, f, newSize);
      sizes := sizes[f := newSize];
    }

    /** yaffs2_handle_hole, as far as contents and sizes go: a small hole is filled with zeros, and
      cut off again when space runs out. */
    method HandleHole(f: nat, newSize: nat)
      requires Valid() && f in sizes
      modifies this`cache, this`flash, this`lastUse, this`sizes, this`refused
      ensures Valid() && SameBytes(cs, old(M()), M()) && refused >= old(refused)
      ensures f in sizes && sizes == old(sizes)[f := sizes[f]]
      ensures old(sizes[f]) <= sizes[f] <= Max(old(sizes[f]), newSize)
    {
      hide MemOk, ZeroPast, Edited, SameBytes, ClearedFrom, NoEntry;
      ghost var m0 := M();
      EditedNone(cs, m0, f, 0);
      SameSelf(cs, m0);
      var oldSize := sizes[f];
      if newSize <= oldSize { return; }
      var smallHole: bool := *;
      if smallHole && newSize - oldSize < 4 * cs {
        var pos := oldSize;
        var ok := true;
        while pos < newSize && ok
          invariant Valid() && SameBytes(cs, m0, M()) && f in sizes && sizes == old(sizes)[f := sizes[f]]
          invariant oldSize <= sizes[f]
          invariant oldSize <= pos <= newSize && sizes[f] <= newSize && refused >= old(refused)
          decreases newSize - pos, ok
        {
          var thisWrite: nat := if newSize - pos > cs then cs else newSize - pos;
          ghost var m := M();
          var written := DoFileWr(f, Zeros(thisWrite), pos, false);
          ZerosOverZeros(cs, m0, m, M(), f, oldSize, pos, Zeros(thisWrite)[..written]);
          if written == thisWrite { pos := pos + thisWrite; } else { ok := false; }
        }
        if !ok {
          StillZero(cs, m0, M(), f, oldSize);
          ghost var m := M();
          ResizeFileDown(f, oldSize);
          ClearedNothing(cs, m0, m, M(), f, oldSize);
        }
      }
    }

    /** yaffs_wr_file. */
    method WrFile(f: nat, data: seq<Byte>, offset: nat, writeThrough: bool) returns (nDone: nat)
      requires Valid() && f in sizes
      modifies this`cache, this`flash, this`lastUse, this`sizes, this`refused
      ensures Valid() && nDone <= |data| && sizes.Keys == old(sizes.Keys)
      ensures refused == old(refused) ==> nDone == |data|
      ensures Text(f) == PlainWrite(old(Text(f)), offset, data[..nDone])
      ensures forall g :: g != f ==> Text(g) == old(Text(g))
    {
      hide MemOk, ZeroPast, Edited, SameBytes;
      ghost var m0, s0 := M(), sizes;
      HandleHole(f, offset);
      ghost var m1 := M();
      nDone := DoFileWr(f, data, offset, writeThrough);
      EditedFrom(cs, m0, m1, M(), f, offset, data[..nDone]);
      assert sizes == s0[f := Max(s0[f], offset + nDone)];
      TextWrite(cs, m0, M(), f, s0[f], offset, data[..nDone]);
      TextOthers(cs, m0, M(), f, s0, sizes, offset, data[..nDone]);
    }

    /** yaffs_invalidate_whole_cache, after the file has been flushed. */
    method InvalidateWhole(f: nat)
      requires MemOk(cs, M()) && NoDirty(cache, f)
      modifies this`cache
      ensures MemOk(cs, M()) && NoEntry(cache, f) && SameView(cs, old(cache), flash, cache, flash)
    {
      hide CacheOk, View, EntryOk, SameView;
      ghost var m0 := M();
      SelfView(cs, cache, flash);
      for i := 0 to |cache|
        invariant |cache| == |m0.cache| && CacheOk(cs, cache, flash) && SameView(cs, m0.cache, flash, cache, flash)
        invariant NoDirty(cache, f)
        invariant forall j :: 0 <= j < i ==> cache[j].obj != Some(f)
      {
        if cache[i].obj == Some(f) {
          ghost var m := M();
          var free := cache[i].(obj := None);
          DropClean(cs, cache, flash, i, free);
          cache := cache[i := free];
          TransView(cs, m0, m, M());
        }
      }
    }

    /** yaffs_resize_file. */
    method ResizeFile(f: nat, newSize: nat)
      requires Valid() && f in sizes
      modifies this`cache, this`flash, this`lastUse, this`sizes, this`refused
      ensures Valid() && sizes.Keys == old(sizes.Keys) && sizes[f] == newSize
      ensures Text(f) == PlainResize(old(Text(f)), newSize)
      ensures forall g :: g != f ==> Text(g) == old(Text(g))
    {
      hide MemOk, ZeroPast, SameBytes, ClearedFrom, NoEntry, NoDirty, View;
      ghost var m0, s0 := M(), sizes;
      FlushFileCache(f);
      ghost var m1 := M();
      InvalidateWhole(f);
      TransView(cs, m0, m1, M());
      ViewBytes(cs, m0, M());
      KeepZero(cs, m0, M(), sizes);
      ghost var m2 := M();
      SameSelf(cs, m2);
      var oldSize := sizes[f];
      if newSize > oldSize {
        HandleHole(f, newSize);
        GrownValid(cs, M(), sizes, f, newSize);
        sizes := sizes[f := newSize];
        SameTwice(cs, m0, m2, M());
      } else if newSize < oldSize {
        ResizeFileDown(f, newSize);
        ClearedAfter(cs, m0, m2, M(), f, newSize);
      }
      if newSize >= oldSize {
        TextGrown(cs, m0, M(), f, s0[f], newSize);
        TextSame(cs, m0, M(), f, s0, sizes);
      } else {
        TextCut(cs, m0, M(), f, s0[f], newSize);
        TextOthersCut(cs, m0, M(), f, s0, sizes, newSize);
      }
    }

    /** yaffs_flush_whole_cache. */
    method FlushWholeCache()
      requires Valid()
      modifies this`cache, this`flash
      ensures Valid() && forall f :: Text(f) == old(Text(f))
      ensures forall i :: 0 <= i < |cache| ==> !(cache[i].obj.Some? && cache[i].dirty)
      ensures forall k: Key :: View(cs, cache, flash, k) == Under(cs, flash, k)
    {
      hide MemOk, View, ZeroPast, SameBytes, DirtyAll, NoDirty;
      ghost var m0 := M();
      SelfView(cs, cache, flash);
      var more := true;
      while more
        invariant MemOk(cs, M()) && SameView(cs, m0.cache, m0.flash, cache, flash)
        invariant !more ==> forall i :: 0 <= i < |cache| ==> !(cache[i].obj.Some? && cache[i].dirty)
        decreases DirtyAll(cache), more
      {
        var i := 0;
        while i < |cache| && !(cache[i].obj.Some? && cache[i].dirty)
          invariant i <= |cache| && forall j :: 0 <= j < i ==> !(cache[j].obj.Some? && cache[j].dirty)
        {
          i := i + 1;
        }
        if i < |cache| {
          ghost var m := M();
          var f := cache[i].obj.value;
          FlushFileCache(f);
          TransView(cs, m0, m, M());
          FewerDirty(m.cache, cache, f, i);
        } else {
          more := false;
        }
      }
      ViewBytes(cs, m0, M());
      KeepZero(cs, m0, M(), sizes);
      TextAll(cs, m0, M(), sizes);
      AllClean(cs, M());
    }
  }

  // ---------- lemmas ----------

  ghost function TextOf(cs: Pos, m: Mem, f: nat, size: nat): seq<Byte> {
    seq(size, i requires 0 <= i < size => ByteAt(cs, m, f, i))
  }

  lemma FreedKeys(c: Cache, c': Cache, f: nat)
    requires OnlyFreed(c, c', f)
    ensures forall k :: !Cached(c, k) ==> !Cached(c', k)
  {
    forall k | !Cached(c, k) ensures !Cached(c', k) {
      forall i | 0 <= i < |c'| ensures !IsFor(c'[i], k) { assert !IsFor(c[i], k); }
    }
  }

  /** A free or clean entry may be emptied. */
  lemma FreeFirst(cs: Pos, cache: Cache, flash: Flash, i: nat, e: Entry, k: Key)
    requires CacheOk(cs, cache, flash) && i < |cache| && (cache[i].obj.None? || !cache[i].dirty)
    requires e == cache[i].(obj := None) && !Cached(cache, k)
    ensures CacheOk(cs, cache[i := e], flash) && SameView(cs, cache, flash, cache[i := e], flash)
    ensures !Cached(cache[i := e], k)
  {
    if cache[i].obj.None? {
      assert cache[i := e] == cache;
    } else {
      DropClean(cs, cache, flash, i, e);
    }
    var c' := cache[i := e];
    forall j | 0 <= j < |c'| ensures !IsFor(c'[j], k) { assert !IsFor(cache[j], k); }
  }

  lemma SelfView(cs: Pos, cache: Cache, flash: Flash)
    ensures SameView(cs, cache, flash, cache, flash)
  {}

  lemma TransView(cs: Pos, a: Mem, b: Mem, c: Mem)
    requires SameView(cs, a.cache, a.flash, b.cache, b.flash) && SameView(cs, b.cache, b.flash, c.cache, c.flash)
    ensures SameView(cs, a.cache, a.flash, c.cache, c.flash)
  {}

  lemma UnderSize(cs: Pos, cache: Cache, flash: Flash, k: Key)
    requires CacheOk(cs, cache, flash)
    ensures |Under(cs, flash, k)| == cs
  {}

  lemma UncachedView(cs: Pos, cache: Cache, flash: Flash, k: Key)
    requires !Cached(cache, k)
    ensures View(cs, cache, flash, k) == Under(cs, flash, k)
  {}

  lemma EmptyCache(cache: Cache, k: Key)
    requires |cache| == 0
    ensures !Cached(cache, k)
  {}

  lemma StillFor(e: Entry, e': Entry, k: Key)
    requires IsFor(e, k) && e' == e.(lastUse := e'.lastUse)
    ensures IsFor(e', k)
  {}

  /** `n` bytes of a file from a position on. */
  ghost function BytesOf(cs: Pos, m: Mem, f: nat, pos: nat, n: nat): seq<Byte> {
    seq(n, k requires 0 <= k < n => ByteAt(cs, m, f, pos + k))
  }

  lemma NoBytes(cs: Pos, m: Mem, f: nat, pos: nat)
    ensures BytesOf(cs, m, f, pos, 0) == []
  {}

  lemma MoreBytes(cs: Pos, m: Mem, f: nat, pos: nat, a: nat, b: nat)
    ensures BytesOf(cs, m, f, pos, a + b) == BytesOf(cs, m, f, pos, a) + BytesOf(cs, m, f, pos + a, b)
  {
    hide ByteAt;
  }

  lemma ReadPiece(cs: Pos, m0: Mem, m: Mem, f: nat, q: nat, start: nat, n: nat, data: seq<Byte>)
    requires MemOk(cs, m) && SameView(cs, m0.cache, m0.flash, m.cache, m.flash) && start + n <= cs
    requires |data| == cs && data == View(cs, m.cache, m.flash, Key(f, q + 1))
    ensures data[start..start + n] == BytesOf(cs, m0, f, q * cs + start, n)
  {
    ViewBytes(cs, m0, m);
    hide View, ByteAt, SameView;
    var a, b := data[start..start + n], BytesOf(cs, m0, f, q * cs + start, n);
    forall k | 0 <= k < n ensures a[k] == b[k] {
      ChunkBytes(cs, m, f, q, start + k);
    }
  }

  lemma TextRead(cs: Pos, m: Mem, f: nat, size: nat, pos: nat, n: nat, r: seq<Byte>)
    requires ZeroPast(cs, m, f, size) && r == BytesOf(cs, m, f, pos, n)
    ensures r == PlainRead(TextOf(cs, m, f, size), pos, n)
  {
    hide ByteAt;
  }

  lemma KeepZero(cs: Pos, m: Mem, m': Mem, sizes: map<nat, nat>)
    requires SameBytes(cs, m, m') && forall f :: f in sizes ==> ZeroPast(cs, m, f, sizes[f])
    ensures forall f :: f in sizes ==> ZeroPast(cs, m', f, sizes[f])
  {
    hide ByteAt;
  }

  lemma EntrySize(cs: Pos, m: Mem, i: nat, k: Key)
    requires MemOk(cs, m) && i < |m.cache| && IsFor(m.cache[i], k)
    ensures |m.cache[i].data| == cs
  {
    assert EntryOk(cs, m.flash, m.cache[i]);
  }

  lemma UnderSize2(cs: Pos, m: Mem, k: Key)
    requires MemOk(cs, m)
    ensures |Under(cs, m.flash, k)| == cs
  {}

  lemma Stored(cs: Pos, m0: Mem, m: Mem, i: nat, e: Entry, f: nat, q: nat, start: nat, bytes: seq<Byte>, through: bool)
    requires MemOk(cs, m) && MemOk(cs, m0) && SameView(cs, m0.cache, m0.flash, m.cache, m.flash) && i < |m.cache|
    requires start + |bytes| <= cs
    requires IsFor(m.cache[i], Key(f, q + 1)) && |m.cache[i].data| == cs
    requires e == m.cache[i].(data := Patch(m.cache[i].data, start, bytes), nBytes := e.nBytes, dirty := !through)
    ensures var m' := Mem(m.cache[i := e], if through then m.flash[Key(f, q + 1) := e.data] else m.flash);
            MemOk(cs, m') && Edited(cs, m0, m', f, q * cs + start, bytes)
  {
    var k := Key(f, q + 1);
    var m' := Mem(m.cache[i := e], if through then m.flash[k := e.data] else m.flash);
    hide CacheOk, View, EntryOk, Under, Edited, SameView;
    ViewAt(cs, m.cache, m.flash, k, i);
    StoreEntry(cs, m.cache, m.flash, i, e, k, through);
    PatchEdits(cs, m, m', f, q, start, bytes);
    ViewBytes(cs, m0, m);
    EditedFrom(cs, m0, m, m', f, q * cs + start, bytes);
  }

  lemma EditedFrom(cs: Pos, m0: Mem, m: Mem, m': Mem, f: nat, pos: nat, bytes: seq<Byte>)
    requires SameBytes(cs, m0, m) && Edited(cs, m, m', f, pos, bytes)
    ensures Edited(cs, m0, m', f, pos, bytes)
  {
    hide ByteAt;
  }

  lemma WroteUnder(cs: Pos, m: Mem, f: nat, q: nat, start: nat, bytes: seq<Byte>)
    requires MemOk(cs, m) && !Cached(m.cache, Key(f, q + 1)) && start + |bytes| <= cs
    requires |Under(cs, m.flash, Key(f, q + 1))| == cs
    ensures var k := Key(f, q + 1); var m' := Mem(m.cache, m.flash[k := Patch(Under(cs, m.flash, k), start, bytes)]);
            MemOk(cs, m') && Edited(cs, m, m', f, q * cs + start, bytes)
  {
    var k := Key(f, q + 1);
    var data := Patch(Under(cs, m.flash, k), start, bytes);
    hide CacheOk, EntryOk, Edited;
    UncachedView(cs, m.cache, m.flash, k);
    WriteUnder(cs, m.cache, m.flash, k, data);
    PatchEdits(cs, m, Mem(m.cache, m.flash[k := data]), f, q, start, bytes);
  }

  lemma WroteWhole(cs: Pos, m0: Mem, m: Mem, f: nat, q: nat, bytes: seq<Byte>)
    requires MemOk(cs, m0) && MemOk(cs, m) && |bytes| == cs && !Cached(m.cache, Key(f, q + 1))
    requires OnlyAt(cs, m0.cache, m0.flash, m.cache, m.flash, Key(f, q + 1), Under(cs, m.flash, Key(f, q + 1)))
    ensures var m' := Mem(m.cache, m.flash[Key(f, q + 1) := bytes]);
            MemOk(cs, m') && Edited(cs, m0, m', f, q * cs + 0, bytes)
  {
    var k := Key(f, q + 1);
    var m' := Mem(m.cache, m.flash[k := bytes]);
    hide CacheOk, EntryOk, Edited, View, Under;
    WriteUnder(cs, m.cache, m.flash, k, bytes);
    ViewSize(cs, m0.cache, m0.flash, k);
    var was := View(cs, m0.cache, m0.flash, k);
    assert Patch(was, 0, bytes) == bytes;
    PatchEdits(cs, m0, m', f, q, 0, bytes);
  }

  lemma EditedNone(cs: Pos, m: Mem, f: nat, pos: nat)
    ensures Edited(cs, m, m, f, pos, [])
  {}

  lemma EditedSame(cs: Pos, m: Mem, m': Mem, m'': Mem, f: nat, pos: nat, a: seq<Byte>)
    requires Edited(cs, m, m', f, pos, a) && SameBytes(cs, m', m'')
    ensures Edited(cs, m, m'', f, pos, a)
  {
    hide ByteAt;
  }

  lemma EditedValid(cs: Pos, m: Mem, m': Mem, sizes: map<nat, nat>, f: nat, pos: nat, a: seq<Byte>)
    requires Edited(cs, m, m', f, pos, a) && f in sizes && forall g :: g in sizes ==> ZeroPast(cs, m, g, sizes[g])
    ensures var sizes' := sizes[f := Max(sizes[f], pos + |a|)];
            forall g :: g in sizes' ==> ZeroPast(cs, m', g, sizes'[g])
  {
    hide ByteAt;
  }

  // ---------- truncation ----------

  /** The start of the first chunk at or after a position. */
  function RoundUp(cs: Pos, n: nat): nat { Quot(cs, n + cs - 1) * cs }

  lemma LastChunk(cs: Pos, size: nat)
    ensures size <= (if size > 0 then Quot(cs, size - 1) + 1 else 1) * cs
  {
    if size > 0 {
      PlaceIs(cs, size - 1);
      assert (Quot(cs, size - 1) + 1) * cs == Quot(cs, size - 1) * cs + cs;
    }
  }

  lemma NothingToClear(cs: Pos, m: Mem, f: nat, size: nat, last: nat)
    requires ZeroPast(cs, m, f, size) && size <= last * cs
    ensures ClearedFrom(cs, m, m, f, last * cs)
  {
    hide ByteAt;
  }

  lemma StartChunk(cs: Pos, newSize: nat, oldSize: nat)
    ensures RoundUp(cs, newSize) == Quot(cs, newSize + cs - 1) * cs && newSize <= RoundUp(cs, newSize) < newSize + cs
  {
    PlaceIs(cs, newSize + cs - 1);
  }

  /** Chunk `i` of the file, all of it past the new size, is deleted on flash. */
  lemma PruneOne(cs: Pos, m0: Mem, m: Mem, f: nat, i: nat, newSize: nat)
    requires MemOk(cs, m) && ClearedFrom(cs, m0, m, f, i * cs) && m.cache == m0.cache && i >= 1
    requires NoEntry(m0.cache, f) || ZeroPast(cs, m0, f, newSize)
    requires i >= Quot(cs, newSize + cs - 1) + 1
    ensures var m' := Mem(m.cache, m.flash - {Key(f, i)}); MemOk(cs, m') && ClearedFrom(cs, m0, m', f, (i - 1) * cs)
  {
    hide MemOk, CacheOk, EntryOk, Edited, View, ClearedFrom, ZeroPast, NoEntry, Quot, Rem, Under, Cached;
    var k := Key(f, i);
    var m' := Mem(m.cache, m.flash - {k});
    var q := i - 1;
    AtLeast(cs, newSize, q);
    if NoEntry(m0.cache, f) {
      NotCachedFor(m.cache, f, k);
    } else {
      ZeroView(cs, m0, m, f, q, newSize);
    }
    DeleteOne(cs, m, f, q);
    ClearMore(cs, m0, m, m', f, q);
  }

  lemma AtLeast(cs: Pos, newSize: nat, q: nat)
    requires q >= Quot(cs, newSize + cs - 1)
    ensures newSize <= q * cs
  {
    PlaceIs(cs, newSize + cs - 1);
    var q0 := Quot(cs, newSize + cs - 1);
    Apart(q - q0, cs);
    assert (q - q0) * cs == q * cs - q0 * cs;
    StartChunk(cs, newSize, newSize);
  }

  lemma DeleteOne(cs: Pos, m: Mem, f: nat, q: nat)
    requires MemOk(cs, m) && (!Cached(m.cache, Key(f, q + 1)) || View(cs, m.cache, m.flash, Key(f, q + 1)) == Zeros(cs))
    ensures var m' := Mem(m.cache, m.flash - {Key(f, q + 1)});
            MemOk(cs, m') && Edited(cs, m, m', f, q * cs + 0, Zeros(cs))
  {
    hide CacheOk, EntryOk, Edited, View, Cached;
    var k := Key(f, q + 1);
    var m' := Mem(m.cache, m.flash - {k});
    DeleteUnder(cs, m.cache, m.flash, k);
    ViewSize(cs, m.cache, m.flash, k);
    assert Patch(View(cs, m.cache, m.flash, k), 0, Zeros(cs)) == Zeros(cs);
    PatchEdits(cs, m, m', f, q, 0, Zeros(cs));
  }

  lemma NotCachedFor(cache: Cache, f: nat, k: Key)
    requires NoEntry(cache, f) && k.obj == f
    ensures !Cached(cache, k)
  {}

  lemma ZeroView(cs: Pos, m0: Mem, m: Mem, f: nat, q: nat, newSize: nat)
    requires MemOk(cs, m) && ClearedFrom(cs, m0, m, f, (q + 1) * cs) && ZeroPast(cs, m0, f, newSize)
    requires newSize <= q * cs
    ensures View(cs, m.cache, m.flash, Key(f, q + 1)) == Zeros(cs)
  {
    ViewSize(cs, m.cache, m.flash, Key(f, q + 1));
    var v := View(cs, m.cache, m.flash, Key(f, q + 1));
    forall o | 0 <= o < cs ensures v[o] == 0 { ChunkBytes(cs, m, f, q, o); }
  }

  lemma ClearMore(cs: Pos, m0: Mem, m: Mem, m': Mem, f: nat, q: nat)
    requires ClearedFrom(cs, m0, m, f, (q + 1) * cs) && Edited(cs, m, m', f, q * cs + 0, Zeros(cs))
    ensures ClearedFrom(cs, m0, m', f, q * cs)
  {
    hide ByteAt;
    assert (q + 1) * cs == q * cs + cs;
  }

  lemma LastNotBelow(cs: Pos, newSize: nat, last: nat)
    requires newSize <= last * cs
    ensures Quot(cs, newSize + cs - 1) <= last
  {
    var q := Quot(cs, newSize + cs - 1);
    PlaceIs(cs, newSize + cs - 1);
    Apart(q - last, cs);
    assert (q - last) * cs == q * cs - last * cs;
  }

  lemma NoPartial(cs: Pos, newSize: nat)
    requires Rem(cs, newSize) == 0
    ensures RoundUp(cs, newSize) == newSize
  {
    PlaceIs(cs, newSize);
    var q := Quot(cs, newSize);
    PlaceOf(cs, q, cs - 1);
  }

  lemma WithPartial(cs: Pos, newSize: nat)
    requires Rem(cs, newSize) != 0
    ensures RoundUp(cs, newSize) == (Quot(cs, newSize) + 1) * cs
  {
    PlaceIs(cs, newSize);
    var q, r := Quot(cs, newSize), Rem(cs, newSize);
    assert newSize + cs - 1 == (q + 1) * cs + (r - 1);
    PlaceOf(cs, q + 1, r - 1);
  }

  /** The last chunk is rewritten with zeros past the new size. */
  lemma TrimLast(cs: Pos, m0: Mem, m: Mem, f: nat, newSize: nat)
    requires MemOk(cs, m) && ClearedFrom(cs, m0, m, f, RoundUp(cs, newSize)) && m.cache == m0.cache
    requires Rem(cs, newSize) != 0
    requires NoEntry(m0.cache, f) || ZeroPast(cs, m0, f, newSize)
    requires |Under(cs, m.flash, Key(f, Quot(cs, newSize) + 1))| == cs
    ensures var k := Key(f, Quot(cs, newSize) + 1);
            var m' := Mem(m.cache, m.flash[k := ZeroTail(Under(cs, m.flash, k), Rem(cs, newSize))]);
            MemOk(cs, m') && ClearedFrom(cs, m0, m', f, newSize)
  {
    hide MemOk, CacheOk, EntryOk, Edited, View, ClearedFrom, ZeroPast, NoEntry, Quot, Rem, Under, Cached, RoundUp;
    var q, r := Quot(cs, newSize), Rem(cs, newSize);
    var k := Key(f, q + 1);
    PlaceIs(cs, newSize);
    if NoEntry(m0.cache, f) {
      NotCachedFor(m.cache, f, k);
    } else {
      ZeroTailView(cs, m0, m, f, newSize);
    }
    TrimOne(cs, m, f, q, r);
    WithPartial(cs, newSize);
    ClearTail(cs, m0, m, Mem(m.cache, m.flash[k := ZeroTail(Under(cs, m.flash, k), r)]), f, newSize, q, r);
  }

  lemma ZeroTailView(cs: Pos, m0: Mem, m: Mem, f: nat, newSize: nat)
    requires MemOk(cs, m) && ClearedFrom(cs, m0, m, f, RoundUp(cs, newSize)) && ZeroPast(cs, m0, f, newSize)
    ensures var v := View(cs, m.cache, m.flash, Key(f, Quot(cs, newSize) + 1));
            |v| == cs && v == ZeroTail(v, Rem(cs, newSize))
  {
    var q, r := Quot(cs, newSize), Rem(cs, newSize);
    ViewSize(cs, m.cache, m.flash, Key(f, q + 1));
    var v := View(cs, m.cache, m.flash, Key(f, q + 1));
    PlaceIs(cs, newSize);
    hide View, Quot, Rem;
    forall o | r <= o < cs ensures v[o] == 0 {
      ChunkBytes(cs, m, f, q, o);
    }
  }

  lemma TrimOne(cs: Pos, m: Mem, f: nat, q: nat, r: nat)
    requires MemOk(cs, m) && r < cs && |Under(cs, m.flash, Key(f, q + 1))| == cs
    requires Cached(m.cache, Key(f, q + 1)) ==>
               var v := View(cs, m.cache, m.flash, Key(f, q + 1)); |v| == cs && v == ZeroTail(v, r)
    ensures var k := Key(f, q + 1); var m' := Mem(m.cache, m.flash[k := ZeroTail(Under(cs, m.flash, k), r)]);
            MemOk(cs, m') && Edited(cs, m, m', f, q * cs + r, Zeros(cs - r))
  {
    hide CacheOk, EntryOk, Edited, View, Cached;
    var k := Key(f, q + 1);
    ViewSize(cs, m.cache, m.flash, k);
    TrimUnder(cs, m.cache, m.flash, k, r);
    var v := View(cs, m.cache, m.flash, k);
    assert Patch(v, r, Zeros(cs - r)) == ZeroTail(v, r);
    PatchEdits(cs, m, Mem(m.cache, m.flash[k := ZeroTail(Under(cs, m.flash, k), r)]), f, q, r, Zeros(cs - r));
  }

  lemma ClearTail(cs: Pos, m0: Mem, m: Mem, m': Mem, f: nat, newSize: nat, q: nat, r: nat)
    requires ClearedFrom(cs, m0, m, f, (q + 1) * cs) && r < cs && newSize == q * cs + r
    requires Edited(cs, m, m', f, q * cs + r, Zeros(cs - r))
    ensures ClearedFrom(cs, m0, m', f, newSize)
  {
    hide ByteAt;
    assert (q + 1) * cs == q * cs + cs;
  }

  lemma ClearedValid(cs: Pos, m: Mem, m': Mem, sizes: map<nat, nat>, f: nat, newSize: nat)
    requires ClearedFrom(cs, m, m', f, newSize) && forall g :: g in sizes ==> ZeroPast(cs, m, g, sizes[g])
    ensures var sizes' := sizes[f := newSize]; forall g :: g in sizes' ==> ZeroPast(cs, m', g, sizes'[g])
  {
    hide ByteAt;
  }

  // ---------- holes ----------

  lemma SameSelf(cs: Pos, m: Mem)
    ensures SameBytes(cs, m, m)
  {}

  lemma SameTwice(cs: Pos, a: Mem, b: Mem, c: Mem)
    requires SameBytes(cs, a, b) && SameBytes(cs, b, c)
    ensures SameBytes(cs, a, c)
  {
    hide ByteAt;
  }

  lemma ZerosOverZeros(cs: Pos, m0: Mem, m: Mem, m': Mem, f: nat, oldSize: nat, pos: nat, data: seq<Byte>)
    requires SameBytes(cs, m0, m) && Edited(cs, m, m', f, pos, data) && ZeroPast(cs, m0, f, oldSize) && oldSize <= pos
    requires forall i :: 0 <= i < |data| ==> data[i] == 0
    ensures SameBytes(cs, m0, m')
  {
    hide ByteAt;
  }

  lemma StillZero(cs: Pos, m0: Mem, m: Mem, f: nat, pos: nat)
    requires SameBytes(cs, m0, m) && ZeroPast(cs, m0, f, pos)
    ensures ZeroPast(cs, m, f, pos)
  {
    hide ByteAt;
  }

  lemma ClearedNothing(cs: Pos, m0: Mem, m: Mem, m': Mem, f: nat, pos: nat)
    requires SameBytes(cs, m0, m) && ZeroPast(cs, m0, f, pos) && ClearedFrom(cs, m, m', f, pos)
    ensures SameBytes(cs, m0, m')
  {
    hide ByteAt;
  }

  lemma GrownValid(cs: Pos, m: Mem, sizes: map<nat, nat>, f: nat, newSize: nat)
    requires f in sizes && sizes[f] <= newSize && forall g :: g in sizes ==> ZeroPast(cs, m, g, sizes[g])
    ensures var sizes' := sizes[f := newSize]; forall g :: g in sizes' ==> ZeroPast(cs, m, g, sizes'[g])
  {
    hide ByteAt;
  }

  lemma ClearedAfter(cs: Pos, m0: Mem, m: Mem, m': Mem, f: nat, pos: nat)
    requires SameBytes(cs, m0, m) && ClearedFrom(cs, m, m', f, pos)
    ensures ClearedFrom(cs, m0, m', f, pos)
  {
    hide ByteAt;
  }

  // ---------- texts ----------

  lemma TextWrite(cs: Pos, m: Mem, m': Mem, f: nat, size: nat, pos: nat, data: seq<Byte>)
    requires Edited(cs, m, m', f, pos, data) && ZeroPast(cs, m, f, size)
    ensures TextOf(cs, m', f, Max(size, pos + |data|)) == PlainWrite(TextOf(cs, m, f, size), pos, data)
  {
    hide ByteAt;
  }

  lemma TextOthers(cs: Pos, m: Mem, m': Mem, f: nat, s: map<nat, nat>, s': map<nat, nat>, pos: nat, data: seq<Byte>)
    requires Edited(cs, m, m', f, pos, data) && f in s && f in s' && s' == s[f := s'[f]]
    ensures forall g :: g != f ==>
              TextOf(cs, m', g, if g in s' then s'[g] else 0) == TextOf(cs, m, g, if g in s then s[g] else 0)
  {
    hide ByteAt;
  }

  lemma TextOthersCut(cs: Pos, m: Mem, m': Mem, f: nat, s: map<nat, nat>, s': map<nat, nat>, pos: nat)
    requires ClearedFrom(cs, m, m', f, pos) && f in s && f in s' && s' == s[f := s'[f]]
    ensures forall g :: g != f ==>
              TextOf(cs, m', g, if g in s' then s'[g] else 0) == TextOf(cs, m, g, if g in s then s[g] else 0)
  {
    hide ByteAt;
  }

  lemma TextSame(cs: Pos, m: Mem, m': Mem, f: nat, s: map<nat, nat>, s': map<nat, nat>)
    requires SameBytes(cs, m, m') && f in s && f in s' && s' == s[f := s'[f]]
    ensures forall g :: g != f ==>
              TextOf(cs, m', g, if g in s' then s'[g] else 0) == TextOf(cs, m, g, if g in s then s[g] else 0)
  {
    hide ByteAt;
  }

  lemma TextGrown(cs: Pos, m: Mem, m': Mem, f: nat, size: nat, newSize: nat)
    requires SameBytes(cs, m, m') && ZeroPast(cs, m, f, size) && size <= newSize
    ensures TextOf(cs, m', f, newSize) == PlainResize(TextOf(cs, m, f, size), newSize)
  {
    hide ByteAt;
  }

  lemma TextCut(cs: Pos, m: Mem, m': Mem, f: nat, size: nat, newSize: nat)
    requires ClearedFrom(cs, m, m', f, newSize) && newSize <= size
    ensures TextOf(cs, m', f, newSize) == PlainResize(TextOf(cs, m, f, size), newSize)
  {
    hide ByteAt;
  }

  lemma TextAll(cs: Pos, m: Mem, m': Mem, s: map<nat, nat>)
    requires SameBytes(cs, m, m')
    ensures forall g :: TextOf(cs, m', g, if g in s then s[g] else 0) == TextOf(cs, m, g, if g in s then s[g] else 0)
  {
    hide ByteAt;
  }

  // ---------- flushing everything ----------

  function DirtyAll(cache: Cache): nat {
    if cache == [] then 0
    else DirtyAll(cache[..|cache| - 1]) + if cache[|cache| - 1].obj.Some? && cache[|cache| - 1].dirty then 1 else 0
  }

  lemma {:induction false} FewerDirty(c: Cache, c': Cache, f: nat, i: nat)
    requires OnlyFreed(c, c', f) && NoDirty(c', f) && i < |c| && c[i].obj == Some(f) && c[i].dirty
    ensures DirtyAll(c') < DirtyAll(c)
    decreases |c|
  {
    var n := |c| - 1;
    NotMoreDirty(c[..n], c'[..n], f);
    if i < n { FewerDirty(c[..n], c'[..n], f, i); }
  }

  lemma {:induction false} NotMoreDirty(c: Cache, c': Cache, f: nat)
    requires OnlyFreed(c, c', f)
    ensures DirtyAll(c') <= DirtyAll(c)
    decreases |c|
  {
    if c != [] {
      var n := |c| - 1;
      NotMoreDirty(c[..n], c'[..n], f);
    }
  }

  lemma AllClean(cs: Pos, m: Mem)
    requires MemOk(cs, m) && forall i :: 0 <= i < |m.cache| ==> !(m.cache[i].obj.Some? && m.cache[i].dirty)
    ensures forall k: Key :: View(cs, m.cache, m.flash, k) == Under(cs, m.flash, k)
  {
    forall k: Key ensures View(cs, m.cache, m.flash, k) == Under(cs, m.flash, k) {
      if i :| 0 <= i < |m.cache| && IsFor(m.cache[i], k) {
        ViewAt(cs, m.cache, m.flash, k, i);
        assert EntryOk(cs, m.flash, m.cache[i]);
      }
    }
  }
}
