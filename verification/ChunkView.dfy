/** What a file's chunk holds when some chunks are in the short-op cache and the others on
  flash, and how the single changes of the cache affect that. */
module ChunkView {

  datatype Option<T> = None | Some(value: T)

  type Byte = bv8
  type Pos = n: nat | n > 0 witness 1

  datatype Key = Key(obj: nat, chunk: nat)

  /** struct yaffs_cache; a free entry has no object.  Entries are locked only while bytes are
    copied, so the lock is not kept. */
  datatype Entry = Entry(obj: Option<nat>, chunk: nat, dirty: bool, lastUse: int, nBytes: nat, data: seq<Byte>)

  type Cache = seq<Entry>
  type Flash = map<Key, seq<Byte>>

  function Zeros(n: nat): seq<Byte> { seq(n, _ => 0) }

  /** yaffs_rd_data_obj: a chunk not in the file reads as zeros. */
  function Under(cs: Pos, flash: Flash, k: Key): seq<Byte> {
    if k in flash then flash[k] else Zeros(cs)
  }

  predicate IsFor(e: Entry, k: Key) { e.obj == Some(k.obj) && e.chunk == k.chunk }

  predicate Cached(cache: Cache, k: Key) { exists i :: 0 <= i < |cache| && IsFor(cache[i], k) }

  /** What the file holds at a chunk: the cached copy if there is one. */
  ghost function View(cs: Pos, cache: Cache, flash: Flash, k: Key): seq<Byte> {
    if Cached(cache, k) then
      var i :| 0 <= i < |cache| && IsFor(cache[i], k);
      cache[i].data
    else Under(cs, flash, k)
  }

  /** One entry per chunk of a file; clean entries repeat what is on flash. */
  ghost predicate CacheOk(cs: Pos, cache: Cache, flash: Flash) {
    && (forall i, j :: 0 <= i < j < |cache| && cache[i].obj.Some? && cache[j].obj.Some? ==>
        cache[i].obj != cache[j].obj || cache[i].chunk != cache[j].chunk)
    && (forall i :: 0 <= i < |cache| ==> EntryOk(cs, flash, cache[i]))
    && forall k :: k in flash ==> |flash[k]| == cs
  }

  ghost predicate EntryOk(cs: Pos, flash: Flash, e: Entry) {
    e.obj.Some? ==> |e.data| == cs && (!e.dirty ==> e.data == Under(cs, flash, Key(e.obj.value, e.chunk)))
  }

  lemma ViewAt(cs: Pos, cache: Cache, flash: Flash, k: Key, i: nat)
    requires CacheOk(cs, cache, flash) && i < |cache| && IsFor(cache[i], k)
    ensures View(cs, cache, flash, k) == cache[i].data && |cache[i].data| == cs
  {
    assert EntryOk(cs, flash, cache[i]);
  }

  lemma ViewSize(cs: Pos, cache: Cache, flash: Flash, k: Key)
    requires CacheOk(cs, cache, flash)
    ensures |View(cs, cache, flash, k)| == cs
  {
    if i :| 0 <= i < |cache| && IsFor(cache[i], k) { ViewAt(cs, cache, flash, k, i); }
  }

  /** Nothing any file holds has changed. */
  ghost predicate SameView(cs: Pos, c: Cache, f: Flash, c': Cache, f': Flash) {
    forall k: Key :: View(cs, c', f', k) == View(cs, c, f, k)
  }

  /** Only what chunk `k` holds has changed. */
  ghost predicate OnlyAt(cs: Pos, c: Cache, f: Flash, c': Cache, f': Flash, k: Key, data: seq<Byte>) {
    View(cs, c', f', k) == data && forall j: Key :: j != k ==> View(cs, c', f', j) == View(cs, c, f, j)
  }

  /** An entry is changed without changing what it is for. */
  lemma SameKeys(cache: Cache, i: nat, e: Entry, k: Key)
    requires i < |cache| && e.obj == cache[i].obj && e.chunk == cache[i].chunk
    ensures Cached(cache[i := e], k) <==> Cached(cache, k)
  {
    var c' := cache[i := e];
    if j :| 0 <= j < |cache| && IsFor(cache[j], k) { assert IsFor(c'[j], k); }
    if j :| 0 <= j < |cache| && IsFor(c'[j], k) { assert IsFor(cache[j], k); }
  }

  /** Entry `i` gives up its chunk. */
  lemma DropKeys(cache: Cache, i: nat, e: Entry, k: Key)
    requires i < |cache| && e.obj.None?
    ensures IsFor(cache[i], k) || (Cached(cache[i := e], k) <==> Cached(cache, k))
  {
    var c' := cache[i := e];
    if !IsFor(cache[i], k) {
      if j :| 0 <= j < |cache| && IsFor(cache[j], k) { assert IsFor(c'[j], k); }
      if j :| 0 <= j < |cache| && IsFor(c'[j], k) { assert IsFor(cache[j], k); }
    }
  }

  /** A clean entry may be dropped. */
  lemma DropClean(cs: Pos, cache: Cache, flash: Flash, i: nat, e: Entry)
    requires CacheOk(cs, cache, flash) && i < |cache| && !cache[i].dirty && e.obj.None?
    ensures CacheOk(cs, cache[i := e], flash) && SameView(cs, cache, flash, cache[i := e], flash)
  {
    var c' := cache[i := e];
    forall k: Key ensures View(cs, c', flash, k) == View(cs, cache, flash, k) {
      DropKeys(cache, i, e, k);
      if IsFor(cache[i], k) {
        ViewAt(cs, cache, flash, k, i);
        assert EntryOk(cs, flash, cache[i]);
        GoneFor(cs, cache, flash, i, e, k);
      } else if j :| 0 <= j < |cache| && IsFor(cache[j], k) {
        ViewAt(cs, cache, flash, k, j);
        ViewAt(cs, c', flash, k, j);
      }
    }
  }

  lemma GoneFor(cs: Pos, cache: Cache, flash: Flash, i: nat, e: Entry, k: Key)
    requires CacheOk(cs, cache, flash) && i < |cache| && IsFor(cache[i], k) && e.obj.None?
    ensures !Cached(cache[i := e], k)
  {
    var c' := cache[i := e];
    forall j | 0 <= j < |cache| ensures !IsFor(c'[j], k) {
      if j < i { assert !IsFor(cache[j], k); } else if i < j { assert !IsFor(cache[j], k); }
    }
  }

  /** An entry written to flash and freed. */
  lemma FlushEntry(cs: Pos, cache: Cache, flash: Flash, i: nat, e: Entry)
    requires CacheOk(cs, cache, flash) && i < |cache| && cache[i].obj.Some? && e.obj.None?
    ensures var f' := flash[Key(cache[i].obj.value, cache[i].chunk) := cache[i].data];
            CacheOk(cs, cache[i := e], f') && SameView(cs, cache, flash, cache[i := e], f')
  {
    var key := Key(cache[i].obj.value, cache[i].chunk);
    var f' := flash[key := cache[i].data];
    var c' := cache[i := e];
    forall j | 0 <= j < |cache| ensures EntryOk(cs, f', c'[j]) {
      assert EntryOk(cs, flash, cache[j]);
    }
    forall k: Key ensures View(cs, c', f', k) == View(cs, cache, flash, k) {
      DropKeys(cache, i, e, k);
      if IsFor(cache[i], k) {
        ViewAt(cs, cache, flash, k, i);
        GoneFor(cs, cache, flash, i, e, k);
      } else if j :| 0 <= j < |cache| && IsFor(cache[j], k) {
        ViewAt(cs, cache, flash, k, j);
        ViewAt(cs, c', f', k, j);
      }
    }
  }

  /** A free entry is filled from flash with a chunk not yet cached. */
  lemma FillEntry(cs: Pos, cache: Cache, flash: Flash, i: nat, e: Entry, k: Key)
    requires CacheOk(cs, cache, flash) && i < |cache| && cache[i].obj.None? && !Cached(cache, k)
    requires IsFor(e, k) && !e.dirty && e.data == Under(cs, flash, k)
    ensures CacheOk(cs, cache[i := e], flash) && SameView(cs, cache, flash, cache[i := e], flash)
  {
    var c' := cache[i := e];
    forall j | 0 <= j < |cache| && cache[j].obj.Some? &&
    j != i ensures cache[j].obj != e.obj || cache[j].chunk != e.chunk {
      assert !IsFor(cache[j], k);
    }
    assert |Under(cs, flash, k)| == cs;
    forall m: Key ensures View(cs, c', flash, m) == View(cs, cache, flash, m) {
      if m == k {
        ViewAt(cs, c', flash, k, i);
      } else if j :| 0 <= j < |cache| && IsFor(cache[j], m) {
        ViewAt(cs, cache, flash, m, j);
        ViewAt(cs, c', flash, m, j);
      } else {
        assert !Cached(c', m);
      }
    }
  }

  /** An entry takes new data and is marked dirty, or is also written to flash. */
  lemma StoreEntry(cs: Pos, cache: Cache, flash: Flash, i: nat, e: Entry, k: Key, through: bool)
    requires CacheOk(cs, cache, flash) && i < |cache| && IsFor(cache[i], k) && IsFor(e, k) && |e.data| == cs
    requires e.dirty || through
    ensures var f' := if through then flash[k := e.data] else flash;
            CacheOk(cs, cache[i := e], f') && OnlyAt(cs, cache, flash, cache[i := e], f', k, e.data)
  {
    var f' := if through then flash[k := e.data] else flash;
    var c' := cache[i := e];
    forall j | 0 <= j < |cache| ensures EntryOk(cs, f', c'[j]) { assert EntryOk(cs, flash, cache[j]); }
    ViewAt(cs, c', f', k, i);
    forall m: Key | m != k ensures View(cs, c', f', m) == View(cs, cache, flash, m) {
      SameKeys(cache, i, e, m);
      if j :| 0 <= j < |cache| && IsFor(cache[j], m) {
        ViewAt(cs, cache, flash, m, j);
        ViewAt(cs, c', f', m, j);
      }
    }
  }

  /** Time stamps and byte counts of entries do not matter. */
  lemma TouchEntry(cs: Pos, cache: Cache, flash: Flash, c': Cache)
    requires CacheOk(cs, cache, flash) && |c'| == |cache|
    requires forall i :: 0 <= i < |cache| ==> c'[i] == cache[i].(lastUse := c'[i].lastUse)
    ensures CacheOk(cs, c', flash) && SameView(cs, cache, flash, c', flash)
  {
    forall k: Key ensures View(cs, c', flash, k) == View(cs, cache, flash, k) {
      if i :| 0 <= i < |cache| && IsFor(cache[i], k) {
        assert IsFor(c'[i], k);
        ViewAt(cs, cache, flash, k, i);
        ViewAt(cs, c', flash, k, i);
      } else {
        assert !Cached(c', k);
      }
    }
  }

  /** A chunk not cached is written to flash. */
  lemma WriteUnder(cs: Pos, cache: Cache, flash: Flash, k: Key, data: seq<Byte>)
    requires CacheOk(cs, cache, flash) && !Cached(cache, k) && |data| == cs
    ensures CacheOk(cs, cache, flash[k := data]) && OnlyAt(cs, cache, flash, cache, flash[k := data], k, data)
  {
    var f' := flash[k := data];
    forall i | 0 <= i < |cache| ensures EntryOk(cs, f', cache[i]) {
      assert EntryOk(cs, flash, cache[i]) && !IsFor(cache[i], k);
    }
    forall m: Key | m != k ensures View(cs, cache, f', m) == View(cs, cache, flash, m) {
      if i :| 0 <= i < |cache| && IsFor(cache[i], m) {
        ViewAt(cs, cache, flash, m, i);
        ViewAt(cs, cache, f', m, i);
      }
    }
  }

  /** A cached chunk is dropped, dirty or not: it now holds what is on flash. */
  lemma DropAny(cs: Pos, cache: Cache, flash: Flash, i: nat, e: Entry, k: Key)
    requires CacheOk(cs, cache, flash) && i < |cache| && IsFor(cache[i], k) && e.obj.None?
    ensures CacheOk(cs, cache[i := e], flash) && OnlyAt(cs, cache, flash, cache[i := e], flash, k, Under(cs, flash, k))
    ensures !Cached(cache[i := e], k)
  {
    var c' := cache[i := e];
    GoneFor(cs, cache, flash, i, e, k);
    forall m: Key | m != k ensures View(cs, c', flash, m) == View(cs, cache, flash, m) {
      DropKeys(cache, i, e, m);
      if j :| 0 <= j < |cache| && IsFor(cache[j], m) {
        ViewAt(cs, cache, flash, m, j);
        ViewAt(cs, c', flash, m, j);
      }
    }
  }

  /** Dropping a cached chunk loses nothing exactly if flash holds the same; a clean copy always
    repeats flash. */
  lemma DropLoses(cs: Pos, cache: Cache, flash: Flash, i: nat, e: Entry, k: Key)
    requires CacheOk(cs, cache, flash) && i < |cache| && IsFor(cache[i], k) && e.obj.None?
    ensures CacheOk(cs, cache[i := e], flash)
    ensures SameView(cs, cache, flash, cache[i := e], flash) <==> cache[i].data == Under(cs, flash, k)
    ensures !cache[i].dirty ==> cache[i].data == Under(cs, flash, k)
  {
    DropAny(cs, cache, flash, i, e, k);
    ViewAt(cs, cache, flash, k, i);
    assert EntryOk(cs, flash, cache[i]);
  }

  // ---------- bytes ----------

  datatype Mem = Mem(cache: Cache, flash: Flash)

  ghost predicate MemOk(cs: Pos, m: Mem) { CacheOk(cs, m.cache, m.flash) }

  /** The byte of file `f` at position `i`. */
  ghost function ByteAt(cs: Pos, m: Mem, f: nat, i: nat): Byte {
    var d := View(cs, m.cache, m.flash, Key(f, Quot(cs, i) + 1));
    if |d| == cs then d[Rem(cs, i)] else 0
  }

  /** yaffs_addr_to_chunk. */
  function Quot(cs: Pos, i: nat): nat { i / cs }

  function Rem(cs: Pos, i: nat): (r: nat)
    ensures r < cs
  {
    i % cs
  }

  /** From `pos` on file `f` has the bytes `data`; nothing else has changed. */
  ghost predicate Edited(cs: Pos, m: Mem, m': Mem, f: nat, pos: nat, data: seq<Byte>) {
    forall g: nat, i: nat :: ByteAt(cs, m', g, i) == if g == f && pos <= i < pos + |data| then data[i - pos]
                                                     else ByteAt(cs, m, g, i)
  }

  /** File `f` is zero from `pos` on; nothing else has changed. */
  ghost predicate ClearedFrom(cs: Pos, m: Mem, m': Mem, f: nat, pos: nat) {
    forall g: nat, i: nat :: ByteAt(cs, m', g, i) == if g == f && i >= pos then 0 else ByteAt(cs, m, g, i)
  }

  ghost predicate SameBytes(cs: Pos, m: Mem, m': Mem) {
    forall g: nat, i: nat :: ByteAt(cs, m', g, i) == ByteAt(cs, m, g, i)
  }

  ghost predicate ZeroPast(cs: Pos, m: Mem, f: nat, pos: nat) {
    forall i: nat :: i >= pos ==> ByteAt(cs, m, f, i) == 0
  }

  lemma ViewBytes(cs: Pos, m: Mem, m': Mem)
    requires SameView(cs, m.cache, m.flash, m'.cache, m'.flash)
    ensures SameBytes(cs, m, m')
  {}

  /** Positions and their chunks. */
  lemma PlaceOf(cs: Pos, q: nat, r: nat)
    requires r < cs
    ensures Quot(cs, q * cs + r) == q && Rem(cs, q * cs + r) == r
  {
    var i := q * cs + r;
    var a, b := i / cs, i % cs;
    assert i == a * cs + b;
    Apart(a - q, cs);
    assert (a - q) * cs == a * cs - q * cs;
  }

  lemma Apart(a: int, s: int)
    requires s >= 0
    ensures a >= 1 ==> a * s >= s
    ensures a <= -1 ==> a * s <= -s
  {}

  lemma PlaceIs(cs: Pos, i: nat)
    ensures i == Quot(cs, i) * cs + Rem(cs, i)
  {}

  /** `old_` with `bytes` put in at `start`. */
  function Patch(old_: seq<Byte>, start: nat, bytes: seq<Byte>): (r: seq<Byte>)
    requires start + |bytes| <= |old_|
    ensures |r| == |old_|
  {
    old_[..start] + bytes + old_[start + |bytes|..]
  }

  /** Changing part of one chunk edits those bytes of the file. */
  lemma PatchEdits(cs: Pos, m: Mem, m': Mem, f: nat, q: nat, start: nat, bytes: seq<Byte>)
    requires MemOk(cs, m) && start + |bytes| <= cs
    requires var k := Key(f, q + 1); var was := View(cs, m.cache, m.flash, k);
             |was| == cs && OnlyAt(cs, m.cache, m.flash, m'.cache, m'.flash, k, Patch(was, start, bytes))
    ensures Edited(cs, m, m', f, q * cs + start, bytes)
  {
    forall g: nat, i: nat
      ensures ByteAt(cs, m', g, i) == if g == f &&
              q * cs + start <= i < q * cs + start + |bytes| then bytes[i - (q * cs + start)] else ByteAt(cs, m, g, i)
    {
      PatchByte(cs, m, m', f, q, start, bytes, g, i);
    }
  }

  lemma PatchByte(cs: Pos, m: Mem, m': Mem, f: nat, q: nat, start: nat, bytes: seq<Byte>, g: nat, i: nat)
    requires start + |bytes| <= cs
    requires var k := Key(f, q + 1); var was := View(cs, m.cache, m.flash, k);
             |was| == cs && OnlyAt(cs, m.cache, m.flash, m'.cache, m'.flash, k, Patch(was, start, bytes))
    ensures var pos := q * cs + start;
            ByteAt(cs, m', g, i) == if g == f && pos <= i < pos + |bytes| then bytes[i - pos] else ByteAt(cs, m, g, i)
  {
    hide View, Under, Quot, Rem;
    var pos := q * cs + start;
    PlaceIs(cs, i);
    if pos <= i < pos + |bytes| { PlaceOf(cs, q, i - q * cs); }
  }

  lemma EditedTwice(cs: Pos, m: Mem, m': Mem, m'': Mem, f: nat, pos: nat, a: seq<Byte>, b: seq<Byte>)
    requires Edited(cs, m, m', f, pos, a) && Edited(cs, m', m'', f, pos + |a|, b)
    ensures Edited(cs, m, m'', f, pos, a + b)
  {}

  /** What reads of a chunk that is not patched see. */
  lemma ChunkBytes(cs: Pos, m: Mem, f: nat, q: nat, o: nat)
    requires MemOk(cs, m) && o < cs
    ensures |View(cs, m.cache, m.flash, Key(f, q + 1))| == cs
    ensures ByteAt(cs, m, f, q * cs + o) == View(cs, m.cache, m.flash, Key(f, q + 1))[o]
  {
    ViewSize(cs, m.cache, m.flash, Key(f, q + 1));
    PlaceOf(cs, q, o);
  }

  // ---------- deleting and trimming on flash ----------

  /** A chunk that is not cached, or holds zeros, is deleted on flash. */
  lemma DeleteUnder(cs: Pos, cache: Cache, flash: Flash, k: Key)
    requires CacheOk(cs, cache, flash) && (!Cached(cache, k) || View(cs, cache, flash, k) == Zeros(cs))
    ensures CacheOk(cs, cache, flash - {k}) && OnlyAt(cs, cache, flash, cache, flash - {k}, k, Zeros(cs))
  {
    ChangeUnder(cs, cache, flash, flash - {k}, k);
  }

  function ZeroTail(d: seq<Byte>, n: nat): seq<Byte>
    requires n <= |d|
  {
    d[..n] + Zeros(|d| - n)
  }

  /** A chunk that is not cached, or holds zeros past `n`, is rewritten with zeros past `n`. */
  lemma TrimUnder(cs: Pos, cache: Cache, flash: Flash, k: Key, n: nat)
    requires CacheOk(cs, cache, flash) && n <= cs && |View(cs, cache, flash, k)| == cs
    requires !Cached(cache, k) || View(cs, cache, flash, k) == ZeroTail(View(cs, cache, flash, k), n)
    ensures |Under(cs, flash, k)| == cs
    ensures var f' := flash[k := ZeroTail(Under(cs, flash, k), n)];
            CacheOk(cs, cache, f') && OnlyAt(cs, cache, flash, cache, f', k, ZeroTail(View(cs, cache, flash, k), n))
  {
    ChangeUnder(cs, cache, flash, flash[k := ZeroTail(Under(cs, flash, k), n)], k);
  }

  /** Flash changes under chunk `k` in a way that a clean cached copy still repeats. */
  lemma ChangeUnder(cs: Pos, cache: Cache, flash: Flash, f': Flash, k: Key)
    requires CacheOk(cs, cache, flash) && forall j: Key :: j != k ==>
               (j in f' <==> j in flash) && (j in flash ==> f'[j] == flash[j])
    requires |Under(cs, f', k)| == cs
    requires Cached(cache, k) && Under(cs, flash, k) == View(cs, cache, flash, k) ==>
               Under(cs, f', k) == Under(cs, flash, k)
    ensures CacheOk(cs, cache, f')
    ensures OnlyAt(cs, cache, flash, cache, f', k, if Cached(cache, k) then View(cs, cache, flash, k)
                   else Under(cs, f', k))
  {
    forall i | 0 <= i < |cache| ensures EntryOk(cs, f', cache[i]) {
      assert EntryOk(cs, flash, cache[i]);
      if IsFor(cache[i], k) { ViewAt(cs, cache, flash, k, i); }
    }
    if i :| 0 <= i < |cache| && IsFor(cache[i], k) {
      ViewAt(cs, cache, flash, k, i);
      ViewAt(cs, cache, f', k, i);
    }
    forall j: Key | j != k ensures View(cs, cache, f', j) == View(cs, cache, flash, j) {
      if i :| 0 <= i < |cache| && IsFor(cache[i], j) {
        ViewAt(cs, cache, flash, j, i);
        ViewAt(cs, cache, f', j, i);
      }
    }
  }
}
