/** The block table of a mounted device, and what its counters, bitmaps, flash contents and
  chunk map have to do with each other. */
module DevState {
  import opened Nand

  datatype Option<T> = None | Some(value: T)

  /** Chunks per block, chunks before the summary, summary chunks, block range. */
  datatype Geo = Geo(cpb: nat, cps: nat, sumPages: nat, start: nat, end: nat)

  predicate GeoOk(g: Geo) {
    g.cpb >= 2 && 1 <= g.sumPages <= g.cpb - g.cps && 1 <= g.start <= g.end
  }

  /** Pages of a block that take data. */
  function Limit(g: Geo): nat { if g.cps > 0 then g.cps else g.cpb }

  datatype BlockState = Empty | Allocating | Full | Collecting | Dirty | Checkpoint | Dead

  /** struct yaffs_block_info together with the block's chunk bitmap. */
  datatype BlockInfo = BlockInfo(st: BlockState, seqNo: nat, bits: set<nat>, used: int, shrink: bool,
                                 retire: bool, prioritise: bool, strikes: nat, summary: bool, skipCheck: bool)

  type Blocks = seq<BlockInfo>
  type Tree = map<Key, Addr>

  /** A checkpoint being written: current block and chunk, and where to look for the next block. */
  datatype Ckpt = Closed | Open(cur: int, chunk: nat, next: int)

  datatype Dev = Dev(blocks: Blocks, nFree: int, nErased: int, inCkpt: nat, ck: Ckpt, allocBlock: int, allocPage: nat,
                     seqNo: nat, oldSeq: nat, gcBlock: nat, gcChunk: nat, nand: Nand, tree: Tree)

  // ---------- recounts ----------

  function FreeIn(cpb: nat, b: BlockInfo): int {
    if b.st.Empty? || b.st.Allocating? || b.st.Collecting? || b.st.Full? then cpb - b.used else 0
  }

  /** yaffs_count_free_chunks. */
  function FreeSum(cpb: nat, bs: Blocks): int {
    if bs == [] then 0 else FreeSum(cpb, bs[..|bs| - 1]) + FreeIn(cpb, bs[|bs| - 1])
  }

  function CountOf(bs: Blocks, st: BlockState): nat {
    if bs == [] then 0 else CountOf(bs[..|bs| - 1], st) + if bs[|bs| - 1].st == st then 1 else 0
  }

  function Chunks(cpb: nat, n: nat): nat { n * cpb }

  lemma ChunksNext(cpb: nat, n: nat)
    ensures Chunks(cpb, n + 1) == Chunks(cpb, n) + cpb && Chunks(cpb, 0) == 0
  {}

  lemma {:induction false} SumPut(cpb: nat, bs: Blocks, i: nat, b: BlockInfo)
    requires i < |bs|
    ensures FreeSum(cpb, bs[i := b]) == FreeSum(cpb, bs) - FreeIn(cpb, bs[i]) + FreeIn(cpb, b)
    ensures forall st ::
              CountOf(bs[i := b], st) == CountOf(bs, st) - (if bs[i].st == st then 1 else 0) + if b.st == st then 1
                                                            else 0
    decreases |bs|
  {
    var n := |bs| - 1;
    if i == n {
      assert bs[i := b][..n] == bs[..n];
    } else {
      assert bs[i := b][..n] == bs[..n][i := b];
      SumPut(cpb, bs[..n], i, b);
    }
  }

  lemma {:induction false} CountPos(bs: Blocks, st: BlockState)
    ensures CountOf(bs, st) > 0 <==> exists i :: 0 <= i < |bs| && bs[i].st == st
    decreases |bs|
  {
    if bs != [] {
      var n := |bs| - 1;
      CountPos(bs[..n], st);
      if bs[n].st != st && CountOf(bs, st) > 0 {
        var i :| 0 <= i < n && bs[..n][i].st == st;
        assert bs[i].st == st;
      }
      if i :| 0 <= i < n && bs[i].st == st { assert bs[..n][i].st == st; }
    }
  }

  // ---------- the invariant ----------

  ghost predicate BlockOk(g: Geo, i: nat, b: BlockInfo) {
    && (forall p :: p in b.bits ==> p < g.cpb) && b.used == |b.bits|
    && (b.st.Empty? || b.st.Dirty? || b.st.Checkpoint? || b.st.Dead? ==> b.bits == {})
    && (i < g.start ==> b.st.Dead?) && (b.summary ==> g.cps > 0)
  }

  ghost predicate BlocksOk(g: Geo, bs: Blocks) {
    |bs| == g.end + 1 && forall i :: 0 <= i < |bs| ==> BlockOk(g, i, bs[i])
  }

  /** The counters against the recount.  `slack` is the free space of a block that is just
    being erased. */
  ghost predicate CountersOk(g: Geo, d: Dev, slack: int) {
    var ahead: nat := if d.ck.Open? then d.inCkpt else 0;
    && d.nFree == FreeSum(g.cpb, d.blocks) + Chunks(g.cpb, ahead) + slack
    && d.nErased == CountOf(d.blocks, Empty) + ahead
    && d.inCkpt == CountOf(d.blocks, Checkpoint)
  }

  ghost predicate AllocOk(g: Geo, bs: Blocks, allocBlock: int, allocPage: nat, seqNo: nat) {
    && -1 <= allocBlock < |bs| && (allocBlock >= 0 ==> g.start <= allocBlock)
    && (forall i :: 0 <= i < |bs| ==> (bs[i].st.Allocating? <==> i == allocBlock))
    && (allocBlock >= 0 ==>
        allocPage <= g.cpb && bs[allocBlock].seqNo == seqNo && forall p :: p in bs[allocBlock].bits ==> p < allocPage)
    && forall i :: 0 <= i < |bs| ==> bs[i].seqNo <= seqNo
  }

  ghost predicate NandOk(g: Geo, bs: Blocks, nand: Nand, allocBlock: int, allocPage: nat, ck: Ckpt) {
    && Proper(nand)
    && (forall i :: 0 <= i < |bs| && bs[i].st.Empty? ==> Top(nand, i) == 0)
    && (allocBlock >= 0 ==> Top(nand, allocBlock) <= allocPage)
    && (ck.Open? && ck.cur >= 0 ==>
        ck.cur < |bs| && bs[ck.cur].st.Checkpoint? && 0 < ck.chunk < g.cpb && Top(nand, ck.cur) <= ck.chunk)
  }

  ghost predicate InUse(bs: Blocks, a: Addr) { a.b < |bs| && a.p in bs[a.b].bits }

  /** The chunk map and the pages in use name each other.  Page `x` is in use but not (or no
    longer) in the map: just written, or about to be deleted. */
  ghost predicate Linked(g: Geo, bs: Blocks, nand: Nand, tree: Tree, x: Option<Addr>) {
    && (forall k :: k in tree ==>
        InUse(bs, tree[k]) && Some(tree[k]) != x && Read(nand, tree[k]).Chunk? && Read(nand, tree[k]).key == k)
    && (forall b, p :: InUse(bs, Addr(b, p)) && Some(Addr(b, p)) != x ==> PageLinked(g, nand, tree, Addr(b, p)))
  }

  ghost predicate PageLinked(g: Geo, nand: Nand, tree: Tree, a: Addr) {
    match Read(nand, a)
    case Chunk(k, _) => k in tree && tree[k] == a && a.p < Limit(g)
    case Summary => g.cps <= a.p
    case _ => false
  }

  /** The block being collected in pieces, if any, is between two pieces a full one, and once
    begun its summary is dropped. */
  ghost predicate GcOk(g: Geo, bs: Blocks, gcBlock: nat, gcChunk: nat) {
    gcBlock > 0 ==> gcBlock < |bs| && (bs[gcBlock].st.Full? || bs[gcBlock].st.Collecting?) && gcChunk <= g.cpb &&
                    (gcChunk > 0 ==> NoSummary(g, bs[gcBlock]))
  }

  ghost predicate NoSummary(g: Geo, b: BlockInfo) { b.summary ==> forall p :: p in b.bits ==> p < g.cps }

  ghost predicate Inv(g: Geo, d: Dev, x: Option<Addr>, slack: int) {
    && GeoOk(g) && BlocksOk(g, d.blocks) && CountersOk(g, d, slack)
    && AllocOk(g, d.blocks, d.allocBlock, d.allocPage, d.seqNo)
    && NandOk(g, d.blocks, d.nand, d.allocBlock, d.allocPage, d.ck)
    && Linked(g, d.blocks, d.nand, d.tree, x) && GcOk(g, d.blocks, d.gcBlock, d.gcChunk)
  }

  /** No full block with discarded pages is older than the oldest dirty sequence number. */
  ghost predicate OldestOk(g: Geo, d: Dev) {
    d.oldSeq != 0 ==> d.oldSeq <= d.seqNo && forall i :: 0 <= i < |d.blocks| ==> NotOlder(g, d.blocks[i], d.oldSeq)
  }

  ghost predicate NotOlder(g: Geo, b: BlockInfo, oldSeq: nat) {
    b.st.Full? && b.used < g.cpb ==> oldSeq <= b.seqNo
  }

  // ---------- what steps leave alone ----------

  /** Blocks in use, other than `b`, are as they were, table entry and pages. */
  ghost predicate Kept(d: Dev, e: Dev, b: int) {
    && |d.blocks| == |e.blocks|
    && (forall i :: 0 <= i < |d.blocks| && i != b && !d.blocks[i].st.Empty? && !d.blocks[i].st.Checkpoint? ==>
        e.blocks[i] == d.blocks[i])
    && (forall i, p :: 0 <= i < |d.blocks| && i != b && !d.blocks[i].st.Empty? && !d.blocks[i].st.Checkpoint? ==>
                         Read(e.nand, Addr(i, p)) == Read(d.nand, Addr(i, p)))
  }

  /** The chunk map, and what the mapped pages hold, are as they were. */
  ghost predicate SameContent(d: Dev, e: Dev) {
    && d.tree == e.tree
    && forall k :: k in d.tree ==> Read(e.nand, d.tree[k]) == Read(d.nand, d.tree[k])
  }

  lemma KeptTrans(g: Geo, d: Dev, e: Dev, f: Dev, b: int, c: int)
    requires Kept(d, e, b) && Kept(e, f, c)
    requires 0 <= c < |d.blocks| && c != b ==> d.blocks[c].st.Empty? || d.blocks[c].st.Checkpoint?
    ensures Kept(d, f, b)
  {}
}
