/** The single changes of state that make up allocation, deletion, erasure and collection,
  and that each keeps the invariant. */
module DevSteps {
  import opened Nand
  import opened DevState

  function IsOne(b: BlockInfo, st: BlockState): nat { if b.st == st then 1 else 0 }

  /** One changed table entry, and the counters moved by as much as the recounts. */
  lemma CountersPut(g: Geo, d: Dev, e: Dev, i: nat, info: BlockInfo, slack: int, slack': int)
    requires CountersOk(g, d, slack) && i < |d.blocks| && e.blocks == d.blocks[i := info] && e.ck == d.ck == Closed
    requires e.nFree - d.nFree == FreeIn(g.cpb, info) - FreeIn(g.cpb, d.blocks[i]) + slack' - slack
    requires e.nErased - d.nErased == IsOne(info, Empty) - IsOne(d.blocks[i], Empty)
    requires e.inCkpt - d.inCkpt == IsOne(info, Checkpoint) - IsOne(d.blocks[i], Checkpoint)
    ensures CountersOk(g, e, slack')
  {
    SumPut(g.cpb, d.blocks, i, info);
  }

  /** The table entry of a block changes without touching what is in use. */
  lemma LinkedPut(g: Geo, d: Dev, i: nat, info: BlockInfo, x: Option<Addr>)
    requires Linked(g, d.blocks, d.nand, d.tree, x) && i < |d.blocks| && info.bits == d.blocks[i].bits
    ensures Linked(g, d.blocks[i := info], d.nand, d.tree, x)
  {
    hide PageLinked;
    var bs := d.blocks[i := info];
    assert forall a: Addr :: InUse(bs, a) <==> InUse(d.blocks, a);
  }

  /** Block `i` has nothing in use and is wiped. */
  lemma LinkedWipe(g: Geo, bs: Blocks, nand: Nand, tree: Tree, i: nat, x: Option<Addr>)
    requires Linked(g, bs, nand, tree, x) && i < |bs| && bs[i].bits == {}
    ensures Linked(g, bs, Wiped(nand, i), tree, x)
  {
    forall b, p | InUse(bs, Addr(b, p)) &&
    Some(Addr(b, p)) != x ensures PageLinked(g, Wiped(nand, i), tree, Addr(b, p)) {
      assert PageLinked(g, nand, tree, Addr(b, p));
    }
  }

  /** A page programmed that is not in the map. */
  lemma LinkedProgram(g: Geo, bs: Blocks, nand: Nand, tree: Tree, a: Addr, page: Page, x: Option<Addr>)
    requires Linked(g, bs, nand, tree, x) && (x == Some(a) || !InUse(bs, a))
    ensures Linked(g, bs, Programmed(nand, a, page), tree, x)
  {
    forall b, p | InUse(bs, Addr(b, p)) &&
    Some(Addr(b, p)) != x ensures PageLinked(g, Programmed(nand, a, page), tree, Addr(b, p)) {
      assert PageLinked(g, nand, tree, Addr(b, p));
    }
  }

  lemma LinkedMore(g: Geo, d: Dev, a: Addr, info: BlockInfo)
    requires Linked(g, d.blocks, d.nand, d.tree, None) && a.b < |d.blocks| && info.bits == d.blocks[a.b].bits + {a.p}
    requires !InUse(d.blocks, a)
    ensures Linked(g, d.blocks[a.b := info], d.nand, d.tree, Some(a))
  {
    hide PageLinked;
    var bs := d.blocks[a.b := info];
    assert forall c: Addr :: InUse(bs, c) <==> c == a || InUse(d.blocks, c);
  }

  lemma LinkedLess(g: Geo, d: Dev, a: Addr, info: BlockInfo, x: Option<Addr>)
    requires Linked(g, d.blocks, d.nand, d.tree, x) && a.b < |d.blocks| && info.bits == d.blocks[a.b].bits - {a.p}
    requires forall k :: k in d.tree ==> d.tree[k] != a
    ensures Linked(g, d.blocks[a.b := info], d.nand, d.tree, if x == Some(a) then None else x)
  {
    hide PageLinked;
    var bs := d.blocks[a.b := info];
    assert forall c: Addr :: InUse(bs, c) <==> c != a && InUse(d.blocks, c);
  }

  lemma LinkedSummary(g: Geo, d: Dev, a: Addr, info: BlockInfo, x: Option<Addr>)
    requires Linked(g, d.blocks, d.nand, d.tree, x) && a.b < |d.blocks| && info.bits == d.blocks[a.b].bits + {a.p}
    requires !InUse(d.blocks, a) && a.p >= g.cps
    ensures Linked(g, d.blocks[a.b := info], Programmed(d.nand, a, Summary), d.tree, x)
  {
    LinkedProgram(g, d.blocks, d.nand, d.tree, a, Summary, x);
    var bs := d.blocks[a.b := info];
    var nand := Programmed(d.nand, a, Summary);
    assert forall c: Addr :: InUse(bs, c) <==> c == a || InUse(d.blocks, c);
    assert PageLinked(g, nand, d.tree, a);
  }

  lemma LinkedLink(g: Geo, bs: Blocks, nand: Nand, tree: Tree, k: Key, a: Addr)
    requires Linked(g, bs, nand, tree, Some(a)) && InUse(bs, a) && Read(nand, a).Chunk? && Read(nand, a).key == k
    requires a.p < Limit(g)
    ensures Linked(g, bs, nand, tree[k := a], if k in tree then Some(tree[k]) else None)
  {
    forall b, p | InUse(bs, Addr(b, p)) &&
    (k in tree ==> Addr(b, p) != tree[k]) ensures PageLinked(g, nand, tree[k := a], Addr(b, p)) {
      assert Addr(b, p) != a ==> PageLinked(g, nand, tree, Addr(b, p));
    }
  }

  lemma LinkedUnlink(g: Geo, bs: Blocks, nand: Nand, tree: Tree, k: Key)
    requires Linked(g, bs, nand, tree, None) && k in tree
    ensures Linked(g, bs, nand, tree - {k}, Some(tree[k]))
  {
    forall b, p | InUse(bs, Addr(b, p)) && Addr(b, p) != tree[k] ensures PageLinked(g, nand, tree - {k}, Addr(b, p)) {
      assert PageLinked(g, nand, tree, Addr(b, p));
    }
  }

  lemma CountersSame(g: Geo, d: Dev, e: Dev, slack: int)
    requires CountersOk(g, d, slack) && e == d.(nand := e.nand, tree := e.tree)
    ensures CountersOk(g, e, slack)
  {}

  /** yaffs_clear_chunk_bit with its two counters. */
  function ClearBit(d: Dev, a: Addr): Dev
    requires a.b < |d.blocks|
  {
    var b := d.blocks[a.b];
    d.(blocks := d.blocks[a.b := b.(bits := b.bits - {a.p}, used := b.used - 1)], nFree := d.nFree + 1)
  }

  lemma ClearBitInv(g: Geo, d: Dev, a: Addr, x: Option<Addr>)
    requires Inv(g, d, x, 0) && InUse(d.blocks, a) && forall k :: k in d.tree ==> d.tree[k] != a
    requires d.ck.Closed?
    ensures Inv(g, ClearBit(d, a), if x == Some(a) then None else x, 0)
  {
    hide CountersOk, Linked;
    var e := ClearBit(d, a);
    assert BlockOk(g, a.b, d.blocks[a.b]);
    CountersPut(g, d, e, a.b, e.blocks[a.b], 0, 0);
    LinkedLess(g, d, a, e.blocks[a.b], x);
  }

  /** An empty block becomes the one allocated from. */
  function TakeBlock(d: Dev, i: nat): Dev
    requires i < |d.blocks|
  {
    d.(blocks := d.blocks[i := d.blocks[i].(st := Allocating, seqNo := d.seqNo + 1)], seqNo := d.seqNo + 1,
       nErased := d.nErased - 1, allocBlock := i, allocPage := 0)
  }

  lemma TakeBlockInv(g: Geo, d: Dev, i: nat)
    requires Inv(g, d, None, 0) && i < |d.blocks| && d.blocks[i].st.Empty? && d.allocBlock < 0 && d.ck.Closed?
    ensures Inv(g, TakeBlock(d, i), None, 0)
  {
    hide CountersOk, Linked;
    var e := TakeBlock(d, i);
    assert BlockOk(g, i, d.blocks[i]);
    CountersPut(g, d, e, i, e.blocks[i], 0, 0);
    LinkedPut(g, d, i, e.blocks[i], None);
  }

  /** The next page of the block allocated from. */
  function TakePage(g: Geo, d: Dev): Dev
    requires 0 <= d.allocBlock < |d.blocks|
  {
    var b := d.blocks[d.allocBlock];
    var last := d.allocPage + 1 >= g.cpb;
    d.(blocks := d.blocks[d.allocBlock := b.(bits := b.bits + {d.allocPage}, used := b.used + 1,
                                             st := if last then Full else b.st)],
       nFree := d.nFree - 1, allocPage := d.allocPage + 1, allocBlock := if last then -1 else d.allocBlock)
  }

  lemma TakePageInv(g: Geo, d: Dev)
    requires Inv(g, d, None, 0) && d.allocBlock >= 0 && d.allocPage < g.cpb
    requires d.ck.Closed?
    ensures Inv(g, TakePage(g, d), Some(Addr(d.allocBlock, d.allocPage)), 0)
  {
    hide CountersOk, Linked;
    var e := TakePage(g, d);
    var b := d.allocBlock;
    assert BlockOk(g, b, d.blocks[b]);
    CountersPut(g, d, e, b, e.blocks[b], 0, 0);
    LinkedMore(g, d, Addr(b, d.allocPage), e.blocks[b]);
  }

  function Program(d: Dev, a: Addr, page: Page): Dev {
    d.(nand := Programmed(d.nand, a, page))
  }

  /** Page `x` just taken is programmed. */
  lemma ProgramInv(g: Geo, d: Dev, a: Addr, page: Page)
    requires Inv(g, d, Some(a), 0) && Top(d.nand, a.b) <= a.p && InUse(d.blocks, a)
    requires d.allocBlock >= 0 && a.b == d.allocBlock ==> a.p < d.allocPage
    ensures Inv(g, Program(d, a, page), Some(a), 0)
  {
    hide CountersOk, Linked;
    LinkedProgram(g, d.blocks, d.nand, d.tree, a, page, Some(a));
    CountersSame(g, d, Program(d, a, page), 0);
    assert BlockOk(g, a.b, d.blocks[a.b]);
  }

  /** A page above those of the allocated block, or of a block with nothing in use. */
  lemma ProgramUnused(g: Geo, d: Dev, a: Addr, page: Page, x: Option<Addr>, slack: int)
    requires Inv(g, d, x, slack) && a.b < |d.blocks| && Top(d.nand, a.b) <= a.p
    requires !d.blocks[a.b].st.Empty? && !InUse(d.blocks, a)
    requires d.allocBlock >= 0 && a.b == d.allocBlock ==> a.p < d.allocPage
    requires d.ck.Open? && d.ck.cur >= 0 && a.b == d.ck.cur ==> a.p < d.ck.chunk
    ensures Inv(g, Program(d, a, page), x, slack)
  {
    hide CountersOk, Linked;
    LinkedProgram(g, d.blocks, d.nand, d.tree, a, page, x);
    CountersSame(g, d, Program(d, a, page), slack);
  }

  function SkipRest(d: Dev): Dev
    requires 0 <= d.allocBlock < |d.blocks|
  {
    d.(blocks := d.blocks[d.allocBlock := d.blocks[d.allocBlock].(st := Full)], allocBlock := -1)
  }

  lemma SkipRestInv(g: Geo, d: Dev, x: Option<Addr>)
    requires Inv(g, d, x, 0) && d.allocBlock >= 0
    requires d.ck.Closed?
    ensures Inv(g, SkipRest(d), x, 0)
  {
    hide CountersOk, Linked;
    var e := SkipRest(d);
    var b := d.allocBlock;
    assert BlockOk(g, b, d.blocks[b]);
    CountersPut(g, d, e, b, e.blocks[b], 0, 0);
    LinkedPut(g, d, b, e.blocks[b], x);
  }

  /** A full or collected block without a page in use goes dirty. */
  function GoDirty(d: Dev, b: nat): Dev
    requires b < |d.blocks|
  {
    d.(blocks := d.blocks[b := d.blocks[b].(st := Dirty)], gcBlock := if b == d.gcBlock then 0 else d.gcBlock)
  }

  lemma GoDirtyInv(g: Geo, d: Dev, b: nat, x: Option<Addr>)
    requires Inv(g, d, x, 0) && b < |d.blocks| && (d.blocks[b].st.Full? || d.blocks[b].st.Collecting?)
    requires d.blocks[b].bits == {}
    requires d.ck.Closed?
    ensures Inv(g, GoDirty(d, b), x, g.cpb)
  {
    hide CountersOk, Linked;
    var e := GoDirty(d, b);
    assert BlockOk(g, b, d.blocks[b]);
    CountersPut(g, d, e, b, e.blocks[b], 0, g.cpb);
    LinkedPut(g, d, b, e.blocks[b], x);
  }

  function Erasure(d: Dev, b: nat): Dev
    requires b < |d.blocks|
  {
    d.(blocks := d.blocks[b := d.blocks[b].(st := Empty, seqNo := 0, bits := {}, used := 0, shrink := false,
                                            prioritise := false,
                                            summary := false, skipCheck := true)],
       nErased := d.nErased + 1, nand := Wiped(d.nand, b))
  }

  lemma ErasureInv(g: Geo, d: Dev, b: nat, x: Option<Addr>)
    requires Inv(g, d, x, g.cpb) && b < |d.blocks| && d.blocks[b].st.Dirty? && d.ck.Closed?
    ensures Inv(g, Erasure(d, b), x, 0)
  {
    hide CountersOk, Linked;
    var e := Erasure(d, b);
    assert BlockOk(g, b, d.blocks[b]);
    CountersPut(g, d, e, b, e.blocks[b], g.cpb, 0);
    LinkedPut(g, d, b, e.blocks[b], x);
    LinkedWipe(g, e.blocks, d.nand, d.tree, b, x);
  }

  /** The dirty block is given up. */
  function GoDead(d: Dev, b: nat): Dev
    requires b < |d.blocks|
  {
    d.(blocks := d.blocks[b := d.blocks[b].(st := Dead, prioritise := false, retire := false)])
  }

  lemma GoDeadInv(g: Geo, d: Dev, b: nat, x: Option<Addr>)
    requires Inv(g, d, x, 0) && b < |d.blocks| && d.blocks[b].st.Dirty? && d.ck.Closed?
    ensures Inv(g, GoDead(d, b), x, 0)
  {
    hide CountersOk, Linked;
    var e := GoDead(d, b);
    assert BlockOk(g, b, d.blocks[b]);
    CountersPut(g, d, e, b, e.blocks[b], 0, 0);
    LinkedPut(g, d, b, e.blocks[b], x);
  }

  lemma WipeInv(g: Geo, d: Dev, b: nat, x: Option<Addr>, slack: int)
    requires Inv(g, d, x, slack) && b < |d.blocks| && d.blocks[b].st.Dirty?
    ensures Inv(g, d.(nand := Wiped(d.nand, b)), x, slack)
  {
    hide CountersOk, Linked;
    assert BlockOk(g, b, d.blocks[b]);
    CountersSame(g, d, d.(nand := Wiped(d.nand, b)), slack);
    LinkedWipe(g, d.blocks, d.nand, d.tree, b, x);
  }

  /** One checkpoint block is erased, or fails to and is given up. */
  function DropCkpt(g: Geo, d: Dev, b: nat, ok: bool): Dev
    requires b < |d.blocks| && d.inCkpt > 0
  {
    if ok then
      d.(blocks := d.blocks[b := d.blocks[b].(st := Empty)], nErased := d.nErased + 1, nFree := d.nFree + g.cpb,
         inCkpt := d.inCkpt - 1,
         nand := Wiped(d.nand, b))
    else d.(blocks := d.blocks[b := d.blocks[b].(st := Dead)], inCkpt := d.inCkpt - 1)
  }

  lemma CkptCounted(g: Geo, d: Dev, b: nat, x: Option<Addr>, slack: int)
    requires Inv(g, d, x, slack) && b < |d.blocks| && d.blocks[b].st.Checkpoint?
    ensures d.inCkpt > 0
  {
    CountPos(d.blocks, Checkpoint);
  }

  lemma DropCkptInv(g: Geo, d: Dev, b: nat, ok: bool, x: Option<Addr>, slack: int)
    requires Inv(g, d, x, slack) && b < |d.blocks| && d.blocks[b].st.Checkpoint? && d.ck.Closed? && d.inCkpt > 0
    ensures Inv(g, DropCkpt(g, d, b, ok), x, slack)
  {
    hide CountersOk, Linked;
    var e := DropCkpt(g, d, b, ok);
    assert BlockOk(g, b, d.blocks[b]);
    CountersPut(g, d, e, b, e.blocks[b], slack, slack);
    LinkedPut(g, d, b, e.blocks[b], x);
    LinkedWipe(g, e.blocks, d.nand, d.tree, b, x);
  }

  /** Flags, and full against collecting. */
  lemma RetouchInv(g: Geo, d: Dev, e: Dev, b: nat, info: BlockInfo, x: Option<Addr>)
    requires Inv(g, d, x, 0) && b < |d.blocks| && e == d.(blocks := d.blocks[b := info])
    requires info.bits == d.blocks[b].bits && info.used == d.blocks[b].used && info.seqNo == d.blocks[b].seqNo
    requires info.summary == d.blocks[b].summary || (b != d.gcBlock && g.cps > 0)
    requires info.st == d.blocks[b].st || ((d.blocks[b].st.Full? || d.blocks[b].st.Collecting?) &&
                                           (info.st.Full? || info.st.Collecting?))
    requires d.ck.Closed?
    ensures Inv(g, e, x, 0)
  {
    hide CountersOk, Linked;
    assert BlockOk(g, b, d.blocks[b]);
    CountersPut(g, d, e, b, info, 0, 0);
    LinkedPut(g, d, b, info, x);
  }

  /** The chunk map takes the new page `a` for key `k`; the page it held before is now the odd one. */
  lemma LinkInv(g: Geo, d: Dev, k: Key, a: Addr)
    requires Inv(g, d, Some(a), 0) && InUse(d.blocks, a) && Read(d.nand, a).Chunk? && Read(d.nand, a).key == k
    requires a.p < Limit(g)
    ensures Inv(g, d.(tree := d.tree[k := a]), if k in d.tree then Some(d.tree[k]) else None, 0)
  {
    hide CountersOk, Linked;
    var e := d.(tree := d.tree[k := a]);
    CountersSame(g, d, e, 0);
    LinkedLink(g, d.blocks, d.nand, d.tree, k, a);
  }

  lemma UnlinkInv(g: Geo, d: Dev, k: Key)
    requires Inv(g, d, None, 0) && k in d.tree
    ensures Inv(g, d.(tree := d.tree - {k}), Some(d.tree[k]), 0)
  {
    hide CountersOk, Linked;
    var e := d.(tree := d.tree - {k});
    CountersSame(g, d, e, 0);
    LinkedUnlink(g, d.blocks, d.nand, d.tree, k);
  }

  /** One summary page written at the allocation point. */
  function AddSummary(d: Dev): Dev
    requires 0 <= d.allocBlock < |d.blocks|
  {
    var b := d.blocks[d.allocBlock];
    d.(blocks := d.blocks[d.allocBlock := b.(bits := b.bits + {d.allocPage}, used := b.used + 1)],
       nFree := d.nFree - 1, allocPage := d.allocPage + 1,
       nand := Programmed(d.nand, Addr(d.allocBlock, d.allocPage), Summary))
  }

  lemma AddSummaryInv(g: Geo, d: Dev, x: Option<Addr>)
    requires Inv(g, d, x, 0) && d.allocBlock >= 0 && g.cps <= d.allocPage < g.cpb && d.ck.Closed?
    ensures Inv(g, AddSummary(d), x, 0)
  {
    hide CountersOk, Linked;
    var e := AddSummary(d);
    var b := d.allocBlock;
    var a := Addr(b, d.allocPage);
    assert BlockOk(g, b, d.blocks[b]);
    CountersPut(g, d, e, b, e.blocks[b], 0, 0);
    LinkedSummary(g, d, a, e.blocks[b], x);
  }
}
