/** Chunk allocation, block erasure and retirement, summaries, garbage collection and the
  writing of checkpoints, as methods that update the device in place.

  Flash is nondeterministic: erasures, programs and the checks before and after a program may
  fail at any point. */
module Device {
  import opened Nand
  import opened DevState
  import opened DevSteps

  /** Only block `b`, and blocks with nothing in them, changed; the chunk map and what is on
    the pages it names did not. */
  ghost predicate Quiet(g: Geo, d: Dev, e: Dev, b: int) {
    && Kept(d, e, b) && SameContent(d, e) && d.ck == e.ck && d.gcChunk == e.gcChunk && d.seqNo <= e.seqNo
    && (e.gcBlock == d.gcBlock || (d.gcBlock == b && e.gcBlock == 0))
    && (OldestOk(g, d) ==> OldestOk(g, e))
    && (e.oldSeq == 0 || (d.oldSeq != 0 && e.oldSeq <= d.oldSeq)) && NoNewShrink(d, e)
  }

  /** No block has been marked as holding a shrink header. */
  predicate NoNewShrink(d: Dev, e: Dev) {
    |d.blocks| == |e.blocks| && forall i :: 0 <= i < |d.blocks| && e.blocks[i].shrink ==> d.blocks[i].shrink
  }

  /** No block but `b` has been. */
  predicate OnlyShrink(d: Dev, e: Dev, b: int) {
    |d.blocks| == |e.blocks| && forall i :: 0 <= i < |d.blocks| && e.blocks[i].shrink ==> d.blocks[i].shrink || i == b
  }

  ghost predicate Vacant(d: Dev, c: int) {
    0 <= c < |d.blocks| ==> d.blocks[c].st.Empty? || d.blocks[c].st.Checkpoint?
  }

  lemma QuietTrans(g: Geo, d: Dev, e: Dev, f: Dev, b: int, c: int, x: Option<Addr>, slack: int)
    requires Quiet(g, d, e, b) && Quiet(g, e, f, c) && Inv(g, d, x, slack) && (c == b || Vacant(d, c) || c < 0)
    ensures Quiet(g, d, f, b)
  {
    hide OldestOk;
    KeptTrans(g, d, e, f, b, c);
  }

  lemma QuietSelf(g: Geo, d: Dev, b: int)
    ensures Quiet(g, d, d, b)
  {}

  /** One table entry, and perhaps the pages of that block, changed. */
  lemma QuietPut(g: Geo, d: Dev, e: Dev, i: nat, info: BlockInfo)
    requires i < |d.blocks| && e.blocks == d.blocks[i := info] && SameContent(d, e) && e.ck == d.ck
    requires e.gcChunk == d.gcChunk
    requires e.nand == d.nand || e.nand == Wiped(d.nand, i) || exists p, page ::
               e.nand == Programmed(d.nand, Addr(i, p), page)
    requires e.gcBlock == d.gcBlock || (d.gcBlock == i && e.gcBlock == 0)
    requires e.seqNo >= d.seqNo && (e.oldSeq == 0 || (d.oldSeq != 0 && e.oldSeq <= d.oldSeq))
    requires OldestOk(g, d) ==> NotOlder(g, info, e.oldSeq) || e.oldSeq == 0
    requires info.shrink ==> d.blocks[i].shrink
    ensures Quiet(g, d, e, i) && (Vacant(d, i) && e.gcBlock == d.gcBlock ==> Quiet(g, d, e, -1))
  {
    forall b, p | b != i ensures Read(e.nand, Addr(b, p)) == Read(d.nand, Addr(b, p)) {}
  }

  lemma ContentSelf(d: Dev, e: Dev)
    requires e.tree == d.tree && e.nand == d.nand
    ensures SameContent(d, e)
  {}

  lemma ContentWiped(g: Geo, d: Dev, e: Dev, x: Option<Addr>, slack: int, i: nat)
    requires Inv(g, d, x, slack) && i < |d.blocks| && e.tree == d.tree && e.nand == Wiped(d.nand, i)
    requires d.blocks[i].st.Empty? || d.blocks[i].st.Dirty? || d.blocks[i].st.Checkpoint? || d.blocks[i].st.Dead?
    ensures SameContent(d, e)
  {
    assert BlockOk(g, i, d.blocks[i]);
  }

  lemma ContentProgrammed(g: Geo, d: Dev, e: Dev, a: Addr, page: Page, x: Option<Addr>, slack: int)
    requires Inv(g, d, x, slack) && e.tree == d.tree && e.nand == Programmed(d.nand, a, page)
    requires x == Some(a) || !InUse(d.blocks, a)
    ensures SameContent(d, e)
  {}

  lemma ContentMarked(g: Geo, d: Dev, e: Dev, b: nat, page: Page, x: Option<Addr>)
    requires Inv(g, d, x, 0) && e.tree == d.tree && e.nand == Programmed(d.nand, Addr(b, 0), page) && b < |d.blocks|
    requires d.blocks[b].st.Dirty?
    ensures SameContent(d, e)
  {
    assert BlockOk(g, b, d.blocks[b]);
  }

  lemma QuietNand(g: Geo, d: Dev, e: Dev, i: nat)
    requires SameContent(d, e) && e == d.(nand := e.nand)
    requires e.nand == Wiped(d.nand, i) || exists p, page :: e.nand == Programmed(d.nand, Addr(i, p), page)
    ensures Quiet(g, d, e, i)
  {
    forall b, p | b != i ensures Read(e.nand, Addr(b, p)) == Read(d.nand, Addr(b, p)) {}
  }

  lemma QuietWider(g: Geo, d: Dev, e: Dev, b: int)
    requires Quiet(g, d, e, -1)
    ensures Quiet(g, d, e, b)
  {}

  lemma NoneFound(g: Geo, d: Dev, at: nat, low: nat)
    requires at != 0 ==> at < |d.blocks| && IsDirty(g, d.blocks[at]) && d.blocks[at].seqNo == 0
    requires at == 0 ==> low == d.seqNo + 1 && forall i :: 0 <= i < |d.blocks| ==>
               NotOlder(g, d.blocks[i], low) && d.blocks[i].seqNo <= d.seqNo
    ensures !SomeDirty(g, d) || !NoneOlder(g, d, 1)
  {}

  lemma InvSize(g: Geo, d: Dev, x: Option<Addr>, slack: int)
    requires Inv(g, d, x, slack)
    ensures g.cpb >= 2 && 1 <= g.sumPages <= g.cpb - g.cps && 1 <= g.start <= g.end && |d.blocks| == g.end + 1
    ensures d.inCkpt == CountOf(d.blocks, Checkpoint) && (d.ck.Closed? ==> d.nErased == CountOf(d.blocks, Empty))
  {}

  lemma LowDead(g: Geo, d: Dev, x: Option<Addr>, slack: int)
    requires Inv(g, d, x, slack)
    ensures forall i :: 0 <= i < g.start ==> i < |d.blocks| && d.blocks[i].st.Dead?
  {
    assert forall i :: 0 <= i < |d.blocks| ==> BlockOk(g, i, d.blocks[i]);
  }

  /** What the invariant says about one block and about the counters. */
  lemma InvFacts(g: Geo, d: Dev, x: Option<Addr>, slack: int)
    requires Inv(g, d, x, slack)
    ensures g.cpb >= 2 && 1 <= g.sumPages <= g.cpb - g.cps && 1 <= g.start <= g.end && |d.blocks| == g.end + 1
    ensures d.inCkpt == CountOf(d.blocks, Checkpoint) && (d.ck.Closed? ==> d.nErased == CountOf(d.blocks, Empty))
    ensures -1 <= d.allocBlock < |d.blocks|
    ensures d.allocBlock >= 0 ==>
              g.start <= d.allocBlock && d.blocks[d.allocBlock].st.Allocating? && d.allocPage <= g.cpb
    ensures forall i :: 0 <= i < |d.blocks| && d.blocks[i].st.Allocating? ==> i == d.allocBlock
    ensures forall i :: 0 <= i < g.start ==> d.blocks[i].st.Dead?
    ensures d.gcBlock < |d.blocks|
    ensures d.gcBlock > 0 ==> d.blocks[d.gcBlock].st.Full? || d.blocks[d.gcBlock].st.Collecting?
    ensures x.Some? && InUse(d.blocks, x.value) ==> forall k :: k in d.tree ==> d.tree[k] != x.value
  {
    assert forall i :: 0 <= i < |d.blocks| ==> BlockOk(g, i, d.blocks[i]);
  }

  lemma InvBlock(g: Geo, d: Dev, x: Option<Addr>, slack: int, i: nat)
    requires Inv(g, d, x, slack) && i < |d.blocks|
    ensures BlockOk(g, i, d.blocks[i]) && d.blocks[i].seqNo <= d.seqNo
    ensures d.blocks[i].st.Empty? ==> Top(d.nand, i) == 0
    ensures d.allocBlock >= 0 ==> d.blocks[d.allocBlock].seqNo == d.seqNo && Top(d.nand, d.allocBlock) <= d.allocPage
  {}

  class Device {
    const g: Geo
    var blocks: Blocks
    var nFree: int
    var nErased: int
    var inCkpt: nat
    var isCkpt: bool
    var ck: Ckpt
    var allocBlock: int
    var allocPage: nat
    var finder: int
    var seqNo: nat
    var oldSeq: nat
    var oldBlock: nat
    var gcBlock: nat
    var gcChunk: nat
    /** gc_dirtiest: the candidate for the next collection, or 0. */
    var gcDirtiest: nat
    /** has_pending_prioritised_gc. */
    var pending: bool
    var nand: Nand
    var tree: Tree
    /** How many programs, erasures and checks of the flash have failed. */
    ghost var faults: nat

    /** No page is left to allocate. */
    ghost predicate NoBlock()
      reads this
    {
      allocBlock < 0 && nErased < 1
    }

    /** Nothing can be allocated: no erased block is left, or only the reserve is. */
    ghost predicate NoSpace(useReserve: bool, reserved: nat)
      reads this
    {
      NoBlock() || (!useReserve && nFree <= reserved + 1)
    }

    ghost function D(): Dev
      reads this
    {
      Dev(blocks, nFree, nErased, inCkpt, ck, allocBlock, allocPage, seqNo, oldSeq, gcBlock, gcChunk, nand, tree)
    }

    /** The device with its checkpoint blocks counted anew. */
    ghost function Counted(): Dev
      reads this
    {
      D().(inCkpt := CountOf(blocks, Checkpoint))
    }

    /** One checkpoint block is erased, or given up. */
    method DropCkptBlock(i: nat, ghost x: Option<Addr>, ghost slack: int)
      requires Inv(g, Counted(), x, slack) && ck.Closed? && i < |blocks| && blocks[i].st.Checkpoint?
      modifies this`blocks, this`nErased, this`nFree, this`nand, this`faults
      ensures Inv(g, Counted(), x, slack) && Quiet(g, old(Counted()), Counted(), -1)
      ensures |blocks| == old(|blocks|) && blocks == old(blocks)[i := blocks[i]] && !blocks[i].st.Checkpoint?
      ensures faults >= old(faults) && (faults == old(faults) ==> blocks[i] == old(blocks[i]).(st := Empty))
    {
      hide Inv, Quiet, SameContent, CountOf, BlockOk, FreeSum;
      ghost var d := Counted();
      var ok: bool := *;
      CkptCounted(g, d, i, x, slack);
      DropCkptInv(g, d, i, ok, x, slack);
      DropQuiet(g, d, i, ok, x, slack);
      InvSize(g, DropCkpt(g, d, i, ok), x, slack);
      if ok {
        blocks := blocks[i := blocks[i].(st := Empty)];
        nErased := nErased + 1;
        nFree := nFree + g.cpb;
        nand := Wiped(nand, i);
      } else {
        faults := faults + 1;
        blocks := blocks[i := blocks[i].(st := Dead)];
      }
    }

    /** yaffs_checkpt_erase. */
    method CheckptErase(ghost x: Option<Addr>, ghost slack: int)
      requires Inv(g, D(), x, slack) && ck.Closed?
      modifies this
      ensures pending == old(pending)
      ensures Inv(g, D(), x, slack) && inCkpt == 0 && isCkpt == old(isCkpt) && faults >= old(faults)
      ensures faults == old(faults) ==> ErasedTo(old(blocks), blocks, g.end + 1)
      ensures old(inCkpt) == 0 ==> D() == old(D()) && faults == old(faults)
      ensures Quiet(g, old(D()), D(), -1) && allocBlock == old(allocBlock) && allocPage == old(allocPage)
      ensures seqNo == old(seqNo)
    {
      hide Inv, Quiet, SameContent, CountOf, BlockOk, FreeSum, ErasedTo;
      ghost var d0 := D();
      InvSize(g, D(), x, slack);
      LowDead(g, D(), x, slack);
      NoneErased(blocks, g.start);
      QuietSelf(g, d0, -1);
      for i := g.start to g.end + 1
        invariant |blocks| == g.end + 1 && ck.Closed? && allocBlock == d0.allocBlock && allocPage == d0.allocPage
        invariant seqNo == d0.seqNo && pending == old(pending)
        invariant isCkpt == old(isCkpt) && faults >= old(faults)
        invariant faults == old(faults) ==> ErasedTo(d0.blocks, blocks, i)
        invariant Inv(g, Counted(), x, slack) && Quiet(g, d0, Counted(), -1)
        invariant forall j :: 0 <= j < i ==> !blocks[j].st.Checkpoint?
        invariant d0.inCkpt == 0 ==> D() == d0 && faults == old(faults)
      {
        if d0.inCkpt == 0 { CountPos(blocks, Checkpoint); }
        ghost var bs, d := blocks, Counted();
        if blocks[i].st.Checkpoint? {
          DropCkptBlock(i, x, slack);
          QuietTrans(g, d0, d, Counted(), -1, -1, x, slack);
        }
        if faults == old(faults) { ErasedStep(d0.blocks, bs, blocks, i); }
      }
      CountPos(blocks, Checkpoint);
      inCkpt := 0;
    }

    /** yaffs2_checkpt_invalidate. */
    method CheckptInvalidate(ghost x: Option<Addr>, ghost slack: int)
      requires Inv(g, D(), x, slack) && ck.Closed?
      modifies this
      ensures pending == old(pending)
      ensures Inv(g, D(), x, slack) && inCkpt == 0 && !isCkpt && faults >= old(faults)
      ensures old(inCkpt) == 0 ==> D() == old(D()) && faults == old(faults)
      ensures Quiet(g, old(D()), D(), -1) && allocBlock == old(allocBlock) && allocPage == old(allocPage)
      ensures seqNo == old(seqNo)
    {
      hide Inv;
      if isCkpt || inCkpt > 0 {
        isCkpt := false;
        CheckptErase(x, slack);
      } else {
        QuietSelf(g, D(), -1);
      }
    }

    /** yaffs2_clear_oldest_dirty_seq. */
    method ClearOldest(b: nat, ghost x: Option<Addr>, ghost slack: int)
      requires Inv(g, D(), x, slack) && b < |blocks|
      modifies this`oldSeq, this`oldBlock
      ensures Inv(g, D(), x, slack) && Quiet(g, old(D()), D(), -1)
      ensures oldSeq == if old(blocks[b].seqNo == oldSeq) then 0 else old(oldSeq)
      ensures oldBlock == if old(blocks[b].seqNo == oldSeq) then 0 else old(oldBlock)
    {
      hide Quiet;
      ghost var d0 := D();
      QuietSelf(g, d0, -1);
      if blocks[b].seqNo == oldSeq {
        oldSeq, oldBlock := 0, 0;
        OldestCleared(g, d0);
      }
    }

    /** The driver marks the block bad; failing that, the block is erased and a marker written. */
    method MarkBad(b: nat, markedBad: bool, erased: bool, ghost x: Option<Addr>)
      requires Inv(g, D(), x, 0) && ck.Closed? && b < |blocks| && blocks[b].st.Dirty?
      modifies this`nand, this`faults
      ensures Inv(g, D(), x, 0) && Quiet(g, old(D()), D(), b)
      ensures faults == old(faults) + if markedBad || erased then 0 else 1
      ensures nand == if markedBad || !erased then old(nand) else Programmed(Wiped(old(nand), b), Addr(b, 0), Marker)
    {
      hide Inv, Quiet, SameContent;
      ghost var d0 := D();
      QuietSelf(g, d0, b);
      if markedBad { return; }
      if !erased {
        faults := faults + 1;
        return;
      }
      nand := Wiped(nand, b);
      WipeInv(g, d0, b, x, 0);
      ContentWiped(g, d0, D(), x, 0, b);
      QuietNand(g, d0, D(), b);
      ghost var d1 := D();
      nand := Programmed(nand, Addr(b, 0), Marker);
      ProgramDirty(g, d1, b, Marker, x);
      ContentMarked(g, d1, D(), b, Marker, x);
      QuietNand(g, d1, D(), b);
      QuietTrans(g, d0, d1, D(), b, b, x, 0);
    }

    /** yaffs_retire_block, of a block already taken out of the count. */
    method Retire(b: nat, ghost x: Option<Addr>)
      requires Inv(g, D(), x, 0) && ck.Closed? && b < |blocks| && blocks[b].st.Dirty?
      modifies this
      ensures pending == old(pending)
      ensures Inv(g, D(), x, 0) && Quiet(g, old(D()), D(), b) && b < |blocks|
      ensures blocks[b] == old(blocks[b]).(st := Dead, prioritise := false, retire := false)
      ensures faults >= old(faults)
      ensures allocBlock == old(allocBlock) && allocPage == old(allocPage) && seqNo == old(seqNo)
    {
      hide Inv, Quiet, SameContent;
      ghost var d0 := D();
      CheckptInvalidate(x, 0);
      ghost var d1 := D();
      StillDirty(g, d0, d1, b);
      ClearOldest(b, x, 0);
      QuietTrans(g, d0, d1, D(), -1, -1, x, 0);
      QuietWider(g, d0, D(), b);
      ghost var d2 := D();
      var markedBad: bool, erased: bool := *, *;
      MarkBad(b, markedBad, erased, x);
      QuietTrans(g, d0, d2, D(), b, b, x, 0);
      ghost var d4 := D();
      blocks := blocks[b := blocks[b].(st := Dead, prioritise := false, retire := false)];
      GoDeadInv(g, d4, b, x);
      QuietPut(g, d4, D(), b, blocks[b]);
      QuietTrans(g, d0, d4, D(), b, b, x, 0);
    }

    method MakeDirty(b: nat, ghost x: Option<Addr>)
      requires Inv(g, D(), x, 0) && b < |blocks| && (blocks[b].st.Full? || blocks[b].st.Collecting?)
      requires blocks[b].bits == {} && ck.Closed?
      modifies this`blocks, this`gcBlock, this`gcDirtiest, this`oldSeq, this`oldBlock
      ensures Inv(g, D(), x, g.cpb) && Quiet(g, old(D()), D(), b) && b < |blocks|
      ensures gcDirtiest == if old(gcDirtiest) == b then 0 else old(gcDirtiest)
      ensures blocks[b] == old(blocks[b]).(st := Dirty)
    {
      hide Inv, Quiet, SameContent, Kept;
      ghost var d0 := D();
      ClearOldest(b, x, 0);
      ghost var d1 := D();
      blocks := blocks[b := blocks[b].(st := Dirty)];
      if b == gcBlock { gcBlock := 0; }
      if b == gcDirtiest { gcDirtiest := 0; }
      GoDirtyInv(g, d1, b, x);
      QuietPut(g, d1, D(), b, blocks[b]);
      QuietWider(g, d0, d1, b);
      QuietTrans(g, d0, d1, D(), b, b, x, 0);
    }

    method EraseDirty(b: nat, ghost x: Option<Addr>)
      requires Inv(g, D(), x, g.cpb) && b < |blocks| && blocks[b].st.Dirty? && ck.Closed?
      modifies this`blocks, this`nErased, this`nand
      ensures Inv(g, D(), x, 0) && Quiet(g, old(D()), D(), b) && b < |blocks| && Cleaned(old(blocks[b]), blocks[b])
      ensures nErased == old(nErased) + 1
    {
      hide Inv, Quiet, SameContent, Kept;
      ghost var d0 := D();
      blocks := blocks[b := blocks[b].(st := Empty, seqNo := 0, bits := {}, used := 0, shrink := false,
                                       prioritise := false, summary := false, skipCheck := true)];
      nErased := nErased + 1;
      nand := Wiped(nand, b);
      ErasureInv(g, d0, b, x);
      ContentWiped(g, d0, D(), x, g.cpb, b);
      QuietPut(g, d0, D(), b, blocks[b]);
    }

    /** The attempt to erase a dirty block, which a block due for retirement is spared. */
    method TryErase(b: nat, ghost x: Option<Addr>) returns (erasedOk: bool)
      requires Inv(g, D(), x, g.cpb) && ck.Closed? && b < |blocks| && blocks[b].st.Dirty?
      modifies this
      ensures pending == old(pending)
      ensures Inv(g, D(), x, g.cpb) && Quiet(g, old(D()), D(), -1) && b < |blocks| && blocks[b] == old(blocks[b])
      ensures faults >= old(faults) && (erasedOk ==> !blocks[b].retire)
      ensures (faults == old(faults) ==> erasedOk == !blocks[b].retire) && ck.Closed?
      ensures allocBlock == old(allocBlock) && allocPage == old(allocPage) && seqNo == old(seqNo)
    {
      hide Inv, Quiet, SameContent, Kept, InUse;
      ghost var d1 := D();
      erasedOk := false;
      if blocks[b].retire {
        QuietSelf(g, d1, -1);
      } else {
        CheckptInvalidate(x, g.cpb);
        StillDirty(g, d1, D(), b);
        erasedOk := *;
        if !erasedOk { faults := faults + 1; }
      }
    }

    /** yaffs_block_became_dirty: a block with nothing in use is erased, or retired. */
    method BecameDirty(b: nat, ghost x: Option<Addr>)
      requires Inv(g, D(), x, 0) && ck.Closed? && b < |blocks| && (blocks[b].st.Full? || blocks[b].st.Collecting?)
      requires blocks[b].bits == {}
      modifies this
      ensures pending == old(pending)
      ensures Inv(g, D(), x, 0) && Quiet(g, old(D()), D(), b) && b < |blocks|
      ensures || (Cleaned(old(blocks[b]), blocks[b]) && !old(blocks[b].retire))
              || blocks[b] == old(blocks[b]).(st := Dead, prioritise := false, retire := false)
      ensures faults >= old(faults) && (faults == old(faults) && !old(blocks[b].retire) ==> blocks[b].st.Empty?)
      ensures allocBlock == old(allocBlock) && allocPage == old(allocPage) && seqNo == old(seqNo)
    {
      hide Inv, Quiet, SameContent, Kept, InUse;
      ghost var d0 := D();
      MakeDirty(b, x);
      ghost var d1 := D();
      QuietCk(g, d0, d1, b);
      var erasedOk := TryErase(b, x);
      QuietTrans(g, d0, d1, D(), b, -1, x, 0);
      ghost var d3 := D();
      if !erasedOk {
        nFree := nFree - g.cpb;
        SlackPaid(g, d3, x);
        QuietFree(g, d0, d3, D(), b);
        ghost var d4 := D();
        Retire(b, x);
        QuietTrans(g, d0, d4, D(), b, b, x, 0);
      } else {
        EraseDirty(b, x);
        QuietTrans(g, d0, d3, D(), b, b, x, 0);
      }
    }

    /** yaffs_clear_chunk_bit, with the two counters. */
    method DropBit(a: Addr, ghost x: Option<Addr>)
      requires Inv(g, D(), x, 0) && ck.Closed? && InUse(blocks, a) && forall k :: k in tree ==> tree[k] != a
      requires oldSeq == 0 || oldSeq <= blocks[a.b].seqNo || !blocks[a.b].st.Full?
      modifies this`nFree, this`blocks
      ensures Inv(g, D(), if x == Some(a) then None else x, 0) && Quiet(g, old(D()), D(), a.b)
      ensures D() == ClearBit(old(D()), a)
    {
      hide Inv, Quiet, SameContent, Kept;
      ghost var d0 := D();
      nFree := nFree + 1;
      blocks := blocks[a.b := blocks[a.b].(bits := blocks[a.b].bits - {a.p}, used := blocks[a.b].used - 1)];
      ClearBitInv(g, d0, a, x);
      QuietPut(g, d0, D(), a.b, blocks[a.b]);
    }

    /** A page in use is given back; the oldest dirty block may now be this one. */
    method GiveBack(a: Addr)
      requires Inv(g, D(), Some(a), 0) && ck.Closed? && InUse(blocks, a)
      modifies this`oldSeq, this`oldBlock, this`nFree, this`blocks
      ensures Inv(g, D(), None, 0) && Quiet(g, old(D()), D(), a.b)
      ensures D() == ClearBit(old(D()), a).(oldSeq := oldSeq) && (oldSeq == 0 || oldSeq <= old(blocks[a.b].seqNo))
    {
      hide Inv, Quiet, SameContent, Kept;
      ghost var d0 := D();
      var b := a.b;
      NotMapped(g, d0, a, 0);
      if oldSeq != 0 && oldSeq > blocks[b].seqNo {
        oldSeq, oldBlock := blocks[b].seqNo, b;
      }
      InvOldest(g, d0, oldSeq, Some(a), 0);
      LowerOldest(g, d0, oldSeq, b, Some(a), 0);
      ghost var d1 := D();
      DropBit(a, Some(a));
      QuietTrans(g, d0, d1, D(), b, b, Some(a), 0);
    }

    /** yaffs_chunk_del, of a page the chunk map no longer names. */
    method ChunkDel(a: Addr)
      requires Inv(g, D(), Some(a), 0) && ck.Closed? && InUse(blocks, a)
      modifies this
      ensures pending == old(pending)
      ensures Inv(g, D(), None, 0) && Quiet(g, old(D()), D(), a.b) && Deleted(old(D()), D(), a)
      ensures faults >= old(faults) && (faults == old(faults) ==> StaysGood(old(blocks), blocks, a.b))
      ensures allocBlock == old(allocBlock) && allocPage == old(allocPage) && seqNo == old(seqNo)
    {
      hide Inv, Quiet, SameContent, Kept, InUse, Deleted;
      ghost var d0 := D();
      InUseBlock(g, d0, a, 0);
      GiveBack(a);
      ghost var d1 := D();
      NoneUsed(g, d1, a.b, None, 0);
      QuietCk(g, d0, d1, a.b);
      var info := blocks[a.b];
      if info.used == 0 && !info.shrink && !info.st.Allocating? {
        BecameDirty(a.b, None);
        QuietTrans(g, d0, d1, D(), a.b, a.b, Some(a), 0);
        QuietOld(g, d1, D(), a.b);
        QuietCk(g, d1, D(), a.b);
        DeletedLast(d0, d1, D(), a);
      } else {
        DeletedOne(d0, d1, a);
      }
    }

    /** yaffs_skip_rest_of_block.  `page` is how far the block has really been filled. */
    method SkipRest(ghost x: Option<Addr>, ghost page: nat)
      requires Inv(g, D().(allocPage := page), x, 0) && ck.Closed?
      modifies this`blocks, this`allocBlock
      ensures Inv(g, D(), x, 0) && Quiet(g, old(D()), D(), old(allocBlock)) && allocBlock == -1
      ensures old(allocBlock) >= 0 ==>
                old(allocBlock) < |old(blocks)| && blocks == old(blocks[allocBlock := blocks[allocBlock].(st := Full)])
      ensures old(allocBlock) < 0 ==> blocks == old(blocks)
    {
      hide Inv, Quiet, SameContent, Kept;
      ghost var d0 := D().(allocPage := page);
      AllocFacts(g, d0, x, 0);
      if allocBlock > 0 {
        var b := allocBlock;
        blocks := blocks[b := blocks[b].(st := Full)];
        allocBlock := -1;
        SkipRestInv(g, d0, x);
        QuietPut(g, d0, D(), b, blocks[b]);
      } else {
        QuietSelf(g, d0, allocBlock);
      }
      NoAlloc(g, D().(allocPage := page), D(), x, 0);
      QuietPage(g, d0, old(D()), D(), old(allocBlock));
    }

    /** yaffs_find_alloc_block.  The search comes round to every block, so it fails only when the
      counter says that no block is erased. */
    method FindAllocBlock() returns (r: int)
      requires Inv(g, D(), None, 0) && ck.Closed? && allocBlock < 0
      modifies this`finder, this`blocks, this`seqNo, this`nErased
      ensures r < 0 <==> old(nErased) < 1
      ensures r < 0 ==> r == -1 && D() == old(D())
      ensures r >= 0 ==>
                g.start <= r <= g.end && old(blocks[r].st.Empty?) &&
                D().(allocBlock := r, allocPage := 0) == TakeBlock(old(D()), r)
    {
      hide Inv, CountOf;
      InvSize(g, D(), None, 0);
      if nErased < 1 { return -1; }
      var n := g.end - g.start + 1;
      var first := Next(finder);
      for i := g.start to g.end + 1
        invariant D() == old(D())
        invariant if i == g.start then Next(finder) == first
                  else finder == first + (i - g.start) - 1 - (if first + (i - g.start) - 1 > g.end then n else 0)
        invariant forall j :: g.start <= j <= g.end && Passed(first, i - g.start, j) ==> !blocks[j].st.Empty?
      {
        finder := finder + 1;
        if finder < g.start || finder > g.end { finder := g.start; }
        if blocks[finder].st.Empty? {
          seqNo := seqNo + 1;
          blocks := blocks[finder := blocks[finder].(st := Allocating, seqNo := seqNo)];
          nErased := nErased - 1;
          return finder;
        }
      }
      assert forall j :: g.start <= j <= g.end ==> Passed(first, n, j);
      LowDead(g, D(), None, 0);
      CountPos(blocks, Empty);
      assert false;
    }

    function Next(f: int): int {
      if f + 1 < g.start || f + 1 > g.end then g.start else f + 1
    }

    /** Block `j` is among the first `k` visited from `first`, going round. */
    predicate Passed(first: int, k: int, j: int) {
      first <= j < first + k || j < first + k - (g.end - g.start + 1)
    }

    /** A block to allocate from, if there is one. */
    method OpenBlock()
      requires Inv(g, D(), None, 0) && Rest(g, D()) && ck.Closed?
      modifies this`finder, this`blocks, this`seqNo, this`nErased, this`allocBlock, this`allocPage
      ensures Inv(g, D(), None, 0) && Rest(g, D()) && Quiet(g, old(D()), D(), old(allocBlock))
      ensures old(allocBlock) >= 0 ==> D() == old(D())
      ensures old(NoBlock()) ==> D() == old(D()).(allocPage := 0)
      ensures allocBlock < 0 <==> old(allocBlock < 0 && nErased < 1)
      ensures nFree == old(nFree) && (allocBlock < 0 ==> nErased < 1)
      ensures old(allocBlock) < 0 && allocBlock >= 0 ==> Vacant(old(D()), allocBlock)
    {
      hide Inv, Quiet, SameContent, Kept, CountOf;
      ghost var d0 := D();
      AllocFacts(g, d0, None, 0);
      QuietSelf(g, d0, allocBlock);
      if allocBlock < 0 {
        allocBlock := FindAllocBlock();
        allocPage := 0;
        if allocBlock < 0 {
          NoAlloc(g, d0, D(), None, 0);
        } else {
          TakeBlockInv(g, d0, allocBlock);
          QuietPut(g, d0, D(), allocBlock, blocks[allocBlock]);
          InvSize(g, d0, None, 0);
        }
      }
    }

    /** The next page of the block allocated from. */
    method NextPage() returns (a: Addr)
      requires Inv(g, D(), None, 0) && Rest(g, D()) && ck.Closed? && allocBlock >= 0
      modifies this`blocks, this`allocBlock, this`allocPage, this`nFree
      ensures Inv(g, D(), Some(a), 0) && Quiet(g, old(D()), D(), old(allocBlock)) && Fresh(g, D(), a)
      ensures a.b == old(allocBlock)
    {
      hide Inv, Quiet, SameContent, Kept, Fresh, Vacant;
      ghost var d := D();
      AllocFacts(g, d, None, 0);
      InvSize(g, d, None, 0);
      var b := blocks[allocBlock];
      a := Addr(allocBlock, allocPage);
      blocks := blocks[allocBlock := b.(bits := b.bits + {allocPage}, used := b.used + 1,
                                        st := if allocPage + 1 >= g.cpb then Full else b.st)];
      allocPage := allocPage + 1;
      nFree := nFree - 1;
      if allocPage >= g.cpb { allocBlock := -1; }
      TakePageInv(g, d);
      TakePageQuiet(g, d);
    }

    /** yaffs_alloc_chunk.  `reserved` is what must stay free for writes without the reserve. */
    method AllocChunk(useReserve: bool, reserved: nat) returns (r: Option<Addr>)
      requires Inv(g, D(), None, 0) && Rest(g, D()) && ck.Closed?
      modifies this`finder, this`blocks, this`seqNo, this`nErased, this`allocBlock, this`allocPage, this`nFree
      ensures Inv(g, D(), r, 0) && Quiet(g, old(D()), D(), old(allocBlock))
      ensures if r.Some? then Fresh(g, D(), r.value) else Rest(g, D())
      ensures r.None? <==> old(allocBlock < 0 && nErased < 1) || (!useReserve && old(nFree) <= reserved + 1)
      ensures r.Some? ==> r.value.b == old(allocBlock) || Vacant(old(D()), r.value.b)
      ensures r.None? ==> NoSpace(useReserve, reserved)
      ensures old(NoBlock()) ==> D() == old(D()).(allocPage := 0)
    {
      hide Inv, Quiet, SameContent, Kept, Fresh, Vacant;
      ghost var d0 := D();
      OpenBlock();
      ghost var d1 := D();
      if !useReserve && !(nFree > reserved + 1) { return None; }
      QuietCk(g, d0, d1, d0.allocBlock);
      if allocBlock < 0 { return None; }
      var a := NextPage();
      QuietTrans(g, d0, d1, D(), d0.allocBlock, a.b, None, 0);
      r := Some(a);
    }

    /** One page of the summary. */
    method WrSummaryPage(i: nat, ghost x: Option<Addr>) returns (ok: bool)
      requires g.cps <= i < g.cpb && allocBlock >= 0 && ck.Closed? && Inv(g, D().(allocPage := i), x, 0)
      modifies this`blocks, this`nand, this`nFree, this`faults
      ensures faults == old(faults) + if ok then 0 else 1
      ensures var d := old(D()).(allocPage := i);
              D().(allocPage := i + 1) ==
              if ok then AddSummary(d) else Program(d, Addr(allocBlock, i), Junk).(allocPage := i + 1)
      ensures Inv(g, D().(allocPage := i + 1), x, 0)
    {
      hide Inv;
      ghost var d := D().(allocPage := i);
      AllocFacts(g, d, x, 0);
      var b := allocBlock;
      ok := *;
      if ok {
        nand := Programmed(nand, Addr(b, i), Summary);
        blocks := blocks[b := blocks[b].(bits := blocks[b].bits + {i}, used := blocks[b].used + 1)];
        nFree := nFree - 1;
        AddSummaryInv(g, d, x);
      } else {
        faults := faults + 1;
        nand := Programmed(nand, Addr(b, i), Junk);
        JunkInv(g, d, x);
      }
    }

    /** yaffs_summary_write: the summary goes into the pages after the last data page of the block. */
    method SummaryWrite(b: nat, ghost x: Option<Addr>) returns (ghost page: nat)
      requires Inv(g, D(), x, 0) && ck.Closed? && b == allocBlock && allocPage == g.cps && g.cps > 0
      modifies this`blocks, this`nand, this`nFree, this`faults
      ensures Inv(g, D().(allocPage := page), x, 0) && Quiet(g, old(D()), D(), b) && Grown(old(D()), D(), b)
      ensures faults >= old(faults)
      ensures faults > old(faults) ==> b < |blocks| && blocks[b].summary == old(blocks[b].summary)
      ensures faults == old(faults) ==> b < |blocks| && blocks[b].summary && page == g.cps + g.sumPages
    {
      hide Inv, Quiet, SameContent, Kept, Grown, NoNewShrink, SameFlags, OldestOk;
      ghost var d0 := D();
      InvSize(g, d0, x, 0);
      AllocFacts(g, d0, x, 0);
      GrownSelf(d0, b);
      QuietSelf(g, d0, b);
      page := g.cps;
      var i: nat := g.cps;
      var left := g.sumPages;
      var ok := true;
      ghost var d := d0;
      while ok && left > 0
        invariant d == D().(allocPage := i) && i <= g.cpb && (ok ==> i + left == g.cps + g.sumPages)
        invariant g.cps <= i && allocBlock == b && ck.Closed? && faults >= old(faults)
        invariant ok <==> faults == old(faults)
        invariant b < |blocks| && blocks[b].summary == d0.blocks[b].summary
        invariant Inv(g, d, x, 0) && Quiet(g, d0, d, b) && Grown(d0, d, b)
        decreases left + if ok then 1 else 0
      {
        ok := WrSummaryPage(i, x);
        i := i + 1;
        left := if ok then left - 1 else left;
        SummaryOn(g, d0, d, D().(allocPage := i), b, x);
        d := D().(allocPage := i);
      }
      page := i;
      if ok {
        AllocFacts(g, d, x, 0);
        blocks := blocks[b := blocks[b].(summary := true)];
        ghost var e := D().(allocPage := i);
        NotCollected(g, d, x);
        RetouchInv(g, d, e, b, blocks[b], x);
        SummaryOn(g, d0, d, e, b, x);
        d := e;
      }
      QuietPage2(g, d0, d, D(), b);
      GrownPage(d0, d, D(), b);
    }

    /** yaffs_wr_chunk_tags_nand, with the summary it may set off. */
    method WrChunkTags(a: Addr, page: Page, t: Attempt) returns (ok: bool)
      requires Inv(g, D(), Some(a), 0) && ck.Closed? && Fresh(g, D(), a)
      modifies this`blocks, this`nand, this`nFree, this`allocBlock, this`faults
      ensures Inv(g, D(), Some(a), 0) && Rest(g, D()) && Quiet(g, old(D()), D(), a.b)
      ensures faults >= old(faults) && (faults == old(faults) ==> ok) && ok == t.good
      ensures InUse(blocks, a) && a.p < Limit(g)
      ensures Read(nand, a) == if t.good || t.left then page else Junk
      ensures allocBlock == a.b || allocBlock == -1
      ensures SameFlags(old(blocks[a.b]), blocks[a.b])
    {
      hide Inv, Quiet, SameContent, Kept, Grown;
      ghost var d0 := D();
      ok := t.good;
      if !ok { faults := faults + 1; }
      var written := if t.good || t.left then page else Junk;
      nand := Programmed(nand, a, written);
      ProgramInv(g, d0, a, written);
      ContentProgrammed(g, d0, D(), a, written, Some(a), 0);
      QuietNand(g, d0, D(), a.b);
      ghost var d1 := D();
      QuietCk(g, d0, d1, a.b);
      SummaryAfter(a);
      QuietTrans(g, d0, d1, D(), a.b, a.b, Some(a), 0);
    }

    /** The last data page of a block sets off its summary, and the rest of the block is skipped. */
    method SummaryAfter(a: Addr)
      requires Inv(g, D(), Some(a), 0) && ck.Closed? && Placed(g, D(), a)
      modifies this`blocks, this`nand, this`nFree, this`allocBlock, this`faults
      ensures Inv(g, D(), Some(a), 0) && Rest(g, D()) && Quiet(g, old(D()), D(), a.b) && faults >= old(faults)
      ensures InUse(blocks, a) && Read(nand, a) == old(Read(nand, a)) && (allocBlock == a.b || allocBlock == -1)
      ensures SameFlags(old(blocks[a.b]), blocks[a.b])
    {
      hide Inv, Quiet, SameContent, Kept, Grown;
      ghost var d1 := D();
      QuietSelf(g, d1, a.b);
      if a.p + 1 == g.cps {
        InvSize(g, d1, Some(a), 0);
        ghost var reached := SummaryWrite(a.b, Some(a));
        ghost var d2 := D();
        QuietCk(g, d1, d2, a.b);
        SkipRest(Some(a), reached);
        QuietTrans(g, d1, d2, D(), a.b, a.b, Some(a), 0);
        GrownIn(d1, d2, a);
      }
    }

    /** yaffs_handle_chunk_error: a block not yet marked for early collection is, with a strike; the
      fourth one has it retired. */
    method HandleChunkError(b: nat, ghost x: Option<Addr>)
      requires Inv(g, D(), x, 0) && ck.Closed? && b < |blocks|
      modifies this`blocks, this`pending
      ensures Inv(g, D(), x, 0) && Quiet(g, old(D()), D(), b) && b < |blocks|
      ensures D() == old(D()).(blocks := old(blocks)[b := blocks[b]])
      ensures var was := old(blocks[b]);
              && blocks[b] == was.(prioritise := true, retire := Due(was, false),
                                   strikes := if was.prioritise then was.strikes else was.strikes + 1)
              && pending == (old(pending) || !was.prioritise)
    {
      hide Inv, Quiet, SameContent, Kept;
      ghost var d := D();
      var info := blocks[b];
      if !info.prioritise {
        info := info.(prioritise := true, strikes := info.strikes + 1);
        pending := true;
        if info.strikes > 3 { info := info.(retire := true); }
      }
      blocks := blocks[b := info];
      RetouchInv(g, d, D(), b, info, x);
      QuietPut(g, d, D(), b, info);
    }

    /** yaffs_handle_chunk_wr_error. */
    method HandleWrError(a: Addr, erasedOk: bool)
      requires Inv(g, D(), Some(a), 0) && ck.Closed? && InUse(blocks, a) && (allocBlock == a.b || allocBlock == -1)
      modifies this
      ensures faults >= old(faults)
      ensures Inv(g, D(), None, 0) && Rest(g, D()) && Quiet(g, old(D()), D(), a.b)
      ensures a.b < |blocks| && Struck(old(blocks[a.b]), blocks[a.b], erasedOk)
      ensures pending == (old(pending) || !old(blocks[a.b].prioritise))
      ensures Emptied(old(blocks[a.b]), blocks[a.b], a.p)
    {
      hide Inv, Quiet, SameContent, Kept, GivenUp, Struck, Emptied, NoNewShrink;
      ghost var d0 := D();
      HandleChunkError(a.b, Some(a));
      ghost var d1 := D();
      if erasedOk { blocks := blocks[a.b := blocks[a.b].(retire := true)]; }
      ghost var d2 := D();
      RetouchInv(g, d1, d2, a.b, blocks[a.b], Some(a));
      QuietPut(g, d1, d2, a.b, blocks[a.b]);
      QuietTrans(g, d0, d1, d2, a.b, a.b, Some(a), 0);
      QuietCk(g, d0, d2, a.b);
      DropAndSkip(a);
      QuietTrans(g, d0, d2, D(), a.b, a.b, Some(a), 0);
      StruckBlock(d0.blocks[a.b], d2.blocks[a.b], blocks[a.b], a.p, erasedOk);
    }

    /** A page that could not be used is given back and the rest of its block skipped. */
    method DropAndSkip(a: Addr)
      requires Inv(g, D(), Some(a), 0) && ck.Closed? && InUse(blocks, a) && (allocBlock == a.b || allocBlock == -1)
      modifies this
      ensures pending == old(pending)
      ensures faults >= old(faults)
      ensures Inv(g, D(), None, 0) && Rest(g, D()) && Quiet(g, old(D()), D(), a.b)
      ensures a.b < |blocks| && GivenUp(old(blocks[a.b]), blocks[a.b], a.p)
    {
      hide Inv, Quiet, SameContent, Kept, Deleted;
      ghost var d0 := D();
      AllocIs(g, d0, a);
      ChunkDel(a);
      ghost var d1 := D();
      QuietCk(g, d0, d1, a.b);
      SkipRest(None, allocPage);
      QuietNeg(g, d1, D(), a.b);
      QuietTrans(g, d0, d1, D(), a.b, a.b, Some(a), 0);
      DroppedBlock(d0, d1, D(), a);
    }

    /** One round of the loop in yaffs_write_new_chunk: check, program, verify, and clean up
      if any of it failed. */
    method TryChunk(a: Addr, page: Page, alwaysCheck: bool, t: Attempt) returns (ok: bool)
      requires Inv(g, D(), Some(a), 0) && ck.Closed? && Fresh(g, D(), a)
      modifies this
      ensures Inv(g, D(), if ok then Some(a) else None, 0) && Rest(g, D()) && Quiet(g, old(D()), D(), a.b)
      ensures ok ==> InUse(blocks, a) && a.p < Limit(g) && Read(nand, a) == page
      ensures faults >= old(faults) && (faults == old(faults) ==> ok)
      ensures page.Chunk? ==> ok == Succeeds(t, alwaysCheck || !old(blocks[a.b].skipCheck))
      // a page checked and found not to be erased is given back; one that could not be written strikes
      // its block, which is to be retired if the page had been found erased
      ensures var was := old(blocks[a.b]); var check := alwaysCheck || !was.skipCheck;
              && a.b < |blocks|
              && (check && !t.erased ==> !ok && (blocks[a.b].st.Dead? || (blocks[a.b].st.Empty? && !was.retire) ||
                                               SameFlags(was, blocks[a.b])))
              && (ok ==> SameFlags(was, blocks[a.b]) && blocks[a.b].skipCheck)
              && (!ok && (t.erased || !check) ==> Struck(was, blocks[a.b], check))
    {
      hide Inv, Quiet, SameContent, Kept;
      ghost var d0 := D();
      FreshPlace(g, d0, a);
      var check := alwaysCheck || !blocks[a.b].skipCheck;
      var erasedOk := false;
      if check {
        erasedOk := t.erased;
        if !erasedOk {
          faults := faults + 1;
          DropAndSkip(a);
          return false;
        }
      }
      ok := WrChunkTags(a, page, t);
      if check {
        if !t.verified { faults := faults + 1; }
        ok := t.verified && Read(nand, a) == page;
      }
      ghost var d1 := D();
      QuietCk(g, d0, d1, a.b);
      if !ok {
        HandleWrError(a, erasedOk);
        QuietTrans(g, d0, d1, D(), a.b, a.b, Some(a), 0);
        return false;
      }
      blocks := blocks[a.b := blocks[a.b].(skipCheck := true)];
      RetouchInv(g, d1, D(), a.b, blocks[a.b], Some(a));
      QuietPut(g, d1, D(), a.b, blocks[a.b]);
      QuietTrans(g, d0, d1, D(), a.b, a.b, Some(a), 0);
    }

    /** yaffs_write_new_chunk: retries on ever new chunks until one is written and checked. */
    method WriteNewChunk(page: Page, useReserve: bool, reserved: nat, alwaysCheck: bool, wrAttempts: nat)
        returns (r: Option<Addr>)
      requires Inv(g, D(), None, 0) && Rest(g, D()) && ck.Closed?
      modifies this
      ensures Inv(g, D(), r, 0) && Rest(g, D()) && Quiet(g, old(D()), D(), old(allocBlock))
      ensures r.Some? ==> InUse(blocks, r.value) && r.value.p < Limit(g) && Read(nand, r.value) == page
      // with the flash working only lack of space makes it fail
      ensures faults >= old(faults) && (r.None? && faults == old(faults) ==> NoSpace(useReserve, reserved))
      ensures old(NoBlock()) && old(inCkpt) == 0 ==> r.None? && D() == old(D()).(allocPage := 0)
    {
      hide Inv, Quiet, SameContent, Kept, Fresh, Vacant;
      ghost var d0 := D();
      var attempts := 0;
      r := None;
      CheckptInvalidate(None, 0);
      QuietWider(g, d0, D(), d0.allocBlock);
      QuietCk(g, d0, D(), d0.allocBlock);
      while attempts == 0 || (r.None? && attempts <= wrAttempts)
        invariant Inv(g, D(), r, 0) && Rest(g, D()) && Quiet(g, d0, D(), d0.allocBlock) && ck.Closed?
        invariant d0.allocBlock == allocBlock || allocBlock < 0 || Vacant(d0, allocBlock)
        invariant (attempts == 0 ==> r.None?) && faults >= old(faults)
        invariant r.None? && attempts > 0 ==> faults > old(faults)
        invariant r.Some? ==> InUse(blocks, r.value) && r.value.p < Limit(g) && Read(nand, r.value) == page
        invariant old(NoBlock()) && old(inCkpt) == 0 ==> attempts == 0 && D() == d0
        decreases wrAttempts + 1 - attempts
      {
        ghost var d1 := D();
        var a := AllocChunk(useReserve, reserved);
        ghost var d2 := D();
        QuietTrans(g, d0, d1, d2, d0.allocBlock, d1.allocBlock, None, 0);
        if a.None? { break; }
        attempts := attempts + 1;
        QuietCk(g, d0, d2, d0.allocBlock);
        Reached(g, d0, d1, a.value.b);
        var t: Attempt := *;
        var ok := TryChunk(a.value, page, alwaysCheck, t);
        QuietTrans(g, d0, d2, D(), d0.allocBlock, a.value.b, None, 0);
        QuietCk(g, d0, D(), d0.allocBlock);
        NewAlloc(g, d0, D(), if ok then a else None);
        if ok { r := a; }
      }
    }

    /** yaffs_gc_process_chunk, for a page in use of the block being collected. */
    method GcProcessChunk(a: Addr, sizes: map<nat, nat>, alwaysCheck: bool, wrAttempts: nat) returns (ok: bool)
      requires Inv(g, D(), None, 0) && Rest(g, D()) && ck.Closed? && InUse(blocks, a) && blocks[a.b].st.Collecting?
      modifies this
      ensures Inv(g, D(), None, 0) && Rest(g, D()) && Copied(g, old(D()), D(), sizes)
      // the chunk on the page, if there is one, is mapped to its copy now
      ensures ok && old(Read(nand, a).Chunk?) ==>
                var was := old(Read(nand, a)); was.key in tree && GcForm(was, Read(nand, tree[was.key]), sizes)
      ensures if ok then Deleted(old(D()), D(), a)
              else a.b < |old(blocks)| == |blocks| && blocks[a.b] == old(blocks[a.b])
      ensures gcBlock == old(gcBlock) || (ok && old(gcBlock) == a.b && gcBlock == 0)
      ensures old(NoBlock()) && old(inCkpt) == 0 && old(Read(nand, a).Chunk?) ==>
                !ok && D() == old(D()).(allocPage := 0)
      ensures faults >= old(faults)
      ensures faults == old(faults) ==> (ok || NoSpace(true, 0)) && StaysGood(old(blocks), blocks, a.b)
    {
      hide Inv, Quiet, SameContent, Kept, Deleted, Copied;
      ghost var d0 := D();
      var page := Read(nand, a);
      if page.Chunk? {
        var k := page.key;
        LinkedHere(g, d0, a);
        var copy := Chunk(k, GcBody(sizes, k, page.body));
        var new_ := WriteNewChunk(copy, true, 0, alwaysCheck, wrAttempts);
        ghost var d1 := D();
        CollectingKept(g, d0, d1, a);
        CopiedQuiet(g, d0, d1, d0.allocBlock, sizes);
        if new_.None? { return false; }
        LinkInv(g, d1, k, new_.value);
        tree := tree[k := new_.value];
        ghost var d2 := D();
        CopiedLink(g, d0, d1, d2, k, new_.value, sizes);
        ChunkDel(a);
        QuietGc(g, d2, D(), a.b);
        CopiedQuietMore(g, d0, d2, D(), a.b, sizes);
        QuietRead(g, d2, D(), a.b, k);
        DeletedFrom(d0, d2, D(), a);
      } else {
        NotLinkedHere(g, d0, a);
        ChunkDel(a);
        QuietGc(g, d0, D(), a.b);
        CopiedQuiet(g, d0, D(), a.b, sizes);
      }
      ok := true;
    }

    /** yaffs_summary_gc: a block to be collected loses its summary at once. */
    method SummaryGc()
      requires Inv(g, D(), None, 0) && ck.Closed? && 0 < gcBlock < |blocks| && blocks[gcBlock].st.Collecting?
      modifies this`blocks, this`nFree
      ensures Inv(g, D(), None, 0) && Quiet(g, old(D()), D(), gcBlock) && gcBlock < |blocks|
      ensures NoSummary(g, blocks[gcBlock])
      ensures SameButBits(blocks[gcBlock], old(blocks[gcBlock])) && blocks[gcBlock].bits <= old(blocks[gcBlock].bits)
      ensures forall p :: p in old(blocks[gcBlock].bits) && p < g.cps ==> p in blocks[gcBlock].bits
      ensures blocks == old(blocks)[gcBlock := blocks[gcBlock]]
      ensures NoSummary(g, old(blocks[gcBlock])) ==> D() == old(D())
    {
      hide Inv, Quiet, SameContent, Kept;
      ghost var d0 := D();
      ghost var was := blocks[gcBlock];
      QuietSelf(g, d0, gcBlock);
      InvSize(g, d0, None, 0);
      BitsBelow(g, d0, gcBlock);
      if !blocks[gcBlock].summary { return; }
      for i := g.cps to g.cpb
        invariant Inv(g, D(), None, 0) && Quiet(g, d0, D(), gcBlock) && ck.Closed? && gcBlock == d0.gcBlock < |blocks|
        invariant SameButBits(blocks[gcBlock], was) && blocks[gcBlock].bits <= was.bits
        invariant forall p :: p in blocks[gcBlock].bits ==> p < g.cps || i <= p < g.cpb
        invariant NoSummary(g, was) ==> D() == d0
        invariant forall p :: p in was.bits && p < g.cps ==> p in blocks[gcBlock].bits
        invariant blocks == d0.blocks[gcBlock := blocks[gcBlock]]
      {
        if i in blocks[gcBlock].bits {
          ghost var d := D();
          SummaryPage(g, d, Addr(gcBlock, i));
          DropBit(Addr(gcBlock, i), None);
          QuietTrans(g, d0, d, D(), gcBlock, gcBlock, None, 0);
        }
      }
    }

    /** One turn of the copying loop: the chunk at `gcChunk`, if it is in use. */
    method CopyTurn(b: nat, sizes: map<nat, nat>, alwaysCheck: bool, wrAttempts: nat, ghost d0: Dev)
        returns (ok: bool, copied: bool)
      requires Inv(g, D(), None, 0) && Rest(g, D()) && Copied(g, d0, D().(gcChunk := d0.gcChunk), sizes) && ck.Closed?
      requires 0 < b == gcBlock
      requires |blocks| == |d0.blocks| && Collected(d0, D(), b) && blocks[b].st.Collecting? && gcChunk < g.cpb
      requires !d0.blocks[b].shrink && NoSummary(g, d0.blocks[b]) && NoSummary(g, blocks[b])
      modifies this
      ensures Inv(g, D(), None, 0) && Rest(g, D()) && Copied(g, d0, D().(gcChunk := d0.gcChunk), sizes) && ck.Closed?
      ensures |blocks| == |d0.blocks| && Collected(d0, D(), b) && gcChunk == old(gcChunk) + 1
      ensures gcBlock > 0 ==> gcBlock == b && NoSummary(g, blocks[gcBlock])
      ensures !copied ==> D() == old(D()).(gcChunk := gcChunk)
      ensures copied && old(NoBlock()) && old(inCkpt) == 0 && old(blocks[b].summary) ==>
                !ok && D() == old(D()).(allocPage := 0, gcChunk := gcChunk)
      ensures forall p :: p in old(blocks[b].bits) && p != old(gcChunk) ==> p in blocks[b].bits
      ensures copied == (old(gcChunk) in old(blocks[b].bits))
      ensures (ok ==> blocks[b].bits <= old(blocks[b].bits) - {old(gcChunk)}) && (!copied ==> ok)
      ensures blocks[b].used == old(blocks[b].used) - if copied && ok then 1 else 0
      ensures faults >= old(faults)
      ensures faults == old(faults) ==> (ok || NoSpace(true, 0)) && StaysGood(old(blocks), blocks, b)
    {
      hide Inv, Quiet, SameContent, Kept, Deleted, Copied, NoSummary, StaysGood;
      ghost var d := D();
      GoodSelf(blocks, b);
      ok := true;
      copied := gcChunk in blocks[b].bits;
      if copied {
        var a := Addr(b, gcChunk);
        if blocks[b].summary { DataPage(g, d, a); }
        ok := GcProcessChunk(a, sizes, alwaysCheck, wrAttempts);
        CopiedOn(g, d0, d, D(), sizes);
        CollectedOn(g, d0, d, D(), a, ok);
        DeletedBits(d, D(), a, ok);
        DeletedUsed(g, d, D(), a, ok);
      }
      ghost var d' := D();
      gcChunk := gcChunk + 1;
      NextGcChunk(g, d', D(), b);
    }

    /** The copying loop of yaffs_gc_block. */
    method CopyChunks(whole: bool, sizes: map<nat, nat>, alwaysCheck: bool, wrAttempts: nat) returns (ok: bool)
      requires Inv(g, D(), None, 0) && Rest(g, D()) && ck.Closed? && 0 < gcBlock < |blocks|
      requires blocks[gcBlock].st.Collecting? && !blocks[gcBlock].shrink && blocks[gcBlock].bits != {}
      requires NoSummary(g, blocks[gcBlock])
      modifies this
      ensures Inv(g, D(), None, 0) && Rest(g, D()) && Copied(g, old(D()), D().(gcChunk := old(gcChunk)), sizes)
      ensures |blocks| == old(|blocks|) && Collected(old(D()), D(), old(gcBlock))
      ensures ok && whole ==> forall p :: p in blocks[old(gcBlock)].bits ==> p < old(gcChunk)
      ensures ok && old(gcChunk) == 0 ==> blocks[old(gcBlock)].bits != old(blocks[gcBlock].bits)
      ensures old(gcChunk) >= g.cpb ==> D() == old(D()) && ok
      ensures forall p :: p in old(blocks[gcBlock].bits) && p < old(gcChunk) ==> p in blocks[old(gcBlock)].bits
      ensures ok && whole && blocks[old(gcBlock)].st.Collecting? ==> gcChunk >= g.cpb
      ensures gcChunk >= old(gcChunk)
      // a pass in pieces copies five chunks, unless it comes to the end of the block before
      ensures ok ==> forall p :: p in blocks[old(gcBlock)].bits ==> !(old(gcChunk) <= p < gcChunk)
      ensures !whole ==> old(blocks[gcBlock].used) - 5 <= blocks[old(gcBlock)].used
      ensures ok && !whole && blocks[old(gcBlock)].st.Collecting? ==>
                gcChunk >= g.cpb || blocks[old(gcBlock)].used == old(blocks[gcBlock].used) - 5
      ensures old(NoBlock()) && old(inCkpt) == 0 && old(blocks[gcBlock].summary) ==>
                blocks == old(blocks) && oldSeq == old(oldSeq)
      ensures faults >= old(faults)
      ensures faults == old(faults) ==> (ok || NoSpace(true, 0)) && StaysGood(old(blocks), blocks, old(gcBlock))
    {
      hide Inv, Quiet, SameContent, Kept, Deleted, Copied, NoSummary, StaysGood, Rest;
      ghost var d0 := D();
      var b := gcBlock;
      ghost var stuck := NoBlock() && inCkpt == 0 && blocks[b].summary;
      GoodSelf(blocks, b);
      var maxCopies := if whole then g.cpb else 5;
      ok := true;
      BitsBelow(g, d0, b);
      CopiedSelf(g, d0, sizes);
      while ok && gcChunk < g.cpb && blocks[b].st.Collecting? && maxCopies > 0
        invariant Inv(g, D(), None, 0) && Rest(g, D()) && Copied(g, d0, D().(gcChunk := d0.gcChunk), sizes)
        invariant ck.Closed?
        invariant |blocks| == |d0.blocks| && Collected(d0, D(), b)
        invariant gcBlock > 0 ==> gcBlock == b && NoSummary(g, blocks[b])
        invariant gcChunk >= d0.gcChunk && (whole ==> maxCopies >= g.cpb - (gcChunk - d0.gcChunk))
        invariant ok ==> forall p :: p in blocks[b].bits ==> !(d0.gcChunk <= p < gcChunk)
        invariant maxCopies < (if whole then g.cpb else 5) && ok ==> blocks[b].bits != d0.blocks[b].bits
        invariant d0.gcChunk >= g.cpb ==> D() == d0 && ok
        invariant forall p :: p in d0.blocks[b].bits && p < d0.gcChunk ==> p in blocks[b].bits
        invariant stuck ==> blocks == d0.blocks && oldSeq == d0.oldSeq && (ok ==> NoBlock() && inCkpt == 0)
        invariant maxCopies >= 0 && d0.blocks[b].used - blocks[b].used <= (if whole then g.cpb else 5) - maxCopies
        invariant ok ==> d0.blocks[b].used - blocks[b].used == (if whole then g.cpb else 5) - maxCopies
        invariant faults >= old(faults)
        invariant faults == old(faults) ==> (ok || NoSpace(true, 0)) && StaysGood(d0.blocks, blocks, b)
        decreases g.cpb - gcChunk
      {
        ghost var d := D();
        ghost var f := faults;
        var copied;
        ok, copied := CopyTurn(b, sizes, alwaysCheck, wrAttempts, d0);
        if copied { maxCopies := maxCopies - 1; }
        if faults == old(faults) { StaysOn(d0.blocks, d.blocks, blocks, b); }
      }
    }

    /** The chosen block starts being collected: no longer protected, summary dropped. */
    method BeginGc(ghost sizes: map<nat, nat>)
      requires Inv(g, D(), None, 0) && Rest(g, D()) && ck.Closed? && 0 < gcBlock < |blocks| && blocks[gcBlock].st.Full?
      modifies this`blocks, this`nFree
      ensures Inv(g, D(), None, 0) && Rest(g, D()) && ck.Closed? && Copied(g, old(D()), D(), sizes)
      ensures gcBlock < |blocks| && Begun(g, old(D()), D(), gcBlock)
    {
      hide Inv, Quiet, SameContent, Kept, Copied, NoSummary, Rest;
      ghost var d0 := D();
      var b := gcBlock;
      blocks := blocks[b := blocks[b].(st := Collecting, shrink := false)];
      RetouchInv(g, d0, D(), b, blocks[b], None);
      ghost var d1 := D();
      NoSummarySame(g, d0.blocks[b], blocks[b]);
      CopiedStart(g, d0, d1, b, sizes);
      SummaryGc();
      RestSame(g, d0, D());
      QuietCk(g, d1, D(), b);
      CopiedQuietMore(g, d0, d1, D(), b, sizes);
    }

    /** Collection of a block that turns out to have nothing in use. */
    method CollectEmpty(b: nat, ghost sizes: map<nat, nat>)
      requires Inv(g, D(), None, 0) && Rest(g, D()) && ck.Closed? && b < |blocks| && blocks[b].st.Collecting?
      requires blocks[b].bits == {}
      modifies this
      ensures Inv(g, D(), None, 0) && Rest(g, D()) && Copied(g, old(D()), D().(gcChunk := old(gcChunk)), sizes)
      ensures gcBlock == 0 && gcChunk == 0 && |blocks| == old(|blocks|) && (blocks[b].st.Empty? || blocks[b].st.Dead?)
      ensures faults >= old(faults) && (faults == old(faults) && blocks[b].st.Dead? ==> old(blocks[b].retire))
    {
      hide Inv, Quiet, SameContent, Kept, Copied, Rest;
      ghost var d := D();
      BecameDirty(b, None);
      ghost var e := D();
      CopiedQuiet(g, d, e, b, sizes);
      RestSame(g, d, e);
      QuietCk(g, d, e, b);
      gcBlock, gcChunk := 0, 0;
      NoGc(g, e, D());
      CopiedGc(g, d, e, D().(gcChunk := d.gcChunk), sizes);
    }

    /** yaffs_gc_block, on the block chosen for collection. */
    method GcBlock(whole: bool, sizes: map<nat, nat>, alwaysCheck: bool, wrAttempts: nat) returns (ok: bool)
      requires Inv(g, D(), None, 0) && Rest(g, D()) && ck.Closed? && 0 < gcBlock < |blocks| && blocks[gcBlock].st.Full?
      modifies this
      ensures Inv(g, D(), None, 0) && Rest(g, D()) && ck.Closed? && Preserved(old(D()), D(), sizes)
      ensures NoNewShrink(old(D()), D())
      // the oldest dirty number stays right if it is not above the block's own, or if the block has
      // no summary to lose, or if everything tried was copied
      ensures OldestOk(g, old(D())) && (ok || NoSummary(g, old(blocks[gcBlock])) || Timely(old(D()), old(gcBlock))) ==>
                OldestOk(g, D())
      // and is wrong afterwards if it is above, a summary is lost, and there is no page for the first copy
      ensures !Timely(old(D()), old(gcBlock)) && LosesSummary(g, old(blocks[gcBlock])) && old(NoBlock()) &&
              old(inCkpt) == 0 ==>
                !OldestOk(g, D())
      ensures var now := old(gcBlock);
              && now < |blocks|
              && if blocks[now].st.Full? then
                   && gcBlock == now && blocks[now].bits != {} && blocks[now].bits <= old(blocks[gcBlock].bits)
                   && NoSummary(g, blocks[now])
                 else (blocks[now].st.Empty? || blocks[now].st.Dead?) && gcBlock == 0 && gcChunk == 0
      // a whole pass that copies everything reclaims the block, unless a page was left behind before
      ensures LeftBehind(old(D())) ==> blocks[old(gcBlock)].st.Full? && LeftBehind(D())
      ensures ok && whole ==>
                (Stalled(g, D()) <==> LeftBehind(old(D()))) && (blocks[old(gcBlock)].st.Full? <==> LeftBehind(old(D())))
      // with the flash working only lack of space stops a pass, and blocks not due for retirement are erased
      ensures faults >= old(faults) && (faults == old(faults) ==> ok || NoSpace(true, 0))
      ensures faults == old(faults) && old(gcBlock) < |blocks| && blocks[old(gcBlock)].st.Dead? ==>
                old(blocks[gcBlock].retire)
      // past the last chunk nothing happens any more, whatever is left in the block
      ensures Stalled(g, old(D())) ==> ok && D() == Unflagged(old(D()))
    {
      hide Inv, Quiet, SameContent, Kept, Copied, NoSummary, Rest, OldestOk, NotOlder, Preserved, NoNewShrink;
      hide LeftBehind, Stalled, LosesSummary, Timely;
      ghost var d0 := D();
      var b := gcBlock;
      BitsBelow(g, d0, b);
      BeginGc(sizes);
      ghost var d2 := D();
      CopiedFacts(g, d0, d2, sizes);
      if blocks[b].bits == {} {
        CollectEmpty(b, sizes);
        CopiedJoin(g, d0, d2, D(), sizes);
        CopiedEnd(g, d0, D().(gcChunk := d0.gcChunk), D(), sizes);
        NothingLeft(g, d0, d2, D(), b);
        return true;
      }
      SummaryThere(g, d0.blocks[b]);
      ok := CopyChunks(whole, sizes, alwaysCheck, wrAttempts);
      ghost var d3 := D();
      CopiedFacts(g, d2, D().(gcChunk := d2.gcChunk), sizes);
      SettleGc(b, ok, d0, d2, sizes);
      PassEnds(g, d0, d2, d3, D(), b);
    }

    /** The end of a pass that copied: the block is full again, or was given up on the way. */
    method SettleGc(b: nat, ok: bool, ghost d0: Dev, ghost d2: Dev, ghost sizes: map<nat, nat>)
      requires Inv(g, D(), None, 0) && Rest(g, D()) && ck.Closed? && 0 < b < |blocks| == |d0.blocks| == |d2.blocks|
      requires Copied(g, d0, d2, sizes) && Copied(g, d2, D().(gcChunk := d2.gcChunk), sizes) && Collected(d2, D(), b)
      requires d0.blocks[b].st.Full? && d2.blocks[b].seqNo == d0.blocks[b].seqNo
      requires blocks[b].bits == d2.blocks[b].bits ==>
                 d2.blocks[b].used == d0.blocks[b].used || !(ok || NoSummary(g, d0.blocks[b]))
      modifies this
      ensures Inv(g, D(), None, 0) && Rest(g, D()) && ck == old(ck) && Preserved(d0, D(), sizes)
      ensures NoNewShrink(d0, D())
      ensures OldestOk(g, d0) && (ok || NoSummary(g, d0.blocks[b]) || Timely(d0, b)) ==> OldestOk(g, D())
      ensures oldSeq == old(oldSeq)
      ensures old(blocks[b].st.Collecting?) ==>
                D() == old(D()).(blocks := old(blocks)[b := old(blocks[b]).(st := Full)])
      ensures tree == old(tree) && nFree == old(nFree) && |blocks| == old(|blocks|) && faults == old(faults)
      ensures NoSpace(true, 0) == old(NoSpace(true, 0))
      ensures if old(blocks[b].st.Collecting?) then blocks[b] == old(blocks[b]).(st := Full) &&
              gcBlock == old(gcBlock) && gcChunk == old(gcChunk)
              else blocks == old(blocks) && gcBlock == 0 && gcChunk == 0
    {
      hide Inv, Quiet, SameContent, Kept, Copied, NoSummary, Rest, OldestOk, NotOlder, Preserved, NoNewShrink;
      CopiedFacts(g, d0, d2, sizes);
      ghost var d3 := D();
      CopiedJoin(g, d0, d2, d3, sizes);
      if blocks[b].st.Collecting? {
        blocks := blocks[b := blocks[b].(st := Full)];
        RetouchInv(g, d3, D(), b, blocks[b], None);
        RestSame(g, d3, D());
        CopiedFull(g, d0, d2, d3, D(), b, ok, sizes);
      } else {
        gcBlock, gcChunk := 0, 0;
        NoGc(g, d3, D());
        CopiedEnd(g, d0, d3.(gcChunk := d0.gcChunk), D(), sizes);
      }
    }

    /** yaffs_calc_oldest_dirty_seq, called only when no number is being tracked. */
    method CalcOldest()
      requires Inv(g, D(), None, 0) && oldSeq == 0
      modifies this`oldSeq, this`oldBlock
      ensures Inv(g, D(), None, 0) && OldestOk(g, D())
      ensures oldSeq != 0 ==>
                oldBlock < |blocks| && blocks[oldBlock].st.Full? && blocks[oldBlock].used < g.cpb &&
                blocks[oldBlock].seqNo == oldSeq
      ensures oldSeq == 0 ==> !SomeDirty(g, D()) || !NoneOlder(g, D(), 1)
      ensures Looked(g, old(D()), D())
    {
      hide Inv;
      ghost var d := D();
      InvSize(g, d, None, 0);
      LowDead(g, d, None, 0);
      SeqBelow(g, d);
      var low: nat := seqNo + 1;
      var at: nat := 0;
      for i := g.start to g.end + 1
        invariant low <= seqNo + 1 && (at == 0 ==> low == seqNo + 1)
        invariant forall j :: 0 <= j < i ==> NotOlder(g, blocks[j], low)
        invariant at != 0 ==> at < |blocks| && blocks[at].st.Full? && blocks[at].used < g.cpb && blocks[at].seqNo == low
      {
        if blocks[i].st.Full? && blocks[i].used < g.cpb && blocks[i].seqNo < low {
          low, at := blocks[i].seqNo, i;
        }
      }
      if at != 0 { oldSeq, oldBlock := low, at; }
      InvOldest(g, d, oldSeq, None, 0);
      if oldSeq == 0 { NoneFound(g, d, at, low); }
    }

    /** yaffs_block_ok_for_gc: a block with a shrink header passes exactly if there are full blocks
      with discarded pages and none of them is older. */
    method BlockOkForGc(b: nat) returns (ok: bool)
      requires Inv(g, D(), None, 0) && b < |blocks|
      modifies this`oldSeq, this`oldBlock
      ensures Inv(g, D(), None, 0) && Looked(g, old(D()), D())
      ensures old(oldSeq) != 0 || !blocks[b].shrink ==> oldSeq == old(oldSeq)
      ensures !blocks[b].shrink ==> ok
      ensures blocks[b].shrink && old(oldSeq) != 0 ==> (ok <==> blocks[b].seqNo <= oldSeq)
      ensures blocks[b].shrink && old(oldSeq) == 0 && blocks[b].seqNo > 0 ==>
                (ok <==> SomeDirty(g, D()) && NoneOlder(g, D(), blocks[b].seqNo))
      ensures ok && OldestOk(g, old(D())) ==> Passes(g, D(), b)
      ensures blocks[b].shrink ==> (ok <==> !Fails(blocks, b, oldSeq)) && (oldSeq != 0 || Untracked(g, D()))
      ensures oldSeq != old(oldSeq) ==> !Untracked(g, old(D()))
    {
      hide Inv, OldestOk, SomeDirty, NoneOlder, NotOlder, Untracked;
      ghost var d := D();
      LookedSelf(g, d);
      if !blocks[b].shrink { return true; }
      if oldSeq == 0 {
        CalcOldest();
        Tracks(g, d, D());
      }
      ok := blocks[b].seqNo <= oldSeq;
      if blocks[b].seqNo > 0 { OldestMeans(g, d, D(), oldBlock, blocks[b].seqNo); }
    }

    /** yaffs2_find_refresh_block, when a refresh is due: the oldest full block. */
    method FindRefreshBlock() returns (oldest: nat)
      requires Inv(g, D(), None, 0)
      ensures oldest < |blocks| && (oldest > 0 ==> blocks[oldest].st.Full?)
      ensures oldest > 0 ==> forall i :: 0 <= i < |blocks| && blocks[i].st.Full? ==>
                blocks[oldest].seqNo <= blocks[i].seqNo
      ensures oldest == 0 ==> forall i :: 0 <= i < |blocks| ==> !blocks[i].st.Full?
    {
      InvSize(g, D(), None, 0);
      LowDead(g, D(), None, 0);
      hide Inv;
      oldest := 0;
      for b := g.start to g.end + 1
        invariant oldest < |blocks| && (oldest > 0 ==> blocks[oldest].st.Full?)
        invariant forall i :: 0 <= i < b && blocks[i].st.Full? ==> oldest > 0 && blocks[oldest].seqNo <= blocks[i].seqNo
      {
        if blocks[b].st.Full? && (oldest < 1 || blocks[b].seqNo < blocks[oldest].seqNo) { oldest := b; }
      }
    }

    /** The first full block marked for early collection that passes the test. */
    method FindPrioritised() returns (selected: nat, exist: bool)
      requires Inv(g, D(), None, 0)
      modifies this`oldSeq, this`oldBlock
      ensures Inv(g, D(), None, 0) && Looked(g, old(D()), D())
      ensures selected > 0 ==> g.start <= selected < |blocks| && Urgent(blocks[selected])
      ensures selected > 0 && OldestOk(g, old(D())) ==> Passes(g, D(), selected)
      ensures forall i ::
                0 <= i < (if selected > 0 then selected else |blocks|) && i < |blocks| && Urgent(blocks[i]) ==>
                Fails(blocks, i, oldSeq)
      ensures exist <==> Waiting(blocks, g.start, if selected > 0 then selected + 1 else |blocks|)
    {
      InvSize(g, D(), None, 0);
      LowDead(g, D(), None, 0);
      hide Inv, OldestOk, Looked, Passes, Untracked, Fails, SomeDirty, NoneOlder, Waiting;
      ghost var d0 := D();
      LookedSelf(g, D());
      selected, exist := 0, false;
      assert !Waiting(blocks, g.start, g.start) by { NoneWaiting(blocks, g.start); }
      var i := g.start;
      while i <= g.end && selected == 0
        invariant g.start <= i <= g.end + 1 && |blocks| == g.end + 1 && blocks == d0.blocks
        invariant Inv(g, D(), None, 0) && Looked(g, d0, D())
        invariant selected > 0 ==> selected == i - 1 && Urgent(blocks[selected])
        invariant selected > 0 && OldestOk(g, d0) ==> Passes(g, D(), selected)
        invariant forall j :: 0 <= j < i && Urgent(blocks[j]) && j != selected ==>
                    Fails(blocks, j, oldSeq) && (oldSeq != 0 || Untracked(g, D()))
        invariant exist <==> Waiting(blocks, g.start, i)
      {
        WaitingMore(blocks, g.start, i);
        if blocks[i].prioritise {
          exist := true;
          if blocks[i].st.Full? {
            ghost var d := D();
            var ok := BlockOkForGc(i);
            LookedTrans(g, d0, d, D());
            LookedOld(g, d0, d);
            if ok { selected := i; }
          }
        }
        i := i + 1;
      }
    }

    /** The search of yaffs_find_gc_block for a full block with few pages in use.  The candidate
      kept from earlier calls is not tested again; it is still a full block with a discarded page,
      since the erasure of a block ends its candidacy. */
    method FindDirtiest() returns (dirtiest: nat)
      requires Inv(g, D(), None, 0)
      modifies this`oldSeq, this`oldBlock, this`gcDirtiest
      ensures Inv(g, D(), None, 0) && Looked(g, old(D()), D()) && gcDirtiest == dirtiest
      ensures dirtiest > 0 ==> dirtiest < |blocks| && IsDirty(g, blocks[dirtiest])
      ensures dirtiest > 0 && OldestOk(g, old(D())) ==> dirtiest == old(gcDirtiest) || Passes(g, D(), dirtiest)
      ensures var kept := old(gcDirtiest);
              0 < kept < |blocks| && IsDirty(g, blocks[kept]) ==>
                dirtiest > 0 && blocks[dirtiest].used <= blocks[kept].used
    {
      InvSize(g, D(), None, 0);
      hide Inv, OldestOk, Looked, Passes, Untracked;
      ghost var d0 := D();
      LookedSelf(g, D());
      var iterations: nat :| 0 <= iterations;
      dirtiest := if gcDirtiest < |blocks| && IsDirty(g, blocks[gcDirtiest]) then gcDirtiest else 0;
      var kept := dirtiest;
      for n := 0 to iterations
        invariant Inv(g, D(), None, 0) && Looked(g, d0, D()) && blocks == d0.blocks && |blocks| == g.end + 1
        invariant dirtiest > 0 ==> dirtiest < |blocks| && IsDirty(g, blocks[dirtiest])
        invariant dirtiest > 0 && OldestOk(g, d0) ==> dirtiest == old(gcDirtiest) || Passes(g, D(), dirtiest)
        invariant kept > 0 ==> kept < |blocks| && dirtiest > 0 && blocks[dirtiest].used <= blocks[kept].used
      {
        var i: nat :| g.start <= i <= g.end;
        if IsDirty(g, blocks[i]) && (dirtiest < 1 || blocks[i].used < blocks[dirtiest].used) {
          ghost var d := D();
          var ok := BlockOkForGc(i);
          LookedTrans(g, d0, d, D());
          LookedOld(g, d0, d);
          PassesOn(g, d, D(), dirtiest);
          if ok { dirtiest := i; }
        }
      }
      gcDirtiest := dirtiest;
    }

    /** The oldest full block with discarded pages, which the tracked block number names. */
    method FindOldestDirty() returns (selected: nat)
      requires Inv(g, D(), None, 0)
      modifies this`oldSeq, this`oldBlock
      ensures Inv(g, D(), None, 0) && Looked(g, old(D()), D())
      ensures old(oldSeq) == 0 && selected == 0 ==> !SomeDirty(g, D()) || !NoneOlder(g, D(), 1)
      ensures selected > 0 ==> selected == oldBlock < |blocks| && IsDirty(g, blocks[selected])
    {
      InvSize(g, D(), None, 0);
      LowDead(g, D(), None, 0);
      hide Inv, OldestOk, Looked, SomeDirty, NoneOlder;
      LookedSelf(g, D());
      if oldSeq == 0 { CalcOldest(); }
      selected := if oldBlock < |blocks| && IsDirty(g, blocks[oldBlock]) then oldBlock else 0;
    }

    /** The first half of yaffs_find_gc_block, when blocks wait for early collection: one of them, or
      the oldest dirty block, which is in their way. */
    method SelectUrgent() returns (selected: nat)
      requires Inv(g, D(), None, 0) && pending
      modifies this`oldSeq, this`oldBlock, this`gcDirtiest, this`pending
      ensures Inv(g, D(), None, 0) && Looked(g, old(D()), D()) && gcDirtiest == 0
      ensures selected > 0 ==>
                selected < |blocks| && (IsDirty(g, blocks[selected]) || Urgent(blocks[selected]))
      ensures selected > 0 ==> Allowed(g, old(D()), D(), oldBlock, 0, selected)
      ensures || (selected > 0 && Urgent(blocks[selected]))
              || forall i :: 0 <= i < |blocks| && Urgent(blocks[i]) ==> Fails(blocks, i, oldSeq)
      ensures selected == 0 && pending ==> !(0 < oldBlock < |blocks| && IsDirty(g, blocks[oldBlock]))
      ensures pending <==> Waiting(blocks, g.start, |blocks|)
    {
      hide Inv, OldestOk, Looked, Passes, Untracked;
      ghost var d0 := D();
      gcDirtiest := 0;
      var exist;
      selected, exist := FindPrioritised();
      ghost var was := selected;
      if exist && selected == 0 && oldBlock < |blocks| && IsDirty(g, blocks[oldBlock]) {
        selected := oldBlock;
        OldestAllowed(g, d0, D(), oldBlock, 0);
      }
      if exist {
        WaitingStill(blocks, g.start, if was > 0 then was + 1 else |blocks|);
      } else {
        pending := false;
      }
    }

    /** The second half: the dirtiest block found if it is dirty enough, or after a while the oldest
      dirty block. */
    method SelectDirty(enough: bool, tooLong: bool) returns (selected: nat)
      requires Inv(g, D(), None, 0)
      modifies this`oldSeq, this`oldBlock, this`gcDirtiest
      ensures Inv(g, D(), None, 0) && Looked(g, old(D()), D())
      ensures selected > 0 ==> selected < |blocks| && IsDirty(g, blocks[selected])
      ensures selected > 0 ==> Allowed(g, old(D()), D(), oldBlock, old(gcDirtiest), selected)
      ensures enough ==>
                0 < old(gcDirtiest) < |blocks| && IsDirty(g, blocks[old(gcDirtiest)]) ==> selected > 0
    {
      hide Inv, OldestOk, Looked, Passes, NoneOlder, SomeDirty;
      ghost var d0 := D();
      var dirtiest := FindDirtiest();
      selected := if enough then dirtiest else 0;
      ghost var d := D();
      if selected == 0 && tooLong {
        selected := FindOldestDirty();
        LookedTrans(g, d0, d, D());
        if selected > 0 { OldestAllowed(g, d0, D(), oldBlock, old(gcDirtiest)); }
      }
    }

    /** The choice of yaffs_find_gc_block: a block marked for early collection, or the oldest dirty
      block in its way, comes before any other. */
    method SelectGcBlock(aggressive: bool, enough: bool, tooLong: bool) returns (selected: nat)
      requires Inv(g, D(), None, 0)
      modifies this`oldSeq, this`oldBlock, this`gcDirtiest, this`pending
      ensures Inv(g, D(), None, 0) && Looked(g, old(D()), D())
      ensures selected > 0 ==>
                selected < |blocks| && (IsDirty(g, blocks[selected]) || Urgent(blocks[selected]))
      ensures selected > 0 ==> Allowed(g, old(D()), D(), oldBlock, old(gcDirtiest), selected) && gcDirtiest == 0
      // a block waiting for early collection is taken before all others, unless it fails the test
      ensures old(pending) && !aggressive ==>
                || (selected > 0 && Urgent(blocks[selected]))
                || forall i :: 0 <= i < |blocks| && Urgent(blocks[i]) ==> blocks[i].shrink
      // a candidate dirty enough is taken if none waits
      ensures enough && (aggressive || !old(pending)) ==>
                0 < old(gcDirtiest) < |blocks| && IsDirty(g, blocks[old(gcDirtiest)]) ==> selected > 0
      ensures pending <==> old(pending) && (aggressive || Waiting(blocks, g.start, |blocks|))
    {
      hide Inv, OldestOk, Looked, Passes, NoneOlder, SomeDirty, Allowed;
      ghost var d0 := D();
      LookedSelf(g, d0);
      selected := 0;
      if pending && !aggressive {
        selected := SelectUrgent();
        if selected > 0 { AllowedBefore(g, d0, d0, D(), oldBlock, old(gcDirtiest), 0, selected); }
      }
      ghost var d1, kept := D(), gcDirtiest;
      if selected == 0 {
        selected := SelectDirty(enough, tooLong);
        LookedTrans(g, d0, d1, D());
        if selected > 0 { AllowedBefore(g, d0, d1, D(), oldBlock, old(gcDirtiest), kept, selected); }
      }
      if selected > 0 { gcDirtiest := 0; }
    }

    /** yaffs_find_gc_block. */
    method FindGcBlock(aggressive: bool)
      requires Inv(g, D(), None, 0) && gcBlock == 0
      modifies this`gcBlock, this`gcChunk, this`oldSeq, this`oldBlock, this`gcDirtiest, this`pending
      ensures Inv(g, D(), None, 0) && Looked(g, old(D()), D()) && gcChunk == 0
      ensures gcBlock > 0 ==>
                gcBlock < |blocks| && (IsDirty(g, blocks[gcBlock]) || Urgent(blocks[gcBlock]))
      ensures gcBlock > 0 ==> Allowed(g, old(D()), D(), oldBlock, old(gcDirtiest), gcBlock)
    {
      hide Inv, OldestOk, Looked, Passes;
      ghost var d0, kept := D(), gcDirtiest;
      var enough: bool, tooLong: bool := *, *;
      var selected := SelectGcBlock(aggressive, enough, tooLong);
      ghost var d := D();
      gcBlock, gcChunk := selected, 0;
      Picked(g, d, D());
      LookedPick(g, d0, d, D());
      if selected > 0 { AllowedPick(g, d0, d, D(), oldBlock, kept, selected); }
    }

    /** yaffs_check_gc.  It chooses at most one block: the second round goes on with the same. */
    method CheckGc(refresh: bool, sizes: map<nat, nat>, alwaysCheck: bool, wrAttempts: nat)
      requires Inv(g, D(), None, 0) && Rest(g, D()) && ck.Closed? && Between(D())
      modifies this
      ensures Inv(g, D(), None, 0) && Rest(g, D()) && ck.Closed? && Between(D()) && Preserved(old(D()), D(), sizes)
      ensures NoNewShrink(old(D()), D())
      ensures faults >= old(faults)
      ensures OldestOk(g, old(D())) && Tame(g, old(D()), refresh) ==> OldestOk(g, D())
      // a collection that has passed the last page with pages still in use is never taken up again,
      // and no other block is collected
      ensures Stalled(g, old(D())) ==> D() == old(D()) || D() == Unflagged(old(D()))
    {
      hide Inv, Rest, Preserved, OldestOk, NoSummary, Tame, Stalled, Timely;
      ghost var d0 := D();
      PreservedSelf(d0, sizes);
      InvSize(g, d0, None, 0);
      var tries := 0;
      var again: bool := *;
      while again && tries < 2
        invariant Inv(g, D(), None, 0) && Rest(g, D()) && ck.Closed? && Between(D()) && Preserved(d0, D(), sizes)
        invariant tries <= 2 && NoNewShrink(d0, D())
        invariant faults >= old(faults) && (OldestOk(g, d0) && Tame(g, d0, refresh) ==> OldestOk(g, D()))
        invariant tries == 0 ==> D() == d0
        invariant tries > 0 && again ==> 0 < gcBlock < |blocks| && NoSummary(g, blocks[gcBlock])
        invariant Stalled(g, d0) ==> D() == d0 || D() == Unflagged(d0)
        decreases 2 - tries
      {
        ghost var first := tries == 0;
        tries := tries + 1;
        var aggressive: bool := *;
        ghost var d := D();
        StallStays(g, d0, d);
        ChooseBlock(aggressive, refresh);
        ghost var e := D();
        Chosen(g, d, e, refresh, first, sizes);
        if gcBlock > 0 {
          var ok := GcBlock(aggressive, sizes, alwaysCheck, wrAttempts);
          PreservedTrans(d0, d, e, D(), sizes);
        } else {
          PreservedTrans(d0, d, d, e, sizes);
        }
        again := *;
        again := again && gcBlock > 0;
      }
    }

    /** The block to collect: the one under collection if there is one. */
    method ChooseBlock(aggressive: bool, refresh: bool)
      requires Inv(g, D(), None, 0) && Between(D())
      modifies this`gcBlock, this`gcChunk, this`oldSeq, this`oldBlock, this`gcDirtiest,
               this`pending
      ensures Inv(g, D(), None, 0) && Looked(g, old(D()), D())
      ensures old(gcBlock) > 0 ==> D() == old(D())
      ensures gcBlock > 0 ==> gcBlock < |blocks| && blocks[gcBlock].st.Full?
      ensures old(gcBlock) == 0 && gcBlock > 0 ==> Allowed(g, old(D()), D(), oldBlock, old(gcDirtiest), gcBlock)
      ensures old(gcBlock) == 0 && gcBlock > 0 ==>
                IsDirty(g, blocks[gcBlock]) || blocks[gcBlock].prioritise || (refresh && oldSeq == old(oldSeq))
    {
      hide Inv, OldestOk, Looked, Passes;
      LookedSelf(g, D());
      ghost var d := D();
      if gcBlock < 1 && !aggressive && refresh {
        var due: bool := *;
        if due {
          var oldest := FindRefreshBlock();
          gcBlock, gcChunk := oldest, 0;
          OldestPasses(g, D(), oldest);
          Picked(g, d, D());
          LookedPick(g, d, d, D());
        }
      }
      if gcBlock < 1 {
        ghost var d1 := D();
        FindGcBlock(aggressive);
        LookedTrans(g, d, d1, D());
        LookedOld(g, d, d1);
      }
    }

    /** The block of a shrink header is flagged; `d` is the device before the write. */
    method MarkShrink(k: Key, ghost d: Dev, ghost sizes: map<nat, nat>)
      requires Inv(g, D(), None, 0) && Rest(g, D()) && ck.Closed? && Between(D())
      requires k in tree && PreservedBut(d, D(), k, sizes)
      modifies this`blocks
      ensures Inv(g, D(), None, 0) && Rest(g, D()) && Between(D()) && PreservedBut(d, D(), k, sizes)
      ensures tree[k].b < |old(blocks)| &&
              blocks == old(blocks)[tree[k].b := old(blocks)[tree[k].b].(shrink := true)]
      ensures OldestOk(g, old(D())) ==> OldestOk(g, D())
    {
      hide Inv, Rest, PreservedBut, OldestOk, Between;
      ghost var e := D();
      MappedInUse(g, e, k);
      blocks := blocks[tree[k].b := blocks[tree[k].b].(shrink := true)];
      RetouchInv(g, e, D(), tree[k].b, blocks[tree[k].b], None);
      Marked(g, d, e, D(), k, tree[k].b, sizes);
    }

    /** Writing chunk `k`, as yaffs_wr_data_obj and yaffs_update_oh do: collect, write anew, point
      the map at the new page, give back the old one, and mark the block of a shrink header. */
    method WrChunk(k: Key, body: Body, useReserve: bool, reserved: nat, refresh: bool, sizes: map<nat, nat>,
                   alwaysCheck: bool, wrAttempts: nat)
      returns (ok: bool)
      requires Inv(g, D(), None, 0) && Rest(g, D()) && ck.Closed? && Between(D())
      modifies this
      ensures Inv(g, D(), None, 0) && Rest(g, D()) && ck.Closed? && Between(D())
      ensures ok ==> k in tree && Read(nand, tree[k]) == Chunk(k, body) && PreservedBut(old(D()), D(), k, sizes)
      ensures !ok ==> Preserved(old(D()), D(), sizes)
      ensures faults == old(faults) ==> ok || NoSpace(useReserve, reserved)
      ensures ok && body.Header? && body.shrink ==> tree[k].b < |blocks| && blocks[tree[k].b].shrink
      ensures OnlyShrink(old(D()), D(), if ok && body.Header? && body.shrink then tree[k].b else -1)
      ensures OldestOk(g, old(D())) && Tame(g, old(D()), refresh) ==> OldestOk(g, D())
    {
      hide Tame;
      hide Inv, Rest, Preserved, PreservedBut, Copied, Quiet, OldestOk, Deleted, Kept, SameContent, Between;
      hide NoNewShrink, OnlyShrink;
      ghost var d0 := D();
      CheckGc(refresh, sizes, alwaysCheck, wrAttempts);
      ghost var d1 := D();
      var r := WriteNewChunk(Chunk(k, body), useReserve, reserved, alwaysCheck, wrAttempts);
      ghost var d2 := D();
      WroteBetween(g, d1, d2, sizes);
      NoNewOn(g, d0, d1, d2, d1.allocBlock);
      PreservedTrans(d0, d1, d1, d2, sizes);
      ok := r.Some?;
      if !ok {
        OnlyMarked(d0, D(), D(), -1);
        return;
      }
      var a := r.value;
      var had := k in tree;
      var prev := if had then tree[k] else a;
      LinkInv(g, d2, k, a);
      tree := tree[k := a];
      ghost var d3 := D();
      Linking(g, d0, d2, d3, k, a, sizes);
      if had {
        PrevInUse(g, d2, k, r);
        ChunkDel(prev);
        RestSame(g, d3, D());
        NoNewOn(g, d0, d3, D(), prev.b);
        Unlinked(g, d0, d3, D(), k, prev, sizes);
      }
      if body.Header? && body.shrink {
        ghost var d4 := D();
        MarkShrink(k, d0, sizes);
        OnlyMarked(d0, d4, D(), tree[k].b);
      } else {
        OnlyMarked(d0, D(), D(), -1);
      }
    }

    /** Taking chunk `k` out of the map and giving its page back, as pruning and deletion do. */
    method DelChunk(k: Key)
      requires Inv(g, D(), None, 0) && Rest(g, D()) && ck.Closed? && Between(D()) && k in tree
      modifies this
      ensures Inv(g, D(), None, 0) && Rest(g, D()) && ck.Closed? && Between(D())
      ensures tree == old(tree) - {k} && forall j :: j in tree ==> Read(nand, tree[j]) == old(Read(nand, tree[j]))
      ensures OldestOk(g, old(D())) ==> OldestOk(g, D())
    {
      hide Inv, Rest, Quiet, OldestOk, Deleted, Kept, Between;
      ghost var d0 := D();
      var a := tree[k];
      PrevInUse(g, d0, k, None);
      UnlinkInv(g, d0, k);
      tree := tree - {k};
      ghost var d1 := D();
      ChunkDel(a);
      RestSame(g, d0, D());
      AfterDel(g, d0, d1, D(), a);
    }

    /** yaffs2_checkpt_open, for writing. */
    method CheckptOpen(reservedBlocks: nat) returns (ok: bool)
      requires Inv(g, D(), None, 0) && ck.Closed?
      modifies this
      ensures Inv(g, D(), None, 0) && Quiet(g, old(D()), D().(ck := Closed), -1) && ck.Open? == ok
      ensures ok == (old(nErased) > reservedBlocks)
      ensures isCkpt == old(isCkpt)
      ensures if ok then inCkpt == 0 && allocBlock == old(allocBlock) && allocPage == old(allocPage)
              else D() == old(D())
    {
      hide Inv, Quiet;
      ghost var d0 := D();
      QuietSelf(g, d0, -1);
      if nErased - reservedBlocks <= 0 { return false; }
      CheckptErase(None, 0);
      ghost var d := D();
      QuietCk(g, d0, d, -1);
      ck := Open(-1, 0, g.start);
      OpenInv(g, d, D());
      ok := true;
    }

    /** No block for a checkpoint is left from `next` on. */
    ghost predicate Exhausted(next: int, reservedBlocks: nat)
      reads this
    {
      nErased <= reservedBlocks || next < 0 || forall i :: next <= i < |blocks| ==> !blocks[i].st.Empty?
    }

    /** yaffs2_checkpt_find_erased_block. */
    method FindErasedBlock(reservedBlocks: nat)
      requires Inv(g, D(), None, 0) && ck.Open? && ck.cur < 0
      modifies this`ck
      ensures ck.Open? && ck.chunk == 0
      ensures ck.cur < 0 ==> Inv(g, D(), None, 0) && ck.next == -1
      ensures ck.cur >= 0 ==>
                g.start <= ck.cur < |blocks| && blocks[ck.cur].st.Empty? && old(ck.next) <= ck.cur &&
                ck.next == ck.cur + 1
      ensures ck.cur >= 0 ==> forall i :: old(ck.next) <= i < ck.cur ==> !(0 <= i < |blocks| && blocks[i].st.Empty?)
      ensures ck.cur < 0 ==> Exhausted(old(ck.next), reservedBlocks)
    {
      hide Inv;
      ghost var d := D();
      InvSize(g, d, None, 0);
      LowDead(g, d, None, 0);
      if 0 <= ck.next <= g.end && nErased - reservedBlocks > 0 {
        for i := ck.next to g.end + 1
          invariant D() == d && forall j :: ck.next <= j < i ==> !blocks[j].st.Empty?
        {
          if blocks[i].st.Empty? {
            ck := Open(i, 0, i + 1);
            return;
          }
        }
      }
      ck := Open(-1, 0, -1);
      NoCkBlock(g, d, D());
    }

    /** yaffs2_checkpt_flush_buffer, as far as blocks and pages go. */
    method CheckptFlush(reservedBlocks: nat) returns (ok: bool)
      requires Inv(g, D(), None, 0) && ck.Open?
      modifies this`ck, this`blocks, this`inCkpt, this`nand
      ensures Inv(g, D(), None, 0) && ck.Open? && Quiet(g, old(D()), D().(ck := old(ck)), -1)
      ensures !ok ==> D().(ck := old(ck)) == old(D()) && old(ck.cur) < 0 && Exhausted(old(ck.next), reservedBlocks)
      // the page goes to the current block, or to the first erased block from `next` on
      ensures ok && old(ck.cur) >= 0 ==>
                blocks == old(blocks) && nand == Programmed(old(nand), Addr(old(ck.cur), old(ck.chunk)), Checkpt)
      ensures ok && old(ck.cur) < 0 ==>
                exists b: nat ::
                  FirstEmpty(old(blocks), old(ck.next), b) && nand == Programmed(old(nand), Addr(b, 0), Checkpt) &&
                            blocks == old(blocks)[b := old(blocks)[b].(st := Checkpoint)]
    {
      hide Inv, Quiet, SameContent, Kept;
      ghost var d0 := D();
      QuietSelf(g, d0, -1);
      if ck.cur < 0 { FindErasedBlock(reservedBlocks); }
      if ck.cur < 0 { return false; }
      ghost var d := D();
      var cur := ck.cur;
      InvSize(g, d0, None, 0);
      CkCurrent(g, d0);
      if ck.chunk == 0 {
        blocks := blocks[cur := blocks[cur].(st := Checkpoint)];
        inCkpt := inCkpt + 1;
      }
      var ckChunk := ck.chunk;
      nand := Programmed(nand, Addr(cur, ckChunk), Checkpt);
      ck := if ckChunk + 1 >= g.cpb then Open(-1, 0, ck.next) else Open(cur, ckChunk + 1, ck.next);
      FlushInv(g, d0, D(), cur, ckChunk);
      ok := true;
    }

    /** yaffs_checkpt_close, after writing.  The last buffer is always flushed. */
    method CheckptClose(reservedBlocks: nat)
      requires Inv(g, D(), None, 0) && ck.Open?
      modifies this`ck, this`blocks, this`inCkpt, this`nand, this`nFree, this`nErased
      ensures Inv(g, D(), None, 0) && ck.Closed? && Quiet(g, old(D()).(ck := Closed), D(), -1)
    {
      hide Inv, Quiet;
      ghost var d0 := D();
      var flushed := CheckptFlush(reservedBlocks);
      ghost var d := D();
      nFree := nFree - Chunks(g.cpb, inCkpt);
      nErased := nErased - inCkpt;
      ck := Closed;
      CloseInv(g, d0, d, D());
    }

    /** yaffs_checkpoint_save: the blocks and pages it takes, for a checkpoint of `n` buffers.  A
      checkpoint that is there already is kept. */
    method CheckpointSave(required: bool, n: nat, reservedBlocks: nat)
      requires Inv(g, D(), None, 0) && Rest(g, D()) && ck.Closed?
      modifies this
      ensures Inv(g, D(), None, 0) && Rest(g, D()) && ck.Closed? && SameContent(old(D()), D())
      ensures OldestOk(g, old(D())) ==> OldestOk(g, D())
      ensures nFree == FreeSum(g.cpb, blocks) && nErased == CountOf(blocks, Empty)
      ensures inCkpt == CountOf(blocks, Checkpoint)
      ensures if old(isCkpt) then isCkpt && D() == old(D()) else isCkpt ==> required
    {
      hide Inv, Quiet, SameContent, Kept, Rest, OldestOk, CountOf, FreeSum;
      ghost var d0 := D();
      Recount(g, d0);
      ContentSelf(d0, d0);
      if isCkpt { return; }
      CheckptInvalidate(None, 0);
      ghost var d1 := D();
      RestSame(g, d0, d1);
      QuietCk(g, d0, d1, -1);
      QuietEnds(g, d0, d1);
      if required { isCkpt := WriteCheckpt(n, reservedBlocks, d0); }
      QuietEnds(g, d0, D());
      Recount(g, D());
    }

    /** yaffs2_wr_checkpt_data: open, `n` full buffers, close. */
    method WriteCheckpt(n: nat, reservedBlocks: nat, ghost d0: Dev) returns (ok: bool)
      requires Inv(g, D(), None, 0) && Rest(g, D()) && ck.Closed? && Inv(g, d0, None, 0) && Quiet(g, d0, D(), -1)
      modifies this
      ensures Inv(g, D(), None, 0) && Rest(g, D()) && ck.Closed? && Quiet(g, d0, D(), -1) && isCkpt == old(isCkpt)
      ensures old(nErased) <= reservedBlocks ==> !ok && D() == old(D())
    {
      hide Inv, Quiet, SameContent, Kept, Rest, OldestOk, CountOf, FreeSum, Vacant;
      ghost var d1 := D();
      ok := CheckptOpen(reservedBlocks);
      if ok {
        ghost var d2 := D();
        QuietTrans(g, d0, d1, d2.(ck := Closed), -1, -1, None, 0);
        RestSame(g, d1, d2);
        var i := 0;
        while ok && i < n
          invariant Inv(g, D(), None, 0) && Rest(g, D()) && ck.Open? && Quiet(g, d0, D().(ck := Closed), -1)
          invariant i <= n && isCkpt == old(isCkpt)
          decreases n - i
        {
          ghost var d := D();
          ok := CheckptFlush(reservedBlocks);
          QuietReck(g, d, D());
          QuietTrans(g, d0, d.(ck := Closed), D().(ck := Closed), -1, -1, None, 0);
          RestSame(g, d, D());
          i := i + 1;
        }
        ghost var d3 := D();
        CheckptClose(reservedBlocks);
        QuietTrans(g, d0, d3.(ck := Closed), D(), -1, -1, None, 0);
        RestSame(g, d3, D());
      } else {
        UnopenedSame(d1, D());
      }
    }

    /** A freshly formatted device: every block erased, except the ones marked bad. */
    constructor Format(geo: Geo, bad: set<nat>)
      requires GeoOk(geo)
      ensures g == geo && Inv(g, D(), None, 0) && Rest(g, D()) && ck.Closed? && Between(D()) && OldestOk(g, D())
      ensures tree == map[] && nand == Blank
    {
      g := geo;
      var fresh_ := BlockInfo(Empty, 0, {}, 0, false, false, false, 0, false, true);
      var bs := seq(geo.end + 1, i requires 0 <= i => if i < geo.start || i in bad then fresh_.(st := Dead)
                    else fresh_);
      blocks := bs;
      nFree, nErased, inCkpt, isCkpt, ck := FreeSum(geo.cpb, bs), CountOf(bs, Empty), 0, false, Closed;
      allocBlock, allocPage, finder, seqNo, oldSeq, oldBlock, gcBlock, gcChunk := -1, 0, 0, 0, 0, 0, 0, 0;
      nand, tree, faults := Blank, map[], 0;
      CountPos(bs, Checkpoint);
    }

  }

  ghost predicate FirstEmpty(bs: Blocks, next: int, b: nat) {
    b < |bs| && bs[b].st.Empty? && next <= b && forall i :: next <= i < b ==> !(0 <= i && bs[i].st.Empty?)
  }

  lemma OldestCleared(g: Geo, d: Dev)
    ensures Quiet(g, d, d.(oldSeq := 0), -1)
  {}

  lemma StillDirty(g: Geo, d: Dev, e: Dev, b: nat)
    requires Quiet(g, d, e, -1) && b < |d.blocks| && !d.blocks[b].st.Empty? && !d.blocks[b].st.Checkpoint?
    ensures b < |e.blocks| && e.blocks[b] == d.blocks[b] && e.ck == d.ck
  {}

  lemma ProgramDirty(g: Geo, d: Dev, b: nat, page: Page, x: Option<Addr>)
    requires Inv(g, d, x, 0) && b < |d.blocks| && d.blocks[b].st.Dirty? && Top(d.nand, b) == 0 && d.ck.Closed?
    ensures Inv(g, Program(d, Addr(b, 0), page), x, 0)
  {
    InvBlock(g, d, x, 0, b);
    InvFacts(g, d, x, 0);
    hide Inv;
    ProgramUnused(g, d, Addr(b, 0), page, x, 0);
  }

  lemma SlackPaid(g: Geo, d: Dev, x: Option<Addr>)
    requires Inv(g, d, x, g.cpb)
    ensures Inv(g, d.(nFree := d.nFree - g.cpb), x, 0)
  {}

  lemma InvOldest(g: Geo, d: Dev, oldSeq: nat, x: Option<Addr>, slack: int)
    requires Inv(g, d, x, slack)
    ensures Inv(g, d.(oldSeq := oldSeq), x, slack)
  {}

  lemma QuietFree(g: Geo, d: Dev, e: Dev, f: Dev, b: int)
    requires Quiet(g, d, e, b) && f == e.(nFree := f.nFree)
    ensures Quiet(g, d, f, b)
  {}

  lemma QuietOld(g: Geo, d: Dev, e: Dev, b: int)
    requires Quiet(g, d, e, b)
    ensures e.oldSeq == 0 || (d.oldSeq != 0 && e.oldSeq <= d.oldSeq)
  {}

  lemma QuietCk(g: Geo, d: Dev, e: Dev, b: int)
    requires Quiet(g, d, e, b)
    ensures d.ck == e.ck && d.tree == e.tree && |d.blocks| == |e.blocks|
  {}

  lemma NotMapped(g: Geo, d: Dev, a: Addr, slack: int)
    requires Inv(g, d, Some(a), slack) && InUse(d.blocks, a)
    ensures forall k :: k in d.tree ==> d.tree[k] != a
    ensures d.blocks[a.b].st.Allocating? || d.blocks[a.b].st.Full? || d.blocks[a.b].st.Collecting?
  {
    assert BlockOk(g, a.b, d.blocks[a.b]);
  }

  lemma NoneUsed(g: Geo, d: Dev, b: nat, x: Option<Addr>, slack: int)
    requires Inv(g, d, x, slack) && b < |d.blocks|
    ensures d.blocks[b].used == 0 <==> d.blocks[b].bits == {}
  {
    assert BlockOk(g, b, d.blocks[b]);
  }

  lemma LowerOldest(g: Geo, d: Dev, oldSeq: nat, b: nat, x: Option<Addr>, slack: int)
    requires Inv(g, d, x, slack)
    requires oldSeq == d.oldSeq || (d.oldSeq != 0 && oldSeq <= d.oldSeq && b < |d.blocks| &&
                                    oldSeq == d.blocks[b].seqNo)
    ensures Quiet(g, d, d.(oldSeq := oldSeq), b)
  {}

  /** Block `b` is given up only if it was due for retirement. */
  ghost predicate StaysGood(was: Blocks, now: Blocks, b: nat) {
    && b < |was| == |now|
    && if now[b].st.Dead? then was[b].st.Dead? || was[b].retire else now[b].st.Empty? || now[b].retire == was[b].retire
  }

  lemma GoodSelf(bs: Blocks, b: nat)
    requires b < |bs|
    ensures StaysGood(bs, bs, b)
  {}

  lemma StaysOn(was: Blocks, mid: Blocks, now: Blocks, b: nat)
    requires StaysGood(was, mid, b) && StaysGood(mid, now, b) && mid[b].st.Collecting?
    ensures StaysGood(was, now, b)
  {}

  /** Of the first `i` blocks those that held a checkpoint are erased; the others are as they were. */
  ghost predicate ErasedTo(was: Blocks, now: Blocks, i: nat) {
    && |was| == |now| && (forall j :: i <= j < |was| ==> now[j] == was[j])
    && forall j :: 0 <= j < i && j < |was| && was[j].st.Checkpoint? ==> now[j].st.Empty?
  }

  lemma NoneErased(bs: Blocks, i: nat)
    requires forall j :: 0 <= j < i ==> j < |bs| && bs[j].st.Dead?
    ensures ErasedTo(bs, bs, i)
  {}

  lemma ErasedStep(was: Blocks, now: Blocks, now': Blocks, i: nat)
    requires ErasedTo(was, now, i) && i < |was| && now' == if now[i].st.Checkpoint? then now[i := now[i].(st := Empty)]
                                                           else now
    ensures ErasedTo(was, now', i + 1)
  {}

  /** What deleting page `a` does to its block: the page is no longer in use, or the block had
    nothing else and is erased or retired. */
  ghost predicate Deleted(d: Dev, e: Dev, a: Addr) {
    && a.b < |d.blocks| == |e.blocks| && (e.oldSeq == 0 || e.oldSeq <= d.blocks[a.b].seqNo)
    && var was := d.blocks[a.b];
       || (e.blocks[a.b] == was.(bits := was.bits - {a.p}, used := was.used - 1) && e.gcBlock == d.gcBlock &&
           (e.blocks[a.b].bits != {} || was.shrink || was.st.Allocating?))
       || (((e.blocks[a.b].st.Empty? && !was.retire) || e.blocks[a.b].st.Dead?) && was.bits <= {a.p} && !was.shrink &&
           !was.st.Allocating?)
  }

  /** A block as it is after its erasure. */
  predicate Cleaned(was: BlockInfo, now: BlockInfo) {
    now == BlockInfo(Empty, 0, {}, 0, false, was.retire, false, was.strikes, false, true)
  }

  // ---------- failed writes ----------

  /** Page `p` is no longer in use; if it was the last one of a block not allocated from and not
    protected, the block is erased or retired, else it is full. */
  predicate Emptied(was: BlockInfo, now: BlockInfo, p: nat) {
    if was.bits <= {p} && !was.shrink && !was.st.Allocating? then now.st.Dead? || now.st.Empty?
    else now.bits == was.bits - {p} && now.used == was.used - 1 && now.st == if was.st.Allocating? then Full else was.st
  }

  lemma StruckBlock(was: BlockInfo, mid: BlockInfo, now: BlockInfo, p: nat, erasedOk: bool)
    requires mid == was.(prioritise := true, strikes := if was.prioritise then was.strikes else was.strikes + 1,
                         retire := Due(was, erasedOk))
    requires GivenUp(mid, now, p)
    ensures Struck(was, now, erasedOk) && Emptied(was, now, p)
  {}

  /** The block is to be retired after a failed write: it was before, or the page had been found
    erased, or this is its fourth strike. */
  predicate Due(was: BlockInfo, erasedOk: bool) {
    was.retire || erasedOk || (!was.prioritise && was.strikes >= 3)
  }

  /** How the flash behaves when a page is written: whether a check of it says erased, whether the
    program is reported as good, whether a page reported as failed is readable all the same, and
    whether reading it back works. */
  datatype Attempt = Attempt(erased: bool, good: bool, left: bool, verified: bool)

  /** A checked page counts as written if it reads back, whatever the program reported. */
  predicate Succeeds(t: Attempt, check: bool) {
    if check then t.erased && t.verified && (t.good || t.left) else t.good
  }

  predicate SameFlags(was: BlockInfo, now: BlockInfo) {
    && now.seqNo == was.seqNo && now.shrink == was.shrink && now.retire == was.retire
    && now.prioritise == was.prioritise && now.strikes == was.strikes
  }

  /** Page `p` of a block has been given back, and the block is no longer allocated from. */
  predicate GivenUp(was: BlockInfo, now: BlockInfo, p: nat) {
    if was.bits <= {p} && !was.shrink && !was.st.Allocating? then now.st.Dead? || (now.st.Empty? && !was.retire)
    else
      && now.bits == was.bits - {p} && now.used == was.used - 1 && SameFlags(was, now)
      && now.st == (if was.st.Allocating? then Full else was.st)
      && now.summary == was.summary && now.skipCheck == was.skipCheck
  }

  /** The marks a failed write leaves on a block: collected early, a strike unless it already was
    to be, and retired if due. */
  predicate Struck(was: BlockInfo, now: BlockInfo, erasedOk: bool) {
    || now.st.Dead?
    || (now.st.Empty? && !Due(was, erasedOk))
    || (&& now.prioritise && now.strikes == (if was.prioritise then was.strikes else was.strikes + 1)
        && now.retire == Due(was, erasedOk) && now.shrink == was.shrink && now.seqNo == was.seqNo)
  }

  lemma DeletedBits(d: Dev, e: Dev, a: Addr, ok: bool)
    requires a.b < |d.blocks| == |e.blocks|
    requires if ok then Deleted(d, e, a) else e.blocks[a.b] == d.blocks[a.b]
    ensures forall p :: p in d.blocks[a.b].bits && p != a.p ==> p in e.blocks[a.b].bits
  {}

  lemma DeletedUsed(g: Geo, d: Dev, e: Dev, a: Addr, ok: bool)
    requires Inv(g, d, None, 0) && Inv(g, e, None, 0) && InUse(d.blocks, a) && a.b < |e.blocks|
    requires if ok then Deleted(d, e, a) else e.blocks[a.b] == d.blocks[a.b]
    ensures e.blocks[a.b].used == d.blocks[a.b].used - if ok then 1 else 0
  {
    assert BlockOk(g, a.b, d.blocks[a.b]) && BlockOk(g, a.b, e.blocks[a.b]);
    if ok && d.blocks[a.b].bits <= {a.p} { assert d.blocks[a.b].bits == {a.p}; }
  }

  lemma DeletedOne(d: Dev, e: Dev, a: Addr)
    requires a.b < |d.blocks| && e == ClearBit(d, a).(oldSeq := e.oldSeq)
    requires e.oldSeq == 0 || e.oldSeq <= d.blocks[a.b].seqNo
    requires e.blocks[a.b].bits != {} || e.blocks[a.b].shrink || e.blocks[a.b].st.Allocating?
    ensures Deleted(d, e, a)
  {}

  lemma DeletedLast(d: Dev, e: Dev, f: Dev, a: Addr)
    requires a.b < |d.blocks| && e == ClearBit(d, a).(oldSeq := e.oldSeq)
    requires e.oldSeq == 0 || e.oldSeq <= d.blocks[a.b].seqNo
    requires e.blocks[a.b].bits == {} && !e.blocks[a.b].shrink && !e.blocks[a.b].st.Allocating?
    requires |f.blocks| == |d.blocks|
    requires (f.blocks[a.b].st.Empty? && !e.blocks[a.b].retire) || f.blocks[a.b].st.Dead?
    requires f.oldSeq == 0 || (e.oldSeq != 0 && f.oldSeq <= e.oldSeq)
    ensures Deleted(d, f, a)
  {
    var was := d.blocks[a.b];
    assert was.bits <= (was.bits - {a.p}) + {a.p};
  }

  lemma InUseBlock(g: Geo, d: Dev, a: Addr, slack: int)
    requires Inv(g, d, Some(a), slack) && InUse(d.blocks, a)
    ensures a.b < |d.blocks| && (d.blocks[a.b].st.Allocating? || d.blocks[a.b].st.Full? || d.blocks[a.b].st.Collecting?)
  {
    assert BlockOk(g, a.b, d.blocks[a.b]);
  }

  lemma AllocFacts(g: Geo, d: Dev, x: Option<Addr>, slack: int)
    requires Inv(g, d, x, slack)
    ensures -1 <= d.allocBlock < |d.blocks| == g.end + 1 && g.start >= 1
    ensures d.allocBlock >= 0 ==>
              g.start <= d.allocBlock && d.blocks[d.allocBlock].st.Allocating? &&
              d.blocks[d.allocBlock].seqNo == d.seqNo
  {}

  lemma NoAlloc(g: Geo, d: Dev, e: Dev, x: Option<Addr>, slack: int)
    requires Inv(g, d, x, slack) && d.allocBlock == -1 && e == d.(allocPage := e.allocPage)
    ensures Inv(g, e, x, slack) && Quiet(g, d, e, -1)
  {}

  /** The block allocated from still has a page. */
  ghost predicate Rest(g: Geo, d: Dev) { d.allocBlock >= 0 ==> d.allocPage < Limit(g) }

  /** Page `a` is the last one allocated. */
  ghost predicate Placed(g: Geo, d: Dev, a: Addr) {
    && InUse(d.blocks, a) && a.p < Limit(g) <= g.cpb
    && if a.p + 1 < g.cpb then d.allocBlock == a.b && d.allocPage == a.p + 1
       else d.allocBlock == -1 && d.blocks[a.b].st.Full?
  }

  /** Page `a` is the last one allocated and has not been programmed. */
  ghost predicate Fresh(g: Geo, d: Dev, a: Addr) { Placed(g, d, a) && Top(d.nand, a.b) <= a.p }

  lemma TakePageQuiet(g: Geo, d: Dev)
    requires Inv(g, d, None, 0) && Rest(g, d) && d.allocBlock >= 0
    ensures Quiet(g, d, TakePage(g, d), d.allocBlock) && Fresh(g, TakePage(g, d), Addr(d.allocBlock, d.allocPage))
  {
    AllocFacts(g, d, None, 0);
    InvBlock(g, d, None, 0, d.allocBlock);
    hide Inv, Quiet, SameContent, Kept;
    var e := TakePage(g, d);
    QuietPut(g, d, e, d.allocBlock, e.blocks[d.allocBlock]);
  }

  lemma QuietPage(g: Geo, d: Dev, d': Dev, e: Dev, b: int)
    requires Quiet(g, d, e, b) && d == d'.(allocPage := d.allocPage)
    ensures Quiet(g, d', e, b)
  {}

  lemma QuietPage2(g: Geo, d: Dev, e: Dev, e': Dev, b: int)
    requires Quiet(g, d, e, b) && e == e'.(allocPage := e.allocPage)
    ensures Quiet(g, d, e', b)
  {}

  /** Block `b` still has every page it had in use, with what was on it. */
  ghost predicate Grown(d: Dev, e: Dev, b: nat) {
    && b < |d.blocks| == |e.blocks| && d.blocks[b].bits <= e.blocks[b].bits && e.blocks[b].st == d.blocks[b].st
    && SameFlags(d.blocks[b], e.blocks[b])
    && forall p :: p in d.blocks[b].bits ==> Read(e.nand, Addr(b, p)) == Read(d.nand, Addr(b, p))
  }

  lemma GrownSelf(d: Dev, b: nat)
    requires b < |d.blocks|
    ensures Grown(d, d, b)
  {}

  lemma GrownTrans(d: Dev, e: Dev, f: Dev, b: nat)
    requires Grown(d, e, b) && Grown(e, f, b)
    ensures Grown(d, f, b)
  {}

  lemma GrownPage(d: Dev, e: Dev, e': Dev, b: nat)
    requires Grown(d, e, b) && e == e'.(allocPage := e.allocPage)
    ensures Grown(d, e', b)
  {}

  lemma NotCollected(g: Geo, d: Dev, x: Option<Addr>)
    requires Inv(g, d, x, 0) && d.allocBlock >= 0
    ensures d.gcBlock != d.allocBlock
  {}

  lemma JunkInv(g: Geo, d: Dev, x: Option<Addr>)
    requires Inv(g, d, x, 0) && 0 <= d.allocBlock && d.allocPage < g.cpb && d.ck.Closed?
    ensures Inv(g, Program(d, Addr(d.allocBlock, d.allocPage), Junk).(allocPage := d.allocPage + 1), x, 0)
  {
    var a := Addr(d.allocBlock, d.allocPage);
    var e := d.(allocPage := d.allocPage + 1);
    assert Inv(g, e, x, 0);
    InvFacts(g, e, x, 0);
    InvBlock(g, d, x, 0, a.b);
    assert a.p !in d.blocks[a.b].bits;
    hide Inv;
    ProgramUnused(g, e, a, Junk, x, 0);
  }

  /** A step that fills one more page of the block allocated from, or flags it. */
  lemma SummaryQuiet(g: Geo, d: Dev, e: Dev, x: Option<Addr>)
    requires Inv(g, d, x, 0) && 0 <= d.allocBlock < |d.blocks|
    requires || (d.allocPage < g.cpb && e == AddSummary(d))
             || (d.allocPage < g.cpb &&
                 e == Program(d, Addr(d.allocBlock, d.allocPage), Junk).(allocPage := d.allocPage + 1))
             || e == d.(blocks := d.blocks[d.allocBlock := d.blocks[d.allocBlock].(summary := true)])
    ensures Quiet(g, d, e, d.allocBlock) && Grown(d, e, d.allocBlock)
  {
    var b := d.allocBlock;
    AllocFacts(g, d, x, 0);
    assert forall p :: p in d.blocks[b].bits ==> p < d.allocPage;
    hide Inv, Quiet, SameContent, Kept;
    QuietPut(g, d, e, b, e.blocks[b]);
  }

  lemma SummaryOn(g: Geo, d0: Dev, d: Dev, e: Dev, b: nat, x: Option<Addr>)
    requires Inv(g, d0, x, 0) && Inv(g, d, x, 0) && Quiet(g, d0, d, b) && Grown(d0, d, b)
    requires d.allocBlock == b < |d.blocks|
    requires || (d.allocPage < g.cpb && e == AddSummary(d))
             || (d.allocPage < g.cpb && e == Program(d, Addr(b, d.allocPage), Junk).(allocPage := d.allocPage + 1))
             || e == d.(blocks := d.blocks[b := d.blocks[b].(summary := true)])
    ensures Quiet(g, d0, e, b) && Grown(d0, e, b)
  {
    hide Inv, Quiet, Grown, AddSummary, Program;
    SummaryQuiet(g, d, e, x);
    QuietTrans(g, d0, d, e, b, b, x, 0);
    GrownTrans(d0, d, e, b);
  }

  lemma GrownIn(d: Dev, e: Dev, a: Addr)
    requires Grown(d, e, a.b) && InUse(d.blocks, a)
    ensures SameFlags(d.blocks[a.b], e.blocks[a.b])
    ensures InUse(e.blocks, a) && Read(e.nand, a) == Read(d.nand, a)
  {
    assert a == Addr(a.b, a.p);
  }

  lemma QuietNeg(g: Geo, d: Dev, e: Dev, b: int)
    requires Quiet(g, d, e, d.allocBlock) && (d.allocBlock == b || d.allocBlock == -1)
    ensures Quiet(g, d, e, b)
  {}

  lemma AllocIs(g: Geo, d: Dev, a: Addr)
    requires Inv(g, d, Some(a), 0) && InUse(d.blocks, a)
    ensures d.blocks[a.b].st.Allocating? <==> d.allocBlock == a.b
  {}

  lemma DroppedBlock(d: Dev, e: Dev, f: Dev, a: Addr)
    requires a.b < |d.blocks| && Deleted(d, e, a) && (d.blocks[a.b].st.Allocating? <==> d.allocBlock == a.b)
    requires d.allocBlock == e.allocBlock && (d.allocBlock == a.b || d.allocBlock == -1)
    requires f.blocks == if d.allocBlock == a.b then e.blocks[a.b := e.blocks[a.b].(st := Full)] else e.blocks
    ensures a.b < |f.blocks| && GivenUp(d.blocks[a.b], f.blocks[a.b], a.p)
  {}

  lemma FreshPlace(g: Geo, d: Dev, a: Addr)
    requires Fresh(g, d, a)
    ensures InUse(d.blocks, a) && (d.allocBlock == a.b || d.allocBlock == -1)
  {}

  /** Blocks come into use only through being vacant. */
  lemma Reached(g: Geo, d: Dev, e: Dev, b: nat)
    requires Quiet(g, d, e, d.allocBlock)
    requires d.allocBlock == e.allocBlock || e.allocBlock < 0 || Vacant(d, e.allocBlock)
    requires b == e.allocBlock || Vacant(e, b)
    ensures b == d.allocBlock || Vacant(d, b)
  {}

  lemma NewAlloc(g: Geo, d: Dev, e: Dev, x: Option<Addr>)
    requires Inv(g, d, None, 0) && Inv(g, e, x, 0) && Quiet(g, d, e, d.allocBlock)
    ensures d.allocBlock == e.allocBlock || e.allocBlock < 0 || Vacant(d, e.allocBlock)
  {}

  /** What the collector writes for a chunk: data stays; a header loses its shrink and shadow marks
    and, for a file, takes the size the file has now. */
  function GcBody(sizes: map<nat, nat>, k: Key, body: Body): Body {
    match body
    case Data(_) => body
    case Header(rest, size, _, _) => Header(rest, if k.obj in sizes then sizes[k.obj] else size, false, 0)
  }

  /** A chunk as it reads after it was copied, against how it read before. */
  predicate GcForm(was: Page, now: Page, sizes: map<nat, nat>) {
    && was.Chunk? && now.Chunk? && now.key == was.key
    && (was.body.Data? ==> now == was)
    && (was.body.Header? ==>
          && now.body.Header? && now.body.rest == was.body.rest && !now.body.shrink && now.body.shadows == 0
          && now.body.size == if was.key.obj in sizes then sizes[was.key.obj] else was.body.size)
  }

  /** A mapped chunk is where it was and reads as it did, or it has been copied. */
  predicate SameChunk(d: Dev, e: Dev, k: Key, sizes: map<nat, nat>)
    requires k in d.tree && k in e.tree
  {
    || (e.tree[k] == d.tree[k] && Read(e.nand, e.tree[k]) == Read(d.nand, d.tree[k]))
    || GcForm(Read(d.nand, d.tree[k]), Read(e.nand, e.tree[k]), sizes)
  }

  /** The chunk map has the same keys, and under each key the same chunk, or a copy of it. */
  ghost predicate Preserved(d: Dev, e: Dev, sizes: map<nat, nat>) {
    && d.tree.Keys == e.tree.Keys
    && forall k :: k in d.tree.Keys ==> SameChunk(d, e, k, sizes)
  }

  ghost predicate Copied(g: Geo, d: Dev, e: Dev, sizes: map<nat, nat>) {
    && Preserved(d, e, sizes) && d.ck == e.ck && d.gcChunk == e.gcChunk && (OldestOk(g, d) ==> OldestOk(g, e))
    && (e.oldSeq == 0 || (d.oldSeq != 0 && e.oldSeq <= d.oldSeq)) && NoNewShrink(d, e)
  }

  lemma CopiedSelf(g: Geo, d: Dev, sizes: map<nat, nat>)
    ensures Copied(g, d, d, sizes)
  {}

  lemma CopiedTrans(g: Geo, d: Dev, e: Dev, f: Dev, sizes: map<nat, nat>)
    requires Copied(g, d, e, sizes) && Copied(g, e, f, sizes)
    ensures Copied(g, d, f, sizes)
  {
    hide OldestOk;
    assert forall k :: k in d.tree ==> k in d.tree.Keys && k in e.tree.Keys;
  }

  lemma CopiedQuiet(g: Geo, d: Dev, e: Dev, b: int, sizes: map<nat, nat>)
    requires Quiet(g, d, e, b)
    ensures Copied(g, d, e, sizes)
  {}

  lemma CopiedQuietMore(g: Geo, d: Dev, e: Dev, f: Dev, b: int, sizes: map<nat, nat>)
    requires Copied(g, d, e, sizes) && Quiet(g, e, f, b)
    ensures Copied(g, d, f, sizes)
  {
    CopiedQuiet(g, e, f, b, sizes);
    CopiedTrans(g, d, e, f, sizes);
  }

  lemma CopiedLink(g: Geo, d: Dev, e: Dev, f: Dev, k: Key, a: Addr, sizes: map<nat, nat>)
    requires Copied(g, d, e, sizes) && f == e.(tree := e.tree[k := a]) && k in d.tree
    requires var was := Read(d.nand, d.tree[k]);
             was.Chunk? && was.key == k && Read(e.nand, a) == Chunk(k, GcBody(sizes, k, was.body))
    ensures GcForm(Read(d.nand, d.tree[k]), Read(f.nand, f.tree[k]), sizes)
    ensures Copied(g, d, f, sizes)
  {
    hide OldestOk;
    OldestTree(g, e, f);
    assert k in d.tree.Keys && forall j :: j in d.tree ==> j in d.tree.Keys && j in e.tree.Keys;
    assert f.tree.Keys == e.tree.Keys + {k} == d.tree.Keys;
  }

  lemma OldestTree(g: Geo, e: Dev, f: Dev)
    requires f == e.(tree := f.tree)
    ensures OldestOk(g, e) ==> OldestOk(g, f)
  {}

  lemma QuietRead(g: Geo, d: Dev, e: Dev, b: int, k: Key)
    requires Quiet(g, d, e, b) && k in d.tree
    ensures e.tree == d.tree && Read(e.nand, e.tree[k]) == Read(d.nand, d.tree[k])
  {}

  lemma QuietGc(g: Geo, d: Dev, e: Dev, b: int)
    requires Quiet(g, d, e, b)
    ensures e.gcBlock == d.gcBlock || (d.gcBlock == b && e.gcBlock == 0)
  {}

  lemma LinkedHere(g: Geo, d: Dev, a: Addr)
    requires Inv(g, d, None, 0) && InUse(d.blocks, a) && Read(d.nand, a).Chunk?
    ensures var k := Read(d.nand, a).key; k in d.tree && d.tree[k] == a
  {
    assert InUse(d.blocks, Addr(a.b, a.p));
    assert PageLinked(g, d.nand, d.tree, Addr(a.b, a.p));
  }

  /** A page in use before the summary holds a chunk. */
  lemma DataPage(g: Geo, d: Dev, a: Addr)
    requires Inv(g, d, None, 0) && InUse(d.blocks, a) && d.blocks[a.b].summary && NoSummary(g, d.blocks[a.b])
    ensures Read(d.nand, a).Chunk?
  {
    assert PageLinked(g, d.nand, d.tree, Addr(a.b, a.p));
  }

  lemma NotLinkedHere(g: Geo, d: Dev, a: Addr)
    requires Inv(g, d, None, 0) && !Read(d.nand, a).Chunk?
    ensures Inv(g, d, Some(a), 0)
  {}

  /** A write leaves a block under collection alone, pages and all. */
  lemma CollectingKept(g: Geo, d: Dev, e: Dev, a: Addr)
    requires Inv(g, d, None, 0) && Quiet(g, d, e, d.allocBlock) && a.b < |d.blocks| && d.blocks[a.b].st.Collecting?
    requires InUse(d.blocks, a)
    ensures a.b < |e.blocks| && e.blocks[a.b] == d.blocks[a.b] && Read(e.nand, a) == Read(d.nand, a)
    ensures e.gcBlock == d.gcBlock && e.tree == d.tree
    ensures (e.oldSeq == 0 || (d.oldSeq != 0 && e.oldSeq <= d.oldSeq)) && |e.blocks| == |d.blocks|
  {
    assert a == Addr(a.b, a.p);
  }

  lemma DeletedFrom(d: Dev, e: Dev, f: Dev, a: Addr)
    requires Deleted(e, f, a) && |d.blocks| == |e.blocks| && e.blocks[a.b] == d.blocks[a.b] && e.gcBlock == d.gcBlock
    ensures Deleted(d, f, a)
  {}

  predicate SameButBits(b: BlockInfo, was: BlockInfo) { b == was.(bits := b.bits, used := b.used) }

  lemma BitsBelow(g: Geo, d: Dev, b: nat)
    requires Inv(g, d, None, 0) && b < |d.blocks|
    ensures g.cps < g.cpb && forall p :: p in d.blocks[b].bits ==> p < g.cpb
    ensures d.blocks[b].summary ==> g.cps > 0
    ensures b == d.gcBlock && b > 0 ==> d.gcChunk <= g.cpb && (d.gcChunk > 0 ==> NoSummary(g, d.blocks[b]))
  {
    assert BlockOk(g, b, d.blocks[b]);
  }

  /** Where blocks have summaries, the pages from the summary on are not in the chunk map. */
  lemma SummaryPage(g: Geo, d: Dev, a: Addr)
    requires Inv(g, d, None, 0) && InUse(d.blocks, a) && g.cps > 0 && a.p >= g.cps
    ensures forall k :: k in d.tree ==> d.tree[k] != a
  {
    assert PageLinked(g, d.nand, d.tree, Addr(a.b, a.p));
  }

  /** How far the collection of block `b` has come. */
  ghost predicate Collected(d: Dev, e: Dev, b: nat) {
    && b < |d.blocks| == |e.blocks|
    && var was, now := d.blocks[b], e.blocks[b];
       if now.st.Collecting? then
         && SameButBits(now, was) && now.bits <= was.bits && now.bits != {} && e.gcBlock == b
         && (now.bits == was.bits ==> now == was) && (now.bits != was.bits ==> e.oldSeq == 0 || e.oldSeq <= was.seqNo)
       else (now.st.Empty? || now.st.Dead?) && e.gcBlock == 0 && now.bits == {}
  }

  lemma CopiedOn(g: Geo, d0: Dev, d: Dev, e: Dev, sizes: map<nat, nat>)
    requires Copied(g, d0, d.(gcChunk := d0.gcChunk), sizes) && Copied(g, d, e, sizes)
    ensures Copied(g, d0, e.(gcChunk := d0.gcChunk), sizes) && e.gcChunk == d.gcChunk && e.ck == d.ck
    ensures e.oldSeq == 0 || (d.oldSeq != 0 && e.oldSeq <= d.oldSeq)
  {
    var d', e' := d.(gcChunk := d0.gcChunk), e.(gcChunk := d0.gcChunk);
    assert OldestOk(g, d) == OldestOk(g, d') && OldestOk(g, e) == OldestOk(g, e');
    assert Copied(g, d', e', sizes);
    CopiedTrans(g, d0, d', e', sizes);
  }

  lemma CollectedOn(g: Geo, d0: Dev, d: Dev, e: Dev, a: Addr, ok: bool)
    requires Collected(d0, d, a.b) && d.blocks[a.b].st.Collecting? && !d0.blocks[a.b].shrink && InUse(d.blocks, a)
    requires if ok then Deleted(d, e, a) else |d.blocks| == |e.blocks| && e.blocks[a.b] == d.blocks[a.b]
    requires e.gcBlock == d.gcBlock || (d.gcBlock == a.b && e.gcBlock == 0)
    requires Inv(g, e, None, 0) && a.b > 0 && (e.oldSeq == 0 || (d.oldSeq != 0 && e.oldSeq <= d.oldSeq))
    requires !ok ==> e.gcBlock == d.gcBlock
    ensures Collected(d0, e, a.b)
    ensures NoSummary(g, d0.blocks[a.b]) && e.gcBlock > 0 ==> NoSummary(g, e.blocks[e.gcBlock])
    ensures ok && e.blocks[a.b].st.Collecting? ==> e.blocks[a.b].bits == d.blocks[a.b].bits - {a.p}
  {
    assert BlockOk(g, a.b, e.blocks[a.b]);
  }

  lemma NextGcChunk(g: Geo, d: Dev, e: Dev, b: nat)
    requires Inv(g, d, None, 0) && e == d.(gcChunk := d.gcChunk + 1) && d.gcChunk < g.cpb
    requires d.gcBlock > 0 ==> NoSummary(g, d.blocks[d.gcBlock])
    ensures Inv(g, e, None, 0)
  {}

  lemma NoSummarySame(g: Geo, b: BlockInfo, c: BlockInfo)
    requires c == b.(st := c.st, shrink := c.shrink)
    ensures NoSummary(g, b) <==> NoSummary(g, c)
  {}

  lemma CopiedFacts(g: Geo, d: Dev, e: Dev, sizes: map<nat, nat>)
    requires Copied(g, d, e, sizes)
    ensures e.ck == d.ck && e.gcChunk == d.gcChunk && (e.oldSeq == 0 || (d.oldSeq != 0 && e.oldSeq <= d.oldSeq))
  {}

  lemma CopiedGc(g: Geo, d: Dev, e: Dev, f: Dev, sizes: map<nat, nat>)
    requires Copied(g, d, e, sizes) && f == e.(gcBlock := f.gcBlock)
    ensures Copied(g, d, f, sizes)
  {}

  lemma SeqBelow(g: Geo, d: Dev)
    requires Inv(g, d, None, 0)
    ensures forall i :: 0 <= i < |d.blocks| ==> d.blocks[i].seqNo <= d.seqNo
  {}

  lemma Picked(g: Geo, d: Dev, e: Dev)
    requires Inv(g, d, None, 0) && e == d.(gcBlock := e.gcBlock, gcChunk := 0)
    requires e.gcBlock == 0 || (e.gcBlock < |d.blocks| && d.blocks[e.gcBlock].st.Full?)
    ensures Inv(g, e, None, 0)
  {}

  /** No block is in the middle of being collected. */
  ghost predicate Between(d: Dev) {
    d.gcBlock > 0 ==> d.gcBlock < |d.blocks| && d.blocks[d.gcBlock].st.Full?
  }

  lemma PreservedSelf(d: Dev, sizes: map<nat, nat>)
    ensures Preserved(d, d, sizes)
  {}

  lemma PreservedTrans(d: Dev, e: Dev, f: Dev, h: Dev, sizes: map<nat, nat>)
    requires Preserved(d, e, sizes) && Preserved(e, f, sizes) && Preserved(f, h, sizes)
    ensures Preserved(d, h, sizes)
  {
    assert forall k :: k in d.tree ==> k in d.tree.Keys && k in e.tree.Keys && k in f.tree.Keys;
  }

  /** As Preserved, except for key `k`, which is now in the map. */
  ghost predicate PreservedBut(d: Dev, e: Dev, k: Key, sizes: map<nat, nat>) {
    && e.tree.Keys == d.tree.Keys + {k}
    && forall j :: j in d.tree.Keys && j != k ==> SameChunk(d, e, j, sizes)
  }

  lemma NoNewOn(g: Geo, d: Dev, e: Dev, f: Dev, b: int)
    requires NoNewShrink(d, e) && Quiet(g, e, f, b)
    ensures NoNewShrink(d, f)
  {}

  lemma OnlyMarked(d: Dev, e: Dev, f: Dev, b: int)
    requires NoNewShrink(d, e) && |f.blocks| == |e.blocks|
    requires forall i :: 0 <= i < |e.blocks| && i != b ==> f.blocks[i] == e.blocks[i]
    ensures OnlyShrink(d, f, b)
  {}

  lemma WroteBetween(g: Geo, d: Dev, e: Dev, sizes: map<nat, nat>)
    requires Inv(g, d, None, 0) && Quiet(g, d, e, d.allocBlock) && Between(d)
    ensures Between(e) && Preserved(d, d, sizes) && Preserved(d, e, sizes) && d.tree == e.tree && e.ck == d.ck
    ensures OldestOk(g, d) ==> OldestOk(g, e)
  {}

  lemma Linking(g: Geo, d: Dev, e: Dev, f: Dev, k: Key, a: Addr, sizes: map<nat, nat>)
    requires Preserved(d, e, sizes) && f == e.(tree := e.tree[k := a])
    ensures PreservedBut(d, f, k, sizes) && (Between(e) ==> Between(f)) && (Rest(g, e) ==> Rest(g, f))
    ensures OldestOk(g, e) ==> OldestOk(g, f)
  {
    assert f.tree.Keys == e.tree.Keys + {k};
  }

  lemma PrevInUse(g: Geo, d: Dev, k: Key, x: Option<Addr>)
    requires Inv(g, d, x, 0) && k in d.tree
    ensures InUse(d.blocks, d.tree[k])
  {}

  lemma Unlinked(g: Geo, d: Dev, e: Dev, f: Dev, k: Key, a: Addr, sizes: map<nat, nat>)
    requires PreservedBut(d, e, k, sizes) && Quiet(g, e, f, a.b) && Deleted(e, f, a) && k in e.tree
    requires Inv(g, f, None, 0) && Between(e)
    ensures PreservedBut(d, f, k, sizes) && f.tree == e.tree && Read(f.nand, f.tree[k]) == Read(e.nand, e.tree[k])
    ensures f.ck == e.ck
    ensures OldestOk(g, e) ==> OldestOk(g, f)
    ensures Between(f)
  {}

  lemma MappedInUse(g: Geo, d: Dev, k: Key)
    requires Inv(g, d, None, 0) && k in d.tree
    ensures d.tree[k].b < |d.blocks|
  {}

  lemma Marked(g: Geo, d: Dev, e: Dev, f: Dev, k: Key, b: nat, sizes: map<nat, nat>)
    requires PreservedBut(d, e, k, sizes) && b < |e.blocks|
    requires f == e.(blocks := e.blocks[b := e.blocks[b].(shrink := true)])
    ensures PreservedBut(d, f, k, sizes) && (Rest(g, e) ==> Rest(g, f)) && (Between(e) ==> Between(f))
    ensures OldestOk(g, e) ==> OldestOk(g, f)
  {}

  lemma AfterDel(g: Geo, d: Dev, e: Dev, f: Dev, a: Addr)
    requires Quiet(g, e, f, a.b) && Deleted(e, f, a) && e == d.(tree := e.tree) && Inv(g, f, None, 0) && Between(d)
    ensures f.tree == e.tree && SameContent(e, f) && f.ck == d.ck && Between(f) && (OldestOk(g, d) ==> OldestOk(g, f))
  {}

  /** A device on which collection makes the oldest dirty number wrong: two chunks a block, the
    second a summary; block 1 of sequence 5 wholly in use, block 2 of sequence 9 with its chunk
    discarded, no page left, 9 tracked, and block 1 the one to be refreshed. */
  function UntimelyDevice(body: Body): (d: Dev) {
    var full := BlockInfo(Full, 5, {0, 1}, 2, false, false, false, 0, true, true);
    var dirty := full.(seqNo := 9, bits := {1}, used := 1);
    var dead := full.(st := Dead, bits := {}, used := 0, summary := false);
    var nand := Programmed(Programmed(Programmed(Programmed(Blank, Addr(1, 0), Chunk(Key(7, 1), body)), Addr(1, 1),
                                                 Summary),
                                      Addr(2, 0), Chunk(Key(7, 1), body)), Addr(2, 1), Summary);
    Dev([dead, full, dirty], 1, 0, 0, Closed, -1, 0, 9, 9, 1, 0, nand, map[Key(7, 1) := Addr(1, 0)])
  }

  lemma UntimelyExists(body: Body)
    ensures var g, d := Geo(2, 1, 1, 1, 2), UntimelyDevice(body);
            && Inv(g, d, None, 0) && Rest(g, d) && Between(d) && OldestOk(g, d)
            && !Timely(d, d.gcBlock) && LosesSummary(g, d.blocks[d.gcBlock]) && d.allocBlock < 0 && d.nErased < 1
  {
    var g, d := Geo(2, 1, 1, 1, 2), UntimelyDevice(body);
    hide FreeSum, CountOf, Linked, Proper, Top, Read;
    UntimelyCounts(body);
    UntimelyLinked(body);
    FourPages(1, 2, Chunk(Key(7, 1), body));
    assert 0 in d.blocks[1].bits && 1 in d.blocks[1].bits;
  }

  lemma UntimelyCounts(body: Body)
    ensures CountersOk(Geo(2, 1, 1, 1, 2), UntimelyDevice(body), 0)
  {
    var d := UntimelyDevice(body);
    SumThree(2, d.blocks[0], d.blocks[1], d.blocks[2]);
    ChunksNext(2, 0);
  }

  lemma UntimelyLinked(body: Body)
    ensures var d := UntimelyDevice(body); Linked(Geo(2, 1, 1, 1, 2), d.blocks, d.nand, d.tree, None)
  {
    hide Read;
    var g, d := Geo(2, 1, 1, 1, 2), UntimelyDevice(body);
    FourPages(1, 2, Chunk(Key(7, 1), body));
    forall b, p | InUse(d.blocks, Addr(b, p)) ensures PageLinked(g, d.nand, d.tree, Addr(b, p)) {
      assert (b == 1 && p == 0) || (b == 1 && p == 1) || (b == 2 && p == 1);
    }
    assert InUse(d.blocks, Addr(1, 0));
  }

  lemma FourPages(b: nat, c: nat, page: Page)
    requires b != c
    ensures var n := Programmed(Programmed(Programmed(Programmed(Blank, Addr(b, 0), page), Addr(b, 1), Summary),
                                           Addr(c, 0), page), Addr(c, 1), Summary);
            && Proper(n) && Read(n, Addr(b, 0)) == page && Read(n, Addr(b, 1)) == Summary
            && Read(n, Addr(c, 1)) == Summary
            && forall i :: i != b && i != c ==> Top(n, i) == 0
  {
    var n1 := Programmed(Blank, Addr(b, 0), page);
    var n2 := Programmed(n1, Addr(b, 1), Summary);
    var n3 := Programmed(n2, Addr(c, 0), page);
    assert Top(Blank, b) == 0 && Top(Blank, c) == 0 && Proper(Blank);
    assert Top(n1, b) == 1 && Top(n1, c) == 0 && Proper(n1) && Read(n1, Addr(b, 0)) == page;
    assert Proper(n2) && Top(n2, c) == 0 && Read(n2, Addr(b, 0)) == page;
    assert Proper(n3) && Top(n3, c) == 1 && Read(n3, Addr(b, 0)) == page && Read(n3, Addr(b, 1)) == Summary;
    forall i | i != b && i != c ensures Top(n3, i) == 0 {
      assert Top(Blank, i) == 0;
      TopOther(Blank, Addr(b, 0), page, i);
      TopOther(n1, Addr(b, 1), Summary, i);
      TopOther(n2, Addr(c, 0), page, i);
    }
  }

  lemma TopOther(m: Nand, a: Addr, page: Page, i: nat)
    requires a.b != i
    ensures Top(Programmed(m, a, page), i) == Top(m, i)
  {}

  lemma SumThree(cpb: nat, a: BlockInfo, b: BlockInfo, c: BlockInfo)
    ensures FreeSum(cpb, [a, b, c]) == FreeIn(cpb, a) + FreeIn(cpb, b) + FreeIn(cpb, c)
    ensures forall st :: CountOf([a, b, c], st) ==
                           (if a.st == st then 1 else 0) + (if b.st == st then 1 else 0) + (if c.st == st then 1 else 0)
  {
    SumNext(cpb, [], a);
    SumNext(cpb, [a], b);
    SumNext(cpb, [a, b], c);
    assert [] + [a] == [a] && [a] + [b] == [a, b] && [a, b] + [c] == [a, b, c];
  }

  lemma SumNext(cpb: nat, bs: Blocks, b: BlockInfo)
    ensures FreeSum(cpb, bs + [b]) == FreeSum(cpb, bs) + FreeIn(cpb, b)
    ensures forall st :: CountOf(bs + [b], st) == CountOf(bs, st) + if b.st == st then 1 else 0
  {
    assert (bs + [b])[..|bs + [b]| - 1] == bs;
  }

  /** What the invariant comes to: pages are programmed once and in order between erasures,
    counters equal recounts, every mapped chunk is on a page in use that names it, and no
    two chunks share a page. */
  lemma InvMeans(g: Geo, d: Dev, b: nat)
    requires Inv(g, d, None, 0) && d.ck.Closed? && b < |d.blocks|
    ensures forall i, j :: 0 <= i < j < |Since(d.nand, b)| ==> Since(d.nand, b)[i] < Since(d.nand, b)[j]
    ensures d.nFree == FreeSum(g.cpb, d.blocks) && d.nErased == CountOf(d.blocks, Empty)
    ensures d.blocks[b].used == |d.blocks[b].bits|
    ensures d.blocks[b].st.Allocating? ==> d.allocBlock == b
    ensures forall k :: k in d.tree ==>
              InUse(d.blocks, d.tree[k]) && Read(d.nand, d.tree[k]).Chunk? && Read(d.nand, d.tree[k]).key == k
    ensures forall k, l :: k in d.tree && l in d.tree && d.tree[k] == d.tree[l] ==> k == l
  {
    assert BlockOk(g, b, d.blocks[b]);
    ProgramOrder(d.nand, b);
    Recount(g, d);
  }

  lemma OpenInv(g: Geo, d: Dev, e: Dev)
    requires Inv(g, d, None, 0) && d.ck.Closed? && d.inCkpt == 0 && e == d.(ck := Open(-1, 0, g.start))
    ensures Inv(g, e, None, 0) && e.(ck := Closed) == d
  {}

  lemma NoCkBlock(g: Geo, d: Dev, e: Dev)
    requires Inv(g, d, None, 0) && d.ck.Open? && e == d.(ck := Open(-1, 0, -1))
    ensures Inv(g, e, None, 0)
  {}

  lemma CkCurrent(g: Geo, d: Dev)
    requires Inv(g, d, None, 0)
    ensures d.ck.Open? && d.ck.cur >= 0 ==> d.ck.cur < |d.blocks| && d.ck.chunk > 0
  {}

  lemma CountersCkpt(g: Geo, d: Dev, e: Dev, i: nat, info: BlockInfo)
    requires CountersOk(g, d, 0) && d.ck.Open? && e.ck.Open? && i < |d.blocks| && d.blocks[i].st.Empty?
    requires d.blocks[i].used == 0
    requires e.blocks == d.blocks[i := info] && info.st.Checkpoint? && e.nFree == d.nFree && e.nErased == d.nErased
    requires e.inCkpt == d.inCkpt + 1
    ensures CountersOk(g, e, 0)
  {
    SumPut(g.cpb, d.blocks, i, info);
    ChunksNext(g.cpb, d.inCkpt);
  }

  /** One checkpoint page written, into a block just taken or into the current one. */
  lemma FlushInv(g: Geo, d: Dev, e: Dev, cur: nat, chunk: nat)
    requires Inv(g, d, None, 0) && d.ck.Open? && cur < |d.blocks|
    requires if chunk == 0 then d.ck.cur < 0 && d.blocks[cur].st.Empty? else d.ck.cur == cur && d.ck.chunk == chunk
    requires var bs := if chunk == 0 then d.blocks[cur := d.blocks[cur].(st := Checkpoint)] else d.blocks;
             e == d.(blocks := bs, inCkpt := if chunk == 0 then d.inCkpt + 1
                     else d.inCkpt, nand := Programmed(d.nand, Addr(cur, chunk), Checkpt), ck := e.ck)
    requires e.ck.Open? && e.ck == if chunk + 1 >= g.cpb then Open(-1, 0, e.ck.next)
                                   else Open(cur, chunk + 1, e.ck.next)
    ensures Inv(g, e, None, 0) && Quiet(g, d, e.(ck := d.ck), -1)
  {
    hide CountersOk, Linked, Quiet, SameContent, Kept;
    assert BlockOk(g, cur, d.blocks[cur]);
    LinkedProgram(g, d.blocks, d.nand, d.tree, Addr(cur, chunk), Checkpt, None);
    ContentProgrammed(g, d, e, Addr(cur, chunk), Checkpt, None, 0);
    SameTree(d, e, e.(ck := d.ck));
    var m := d.(nand := e.nand);
    if chunk == 0 {
      CountersCkpt(g, d, e, cur, e.blocks[cur]);
      LinkedPut(g, m, cur, e.blocks[cur], None);
    } else {
      CountersKept(g, d, e);
      assert e.blocks == d.blocks[cur := d.blocks[cur]];
    }
    QuietPut(g, d, e.(ck := d.ck), cur, e.blocks[cur]);
  }

  lemma SameTree(d: Dev, e: Dev, f: Dev)
    requires SameContent(d, e) && f.tree == e.tree && f.nand == e.nand
    ensures SameContent(d, f)
  {}

  lemma CountersKept(g: Geo, d: Dev, e: Dev)
    requires CountersOk(g, d, 0) && d.ck.Open? && e == d.(nand := e.nand, ck := e.ck) && e.ck.Open?
    ensures CountersOk(g, e, 0)
  {}

  lemma CloseInv(g: Geo, d0: Dev, d: Dev, e: Dev)
    requires Inv(g, d, None, 0) && d.ck.Open? && Quiet(g, d0, d.(ck := d0.ck), -1)
    requires e == d.(nFree := d.nFree - Chunks(g.cpb, d.inCkpt), nErased := d.nErased - d.inCkpt, ck := Closed)
    ensures Inv(g, e, None, 0) && Quiet(g, d0.(ck := Closed), e, -1)
  {
    ChunksNext(g.cpb, 0);
  }

  lemma QuietReck(g: Geo, d: Dev, e: Dev)
    requires Quiet(g, d, e.(ck := d.ck), -1)
    ensures Quiet(g, d.(ck := Closed), e.(ck := Closed), -1)
  {}

  lemma QuietEnds(g: Geo, d: Dev, e: Dev)
    requires Quiet(g, d, e, -1)
    ensures SameContent(d, e) && (OldestOk(g, d) ==> OldestOk(g, e))
  {}

  lemma UnopenedSame(d: Dev, e: Dev)
    requires e.ck.Closed?
    ensures e.(ck := Closed) == e
  {}

  lemma Recount(g: Geo, d: Dev)
    requires Inv(g, d, None, 0) && d.ck.Closed?
    ensures d.nFree == FreeSum(g.cpb, d.blocks) && d.nErased == CountOf(d.blocks, Empty)
    ensures d.inCkpt == CountOf(d.blocks, Checkpoint)
  {
    ChunksNext(g.cpb, 0);
  }

  lemma CopiedStart(g: Geo, d: Dev, e: Dev, b: nat, sizes: map<nat, nat>)
    requires b < |d.blocks| && e == d.(blocks := d.blocks[b := d.blocks[b].(st := Collecting, shrink := false)])
    ensures Copied(g, d, e, sizes)
  {}

  lemma RestSame(g: Geo, d: Dev, e: Dev)
    requires Rest(g, d) && e.allocBlock == d.allocBlock && e.allocPage == d.allocPage
    ensures Rest(g, e)
  {}

  lemma NoGc(g: Geo, d: Dev, e: Dev)
    requires Inv(g, d, None, 0) && e == d.(gcBlock := 0, gcChunk := 0)
    ensures Inv(g, e, None, 0) && (Rest(g, d) ==> Rest(g, e))
  {}

  lemma CopiedJoin(g: Geo, d: Dev, e: Dev, f: Dev, sizes: map<nat, nat>)
    requires Copied(g, d, e, sizes) && Copied(g, e, f.(gcChunk := e.gcChunk), sizes)
    ensures Copied(g, d, f.(gcChunk := d.gcChunk), sizes) && f.ck == d.ck
    ensures f.oldSeq == 0 || (e.oldSeq != 0 && f.oldSeq <= e.oldSeq)
  {
    CopiedTrans(g, d, e, f.(gcChunk := e.gcChunk), sizes);
  }

  lemma CopiedEnd(g: Geo, d: Dev, e: Dev, f: Dev, sizes: map<nat, nat>)
    requires Copied(g, d, e, sizes) && f == e.(gcBlock := f.gcBlock, gcChunk := f.gcChunk)
    ensures Preserved(d, f, sizes) && f.ck == d.ck && (OldestOk(g, d) ==> OldestOk(g, f)) && NoNewShrink(d, f)
  {}

  /** The block goes back to full with fewer pages in use. */
  lemma CopiedFull(g: Geo, d: Dev, e: Dev, f: Dev, h: Dev, b: nat, ok: bool, sizes: map<nat, nat>)
    requires Copied(g, d, f.(gcChunk := d.gcChunk), sizes) && Collected(e, f, b) && f.blocks[b].st.Collecting?
    requires b < |d.blocks| == |e.blocks| && d.blocks[b].st.Full?
    requires h == f.(blocks := f.blocks[b := f.blocks[b].(st := Full)])
    requires e.oldSeq == 0 || (d.oldSeq != 0 && e.oldSeq <= d.oldSeq)
    requires f.oldSeq == 0 || (e.oldSeq != 0 && f.oldSeq <= e.oldSeq)
    requires e.blocks[b].seqNo == d.blocks[b].seqNo
    requires f.blocks[b].bits == e.blocks[b].bits ==>
               e.blocks[b].used == d.blocks[b].used || !(ok || NoSummary(g, d.blocks[b]))
    ensures Preserved(d, h, sizes) && h.ck == d.ck && NoNewShrink(d, h)
    ensures OldestOk(g, d) && (ok || NoSummary(g, d.blocks[b]) || Timely(d, b)) ==> OldestOk(g, h)
  {
    assert OldestOk(g, f) == OldestOk(g, f.(gcChunk := d.gcChunk));
    if OldestOk(g, d) && (ok || NoSummary(g, d.blocks[b]) || Timely(d, b)) {
      assert NotOlder(g, d.blocks[b], d.oldSeq) || d.oldSeq == 0;
      forall i | 0 <= i < |h.blocks| && h.oldSeq != 0 ensures NotOlder(g, h.blocks[i], h.oldSeq) {
        if i != b { assert NotOlder(g, f.blocks[i], f.oldSeq); }
      }
    }
  }

  /** The oldest dirty number, if one is tracked, is not above that of block `b`. */
  ghost predicate Timely(d: Dev, b: nat)
    requires b < |d.blocks|
  {
    d.oldSeq == 0 || d.oldSeq <= d.blocks[b].seqNo
  }

  /** The block has data in use, and a summary whose pages its collection gives up. */
  ghost predicate LosesSummary(g: Geo, b: BlockInfo) {
    !NoSummary(g, b) && exists p :: p in b.bits && p < g.cps
  }

  /** The block under collection has a page in use that the collection has passed. */
  ghost predicate LeftBehind(d: Dev)
    requires d.gcBlock < |d.blocks|
  {
    exists p :: p in d.blocks[d.gcBlock].bits && p < d.gcChunk
  }

  /** The block under collection has been gone through, and still has pages in use. */
  ghost predicate Stalled(g: Geo, d: Dev) {
    0 < d.gcBlock < |d.blocks| && d.gcChunk >= g.cpb && d.blocks[d.gcBlock].bits != {}
  }

  /** The block under collection is no longer protected by its shrink flag. */
  ghost function Unflagged(d: Dev): Dev
    requires d.gcBlock < |d.blocks|
  {
    d.(blocks := d.blocks[d.gcBlock := d.blocks[d.gcBlock].(shrink := false)])
  }

  /** Block `b` has begun to be collected. */
  ghost predicate Begun(g: Geo, d: Dev, e: Dev, b: nat)
    requires b < |d.blocks|
  {
    && |e.blocks| == |d.blocks| && e.blocks == d.blocks[b := e.blocks[b]]
    && e == d.(blocks := e.blocks, nFree := e.nFree)
    && var was, now := d.blocks[b], e.blocks[b];
       && now == was.(st := Collecting, shrink := false, bits := now.bits, used := now.used)
       && now.bits <= was.bits && NoSummary(g, now) && (forall p :: p in was.bits && p < g.cps ==> p in now.bits)
       && (NoSummary(g, was) ==> now.used == was.used && now.bits == was.bits && e.nFree == d.nFree)
  }

  lemma SummaryThere(g: Geo, b: BlockInfo)
    ensures LosesSummary(g, b) ==> b.summary
  {}

  lemma NothingLeft(g: Geo, d: Dev, e: Dev, h: Dev, b: nat)
    requires Inv(g, d, None, 0) && b == d.gcBlock > 0 && b < |d.blocks| && Begun(g, d, e, b) && e.blocks[b].bits == {}
    requires h.gcBlock == 0
    ensures !LeftBehind(d) && !Stalled(g, d) && !Stalled(g, h) && !LosesSummary(g, d.blocks[b])
  {
    if d.gcChunk > 0 { assert NoSummary(g, d.blocks[b]); }
  }

  /** What a pass that copied has come to: `d` before it, `e` when it had begun, `f` when the
    copying was over, `h` at its end. */
  lemma PassEnds(g: Geo, d: Dev, e: Dev, f: Dev, h: Dev, b: nat)
    requires Inv(g, d, None, 0) && Inv(g, h, None, 0) && b == d.gcBlock > 0 && b < |d.blocks| && Begun(g, d, e, b)
    requires Collected(e, f, b) && f.gcChunk >= d.gcChunk && |h.blocks| == |f.blocks| && d.blocks[b].st.Full?
    requires forall p :: p in e.blocks[b].bits && p < d.gcChunk ==> p in f.blocks[b].bits
    requires if f.blocks[b].st.Collecting? then h == f.(blocks := f.blocks[b := f.blocks[b].(st := Full)])
             else h.blocks == f.blocks && h.gcBlock == 0 && h.gcChunk == 0
    ensures f.blocks[b].st.Collecting? ==> h.blocks[b].st.Full? && h.gcBlock == b && NoSummary(g, h.blocks[b])
    ensures LeftBehind(d) ==> f.blocks[b].st.Collecting? && LeftBehind(h)
    ensures f.blocks[b].st.Collecting? && (forall p :: p in f.blocks[b].bits ==> p < d.gcChunk) ==> LeftBehind(d)
    ensures f.blocks[b].st.Collecting? && f.gcChunk >= g.cpb ==> Stalled(g, h)
    ensures !f.blocks[b].st.Collecting? ==> !Stalled(g, h)
    ensures Stalled(g, d) && f == e ==> h == Unflagged(d)
    ensures Stalled(g, d) ==> d.gcChunk >= g.cpb
    ensures LosesSummary(g, d.blocks[b]) && e.blocks == f.blocks && h.oldSeq == d.oldSeq && !Timely(d, b) ==>
              !OldestOk(g, h)
  {
    if d.gcChunk > 0 { assert NoSummary(g, d.blocks[b]); }
    if Stalled(g, d) && f == e {
      assert h.blocks[b] == d.blocks[b].(shrink := false);
      assert h.blocks == d.blocks[b := h.blocks[b]];
    }
    if f.blocks[b].st.Collecting? && forall p :: p in f.blocks[b].bits ==> p < d.gcChunk {
      var p :| p in f.blocks[b].bits;
      assert p in d.blocks[b].bits;
    }
    if LeftBehind(d) {
      var p :| p in d.blocks[b].bits && p < d.gcChunk;
      assert p in e.blocks[b].bits && p in f.blocks[b].bits;
    }
    if LosesSummary(g, d.blocks[b]) && e.blocks == f.blocks {
      assert e.blocks[b].bits != d.blocks[b].bits;
      if h.oldSeq == d.oldSeq { Outdated(g, d, h, b); }
    }
  }

  /** A full block that has lost a page and is older than the number being tracked. */
  lemma Outdated(g: Geo, d: Dev, e: Dev, b: nat)
    requires Inv(g, d, None, 0) && Inv(g, e, None, 0) && b < |d.blocks| == |e.blocks|
    requires e.oldSeq == d.oldSeq && e.blocks[b].st.Full? && e.blocks[b].seqNo == d.blocks[b].seqNo
    requires e.blocks[b].bits < d.blocks[b].bits
    ensures !Timely(d, b) ==> !OldestOk(g, e)
  {
    assert BlockOk(g, b, d.blocks[b]) && BlockOk(g, b, e.blocks[b]);
    FewerPages(g.cpb, d.blocks[b].bits, e.blocks[b].bits);
    assert OldestOk(g, e) && e.oldSeq != 0 ==> NotOlder(g, e.blocks[b], e.oldSeq);
  }

  lemma FewerPages(cpb: nat, all: set<nat>, some: set<nat>)
    requires some < all && forall p :: p in all ==> p < cpb
    ensures |some| < cpb
  {
    var p :| p in all && p !in some;
    PagesAtMost(cpb, some + {p});
    assert |some + {p}| == |some| + 1;
  }

  lemma {:induction false} PagesAtMost(cpb: nat, pages: set<nat>)
    requires forall p :: p in pages ==> p < cpb
    ensures |pages| <= cpb
    decreases cpb
  {
    if cpb > 0 {
      PagesAtMost(cpb - 1, pages - {cpb - 1});
      assert pages <= pages - {cpb - 1} + {cpb - 1};
      assert |pages| <= |pages - {cpb - 1}| + 1;
    } else {
      assert pages == {};
    }
  }

  /** A full block with discarded pages. */
  predicate IsDirty(g: Geo, b: BlockInfo) { b.st.Full? && b.used < g.cpb }

  ghost predicate SomeDirty(g: Geo, d: Dev) { exists i :: 0 <= i < |d.blocks| && IsDirty(g, d.blocks[i]) }

  /** No full block with discarded pages is older than sequence number `seqNo`. */
  ghost predicate NoneOlder(g: Geo, d: Dev, seqNo: nat) {
    forall i :: 0 <= i < |d.blocks| && IsDirty(g, d.blocks[i]) ==> d.blocks[i].seqNo >= seqNo
  }

  /** Block `b` may be collected as far as shrink headers go: it holds none, or no full block with
    discarded pages is older. */
  ghost predicate Passes(g: Geo, d: Dev, b: nat) {
    b < |d.blocks| && (d.blocks[b].shrink && d.blocks[b].seqNo > 0 ==> NoneOlder(g, d, d.blocks[b].seqNo))
  }

  lemma PassesOn(g: Geo, d: Dev, e: Dev, b: nat)
    requires Looked(g, d, e)
    ensures Passes(g, d, b) <==> Passes(g, e, b)
  {
    hide OldestOk;
  }

  /** The oldest full block passes. */
  lemma OldestPasses(g: Geo, d: Dev, b: nat)
    requires b < |d.blocks| && (b > 0 ==> forall i :: 0 <= i < |d.blocks| && d.blocks[i].st.Full? ==>
               d.blocks[b].seqNo <= d.blocks[i].seqNo)
    ensures b > 0 ==> Passes(g, d, b)
  {}

  lemma LookedOld(g: Geo, d: Dev, e: Dev)
    requires Looked(g, d, e)
    ensures OldestOk(g, d) ==> OldestOk(g, e)
  {}

  /** A block has been chosen that passes the test, or it is the candidate kept from an earlier call,
    or the oldest dirty block by a number that is out of date. */
  ghost predicate Allowed(g: Geo, d: Dev, e: Dev, oldBlock: nat, kept: nat, b: nat)
  {
    OldestOk(g, d) ==>
      Passes(g, e, b) || b == kept || (b == oldBlock && b < |e.blocks| && e.blocks[b].seqNo != e.oldSeq)
  }

  /** The oldest dirty block passes. */
  lemma OldestAllowed(g: Geo, d: Dev, e: Dev, oldBlock: nat, kept: nat)
    requires Looked(g, d, e) && oldBlock < |e.blocks|
    ensures Allowed(g, d, e, oldBlock, kept, oldBlock)
  {
    if OldestOk(g, d) && e.blocks[oldBlock].seqNo == e.oldSeq && e.oldSeq > 0 {
      forall i | 0 <= i < |e.blocks| && IsDirty(g, e.blocks[i]) ensures e.blocks[i].seqNo >= e.oldSeq {
        assert NotOlder(g, e.blocks[i], e.oldSeq);
      }
    }
  }

  lemma AllowedBefore(g: Geo, d: Dev, d1: Dev, e: Dev, oldBlock: nat, kept: nat, kept1: nat, b: nat)
    requires Looked(g, d, d1) && Allowed(g, d1, e, oldBlock, kept1, b) && (kept1 == kept || kept1 == 0) && b > 0
    ensures Allowed(g, d, e, oldBlock, kept, b)
  {}

  /** The choice written down. */
  lemma AllowedPick(g: Geo, d: Dev, e: Dev, f: Dev, oldBlock: nat, kept: nat, b: nat)
    requires Allowed(g, d, e, oldBlock, kept, b) && f == e.(gcBlock := f.gcBlock, gcChunk := f.gcChunk)
    ensures Allowed(g, d, f, oldBlock, kept, b)
  {}

  /** Nothing to track: no full block has a discarded page, or one with the lowest number has. */
  ghost predicate Untracked(g: Geo, d: Dev) { d.oldSeq == 0 && (!SomeDirty(g, d) || !NoneOlder(g, d, 1)) }

  /** Block `i` has been tested and failed. */
  predicate Fails(bs: Blocks, i: nat, oldSeq: nat)
    requires i < |bs|
  {
    bs[i].shrink && oldSeq < bs[i].seqNo
  }

  /** Some block of this range is marked for early collection. */
  predicate Waiting(bs: Blocks, a: nat, b: nat)
    requires b <= |bs|
  {
    exists i :: a <= i < b && bs[i].prioritise
  }

  lemma NoneWaiting(bs: Blocks, a: nat)
    requires a <= |bs|
    ensures !Waiting(bs, a, a)
  {}

  lemma WaitingMore(bs: Blocks, a: nat, b: nat)
    requires a <= b < |bs|
    ensures Waiting(bs, a, b + 1) <==> Waiting(bs, a, b) || bs[b].prioritise
  {}

  lemma WaitingStill(bs: Blocks, a: nat, b: nat)
    requires b <= |bs| && Waiting(bs, a, b)
    ensures Waiting(bs, a, |bs|)
  {}

  /** A full block marked for early collection. */
  predicate Urgent(b: BlockInfo) { b.st.Full? && b.prioritise }

  /** The blocks that may be collected next without having a discarded page: the one under
    collection, or else those marked for early collection and, if blocks are refreshed, all. */
  ghost predicate MayBeChosen(d: Dev, i: nat, refresh: bool)
    requires i < |d.blocks|
  {
    d.blocks[i].st.Full? && if d.gcBlock > 0 then i == d.gcBlock else refresh || d.blocks[i].prioritise
  }

  /** No summary will be dropped from a block older than the oldest dirty number: each block that
    may be chosen has a discarded page, has no summary, or is not older than the number tracked or,
    if none is, than the number a search would arrive at. */
  ghost predicate Tame(g: Geo, d: Dev, refresh: bool) {
    forall i :: 0 <= i < |d.blocks| && MayBeChosen(d, i, refresh) ==>
      || IsDirty(g, d.blocks[i]) || NoSummary(g, d.blocks[i])
      || (if d.oldSeq != 0 || d.gcBlock > 0 then Timely(d, i)
          else !d.blocks[i].prioritise || !SomeDirty(g, d) || !NoneOlder(g, d, d.blocks[i].seqNo + 1))
  }

  /** Without summaries every device is tame. */
  lemma TameWithoutSummaries(g: Geo, d: Dev, refresh: bool)
    requires Inv(g, d, None, 0) && g.cps == 0
    ensures Tame(g, d, refresh)
  {
    forall i | 0 <= i < |d.blocks| ensures NoSummary(g, d.blocks[i]) { assert BlockOk(g, i, d.blocks[i]); }
  }

  /** The search for a block changes nothing but the number tracked, which is found if it was not
    known and there is one. */
  ghost predicate Looked(g: Geo, d: Dev, e: Dev) {
    && e == d.(gcBlock := e.gcBlock, gcChunk := e.gcChunk, oldSeq := e.oldSeq) && (OldestOk(g, d) ==> OldestOk(g, e))
    && (e.oldSeq == d.oldSeq || (d.oldSeq == 0 && SomeDirty(g, d)))
  }

  lemma Tracks(g: Geo, d: Dev, e: Dev)
    requires Looked(g, d, e) && d.oldSeq == 0 && OldestOk(g, e)
    requires e.oldSeq == 0 ==> !SomeDirty(g, e) || !NoneOlder(g, e, 1)
    ensures e.oldSeq == 0 ==> Untracked(g, e)
    ensures e.oldSeq != 0 ==> !Untracked(g, d)
  {
    if e.oldSeq != 0 {
      forall i | 0 <= i < |e.blocks| && IsDirty(g, e.blocks[i]) ensures e.blocks[i].seqNo >= 1 {
        assert NotOlder(g, e.blocks[i], e.oldSeq);
      }
    }
  }

  lemma LookedSelf(g: Geo, d: Dev)
    ensures Looked(g, d, d)
  {}

  lemma LookedTrans(g: Geo, d: Dev, e: Dev, f: Dev)
    requires Looked(g, d, e) && Looked(g, e, f)
    ensures Looked(g, d, f)
  {
    hide OldestOk;
  }

  lemma LookedPick(g: Geo, d: Dev, e: Dev, f: Dev)
    requires Looked(g, d, e) && f == e.(gcBlock := f.gcBlock, gcChunk := f.gcChunk)
    ensures Looked(g, d, f)
  {
    OldestPick(g, e, f);
    hide OldestOk;
  }

  lemma OldestPick(g: Geo, e: Dev, f: Dev)
    requires f == e.(gcBlock := f.gcBlock, gcChunk := f.gcChunk)
    ensures OldestOk(g, e) <==> OldestOk(g, f)
  {}

  /** What comparing with the oldest dirty number decides. */
  lemma OldestMeans(g: Geo, d: Dev, e: Dev, at: nat, seqNo: nat)
    requires Looked(g, d, e) && seqNo > 0
    requires d.oldSeq == 0 && e.oldSeq != 0 ==>
               at < |e.blocks| && IsDirty(g, e.blocks[at]) && e.blocks[at].seqNo == e.oldSeq
    requires d.oldSeq == 0 ==> OldestOk(g, e)
    requires d.oldSeq == 0 && e.oldSeq == 0 ==> !SomeDirty(g, e) || !NoneOlder(g, e, 1)
    ensures d.oldSeq == 0 ==> (seqNo <= e.oldSeq <==> SomeDirty(g, e) && NoneOlder(g, e, seqNo))
    ensures OldestOk(g, e) && seqNo <= e.oldSeq ==> NoneOlder(g, e, seqNo)
  {
    assert forall i :: 0 <= i < |e.blocks| ==> (OldestOk(g, e) && e.oldSeq != 0 ==> NotOlder(g, e.blocks[i], e.oldSeq));
    if d.oldSeq == 0 && e.oldSeq == 0 && SomeDirty(g, e) {
      var j :| 0 <= j < |e.blocks| && IsDirty(g, e.blocks[j]) && e.blocks[j].seqNo < 1;
      assert !NoneOlder(g, e, seqNo);
    }
  }

  lemma Chosen(g: Geo, d: Dev, e: Dev, refresh: bool, first: bool, sizes: map<nat, nat>)
    requires Looked(g, d, e) && (d.gcBlock > 0 ==> e == d)
    requires e.gcBlock > 0 ==> e.gcBlock < |e.blocks| && e.blocks[e.gcBlock].st.Full?
    requires d.gcBlock == 0 && e.gcBlock > 0 ==>
               IsDirty(g, e.blocks[e.gcBlock]) || e.blocks[e.gcBlock].prioritise || (refresh && e.oldSeq == d.oldSeq)
    requires !first ==> 0 < d.gcBlock < |d.blocks| && NoSummary(g, d.blocks[d.gcBlock])
    ensures Preserved(d, e, sizes) && (Rest(g, d) ==> Rest(g, e)) && Between(e)
    ensures first && OldestOk(g, e) && Tame(g, d, refresh) && e.gcBlock > 0 ==>
              NoSummary(g, e.blocks[e.gcBlock]) || Timely(e, e.gcBlock)
    ensures !first ==> e == d
  {
    if first && OldestOk(g, e) && Tame(g, d, refresh) && e.gcBlock > 0 && !NoSummary(g, e.blocks[e.gcBlock]) &&
    e.oldSeq != 0 {
      var b := e.gcBlock;
      assert NotOlder(g, e.blocks[b], e.oldSeq);
      if !IsDirty(g, e.blocks[b]) {
        assert MayBeChosen(d, b, refresh);
        if d.oldSeq == 0 && d.gcBlock == 0 {
          var j :| 0 <= j < |d.blocks| && IsDirty(g, d.blocks[j]) && d.blocks[j].seqNo < d.blocks[b].seqNo + 1;
          assert NotOlder(g, e.blocks[j], e.oldSeq);
        }
      }
    }
  }

  lemma StallStays(g: Geo, d: Dev, e: Dev)
    requires d.gcBlock < |d.blocks|
    ensures Stalled(g, d) && (e == d || e == Unflagged(d)) ==>
              e.gcBlock > 0 && Stalled(g, e) && Unflagged(e) == Unflagged(d)
  {
    var b := d.blocks[d.gcBlock].(shrink := false);
    assert d.blocks[d.gcBlock := b][d.gcBlock := b] == d.blocks[d.gcBlock := b];
  }

  lemma DropQuiet(g: Geo, d: Dev, i: nat, ok: bool, x: Option<Addr>, slack: int)
    requires Inv(g, d, x, slack) && i < |d.blocks| && d.blocks[i].st.Checkpoint? && d.inCkpt > 0
    ensures Quiet(g, d, DropCkpt(g, d, i, ok), -1)
  {
    hide Quiet, Kept;
    var e := DropCkpt(g, d, i, ok);
    if ok { ContentWiped(g, d, e, x, slack, i); }
    QuietPut(g, d, e, i, e.blocks[i]);
  }
}
