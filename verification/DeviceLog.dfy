/** The block table of the device and the log of the files, side by side: what the device counts
  decides what the log needs. */
module DeviceLog {
  import opened ScanLog
  import opened FileLog
  import opened BlockLog
  import opened GcRule
  import RunLog
  import Nand
  import DevState
  import Device

  /** The device holds the blocks of the log: same sequence numbers and flags, every block but the
    one being written full, and a page with a chunk or header in use exactly if it is live. */
  ghost predicate Depicts(cpb: Pos, d: DevState.Dev, blocks: seq<Block>, open: bool, hasShrink: set<nat>, files: Files)
  {
    forall i :: 0 <= i < |blocks| ==>
      && blocks[i].no < |d.blocks| && Shows(cpb, d.blocks[blocks[i].no], blocks[i], hasShrink, files)
      && (Closed(blocks, open, i) ==> d.blocks[blocks[i].no].st.Full?)
  }

  ghost predicate Shows(cpb: Pos, info: DevState.BlockInfo, b: Block, hasShrink: set<nat>, files: Files)
  {
    && info.seqNo == b.seqNo && (info.shrink <==> b.no in hasShrink)
    && forall p :: 0 <= p < |b.pages| && b.pages[p].Used? ==>
         (p in info.bits <==> Live(files, Rec(b.no * cpb + p, b.pages[p].tag)))
  }

  lemma {:induction false} PageOf(cpb: Pos, no: nat, pages: seq<Page>, r: Rec)
    requires r in PageLog(cpb, no, pages)
    ensures exists p :: 0 <= p < |pages| && pages[p] == Used(r.tag) && r.addr == no * cpb + p
    decreases |pages|
  {
    var n := |pages| - 1;
    if !(pages[n].Used? && r == Rec(no * cpb + n, pages[n].tag)) {
      PageOf(cpb, no, pages[..n], r);
      var p :| 0 <= p < n && pages[..n][p] == Used(r.tag) && r.addr == no * cpb + p;
      assert pages[p] == pages[..n][p];
    }
  }

  /** A block all of whose pages are counted as in use has no discarded page. */
  lemma AllCounted(g: DevState.Geo, info: DevState.BlockInfo, cpb: Pos, b: Block, i: nat, hasShrink: set<nat>,
                   files: Files)
    requires DevState.BlockOk(g, i, info) && g.cpb == cpb && info.used >= g.cpb && |b.pages| <= cpb
    requires Shows(cpb, info, b, hasShrink, files)
    ensures AllLive(cpb, files, b)
  {
    forall r | r in PageLog(cpb, b.no, b.pages) ensures Live(files, r) {
      PageOf(cpb, b.no, b.pages, r);
      var p :| 0 <= p < |b.pages| && b.pages[p] == Used(r.tag) && r.addr == b.no * cpb + p;
      if p !in info.bits {
        Device.FewerPages(g.cpb, info.bits + {p}, info.bits);
        assert false;
      }
    }
  }

  /** A block none of whose pages is counted as in use has no live page. */
  lemma NoneCounted(info: DevState.BlockInfo, cpb: Pos, b: Block, hasShrink: set<nat>, files: Files)
    requires Shows(cpb, info, b, hasShrink, files) && info.bits == {}
    ensures NoneLive(cpb, files, b)
  {
    forall r | r in PageLog(cpb, b.no, b.pages) ensures !Live(files, r) {
      PageOf(cpb, b.no, b.pages, r);
    }
  }

  /** So a block that has come to have nothing in use may be erased. */
  lemma EmptyMayGo(cs: Pos, cpb: Pos, d: DevState.Dev, blocks: seq<Block>, seqNumber: nat, open: bool,
                   hasShrink: set<nat>, files: Files, k: nat)
    requires BlocksOk(cpb, blocks, seqNumber) && k < |blocks| && Depicts(cpb, d, blocks, open, hasShrink, files)
    requires d.blocks[blocks[k].no].bits == {} && Harmless(cs, LogOf(cpb, blocks), AddrsOf(cpb, blocks[k].no))
    ensures SafeToErase(cs, LogOf(cpb, blocks), files, AddrsOf(cpb, blocks[k].no))
  {
    NoneCounted(d.blocks[blocks[k].no], cpb, blocks[k], hasShrink, files);
    EmptiedBlockIsSafe(cs, cpb, blocks, seqNumber, files, k);
  }

  /** What the device accepts, the log allows: if no full block with discarded pages is older than
    a block with a shrink header, every page of every older block is live. */
  lemma AcceptedIsClean(g: DevState.Geo, d: DevState.Dev, cpb: Pos, blocks: seq<Block>, seqNumber: nat, open: bool,
                        hasShrink: set<nat>, files: Files, k: nat)
    requires DevState.Inv(g, d, DevState.None, 0) && g.cpb == cpb && BlocksOk(cpb, blocks, seqNumber) && k < |blocks|
    requires Depicts(cpb, d, blocks, open, hasShrink, files)
    requires d.blocks[blocks[k].no].shrink ==> Device.NoneOlder(g, d, blocks[k].seqNo)
    ensures blocks[k].no !in hasShrink || forall i :: 0 <= i < k ==> AllLive(cpb, files, blocks[i])
  {
    hide AllLive;
    if blocks[k].no in hasShrink {
      forall i | 0 <= i < k ensures AllLive(cpb, files, blocks[i]) {
        var info := d.blocks[blocks[i].no];
        assert Closed(blocks, open, i) && info.st.Full? && info.seqNo < blocks[k].seqNo;
        assert !Device.IsDirty(g, info);
        assert DevState.BlockOk(g, blocks[i].no, info);
        AllCounted(g, info, cpb, blocks[i], blocks[i].no, hasShrink, files);
      }
    }
  }

  /** The test on the device, at any moment of a call: a block it accepts may be erased once it is
    empty, whatever is written or discarded until then. */
  method Accepts(dev: Device.Device, cs: Pos, ghost cpb: Pos, ghost blocks: seq<Block>, ghost seqNumber: nat,
                 ghost open: bool,
                 ghost hasShrink: set<nat>, ghost files: Files, ghost synced: set<nat>, ghost b: RunLog.Busy,
                 ghost k: nat,
                 no: nat) returns (ok: bool)
    requires DevState.Inv(dev.g, dev.D(), DevState.None, 0) && DevState.OldestOk(dev.g, dev.D()) && dev.g.cpb == cpb
    requires BlocksOk(cpb, blocks, seqNumber) && k < |blocks| && no == blocks[k].no
    requires Depicts(cpb, dev.D(), blocks, open, hasShrink, files) && no < |dev.blocks|
    requires RunLog.Inv(cs, LogOf(cpb, blocks), files, synced, b)
    requires no !in hasShrink ==> !HasShrinkHdr(cpb, blocks[k])
    modifies dev`oldSeq, dev`oldBlock
    ensures ok ==> Harmless(cs, LogOf(cpb, blocks), AddrsOf(cpb, no))
  {
    hide RunLog.Inv, DevState.Inv, LogOf, Harmless, BlocksOk, HasShrinkHdr, AllLive;
    ghost var d := dev.D();
    SeqAbove(cpb, blocks, seqNumber, k);
    ok := dev.BlockOkForGc(no);
    if ok {
      SameDepicted(cpb, d, dev.D(), blocks, open, hasShrink, files);
      AcceptedIsClean(dev.g, dev.D(), cpb, blocks, seqNumber, open, hasShrink, files, k);
      if no in hasShrink {
        CleanOlderHarmless(cs, cpb, blocks, seqNumber, files, synced, b, k);
      } else {
        PlainBlockHarmless(cs, cpb, blocks, seqNumber, k);
      }
    }
  }

  lemma SeqAbove(cpb: Pos, blocks: seq<Block>, seqNumber: nat, k: nat)
    requires BlocksOk(cpb, blocks, seqNumber) && k < |blocks|
    ensures blocks[k].seqNo > 0
  {}

  lemma SameDepicted(cpb: Pos, d: DevState.Dev, e: DevState.Dev, blocks: seq<Block>, open: bool, hasShrink: set<nat>,
                     files: Files)
    requires Depicts(cpb, d, blocks, open, hasShrink, files) && e.blocks == d.blocks
    ensures Depicts(cpb, e, blocks, open, hasShrink, files)
  {}
}
