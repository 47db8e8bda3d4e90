/** The rule by which a block with a shrink header may be collected, and why it is still enough
  when the block is emptied later, piece by piece, while other writes discard older pages. */
module GcRule {
  import opened ScanLog
  import opened FileLog
  import opened RunLog
  import opened BlockLog

  /** Every page of the block that the scan would read is live. */
  predicate AllLive(cpb: Pos, files: Files, b: Block)
  {
    forall r :: r in PageLog(cpb, b.no, b.pages) ==> Live(files, r)
  }

  predicate NoneLive(cpb: Pos, files: Files, b: Block)
  {
    forall r :: r in PageLog(cpb, b.no, b.pages) ==> !Live(files, r)
  }

  predicate HasShrinkHdr(cpb: Pos, b: Block)
  {
    exists r :: r in PageLog(cpb, b.no, b.pages) && r.tag.Header? && r.tag.shrink
  }

  lemma {:induction false} LogPrefix(cpb: Pos, blocks: seq<Block>, m: nat)
    requires m <= |blocks|
    ensures LogOf(cpb, blocks[..m]) <= LogOf(cpb, blocks)
    decreases |blocks|
  {
    var n := |blocks| - 1;
    if m == |blocks| {
      assert blocks[..m] == blocks;
      return;
    }
    var front := blocks[..n];
    if m < n {
      assert front[..m] == blocks[..m];
      LogPrefix(cpb, front, m);
    } else {
      assert front == blocks[..m];
    }
  }

  /** A record of block `k` lies in the log of the blocks up to `k`. */
  lemma PositionOf(cpb: Pos, blocks: seq<Block>, seqNumber: nat, k: nat, j: nat)
    requires BlocksOk(cpb, blocks, seqNumber) && k < |blocks| && j < |LogOf(cpb, blocks)|
    requires LogOf(cpb, blocks)[j].addr in AddrsOf(cpb, blocks[k].no)
    ensures j < |LogOf(cpb, blocks[..k + 1])|
    decreases |blocks|
  {
    var n := |blocks| - 1;
    var front := blocks[..n];
    if k < n {
      var log := LogOf(cpb, blocks);
      var pl := PageLog(cpb, blocks[n].no, blocks[n].pages);
      assert BlocksOk(cpb, front, seqNumber);
      if j >= |LogOf(cpb, front)| {
        assert log[j] == pl[j - |LogOf(cpb, front)|];
        PageAddrs(cpb, blocks[n].no, blocks[n].pages, log[j]);
        AddrsDisjoint(cpb, blocks[n].no, blocks[k].no, log[j].addr);
        assert false;
      }
      assert log[j] == LogOf(cpb, front)[j];
      PositionOf(cpb, front, seqNumber, k, j);
      assert front[..k + 1] == blocks[..k + 1];
    } else {
      assert blocks[..k + 1] == blocks;
    }
  }

  // ---------- what the rule gives when it is tested ----------

  /** A record of the same object that stays behind. */
  predicate Older(q: Rec, h: Rec, erased: set<nat>) { q.addr !in erased && q.tag.obj == h.tag.obj }

  lemma {:induction false} HarmlessIs(cs: Pos, log: Log, erased: set<nat>)
    requires forall i, j :: 0 <= i < j < |log| && ShrinkGoes(log[j], erased) && Older(log[i], log[j], erased) ==>
                              Uncut(cs, log[i], log[j])
    ensures Harmless(cs, log, erased)
    decreases |log|
  {
    if log != [] {
      var n := |log| - 1;
      var rest := log[..n];
      assert forall i :: 0 <= i < n ==> rest[i] == log[i];
      HarmlessIs(cs, rest, erased);
    }
  }

  /** The test of yaffs_block_ok_for_gc: no block older than `k` holds a discarded page.  Then no
    shrink header of block `k` cuts off anything that stays, at whatever moment of a call. */
  lemma CleanOlderHarmless(cs: Pos, cpb: Pos, blocks: seq<Block>, seqNumber: nat, files: Files, synced: set<nat>,
                           b: Busy,
                           k: nat)
    requires BlocksOk(cpb, blocks, seqNumber) && k < |blocks| && Inv(cs, LogOf(cpb, blocks), files, synced, b)
    requires forall i :: 0 <= i < k ==> AllLive(cpb, files, blocks[i])
    ensures Harmless(cs, LogOf(cpb, blocks), AddrsOf(cpb, blocks[k].no))
  {
    hide Inv, LogOf, BlocksOk, Live;
    var log := LogOf(cpb, blocks);
    var erased := AddrsOf(cpb, blocks[k].no);
    forall i, j | 0 <= i < j < |log| && ShrinkGoes(log[j], erased) && Older(log[i], log[j], erased)
      ensures Uncut(cs, log[i], log[j])
    {
      OlderIsLive(cpb, blocks, seqNumber, files, k, i, j);
      LiveUncut(cs, log, files, synced, b, i, j);
    }
    HarmlessIs(cs, log, erased);
  }

  lemma OlderIsLive(cpb: Pos, blocks: seq<Block>, seqNumber: nat, files: Files, k: nat, i: nat, j: nat)
    requires BlocksOk(cpb, blocks, seqNumber) && k < |blocks|
    requires forall m :: 0 <= m < k ==> AllLive(cpb, files, blocks[m])
    requires i < j < |LogOf(cpb, blocks)| && LogOf(cpb, blocks)[j].addr in AddrsOf(cpb, blocks[k].no)
    requires LogOf(cpb, blocks)[i].addr !in AddrsOf(cpb, blocks[k].no)
    ensures Live(files, LogOf(cpb, blocks)[i])
  {
    hide Live, LogOf;
    var log := LogOf(cpb, blocks);
    PositionOf(cpb, blocks, seqNumber, k, j);
    LogPrefix(cpb, blocks, k + 1);
    var upTo := LogOf(cpb, blocks[..k + 1]);
    assert log[i] == upTo[i] && upTo[i] in upTo;
    assert BlocksOk(cpb, blocks[..k + 1], seqNumber);
    LogAddrs(cpb, blocks[..k + 1], seqNumber, log[i]);
    var m :| 0 <= m < k + 1 && log[i] in PageLog(cpb, blocks[..k + 1][m].no, blocks[..k + 1][m].pages);
    if m == k {
      PageAddrs(cpb, blocks[k].no, blocks[k].pages, log[i]);
    }
    assert AllLive(cpb, files, blocks[m]);
  }

  /** A block without shrink headers passes at any time. */
  lemma PlainBlockHarmless(cs: Pos, cpb: Pos, blocks: seq<Block>, seqNumber: nat, k: nat)
    requires BlocksOk(cpb, blocks, seqNumber) && k < |blocks| && !HasShrinkHdr(cpb, blocks[k])
    ensures Harmless(cs, LogOf(cpb, blocks), AddrsOf(cpb, blocks[k].no))
  {
    hide LogOf, BlocksOk;
    var log := LogOf(cpb, blocks);
    var erased := AddrsOf(cpb, blocks[k].no);
    forall j | 0 <= j < |log| && log[j].addr in erased ensures !ShrinkGoes(log[j], erased) {
      assert log[j] in log;
      InItsBlock(cpb, blocks, seqNumber, k, log[j]);
    }
    HarmlessIs(cs, log, erased);
  }

  /** Once its last live page is gone the block may be erased. */
  lemma EmptiedBlockIsSafe(cs: Pos, cpb: Pos, blocks: seq<Block>, seqNumber: nat, files: Files, k: nat)
    requires BlocksOk(cpb, blocks, seqNumber) && k < |blocks| && NoneLive(cpb, files, blocks[k])
    requires Harmless(cs, LogOf(cpb, blocks), AddrsOf(cpb, blocks[k].no))
    ensures SafeToErase(cs, LogOf(cpb, blocks), files, AddrsOf(cpb, blocks[k].no))
  {
    hide LogOf, BlocksOk, Harmless, Live;
    var log := LogOf(cpb, blocks);
    forall r | r in log && r.addr in AddrsOf(cpb, blocks[k].no) ensures !Live(files, r) {
      InItsBlock(cpb, blocks, seqNumber, k, r);
    }
  }

  lemma InItsBlock(cpb: Pos, blocks: seq<Block>, seqNumber: nat, k: nat, r: Rec)
    requires BlocksOk(cpb, blocks, seqNumber) && k < |blocks| && r in LogOf(cpb, blocks)
    requires r.addr in AddrsOf(cpb, blocks[k].no)
    ensures r in PageLog(cpb, blocks[k].no, blocks[k].pages)
  {
    LogAddrs(cpb, blocks, seqNumber, r);
    var m :| 0 <= m < |blocks| && r in PageLog(cpb, blocks[m].no, blocks[m].pages);
    PageAddrs(cpb, blocks[m].no, blocks[m].pages, r);
    AddrsDisjoint(cpb, blocks[m].no, blocks[k].no, r.addr);
    assert m == k;
  }

  // ---------- what the block table in RAM knows ----------

  /** Block `i` is not the one pages are being allocated from, which is the newest one if any. */
  predicate Closed(blocks: seq<Block>, open: bool, i: nat) {
    i < |blocks| - 1 || (i == |blocks| - 1 && !open)
  }

  ghost predicate ClosedNo(blocks: seq<Block>, open: bool, no: nat) {
    exists i :: 0 <= i < |blocks| && blocks[i].no == no && Closed(blocks, open, i)
  }

  predicate OpenOk(cpb: Pos, blocks: seq<Block>, open: bool) {
    open ==> blocks != [] && HasRoom(cpb, blocks[|blocks| - 1])
  }

  /** `hasShrink` is the set of block numbers flagged has_shrink_hdr and `dirtiest` the candidate
    kept in gc_dirtiest: erasing a block that is not flagged, or that is the candidate, removes
    no shrink header that is still needed. */
  ghost predicate RamOk(cs: Pos, cpb: Pos, blocks: seq<Block>, open: bool, hasShrink: set<nat>, dirtiest: Option<nat>)
  {
    && OpenOk(cpb, blocks, open)
    && (forall no: nat :: no !in hasShrink || dirtiest == Some(no) ==>
        Harmless(cs, LogOf(cpb, blocks), AddrsOf(cpb, no)))
    && (dirtiest.Some? ==> ClosedNo(blocks, open, dirtiest.value))
  }

  /** The flags after a page is programmed in block `no`. */
  function Flagged(hasShrink: set<nat>, no: nat, p: Page): set<nat> {
    if p.Used? && p.tag.Header? && p.tag.shrink then hasShrink + {no} else hasShrink
  }

  /** Opening a block. */
  lemma RamOpen(cs: Pos, cpb: Pos, blocks: seq<Block>, seqNumber: nat, no: nat, hasShrink: set<nat>,
                dirtiest: Option<nat>)
    requires RamOk(cs, cpb, blocks, false, hasShrink, dirtiest)
    requires LogOf(cpb, blocks + [Block(no, seqNumber, [])]) == LogOf(cpb, blocks)
    ensures RamOk(cs, cpb, blocks + [Block(no, seqNumber, [])], true, hasShrink, dirtiest)
  {
    hide LogOf, Harmless;
    var blocks' := blocks + [Block(no, seqNumber, [])];
    if dirtiest.Some? {
      var i :| 0 <= i < |blocks| && blocks[i].no == dirtiest.value && Closed(blocks, false, i);
      assert blocks'[i].no == dirtiest.value && Closed(blocks', true, i);
    }
  }

  /** Programming a page of the newest block, after which the block may be closed. */
  lemma RamProgram(cs: Pos, cpb: Pos, blocks: seq<Block>, seqNumber: nat, p: Page, open': bool,
                   hasShrink: set<nat>, dirtiest: Option<nat>)
    requires BlocksOk(cpb, blocks, seqNumber) && RamOk(cs, cpb, blocks, true, hasShrink, dirtiest)
    requires open' ==> p.Used? && |blocks[|blocks| - 1].pages| + 1 < cpb
    ensures RamOk(cs, cpb, WithPage(blocks, p), open', Flagged(hasShrink, blocks[|blocks| - 1].no, p), dirtiest)
  {
    hide LogOf, Harmless;
    var n := |blocks| - 1;
    var last, blocks', log := blocks[n], WithPage(blocks, p), LogOf(cpb, blocks);
    var hasShrink' := Flagged(hasShrink, last.no, p);
    AddPageLog(cpb, blocks, p);
    assert dirtiest != Some(last.no);
    if dirtiest.Some? {
      var i :| 0 <= i < |blocks| && blocks[i].no == dirtiest.value && Closed(blocks, true, i);
      assert blocks'[i].no == dirtiest.value && Closed(blocks', open', i);
    }
    forall no: nat | no !in hasShrink' || dirtiest == Some(no)
      ensures Harmless(cs, LogOf(cpb, blocks'), AddrsOf(cpb, no))
    {
      if p.Used? {
        var r := Rec(last.no * cpb + |last.pages|, p.tag);
        if r.addr in AddrsOf(cpb, no) {
          assert InBlock(cpb, last.no, r.addr);
          AddrsDisjoint(cpb, no, last.no, r.addr);
        }
        HarmlessAppend(cs, log, r, AddrsOf(cpb, no));
      } else {
        assert log + [] == log;
      }
    }
  }

  function DropNo(dirtiest: Option<nat>, no: nat): Option<nat> {
    if dirtiest == Some(no) then None else dirtiest
  }

  /** Erasing block `k`: its flag and its candidacy go with it. */
  lemma RamErase(cs: Pos, cpb: Pos, blocks: seq<Block>, seqNumber: nat, k: nat, open: bool,
                 hasShrink: set<nat>, dirtiest: Option<nat>)
    requires BlocksOk(cpb, blocks, seqNumber) && k < |blocks| && RamOk(cs, cpb, blocks, open, hasShrink, dirtiest)
    requires Closed(blocks, open, k)
    ensures RamOk(cs, cpb, Without(blocks, k), open, hasShrink - {blocks[k].no}, DropNo(dirtiest, blocks[k].no))
  {
    hide LogOf, Harmless;
    var w, log, gone := Without(blocks, k), LogOf(cpb, blocks), AddrsOf(cpb, blocks[k].no);
    var dirtiest' := DropNo(dirtiest, blocks[k].no);
    EraseBlockLog(cpb, blocks, seqNumber, k);
    forall no: nat | no !in hasShrink - {blocks[k].no} || dirtiest' == Some(no)
      ensures Harmless(cs, LogOf(cpb, w), AddrsOf(cpb, no))
    {
      if no == blocks[k].no {
        forall r | r in Keep(log, gone) ensures r.addr !in gone { KeepMembers(log, gone, r); }
        HarmlessNone(cs, Keep(log, gone), gone);
      } else {
        HarmlessKeep(cs, log, AddrsOf(cpb, no), gone);
      }
    }
    if dirtiest'.Some? {
      var i :| 0 <= i < |blocks| && blocks[i].no == dirtiest.value && Closed(blocks, open, i);
      var i' := if i < k then i else i - 1;
      assert w[i'] == blocks[i] && Closed(w, open, i');
    }
  }

  /** A candidate that passes the test, and the clearing of its flag when its collection starts. */
  lemma RamConsider(cs: Pos, cpb: Pos, blocks: seq<Block>, open: bool, hasShrink: set<nat>, dirtiest: Option<nat>,
                    k: nat)
    requires RamOk(cs, cpb, blocks, open, hasShrink, dirtiest) && k < |blocks| && Closed(blocks, open, k)
    requires blocks[k].no !in hasShrink || Harmless(cs, LogOf(cpb, blocks), AddrsOf(cpb, blocks[k].no))
    ensures RamOk(cs, cpb, blocks, open, hasShrink, Some(blocks[k].no))
    ensures RamOk(cs, cpb, blocks, open, hasShrink - {blocks[k].no}, None)
  {
    hide LogOf, Harmless, OpenOk;
  }

  /** The flags a mount starts from: blocks in which it has met a shrink header. */
  function ShrinkNos(cpb: Pos, blocks: seq<Block>): (s: set<nat>)
    ensures forall i :: 0 <= i < |blocks| && HasShrinkHdr(cpb, blocks[i]) ==> blocks[i].no in s
  {
    set b | b in blocks && HasShrinkHdr(cpb, b) :: b.no
  }

  lemma RamMounted(cs: Pos, cpb: Pos, blocks: seq<Block>, seqNumber: nat)
    requires BlocksOk(cpb, blocks, seqNumber)
    ensures RamOk(cs, cpb, blocks, false, ShrinkNos(cpb, blocks), None)
  {
    hide LogOf, Harmless;
    var log := LogOf(cpb, blocks);
    forall no: nat | no !in ShrinkNos(cpb, blocks) ensures Harmless(cs, log, AddrsOf(cpb, no)) {
      if k :| 0 <= k < |blocks| && blocks[k].no == no {
        PlainBlockHarmless(cs, cpb, blocks, seqNumber, k);
      } else {
        forall r | r in log ensures r.addr !in AddrsOf(cpb, no) {
          LogAddrs(cpb, blocks, seqNumber, r);
          var i :| 0 <= i < |blocks| && r in PageLog(cpb, blocks[i].no, blocks[i].pages);
          PageAddrs(cpb, blocks[i].no, blocks[i].pages, r);
          if r.addr in AddrsOf(cpb, no) { AddrsDisjoint(cpb, blocks[i].no, no, r.addr); }
        }
        HarmlessNone(cs, log, AddrsOf(cpb, no));
      }
    }
  }
}
