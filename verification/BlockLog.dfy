/** The log laid out in erase blocks.  Blocks are listed in the order in which they were
  taken into use; their sequence numbers grow in that order. */
module BlockLog {
  import opened ScanLog
  import opened FileLog

  /** `Junk` is a page the scan ignores: skipped, or unreadable after a failed write. */
  datatype Page = Junk | Used(tag: Tag)

  datatype Block = Block(no: nat, seqNo: nat, pages: seq<Page>)

  function PageLog(cpb: Pos, no: nat, pages: seq<Page>): Log
  {
    if pages == [] then []
    else
      var rest := PageLog(cpb, no, pages[..|pages| - 1]);
      match pages[|pages| - 1]
      case Junk => rest
      case Used(t) => rest + [Rec(no * cpb + |pages| - 1, t)]
  }

  function LogOf(cpb: Pos, blocks: seq<Block>): Log
  {
    if blocks == [] then []
    else
      var b := blocks[|blocks| - 1];
      LogOf(cpb, blocks[..|blocks| - 1]) + PageLog(cpb, b.no, b.pages)
  }

  const LOWEST_SEQUENCE_NUMBER: nat := 0x1000

  /** A block is not written on after its very first page has failed. */
  predicate HeadUsed(pages: seq<Page>) {
    |pages| > 1 ==> pages[0].Used?
  }

  /** The next page of the block may be programmed. */
  predicate HasRoom(cpb: Pos, b: Block) {
    |b.pages| < cpb && (b.pages == [] || b.pages[0].Used?)
  }

  ghost predicate BlocksOk(cpb: Pos, blocks: seq<Block>, seqNumber: nat)
  {
    && (forall i :: 0 <= i < |blocks| ==>
          |blocks[i].pages| <= cpb && HeadUsed(blocks[i].pages) &&
          LOWEST_SEQUENCE_NUMBER < blocks[i].seqNo <= seqNumber)
    && LOWEST_SEQUENCE_NUMBER <= seqNumber
    && (forall i, j :: 0 <= i < j < |blocks| ==> blocks[i].no != blocks[j].no && blocks[i].seqNo < blocks[j].seqNo)
  }

  predicate InBlock(cpb: Pos, no: nat, a: nat) { no * cpb <= a < no * cpb + cpb }

  /** Page addresses of a block. */
  function AddrsOf(cpb: Pos, no: nat): (s: set<nat>)
    ensures forall a: nat :: a in s <==> InBlock(cpb, no, a)
  {
    set a: nat | a < no * cpb + cpb && InBlock(cpb, no, a)
  }

  lemma {:induction false} PageAddrs(cpb: Pos, no: nat, pages: seq<Page>, r: Rec)
    requires r in PageLog(cpb, no, pages) && |pages| <= cpb
    ensures no * cpb <= r.addr < no * cpb + |pages| && r.addr in AddrsOf(cpb, no)
    decreases |pages|
  {
    var n := |pages| - 1;
    if !(pages[n].Used? && r == Rec(no * cpb + n, pages[n].tag)) {
      PageAddrs(cpb, no, pages[..n], r);
    }
  }

  lemma {:induction false} LogAddrs(cpb: Pos, blocks: seq<Block>, seqNumber: nat, r: Rec)
    requires BlocksOk(cpb, blocks, seqNumber) && r in LogOf(cpb, blocks)
    ensures exists i :: 0 <= i < |blocks| && r in PageLog(cpb, blocks[i].no, blocks[i].pages)
    decreases |blocks|
  {
    var n := |blocks| - 1;
    if r in PageLog(cpb, blocks[n].no, blocks[n].pages) {
    } else {
      assert BlocksOk(cpb, blocks[..n], seqNumber);
      LogAddrs(cpb, blocks[..n], seqNumber, r);
      var i :| 0 <= i < n && r in PageLog(cpb, blocks[..n][i].no, blocks[..n][i].pages);
      assert blocks[..n][i] == blocks[i];
    }
  }

  lemma AddrsDisjoint(cpb: Pos, m: nat, n: nat, a: nat)
    requires a in AddrsOf(cpb, m) && a in AddrsOf(cpb, n)
    ensures m == n
  {
    if m < n { MulGap(m, n, cpb); }
    if n < m { MulGap(n, m, cpb); }
  }

  function WithPage(blocks: seq<Block>, p: Page): seq<Block>
    requires blocks != []
  {
    var b := blocks[|blocks| - 1];
    blocks[|blocks| - 1 := b.(pages := b.pages + [p])]
  }

  /** Programming the next page of the newest block appends to the log, at a fresh address. */
  lemma AddPage(cpb: Pos, blocks: seq<Block>, seqNumber: nat, p: Page)
    requires BlocksOk(cpb, blocks, seqNumber) && blocks != [] && HasRoom(cpb, blocks[|blocks| - 1])
    ensures var b := blocks[|blocks| - 1]; var blocks' := WithPage(blocks, p);
            var addr := b.no * cpb + |b.pages|;
            && BlocksOk(cpb, blocks', seqNumber)
            && LogOf(cpb, blocks') == LogOf(cpb, blocks) + (if p.Used? then [Rec(addr, p.tag)] else [])
            && forall q :: q in LogOf(cpb, blocks) ==> q.addr != addr
  {
    AddPageLog(cpb, blocks, p);
    AddPageFresh(cpb, blocks, seqNumber);
  }

  lemma AddPageLog(cpb: Pos, blocks: seq<Block>, p: Page)
    requires blocks != []
    ensures var b := blocks[|blocks| - 1];
            LogOf(cpb, WithPage(blocks, p)) ==
              LogOf(cpb, blocks) + (if p.Used? then [Rec(b.no * cpb + |b.pages|, p.tag)] else [])
  {
    var n := |blocks| - 1;
    var b := blocks[n];
    var b' := b.(pages := b.pages + [p]);
    assert WithPage(blocks, p)[..n] == blocks[..n];
    assert b'.pages[..|b'.pages| - 1] == b.pages;
    assert PageLog(cpb, b.no, b'.pages) ==
             PageLog(cpb, b.no, b.pages) + (if p.Used? then [Rec(b.no * cpb + |b.pages|, p.tag)] else []);
  }

  lemma AddPageFresh(cpb: Pos, blocks: seq<Block>, seqNumber: nat)
    requires BlocksOk(cpb, blocks, seqNumber) && blocks != [] && |blocks[|blocks| - 1].pages| < cpb
    ensures var b := blocks[|blocks| - 1];
            forall q :: q in LogOf(cpb, blocks) ==> q.addr != b.no * cpb + |b.pages|
  {
    var n := |blocks| - 1;
    var b := blocks[n];
    var addr := b.no * cpb + |b.pages|;
    forall q | q in LogOf(cpb, blocks) ensures q.addr != addr {
      LogAddrs(cpb, blocks, seqNumber, q);
      var i :| 0 <= i < |blocks| && q in PageLog(cpb, blocks[i].no, blocks[i].pages);
      PageAddrs(cpb, blocks[i].no, blocks[i].pages, q);
      if i != n && q.addr == addr {
        AddrsDisjoint(cpb, b.no, blocks[i].no, addr);
        assert false;
      }
    }
  }

  predicate NotInUse(blocks: seq<Block>, no: nat) {
    forall i :: 0 <= i < |blocks| ==> blocks[i].no != no
  }

  lemma AddBlock(cpb: Pos, blocks: seq<Block>, seqNumber: nat, no: nat)
    requires BlocksOk(cpb, blocks, seqNumber) && NotInUse(blocks, no)
    ensures BlocksOk(cpb, blocks + [Block(no, seqNumber + 1, [])], seqNumber + 1)
    ensures LogOf(cpb, blocks + [Block(no, seqNumber + 1, [])]) == LogOf(cpb, blocks)
  {
    var blocks' := blocks + [Block(no, seqNumber + 1, [])];
    assert blocks'[..|blocks'| - 1] == blocks;
  }

  lemma {:induction false} KeepAppend(a: Log, b: Log, erased: set<nat>)
    ensures Keep(a + b, erased) == Keep(a, erased) + Keep(b, erased)
    decreases |b|
  {
    if b == [] {
      assert a + b == a;
    } else {
      var n := |b| - 1;
      assert (a + b)[..|a + b| - 1] == a + b[..n];
      KeepAppend(a, b[..n], erased);
    }
  }

  lemma {:induction false} KeepAll(a: Log, erased: set<nat>)
    ensures (forall r :: r in a ==> r.addr in erased) ==> Keep(a, erased) == []
    ensures (forall r :: r in a ==> r.addr !in erased) ==> Keep(a, erased) == a
    decreases |a|
  {
    if a != [] {
      KeepAll(a[..|a| - 1], erased);
      assert a == a[..|a| - 1] + [a[|a| - 1]];
    }
  }

  function Without(blocks: seq<Block>, k: nat): seq<Block>
    requires k < |blocks|
  {
    blocks[..k] + blocks[k + 1..]
  }

  lemma PageKept(cpb: Pos, blocks: seq<Block>, seqNumber: nat, i: nat, k: nat)
    requires BlocksOk(cpb, blocks, seqNumber) && i < |blocks| && k < |blocks|
    ensures Keep(PageLog(cpb, blocks[i].no, blocks[i].pages), AddrsOf(cpb, blocks[k].no)) ==
              if i == k then [] else PageLog(cpb, blocks[i].no, blocks[i].pages)
  {
    var pl, gone := PageLog(cpb, blocks[i].no, blocks[i].pages), AddrsOf(cpb, blocks[k].no);
    forall r | r in pl ensures r.addr in gone <==> i == k {
      PageAddrs(cpb, blocks[i].no, blocks[i].pages, r);
      if r.addr in gone { AddrsDisjoint(cpb, blocks[i].no, blocks[k].no, r.addr); }
    }
    KeepAll(pl, gone);
  }

  /** The blocks before `k` are not touched by erasing `k`. */
  lemma {:induction false} FrontKept(cpb: Pos, blocks: seq<Block>, seqNumber: nat, m: nat, k: nat)
    requires BlocksOk(cpb, blocks, seqNumber) && m <= k < |blocks|
    ensures Keep(LogOf(cpb, blocks[..m]), AddrsOf(cpb, blocks[k].no)) == LogOf(cpb, blocks[..m])
    decreases m
  {
    if m > 0 {
      assert blocks[..m][..m - 1] == blocks[..m - 1];
      FrontKept(cpb, blocks, seqNumber, m - 1, k);
      PageKept(cpb, blocks, seqNumber, m - 1, k);
      KeepAppend(LogOf(cpb, blocks[..m - 1]), PageLog(cpb, blocks[m - 1].no, blocks[m - 1].pages),
                 AddrsOf(cpb, blocks[k].no));
    }
  }

  lemma WithoutOk(cpb: Pos, blocks: seq<Block>, seqNumber: nat, k: nat)
    requires BlocksOk(cpb, blocks, seqNumber) && k < |blocks|
    ensures BlocksOk(cpb, Without(blocks, k), seqNumber)
  {
    var w := Without(blocks, k);
    assert forall i :: 0 <= i < |w| ==> w[i] == blocks[if i < k then i else i + 1];
  }

  /** The log of the blocks is that of all but the last, then the last one's pages. */
  lemma LogSplit(cpb: Pos, blocks: seq<Block>)
    requires blocks != []
    ensures var n := |blocks| - 1;
            LogOf(cpb, blocks) == LogOf(cpb, blocks[..n]) + PageLog(cpb, blocks[n].no, blocks[n].pages)
  {
    hide PageLog;
  }

  lemma FrontOk(cpb: Pos, blocks: seq<Block>, seqNumber: nat)
    requires BlocksOk(cpb, blocks, seqNumber) && blocks != []
    ensures BlocksOk(cpb, blocks[..|blocks| - 1], seqNumber)
  {}

  /** Erasing block `k` takes exactly its pages out of the log. */
  lemma {:induction false} EraseBlockLog(cpb: Pos, blocks: seq<Block>, seqNumber: nat, k: nat)
    requires BlocksOk(cpb, blocks, seqNumber) && k < |blocks|
    ensures LogOf(cpb, Without(blocks, k)) == Keep(LogOf(cpb, blocks), AddrsOf(cpb, blocks[k].no))
    decreases |blocks|
  {
    hide LogOf, PageLog, BlocksOk, Keep, AddrsOf;
    var n := |blocks| - 1;
    var front, b, w := blocks[..n], blocks[n], Without(blocks, k);
    LogSplit(cpb, blocks);
    KeepAppend(LogOf(cpb, front), PageLog(cpb, b.no, b.pages), AddrsOf(cpb, blocks[k].no));
    PageKept(cpb, blocks, seqNumber, n, k);
    if k == n {
      assert w == front;
      FrontKept(cpb, blocks, seqNumber, n, k);
    } else {
      FrontOk(cpb, blocks, seqNumber);
      EraseBlockLog(cpb, front, seqNumber, k);
      assert w[..n - 1] == Without(front, k) && w[n - 1] == b;
      LogSplit(cpb, w);
    }
  }
}
