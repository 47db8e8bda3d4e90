/** yaffs2_scan_backwards: from the blocks on flash, in any physical order, back to the
  objects. */
module MountScan {
  import opened ScanLog
  import opened FileLog
  import opened RunLog
  import opened BlockLog
  import Quicksort

  /** An entry of the table of blocks to scan: a sequence number cast to int, and a block. */
  datatype Entry = Entry(seqNo: nat, no: nat)

  /** Two's complement 32-bit subtraction. */
  function Sub32(a: int, b: int): (r: int)
    ensures -0x8000_0000 <= r < 0x8000_0000
  {
    (a - b + 0x8000_0000) % 0x1_0000_0000 - 0x8000_0000
  }

  /** yaffs2_ybicmp: subtracts sequence numbers held in C ints. */
  function Ybicmp(a: Entry, b: Entry): int {
    if a.seqNo == b.seqNo then a.no - b.no else Sub32(a.seqNo, b.seqNo)
  }

  /** The comparison puts two 32-bit sequence numbers in their true order exactly when they are
    less than 2^31 apart (or exactly 2^31 apart with the smaller one first). */
  lemma YbicmpExact(a: Entry, b: Entry)
    requires a.seqNo < 0x1_0000_0000 && b.seqNo < 0x1_0000_0000 && a.seqNo != b.seqNo
    ensures (Ybicmp(a, b) < 0 <==> a.seqNo < b.seqNo) <==> -0x8000_0000 <= a.seqNo - b.seqNo < 0x8000_0000
  {
    var d := a.seqNo - b.seqNo;
    if d < -0x8000_0000 {
      assert d + 0x8000_0000 + 0x1_0000_0000 == (d + 0x8000_0000) % 0x1_0000_0000;
    } else if d >= 0x8000_0000 {
      assert d + 0x8000_0000 - 0x1_0000_0000 == (d + 0x8000_0000) % 0x1_0000_0000;
    } else {
      assert d + 0x8000_0000 == (d + 0x8000_0000) % 0x1_0000_0000;
    }
  }

  /** Two sequence numbers the comparison puts in the wrong order. */
  lemma YbicmpWraps()
    ensures Ybicmp(Entry(0x1001, 1), Entry(0x9000_0000, 2)) > 0
  {}

  /** All sequence numbers in use lie within one half of the 32-bit range. */
  ghost predicate Window(blocks: seq<Block>)
  {
    forall i, j :: 0 <= i < |blocks| && 0 <= j < |blocks| ==>
      blocks[i].seqNo < 0x1_0000_0000 && blocks[i].seqNo - blocks[j].seqNo < 0x8000_0000
  }

  lemma YbicmpOrders(w: nat)
    ensures Quicksort.Orders(Ybicmp, iset e: Entry | w <= e.seqNo < w + 0x8000_0000)
  {
    var dom := iset e: Entry | w <= e.seqNo < w + 0x8000_0000;
    forall x, y | x in dom && y in dom ensures Ybicmp(x, y) == if x.seqNo == y.seqNo then x.no - y.no
                                                               else x.seqNo - y.seqNo {
      var d := x.seqNo - y.seqNo;
      assert d + 0x8000_0000 == (d + 0x8000_0000) % 0x1_0000_0000;
    }
  }

  // ---------- the blocks worth scanning ----------

  /** The block-state query finds a block in use exactly if its first page is. */
  predicate Started(b: Block) { b.pages != [] && b.pages[0].Used? }

  function Listed(blocks: seq<Block>): (r: seq<Block>)
    ensures forall b :: b in r <==> b in blocks && Started(b)
  {
    if blocks == [] then []
    else
      var b := blocks[|blocks| - 1];
      Listed(blocks[..|blocks| - 1]) + (if Started(b) then [b] else [])
  }

  lemma {:induction false} ListedOk(cpb: Pos, blocks: seq<Block>, seqNumber: nat)
    requires BlocksOk(cpb, blocks, seqNumber)
    ensures BlocksOk(cpb, Listed(blocks), seqNumber)
    decreases |blocks|
  {
    hide HeadUsed, Started;
    if blocks != [] {
      var n := |blocks| - 1;
      var front, b := blocks[..n], blocks[n];
      ListedOk(cpb, front, seqNumber);
      var l := Listed(front);
      forall i | 0 <= i < |l| ensures l[i].no != b.no && l[i].seqNo < b.seqNo {
        assert l[i] in front;
      }
    }
  }

  lemma NotStarted(cpb: Pos, b: Block)
    requires HeadUsed(b.pages) && !Started(b)
    ensures PageLog(cpb, b.no, b.pages) == []
  {
    if b.pages != [] {
      assert PageLog(cpb, b.no, b.pages[..0]) == [];
    }
  }

  lemma {:induction false} ListedLog(cpb: Pos, blocks: seq<Block>, seqNumber: nat)
    requires BlocksOk(cpb, blocks, seqNumber)
    ensures LogOf(cpb, Listed(blocks)) == LogOf(cpb, blocks)
    decreases |blocks|
  {
    if blocks != [] {
      var n := |blocks| - 1;
      var front, b := blocks[..n], blocks[n];
      ListedLog(cpb, front, seqNumber);
      var l := Listed(front);
      assert (l + [b])[..|l|] == l;
      assert l + [] == l;
      if !Started(b) { NotStarted(cpb, b); }
    }
  }

  function Entries(blocks: seq<Block>): (r: seq<Entry>)
    ensures |r| == |blocks| && forall i :: 0 <= i < |blocks| ==> r[i] == Entry(blocks[i].seqNo, blocks[i].no)
  {
    seq(|blocks|, i requires 0 <= i < |blocks| => Entry(blocks[i].seqNo, blocks[i].no))
  }

  ghost predicate Rising(s: seq<Entry>) {
    forall i, j :: 0 <= i < j < |s| ==> s[i].seqNo < s[j].seqNo
  }

  /** Sorting by sequence number leaves no choice. */
  lemma {:induction false} OneOrder(p: seq<Entry>, q: seq<Entry>)
    requires Rising(p) && Rising(q) && forall e :: e in p <==> e in q
    ensures p == q
    decreases |p|
  {
    assert p != [] ==> p[0] in q;
    assert q != [] ==> q[0] in p;
    if p != [] {
      var m, n := |p| - 1, |q| - 1;
      assert p[m] in q && q[n] in p;
      assert p[m] == q[n];
      forall e ensures e in p[..m] <==> e in q[..n] {
        if e in p[..m] { assert e in p && e != p[m]; assert e in q; }
        if e in q[..n] { assert e in q && e != q[n]; assert e in p; }
      }
      OneOrder(p[..m], q[..n]);
    }
  }

  // ---------- the scan ----------

  /** The objects found so far; an object not met yet is as good as fresh. */
  function StateOf(cs: Pos, objs: map<nat, FileScan>, o: nat): FileScan {
    if o in objs then objs[o] else FreshScan(cs)
  }

  /** Scanning what is left of the log, from the state reached, gives the whole scan. */
  ghost predicate OnCourse(cs: Pos, whole: Log, left: Log, objs: map<nat, FileScan>)
  {
    forall o: nat :: ScanObj(cs, left, o, StateOf(cs, objs, o)) == ScanObj(cs, whole, o, FreshScan(cs))
  }

  /** One page read backwards. */
  lemma OnCourseStep(cs: Pos, whole: Log, left: Log, r: Rec, objs: map<nat, FileScan>)
    requires OnCourse(cs, whole, left + [r], objs)
    ensures OnCourse(cs, whole, left, objs[r.tag.obj := Step(cs, r, StateOf(cs, objs, r.tag.obj))])
  {
    AppendUnfold(left, r);
    var objs' := objs[r.tag.obj := Step(cs, r, StateOf(cs, objs, r.tag.obj))];
    forall o: nat ensures ScanObj(cs, left, o, StateOf(cs, objs', o)) == ScanObj(cs, whole, o, FreshScan(cs)) {
      assert ScanObj(cs, left + [r], o, StateOf(cs, objs, o)) ==
               ScanObj(cs, left, o, if r.tag.obj == o then Step(cs, r, StateOf(cs, objs, o)) else StateOf(cs, objs, o));
    }
  }

  /** The pages of one block, last to first. */
  method ScanBlock(cs: Pos, cpb: Pos, b: Block, objs0: map<nat, FileScan>, ghost whole: Log, ghost before: Log)
      returns (objs: map<nat, FileScan>)
    requires |b.pages| <= cpb
    requires OnCourse(cs, whole, before + PageLog(cpb, b.no, b.pages), objs0)
    ensures OnCourse(cs, whole, before, objs)
  {
    hide OnCourse;
    objs := objs0;
    var c: int := cpb - 1;
    assert b.pages[..|b.pages|] == b.pages;
    while c >= 0
      invariant -1 <= c < cpb
      invariant OnCourse(cs, whole, before + PageLog(cpb, b.no, b.pages[..Min(c + 1, |b.pages|)]), objs)
    {
      if c < |b.pages| {
        assert b.pages[..c + 1][..c] == b.pages[..c];
        match b.pages[c]
        case Junk =>
        case Used(tag) =>
          var r := Rec(b.no * cpb + c, tag);
          assert before + PageLog(cpb, b.no, b.pages[..c + 1]) == (before + PageLog(cpb, b.no, b.pages[..c])) + [r];
          OnCourseStep(cs, whole, before + PageLog(cpb, b.no, b.pages[..c]), r, objs);
          objs := objs[tag.obj := Step(cs, r, StateOf(cs, objs, tag.obj))];
      }
      c := c - 1;
    }
    assert before + PageLog(cpb, b.no, b.pages[..0]) == before;
  }

  /** Flash as the mount finds it: for every block number, the block there if it is in use. */
  ghost predicate OnFlash(blocks: seq<Block>, nand: seq<Option<Block>>)
  {
    && (forall i :: 0 <= i < |blocks| ==> blocks[i].no < |nand| && nand[blocks[i].no] == Some(blocks[i]))
    && (forall n :: 0 <= n < |nand| && nand[n].Some? ==> nand[n].value in blocks && nand[n].value.no == n)
  }

  ghost predicate EntryOf(blocks: seq<Block>, e: Entry, limit: nat)
  {
    exists b :: b in blocks && b.no < limit && Started(b) && e == Entry(b.seqNo, b.no)
  }

  /** The first pass over the device: which blocks to scan. */
  method FindBlocks(nand: seq<Option<Block>>, ghost blocks: seq<Block>) returns (index: array<Entry>, nToScan: nat)
    requires OnFlash(blocks, nand)
    ensures fresh(index) && nToScan <= index.Length
    ensures forall e :: e in index[..nToScan] <==> EntryOf(blocks, e, |nand|)
    ensures forall i, j :: 0 <= i < j < nToScan ==> index[i].no < index[j].no
  {
    index := new Entry[|nand|](_ => Entry(0, 0));
    nToScan := 0;
    for n := 0 to |nand|
      invariant nToScan <= n
      invariant forall e :: e in index[..nToScan] <==> EntryOf(blocks, e, n)
      invariant forall i :: 0 <= i < nToScan ==> index[i].no < n
      invariant forall i, j :: 0 <= i < j < nToScan ==> index[i].no < index[j].no
    {
      ghost var before := index[..nToScan];
      if nand[n].Some? && Started(nand[n].value) {
        var b := nand[n].value;
        index[nToScan] := Entry(b.seqNo, b.no);
        nToScan := nToScan + 1;
        assert index[..nToScan] == before + [Entry(b.seqNo, b.no)];
      }
      forall e ensures e in index[..nToScan] <==> EntryOf(blocks, e, n + 1) {
        EntryStep(blocks, nand, n, e);
      }
    }
  }

  lemma EntryStep(blocks: seq<Block>, nand: seq<Option<Block>>, n: nat, e: Entry)
    requires OnFlash(blocks, nand) && n < |nand|
    ensures EntryOf(blocks, e, n + 1) <==>
              EntryOf(blocks, e, n) || (nand[n].Some? && Started(nand[n].value) && e == Entry(nand[n].value.seqNo, n))
  {
    if EntryOf(blocks, e, n + 1) {
      var b :| b in blocks && b.no < n + 1 && Started(b) && e == Entry(b.seqNo, b.no);
      if b.no < n {
        assert EntryOf(blocks, e, n);
      }
    }
  }

  ghost predicate SeqsRise(index: seq<Entry>) {
    forall i, j :: 0 <= i < j < |index| ==> index[i].seqNo <= index[j].seqNo
  }

  /** Sorting the table by sequence number. */
  method SortBlocks(index: array<Entry>, n: nat, ghost w: nat)
    requires n <= index.Length
    requires forall e :: e in index[..][..n] ==> w <= e.seqNo < w + 0x8000_0000
    modifies index
    ensures multiset(index[..][..n]) == multiset(old(index[..])[..n]) && SeqsRise(index[..][..n])
  {
    hide *;
    ghost var dom := iset e: Entry | w <= e.seqNo < w + 0x8000_0000;
    ghost var s0 := index[..];
    YbicmpOrders(w);
    InDomain(s0, n, w, dom);
    Quicksort.Sort(index, 0, n, Ybicmp, dom);
    SortedRises(s0, index[..], n, w, dom);
  }

  lemma InDomain(s: seq<Entry>, n: nat, w: nat, dom: iset<Entry>)
    requires n <= |s| && dom == iset e: Entry | w <= e.seqNo < w + 0x8000_0000
    requires forall e :: e in s[..n] ==> w <= e.seqNo < w + 0x8000_0000
    ensures Quicksort.AllIn(s, 0, n, dom)
  {
    forall i | 0 <= i < n ensures s[i] in dom { assert s[..n][i] in s[..n]; }
  }

  lemma SortedRises(s0: seq<Entry>, s1: seq<Entry>, n: nat, w: nat, dom: iset<Entry>)
    requires n <= |s0| && Quicksort.Rearranged(s0, s1, 0, n) && Quicksort.Sorted(s1, 0, n, Ybicmp)
    requires dom == iset e: Entry | w <= e.seqNo < w + 0x8000_0000
    requires Quicksort.AllIn(s0, 0, n, dom)
    ensures SeqsRise(s1[..n]) && multiset(s1[..n]) == multiset(s0[..n])
  {
    Quicksort.StillIn(s0, s1, 0, n, dom);
    assert s0[0..n] == s0[..n] && s1[0..n] == s1[..n];
    forall i, j | 0 <= i < j < n ensures s1[i].seqNo <= s1[j].seqNo {
      assert s1[i] in dom && s1[j] in dom;
      assert Ybicmp(s1[i], s1[j]) <= 0;
      var d := s1[i].seqNo - s1[j].seqNo;
      assert d + 0x8000_0000 == (d + 0x8000_0000) % 0x1_0000_0000;
    }
  }

  lemma ListedEntries(blocks: seq<Block>, limit: nat, e: Entry)
    requires forall b :: b in blocks ==> b.no < limit
    ensures EntryOf(blocks, e, limit) <==> e in Entries(Listed(blocks))
  {
    var l := Listed(blocks);
    if EntryOf(blocks, e, limit) {
      var b :| b in blocks && b.no < limit && Started(b) && e == Entry(b.seqNo, b.no);
      assert b in l;
      var i :| 0 <= i < |l| && l[i] == b;
      assert Entries(l)[i] == e;
    }
    if e in Entries(l) {
      var i :| 0 <= i < |l| && Entries(l)[i] == e;
      assert l[i] in blocks && Started(l[i]);
    }
  }

  /** The sorted table lists the blocks in use in the order in which they were written. */
  lemma SortedIsListed(cpb: Pos, blocks: seq<Block>, seqNumber: nat, found: seq<Entry>, index: seq<Entry>, limit: nat)
    requires BlocksOk(cpb, blocks, seqNumber) && forall b :: b in blocks ==> b.no < limit
    requires forall e :: e in found <==> EntryOf(blocks, e, limit)
    requires forall i, j :: 0 <= i < j < |found| ==> found[i].no < found[j].no
    requires multiset(index) == multiset(found) && SeqsRise(index)
    ensures index == Entries(Listed(blocks))
  {
    var l := Listed(blocks);
    ListedOk(cpb, blocks, seqNumber);
    hide *;
    forall e ensures e in index <==> e in Entries(l) {
      assert e in index <==> e in multiset(index);
      assert e in found <==> e in multiset(found);
      ListedEntries(blocks, limit, e);
    }
    NoRepeats(found, index);
    StrictRise(cpb, l, seqNumber, index);
    EntriesRise(cpb, l, seqNumber);
    OneOrder(index, Entries(l));
  }

  lemma EntriesRise(cpb: Pos, l: seq<Block>, seqNumber: nat)
    requires BlocksOk(cpb, l, seqNumber)
    ensures Rising(Entries(l))
  {}

  lemma StrictRise(cpb: Pos, l: seq<Block>, seqNumber: nat, index: seq<Entry>)
    requires BlocksOk(cpb, l, seqNumber) && SeqsRise(index)
    requires forall e :: e in index <==> e in Entries(l)
    requires forall i, j :: 0 <= i < j < |index| ==> index[i] != index[j]
    ensures Rising(index)
  {
    forall i, j | 0 <= i < j < |index| ensures index[i].seqNo < index[j].seqNo {
      assert index[i] in index && index[j] in index;
      var k :| 0 <= k < |l| && Entries(l)[k] == index[i];
      var m :| 0 <= m < |l| && Entries(l)[m] == index[j];
      assert k != m;
    }
  }

  lemma NoRepeats(found: seq<Entry>, index: seq<Entry>)
    requires forall i, j :: 0 <= i < j < |found| ==> found[i].no < found[j].no
    requires multiset(index) == multiset(found)
    ensures forall i, j :: 0 <= i < j < |index| ==> index[i] != index[j]
  {
    forall i, j | 0 <= i < j < |index| ensures index[i] != index[j] {
      if index[i] == index[j] {
        var e := index[i];
        assert index == index[..i] + [e] + index[i + 1..j] + [e] + index[j + 1..];
        assert multiset(index)[e] >= 2;
        OnceOnly(found, e);
        assert false;
      }
    }
  }

  lemma {:induction false} OnceOnly(found: seq<Entry>, e: Entry)
    requires forall i, j :: 0 <= i < j < |found| ==> found[i].no < found[j].no
    ensures multiset(found)[e] <= 1
    decreases |found|
  {
    if found != [] {
      var n := |found| - 1;
      assert found == found[..n] + [found[n]];
      OnceOnly(found[..n], e);
      if found[n] == e { assert e !in found[..n]; }
    }
  }

  /** The table of blocks to scan, sorted. */
  method BlockTable(cpb: Pos, nand: seq<Option<Block>>, ghost blocks: seq<Block>, ghost seqNumber: nat)
      returns (index: array<Entry>, nToScan: nat)
    requires BlocksOk(cpb, blocks, seqNumber) && OnFlash(blocks, nand) && Window(blocks)
    ensures fresh(index) && nToScan <= index.Length
    ensures index[..nToScan] == Entries(Listed(blocks))
  {
    index, nToScan := FindBlocks(nand, blocks);
    ghost var found := index[..nToScan];
    ghost var w := LowestSeq(blocks);
    forall e | e in found ensures w <= e.seqNo < w + 0x8000_0000 {
      var b :| b in blocks && b.no < |nand| && Started(b) && e == Entry(b.seqNo, b.no);
      InWindow(blocks, b);
    }
    forall i, j | 0 <= i < j < |found| ensures found[i].no < found[j].no {
      assert found[i] == index[i] && found[j] == index[j];
    }
    assert index[..][..nToScan] == index[..nToScan];
    SortBlocks(index, nToScan, w);
    assert index[..][..nToScan] == index[..nToScan];
    assert forall b :: b in blocks ==> b.no < |nand|;
    SortedIsListed(cpb, blocks, seqNumber, found, index[..nToScan], |nand|);
  }

  /** The mount scan: whatever the physical order of the blocks, it reads the log backwards. */
  method ScanBackwards(cs: Pos, cpb: Pos, nand: seq<Option<Block>>, ghost blocks: seq<Block>, ghost seqNumber: nat)
      returns (objs: map<nat, FileScan>, found: seq<Block>)
    requires BlocksOk(cpb, blocks, seqNumber) && OnFlash(blocks, nand) && Window(blocks)
    ensures OnCourse(cs, LogOf(cpb, blocks), [], objs)
    ensures found == Listed(blocks)
  {
    hide *;
    var index, nToScan := BlockTable(cpb, nand, blocks, seqNumber);
    ghost var l := Listed(blocks);
    ghost var whole := LogOf(cpb, blocks);
    ListedLog(cpb, blocks, seqNumber);
    objs, found := map[], [];
    StartCourse(cs, whole);
    var blockIter: int := |index[..nToScan]| - 1;
    assert l[..|l|] == l;
    while blockIter >= 0
      invariant -1 <= blockIter < nToScan == |l| && nToScan <= index.Length && index[..nToScan] == Entries(l)
      invariant OnCourse(cs, whole, LogOf(cpb, l[..blockIter + 1]), objs)
      invariant found == l[blockIter + 1..]
    {
      var blk := index[blockIter].no;
      assert index[..nToScan][blockIter] == Entries(l)[blockIter];
      ListedOnFlash(cpb, blocks, seqNumber, nand, blockIter);
      LastBlockLog(cpb, l, blockIter);
      objs := ScanBlock(cs, cpb, nand[blk].value, objs, whole, LogOf(cpb, l[..blockIter]));
      found := [nand[blk].value] + found;
      blockIter := blockIter - 1;
    }
    NoBlocksLog(cpb, l);
  }

  lemma StartCourse(cs: Pos, whole: Log)
    ensures OnCourse(cs, whole, whole, map[])
  {}

  lemma NoBlocksLog(cpb: Pos, l: seq<Block>)
    ensures LogOf(cpb, l[..0]) == []
  {}

  lemma LastBlockLog(cpb: Pos, l: seq<Block>, k: nat)
    requires k < |l|
    ensures LogOf(cpb, l[..k + 1]) == LogOf(cpb, l[..k]) + PageLog(cpb, l[k].no, l[k].pages)
  {
    assert l[..k + 1][..k] == l[..k];
  }

  lemma ListedOnFlash(cpb: Pos, blocks: seq<Block>, seqNumber: nat, nand: seq<Option<Block>>, k: nat)
    requires BlocksOk(cpb, blocks, seqNumber) && OnFlash(blocks, nand) && k < |Listed(blocks)|
    ensures var b := Listed(blocks)[k]; b.no < |nand| && nand[b.no] == Some(b) && |b.pages| <= cpb
  {
    assert Listed(blocks)[k] in blocks;
  }

  /** The sequence number a mount goes on from. */
  function HighestSeq(found: seq<Block>): nat {
    if found == [] then LOWEST_SEQUENCE_NUMBER else found[|found| - 1].seqNo
  }

  lemma FoundOk(cpb: Pos, blocks: seq<Block>, seqNumber: nat)
    requires BlocksOk(cpb, blocks, seqNumber)
    ensures var found := Listed(blocks);
            && BlocksOk(cpb, found, HighestSeq(found)) && LogOf(cpb, found) == LogOf(cpb, blocks)
  {
    ListedOk(cpb, blocks, seqNumber);
    ListedLog(cpb, blocks, seqNumber);
  }

  /** The scan over flash, in terms of the log. */
  lemma CourseDone(cs: Pos, whole: Log, objs: map<nat, FileScan>, o: nat)
    requires OnCourse(cs, whole, [], objs)
    ensures StateOf(cs, objs, o) == ScanObj(cs, whole, o, FreshScan(cs))
  {}

  ghost function LowestSeq(blocks: seq<Block>): (w: nat)
    ensures forall b :: b in blocks ==> w <= b.seqNo
    ensures blocks == [] || exists b :: b in blocks && b.seqNo == w
  {
    if blocks == [] then 0
    else
      var n := |blocks| - 1;
      var v := LowestSeq(blocks[..n]);
      assert forall b :: b in blocks <==> b in blocks[..n] || b == blocks[n];
      if n == 0 || blocks[n].seqNo < v then blocks[n].seqNo else v
  }

  lemma InWindow(blocks: seq<Block>, b: Block)
    requires Window(blocks) && b in blocks
    ensures LowestSeq(blocks) <= b.seqNo < LowestSeq(blocks) + 0x8000_0000
  {
    var c :| c in blocks && c.seqNo == LowestSeq(blocks);
    var i :| 0 <= i < |blocks| && blocks[i] == b;
    var j :| 0 <= j < |blocks| && blocks[j] == c;
  }
}
