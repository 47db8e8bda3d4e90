/** Writing a checkpoint byte by byte, and reading it back.

  The header of a page is kept beside the buffer, which holds the bytes after it; offsets count
  those bytes. */
module CheckptStream {
  import opened CheckptImage

  /** What the buffer, its header and the running checksums say about the bytes written so far. */
  ghost predicate Filled(s: seq<Byte>, hdr: Hdr, offs: nat, sum: nat, xor: Byte, pageSeq: nat, pays: seq<seq<Byte>>,
                         written: seq<Byte>) {
    && offs <= |s| && written == Joined(pays) + s[..offs] && (forall i :: offs <= i < |s| ==> s[i] == 0)
    && hdr == HdrAfter(|pays|, Joined(pays)) && pageSeq == |pays| && sum == SumOf(written) && xor == XorOf(written)
  }

  /** Where the next page goes, after those at `done`. */
  ghost predicate Placed(states: States, flash: Flash, start: nat, cpb: nat, done: seq<Loc>, curBlock: int,
                         curChunk: int, nextBlock: int) {
    && (if done == [] then curBlock == -1 && nextBlock == start
        else
          var l := done[|done| - 1];
          nextBlock == l.b + 1 && if l.p + 1 < cpb then curBlock == l.b && curChunk == l.p + 1 else curBlock == -1)
    && (forall i :: i >= 0 && nextBlock <= i < |states| ==> !IsFirst(flash, states, i))
    && forall j :: 0 <= j < |done| ==> done[j].b < |states| && states[done[j].b] == Checkpoint
  }

  function Empties(states: States): nat {
    if states == [] then 0
    else Empties(states[..|states| - 1]) + if states[|states| - 1] == Empty then 1 else 0
  }

  lemma {:induction false} EmptiesPut(states: States, i: nat, st: BlockState)
    requires i < |states|
    ensures Empties(states[i := st]) ==
              Empties(states) - (if states[i] == Empty then 1 else 0) + if st == Empty then 1 else 0
    decreases |states|
  {
    var n := |states| - 1;
    if i == n {
      assert states[i := st][..n] == states[..n];
    } else {
      assert states[i := st][..n] == states[..n][i := st];
      EmptiesPut(states[..n], i, st);
    }
  }

  /** Checkpoint blocks may have been erased or given up. */
  ghost predicate GivenBack(was: States, now: States) {
    |now| == |was| && forall b :: 0 <= b < |was| ==>
      now[b] == was[b] || (was[b] == Checkpoint && (now[b] == Empty || now[b] == Dead))
  }

  /** The pages of erased blocks are gone, all others are as they were. */
  ghost predicate FlashKept(was: States, now: States, flash: Flash, flash': Flash) {
    && (forall l :: l in flash' <==> l in flash && !Wiped(was, now, l.b))
    && forall l :: l in flash' ==> flash'[l] == flash[l]
  }

  lemma FlashSelf(states: States, flash: Flash)
    ensures FlashKept(states, states, flash, flash)
  {}

  lemma FlashTwice(a: States, b: States, c: States, f: Flash, f1: Flash, f2: Flash)
    requires FlashKept(a, b, f, f1) && FlashKept(b, c, f1, f2) && GivenBack(a, b) && GivenBack(b, c)
    ensures FlashKept(a, c, f, f2)
  {}

  /** Block `b` has been erased. */
  predicate Wiped(was: States, now: States, b: nat) {
    b < |was| && b < |now| && was[b] != Empty && now[b] == Empty
  }

  /** No block in this range is left to take. */
  ghost predicate NoneEmpty(states: States, a: int, b: int) {
    forall i :: 0 <= i && a <= i < b && i < |states| ==> states[i] != Empty
  }

  lemma NoneEmptyMore(states: States, a: int, b: int, c: int)
    requires NoneEmpty(states, a, b) && NoneEmpty(states, b, c)
    ensures NoneEmpty(states, a, c)
  {}

  lemma TakenNext(states: States, a: int, b: int)
    requires NoneEmpty(states, a, b) && 0 <= b < |states|
    ensures NoneEmpty(states[b := Checkpoint], a, b + 1)
  {}

  lemma NoneEmptyNone(states: States, a: int)
    ensures NoneEmpty(states, a, a)
  {}

  /** What the reader has: the first `j` pages, the last of them in the buffer up to `offs`. */
  ghost predicate HasRead(s: seq<Byte>, offs: nat, sum: nat, xor: Byte, pageSeq: nat, size: nat, pays: seq<seq<Byte>>,
                          got: seq<Byte>) {
    && |s| == size && offs <= size && pageSeq <= |pays| && sum == SumOf(got) && xor == XorOf(got)
    && if pageSeq == 0 then offs == size && got == []
       else s == pays[pageSeq - 1] && got == Joined(pays[..pageSeq - 1]) + s[..offs]
  }

  ghost predicate ReadPlace(cpb: nat, start: nat, done: seq<Loc>, pageSeq: nat, curBlock: int, curChunk: int,
                            nextBlock: int) {
    pageSeq <= |done| &&
    if pageSeq == 0 then curBlock == -1 && nextBlock == start
    else
      var l := done[pageSeq - 1];
      nextBlock == l.b + 1 && if l.p + 1 < cpb then curBlock == l.b && curChunk == l.p + 1 else curBlock == -1
  }

  class Stream {
    const cpb: nat
    const size: nat
    const start: nat
    const reserved: int
    const buf: array<Byte>
    var states: States
    var flash: Flash
    var nErased: int
    var hdr: Hdr
    var offs: nat
    var sum: nat
    var xor: Byte
    var pageSeq: nat
    var curBlock: int
    var curChunk: int
    var nextBlock: int
    var nBlocks: nat
    var maxBlocks: nat
    var blockList: seq<nat>
    ghost var written: seq<Byte>
    ghost var done: seq<Loc>
    ghost var pays: seq<seq<Byte>>

    ghost predicate Shaped()
      reads this
    {
      cpb >= 1 && size >= 1 && buf.Length == size && start < |states|
    }

    ghost predicate Writing()
      reads this, buf
    {
      && Shaped() && Image(flash, states, start, cpb, size, done, pays)
      && Filled(buf[..], hdr, offs, sum, xor, pageSeq, pays, written)
      && Placed(states, flash, start, cpb, done, curBlock, curChunk, nextBlock) && nBlocks == CountBlocks(done)
      && Greedy()
    }

    /** Blocks are taken as they come: none that is erased has been passed over. */
    ghost predicate Greedy()
      reads this
    {
      start <= nextBlock && NoneEmpty(states, start, nextBlock) && nErased > reserved
    }

    /** The pages on flash hold these bytes, and zeros after them in the last page. */
    ghost predicate Saved()
      reads this
    {
      Shaped() && Image(flash, states, start, cpb, size, done, pays) && written <= Joined(pays)
    }

    /** There are just enough pages for the bytes written and one byte more. */
    ghost predicate Exact()
      reads this
    {
      |done| == |pays| > 0 && Joined(pays[..|pays| - 1]) <= written && |written| < |Joined(pays[..|pays| - 1])| + size
    }

    ghost predicate Reading(got: seq<Byte>)
      reads this, buf
    {
      && Shaped() && Image(flash, states, start, cpb, size, done, pays)
      && HasRead(buf[..], offs, sum, xor, pageSeq, size, pays, got)
      && ReadPlace(cpb, start, done, pageSeq, curBlock, curChunk, nextBlock)
      && nBlocks == CountBlocks(done[..pageSeq]) <= maxBlocks
    }

    /** The reader, in the middle of a stream of at most as many blocks as it looks for. */
    ghost predicate ReadOk(got: seq<Byte>)
      reads this, buf
    {
      Reading(got) && (pageSeq > 0 ==> offs > 0) && CountBlocks(done) <= maxBlocks
    }

    /** Nothing but checkpoint blocks begins with a checkpoint page. */
    ghost predicate Tidy()
      reads this
    {
      Shaped() && forall b: nat :: IsFirst(flash, states, b) ==> b >= start && states[b] == Checkpoint
    }

    /** memset of the buffer, and a header with the checksums so far. */
    method InitChunk()
      requires buf.Length == size
      modifies this`hdr, this`offs, buf
      ensures hdr == Hdr(VERSION, pageSeq, sum, xor) && offs == 0 && buf[..] == Zeros(size)
    {
      forall i | 0 <= i < size { buf[i] := 0; }
      hdr := Hdr(VERSION, pageSeq, sum, xor);
      offs := 0;
    }

    /** yaffs2_checkpt_open for writing, with yaffs_checkpt_erase. */
    method OpenWrite() returns (ok: bool)
      requires Tidy()
      modifies this, buf
      ensures (ok <==> old(nErased) > reserved) && |states| == old(|states|)
      ensures ok ==> Writing() && written == [] && done == [] && offs == 0
      ensures !ok ==> states == old(states) && flash == old(flash)
    {
      hide NoneEmpty, IsFirst, Image, Joined, SumOf, XorOf, Filled, Placed, CountBlocks;
      if nErased - reserved <= 0 { return false; }
      StartStream();
      CheckptErase();
      NothingYet(flash, states, start, cpb, size);
      NoneEmptyNone(states, start);
      StartPlaced(states, flash, start, cpb);
      ok := true;
    }

    method StartStream()
      requires buf.Length == size
      modifies this`pageSeq, this`sum, this`xor, this`curBlock, this`curChunk, this`nextBlock, this`hdr, this`offs,
               this`written, this`done, this`pays, buf
      ensures Filled(buf[..], hdr, offs, sum, xor, pageSeq, pays, written) && written == [] && done == [] && pays == []
      ensures offs == 0
      ensures curBlock == -1 && curChunk == -1 && nextBlock == start
    {
      hide Filled, SumOf, XorOf, Joined;
      pageSeq, sum, xor, curBlock, curChunk, nextBlock := 0, 0, 0, -1, -1, start;
      InitChunk();
      written, done, pays := [], [], [];
      StartFilled(size, hdr);
    }

    /** One checkpoint block is erased, or given up. */
    method EraseBlock(b: nat, erased: bool)
      requires Tidy() && start <= b < |states| && states[b] == Checkpoint
      modifies this`states, this`flash, this`nErased
      ensures Tidy() && states == old(states)[b := if erased then Empty else Dead]
      ensures nErased == old(nErased) + if erased then 1 else 0
      ensures nErased == old(nErased) + Empties(states) - old(Empties(states))
      ensures FlashKept(old(states), states, old(flash), flash)
    {
      EmptiesPut(states, b, if erased then Empty else Dead);
      if erased {
        flash := map l | l in flash && l.b != b :: flash[l];
        states := states[b := Empty];
        nErased := nErased + 1;
      } else {
        states := states[b := Dead];
      }
    }

    /** yaffs_checkpt_erase. */
    method CheckptErase()
      requires Tidy()
      modifies this`states, this`flash, this`nErased, this`nBlocks
      ensures Shaped() && nErased >= old(nErased) && nBlocks == 0 && |states| == old(|states|)
      ensures forall b: nat :: !IsFirst(flash, states, b)
      ensures forall b :: 0 <= b < |states| ==> states[b] != Checkpoint || b < start
      ensures GivenBack(old(states), states)
      // the counter follows the blocks erased, and only their pages are gone
      ensures nErased == old(nErased) + Empties(states) - old(Empties(states))
      ensures FlashKept(old(states), states, old(flash), flash)
    {
      hide Empties, FlashKept;
      FlashSelf(states, flash);
      for i := start to |states|
        invariant Tidy() && nErased >= old(nErased) && |states| == old(|states|)
        invariant forall b :: start <= b < i ==> states[b] != Checkpoint
        invariant GivenBack(old(states), states)
        invariant nErased == old(nErased) + Empties(states) - old(Empties(states))
        invariant FlashKept(old(states), states, old(flash), flash)
      {
        if states[i] == Checkpoint {
          ghost var states1, flash1 := states, flash;
          var erased: bool := *;
          EraseBlock(i, erased);
          FlashTwice(old(states), states1, states, old(flash), flash1, flash);
        }
      }
      nBlocks := 0;
    }

    /** yaffs2_checkpt_find_erased_block. */
    method FindErasedBlock()
      requires Shaped() && (nextBlock >= 0 ==> nextBlock >= start)
      modifies this`curBlock, this`nextBlock
      ensures curBlock >= 0 ==>
                && start <= old(nextBlock) <= curBlock < |states| && states[curBlock] == Empty &&
                nextBlock == curBlock + 1
                                && NoneEmpty(states, old(nextBlock), curBlock)
      ensures curBlock < 0 ==> nErased <= reserved || old(nextBlock) < 0 || NoneEmpty(states, old(nextBlock), |states|)
      ensures curBlock < 0 ==> curBlock == nextBlock == -1
    {
      if 0 <= nextBlock < |states| && nErased - reserved > 0 {
        for i := nextBlock to |states|
          invariant nextBlock == old(nextBlock) && forall j :: nextBlock <= j < i ==> states[j] != Empty
        {
          if states[i] == Empty {
            nextBlock := i + 1;
            curBlock := i;
            return;
          }
        }
      }
      nextBlock := -1;
      curBlock := -1;
    }

    /** The block and chunk the next page goes to. */
    method Spot() returns (ok: bool)
      requires Shaped() && (nextBlock >= 0 ==> nextBlock >= start)
      modifies this`curBlock, this`curChunk, this`nextBlock
      ensures ok <==> curBlock >= 0
      ensures old(curBlock) >= 0 ==>
                ok && curBlock == old(curBlock) && curChunk == old(curChunk) && nextBlock == old(nextBlock)
      ensures old(curBlock) < 0 && ok ==>
                curChunk == 0 && old(nextBlock) <= curBlock < |states| && states[curBlock] == Empty &&
                nextBlock == curBlock + 1
      ensures old(curBlock) < 0 && ok ==> NoneEmpty(states, old(nextBlock), curBlock)
      ensures !ok ==> nErased <= reserved || old(nextBlock) < 0 || NoneEmpty(states, old(nextBlock), |states|)
    {
      if curBlock < 0 {
        FindErasedBlock();
        curChunk := 0;
      }
      ok := curBlock >= 0;
    }

    /** The buffer is programmed into the page found, a fresh block becoming a checkpoint block. */
    method ProgramPage(ghost s0: States, ghost cb: int, ghost cc: int, ghost nb: int)
      requires Shaped() && Image(flash, s0, start, cpb, size, done, pays)
      requires Placed(s0, flash, start, cpb, done, cb, cc, nb) && nBlocks == CountBlocks(done)
      requires states == s0 && 0 <= curBlock < |states| && 0 <= curChunk < cpb && nextBlock == curBlock + 1
      requires if cb < 0 then curChunk == 0 && nb <= curBlock && states[curBlock] == Empty
               else cb == curBlock && cc == curChunk && curChunk > 0
      requires pageSeq == |pays| && hdr == HdrAfter(|pays|, Joined(pays))
      modifies this`states, this`nBlocks, this`flash, this`done, this`pays, this`pageSeq, this`curChunk, this`curBlock
      ensures Shaped() && Image(flash, states, start, cpb, size, done, pays)
      ensures Placed(states, flash, start, cpb, done, curBlock, curChunk, nextBlock)
      ensures states == (if cb < 0 then old(states)[old(curBlock) := Checkpoint] else old(states))
      ensures |states| == old(|states|) && pays == old(pays) + [buf[..]] && nBlocks == CountBlocks(done)
      ensures pageSeq == old(pageSeq) + 1 && done != []
    {
      hide Image, IsFirst, Joined, HdrAfter, CountBlocks, Placed;
      var loc := Loc(curBlock, curChunk);
      ghost var d0, p0, f0 := done, pays, flash;
      if curChunk == 0 {
        states := states[curBlock := Checkpoint];
        nBlocks := nBlocks + 1;
      }
      flash := flash[loc := Ck(nextBlock, pageSeq + 1, hdr, buf[..])];
      Flushed(f0, s0, start, cpb, size, d0, p0, states, loc, buf[..], cb, cc, nb);
      done, pays := done + [loc], pays + [buf[..]];
      CountMore(d0, loc);
      pageSeq := pageSeq + 1;
      curChunk := curChunk + 1;
      if curChunk >= cpb {
        curChunk := 0;
        curBlock := -1;
      }
    }

    /** yaffs2_checkpt_flush_buffer. */
    method FlushBuffer() returns (ok: bool)
      requires Writing()
      modifies this, buf
      ensures Shaped() && |states| == old(|states|)
      ensures ok ==>
                Image(flash, states, start, cpb, size, done, pays) &&
                Placed(states, flash, start, cpb, done, curBlock, curChunk, nextBlock)
      ensures ok ==>
                pays == old(pays) + [old(buf[..])] && nBlocks == CountBlocks(done) && written == old(written) &&
                done != []
      ensures ok ==>
                offs == 0 && pageSeq == old(pageSeq) + 1 && sum == old(sum) && xor == old(xor) &&
                hdr == Hdr(VERSION, pageSeq, sum, xor)
      ensures ok ==> buf[..] == Zeros(size)
      ensures nErased == old(nErased) && if ok then Greedy() else NoneEmpty(states, start, |states|)
    {
      hide NoneEmpty, Image, IsFirst, Joined, SumOf, XorOf, HdrAfter, CountBlocks, Filled, Placed, Zeros;
      ghost var s0, cb, cc, nb := states, curBlock, curChunk, nextBlock;
      NextIn(states, flash, start, cpb, size, done, pays, curBlock, curChunk, nextBlock);
      OffsIn(buf[..], hdr, offs, sum, xor, pageSeq, pays, written);
      NextAfter(s0, flash, start, cpb, done, cb, cc, nb);
      ok := Spot();
      if !ok {
        NoneEmptyMore(states, start, nb, |states|);
        return;
      }
      ProgramPage(s0, cb, cc, nb);
      if cb < 0 {
        NoneEmptyMore(s0, start, nb, nextBlock - 1);
        TakenNext(s0, start, nextBlock - 1);
      }
      InitChunk();
    }

    /** One byte into the buffer. */
    method PutByte(b: Byte)
      requires Writing() && offs < size
      modifies this`offs, this`sum, this`xor, this`written, buf
      ensures Writing() && offs == old(offs) + 1 && written == old(written) + [b]
    {
      hide NoneEmpty, Image, IsFirst, Joined, SumOf, XorOf, AddByte, XorByte, HdrAfter, CountBlocks, Filled, Placed;
      ghost var b0 := buf[..];
      OffsIn(b0, hdr, offs, sum, xor, pageSeq, pays, written);
      OneByte(b0, hdr, offs, pageSeq, pays, written, b);
      buf[offs] := b;
      assert buf[..] == b0[offs := b];
      sum := AddByte(sum, b);
      xor := XorByte(xor, b);
      offs := offs + 1;
      written := written + [b];
    }

    /** yaffs2_checkpt_wr.  `ok` is false when a page found no block to go to. */
    method Wr(data: seq<Byte>) returns (n: nat, ok: bool)
      requires Writing() && offs < size
      modifies this, buf
      ensures Shaped() && n <= |data| && |states| == old(|states|)
      ensures !ok ==> NoneEmpty(states, start, |states|)
      ensures ok ==> Writing() && offs < size && n == |data| && written == old(written) + data
    {
      hide NoneEmpty, Image, IsFirst, Joined, SumOf, XorOf, AddByte, XorByte, HdrAfter, CountBlocks, Linked, PageOn;
      hide Filled, Placed;
      n, ok := 0, true;
      assert data[..0] == [];
      while n < |data| && ok
        invariant n <= |data| && Shaped() && |states| == old(|states|)
        invariant !ok ==> NoneEmpty(states, start, |states|)
        invariant ok ==> Writing() && offs < size && written == old(written) + data[..n]
        decreases |data| - n
      {
        PutByte(data[n]);
        assert data[..n + 1] == data[..n] + [data[n]];
        n := n + 1;
        if offs >= size {
          ghost var s, p1 := buf[..], pays;
          FullIs(s, hdr, offs, sum, xor, pageSeq, pays, written);
          ok := FlushBuffer();
          if ok { NextPage(s, buf[..], sum, xor, p1, written, size); }
        }
      }
      assert data[..|data|] == data;
    }

    /** yaffs_checkpt_close after writing: what is in the buffer is flushed, even if that is nothing. */
    method CloseWrite() returns (ok: bool)
      requires Writing() && offs < size
      modifies this, buf
      ensures |states| == old(|states|) && (!ok ==> NoneEmpty(states, start, |states|))
      ensures ok ==> Saved() && written == old(written) && nBlocks == CountBlocks(done)
      ensures ok ==> Exact()
      ensures nErased == old(nErased) - nBlocks
    {
      hide NoneEmpty, Image, IsFirst, SumOf, XorOf, HdrAfter, CountBlocks, Linked, PageOn, Placed, Joined;
      ghost var s, p1, o1 := buf[..], pays, offs;
      ok := FlushBuffer();
      if ok {
        JoinMore(p1, s);
        assert pays[..|pays| - 1] == p1;
        ImageLength(flash, states, start, cpb, size, done, pays);
      }
      nErased := nErased - nBlocks;
    }

    /** yaffs2_checkpt_open for reading. */
    method OpenRead()
      requires Saved()
      modifies this`pageSeq, this`sum, this`xor, this`curBlock, this`curChunk, this`nextBlock, this`offs, this`nBlocks,
               this`maxBlocks, this`blockList
      ensures Saved() && Reading([]) && pageSeq == 0 && maxBlocks == (|states| - 1 - start) / 16 + 2
    {
      hide Image, Joined, SumOf, XorOf, CountBlocks, HasRead, ReadPlace;
      NothingYet(flash, states, start, cpb, size);
      StartRead(buf[..], size, pays, cpb, start, done);
      pageSeq, sum, xor, curBlock, curChunk, nextBlock := 0, 0, 0, -1, -1, start;
      offs := size;
      nBlocks, blockList := 0, [];
      maxBlocks := (|states| - 1 - start) / 16 + 2;
    }

    /** yaffs2_checkpt_find_block. */
    method FindBlock(ghost t: nat)
      requires Shaped()
      modifies this`curBlock, this`nextBlock, this`nBlocks, this`blockList
      ensures curBlock < |states| && if curBlock >= 0
              then nBlocks == old(nBlocks) + 1 <= maxBlocks && blockList == old(blockList) + [curBlock] &&
                   old(nextBlock) <= curBlock && Loc(curBlock, 0) in flash && flash[Loc(curBlock, 0)].Ck? &&
                   nextBlock == flash[Loc(curBlock, 0)].hint
              else nBlocks == old(nBlocks) && blockList == old(blockList) && curBlock == nextBlock == -1
      ensures 0 <= old(nextBlock) <= t && IsFirst(flash, states, t) && NoFirst(flash, states, old(nextBlock), t) &&
              old(nBlocks) < maxBlocks ==>
                curBlock == t && nextBlock == flash[Loc(t, 0)].hint && nBlocks == old(nBlocks) + 1 &&
                blockList == old(blockList) + [t]
    {
      hide IsFirst;
      TargetIn(flash, states, t);
      if nBlocks < maxBlocks && 0 <= nextBlock <= |states| {
        for i := nextBlock to |states|
          invariant nextBlock == old(nextBlock) && nBlocks == old(nBlocks) && blockList == old(blockList)
          invariant NoFirst(flash, states, nextBlock, i)
        {
          var found := CheckptFirst(i);
          if found {
            TargetIs(flash, states, nextBlock, i, t);
            nextBlock := flash[Loc(i, 0)].hint;
            curBlock := i;
            blockList := blockList + [i];
            nBlocks := nBlocks + 1;
            return;
          }
        }
      }
      nextBlock := -1;
      curBlock := -1;
    }

    method CheckptFirst(i: nat) returns (r: bool)
      requires i < |states|
      ensures r <==> IsFirst(flash, states, i)
      ensures r ==> Loc(i, 0) in flash && flash[Loc(i, 0)].Ck?
    {
      r := Loc(i, 0) in flash && flash[Loc(i, 0)].Ck? && states[i] != Dead;
    }

    /** The page to read next, once its block is found. */
    method PageSpot(ghost t: nat) returns (ok: bool)
      requires Shaped()
      modifies this`curBlock, this`curChunk, this`nextBlock, this`nBlocks, this`blockList
      ensures ok ==> 0 <= curBlock < |states| && nBlocks >= old(nBlocks)
      ensures old(curBlock) >= 0 && old(curBlock) < |states| ==>
                ok && curBlock == old(curBlock) && curChunk == old(curChunk) && nextBlock == old(nextBlock) &&
                nBlocks == old(nBlocks)
      ensures old(curBlock) < 0 && 0 <= old(nextBlock) <= t && IsFirst(flash, states, t) &&
              NoFirst(flash, states, old(nextBlock), t) && old(nBlocks) < maxBlocks ==>
                ok && curBlock == t && curChunk == 0 && nextBlock == flash[Loc(t, 0)].hint &&
                nBlocks == old(nBlocks) + 1
    {
      hide IsFirst, NoFirst;
      if curBlock < 0 {
        FindBlock(t);
        curChunk := 0;
      }
      ok := 0 <= curBlock < |states|;
    }

    /** The page is read into the buffer and its tags and header are checked. */
    method ReadPage() returns (ok: bool)
      requires Shaped() && curBlock >= 0
      modifies this`offs, this`pageSeq, this`curChunk, this`curBlock, buf
      ensures ok ==> offs == 0 && pageSeq == old(pageSeq) + 1 && curChunk == old(curChunk) + 1
      ensures ok ==> curBlock == if old(curChunk) + 1 >= cpb then -1 else old(curBlock)
      ensures ok ==>
                old(curChunk) >= 0 && Loc(old(curBlock), old(curChunk)) in flash &&
                flash[Loc(old(curBlock), old(curChunk))].Ck?
                     && buf[..] == flash[Loc(old(curBlock), old(curChunk))].bytes
      ensures ok <==> PageGood(flash, old(curBlock), old(curChunk), size, old(pageSeq), sum, xor)
    {
      if curChunk < 0 { return false; }
      var loc := Loc(curBlock, curChunk);
      if loc !in flash || flash[loc].Other? || |flash[loc].bytes| != size { return false; }
      var page := flash[loc];
      CopyIn(page.bytes);
      if page.id != pageSeq + 1 || page.hdr != Hdr(VERSION, pageSeq, sum, xor) { return false; }
      offs := 0;
      pageSeq := pageSeq + 1;
      curChunk := curChunk + 1;
      if curChunk >= cpb { curBlock := -1; }
      ok := true;
    }

    method CopyIn(bytes: seq<Byte>)
      requires |bytes| == buf.Length
      modifies buf
      ensures buf[..] == bytes
    {
      forall i | 0 <= i < |bytes| { buf[i] := bytes[i]; }
    }

    /** The part of yaffs2_checkpt_rd that brings in the next page. */
    method NextPageIn(ghost got: seq<Byte>) returns (ok: bool)
      requires Shaped()
      modifies this`curBlock, this`curChunk, this`nextBlock, this`nBlocks, this`blockList, this`pageSeq, this`offs, buf
      ensures Shaped() && (ok ==> offs == 0)
      ensures old(ReadOk(got)) && old(offs) == size && old(pageSeq) < |pays| ==>
                ok && Reading(got) && pageSeq == old(pageSeq) + 1 && CountBlocks(done) <= maxBlocks
    {
      hide Image, IsFirst, Joined, SumOf, XorOf, AddByte, XorByte, HdrAfter, CountBlocks, Linked, PageOn, NoFirst;
      hide HasRead, ReadPlace;
      ghost var fine := ReadOk(got) && offs == size && pageSeq < |pays|;
      ghost var j, b0 := pageSeq, buf[..];
      if fine { NextLoc(flash, states, start, cpb, size, done, pays, j, curBlock, curChunk, nextBlock, sum, xor, got,
                        b0); }
      ghost var t: nat := if fine then done[j].b else 0;
      ok := PageSpot(t);
      if !ok { return; }
      ok := ReadPage();
      if fine { PageRead(buf[..], sum, xor, size, pays, got, cpb, start, done, j, curBlock, curChunk, nextBlock); }
    }

    /** yaffs2_checkpt_rd.  What it returns within the stream are the bytes written, in order. */
    method Rd(n: nat, ghost got: seq<Byte>) returns (data: seq<Byte>)
      requires Shaped()
      modifies this`curBlock, this`curChunk, this`nextBlock, this`nBlocks, this`blockList, this`pageSeq, this`offs,
               this`sum, this`xor, buf
      ensures Shaped() && |data| <= n
      ensures old(ReadOk(got)) && |got| + n <= |Joined(pays)| ==>
                |data| == n && ReadOk(got + data) && got + data <= Joined(pays)
    {
      hide Image, IsFirst, Joined, SumOf, XorOf, AddByte, XorByte, CountBlocks, HasRead, ReadPlace;
      ghost var fine := ReadOk(got) && |got| + n <= |Joined(pays)|;
      data := [];
      assert got + [] == got;
      if fine { GotPrefix(buf[..], offs, sum, xor, pageSeq, size, pays, got); }
      var ok := true;
      while |data| < n && ok
        invariant Shaped() && |data| <= n
        invariant fine ==> ok && ReadOk(got + data) && got + data <= Joined(pays) && |got| + n <= |Joined(pays)|
        decreases n - |data|, ok
      {
        if offs >= size {
          if fine { MorePages(buf[..], offs, sum, xor, pageSeq, size, pays, got + data); }
          ok := NextPageIn(got + data);
        }
        if ok && offs < size {
          ghost var b0, o0, s0, x0 := buf[..], offs, sum, xor;
          var b := buf[offs];
          sum := AddByte(sum, b);
          xor := XorByte(xor, b);
          offs := offs + 1;
          if fine { OneRead(b0, o0, s0, x0, pageSeq, size, pays, got + data, b); }
          assert got + data + [b] == got + (data + [b]);
          data := data + [b];
        } else {
          ok := false;
        }
      }
    }

    /** yaffs_checkpt_close after reading: the blocks found count as checkpoint blocks again. */
    method CloseRead()
      requires Shaped()
      modifies this`states, this`nErased, this`blockList
      ensures nErased == old(nErased) - nBlocks && |states| == old(|states|) && blockList == []
      ensures forall b :: 0 <= b < |states| ==>
                states[b] == if b in old(blockList) && old(states[b]) == Empty then Checkpoint else old(states[b])
    {
      for i := 0 to |blockList|
        invariant |states| == old(|states|) && blockList == old(blockList) && nErased == old(nErased)
        invariant nBlocks == old(nBlocks)
        invariant forall b :: 0 <= b < |states| ==>
                    states[b] == if b in blockList[..i] && old(states[b]) == Empty then Checkpoint else old(states[b])
      {
        assert blockList[..i + 1] == blockList[..i] + [blockList[i]];
        if blockList[i] < |states| && states[blockList[i]] == Empty { states := states[blockList[i] := Checkpoint]; }
      }
      assert blockList[..|blockList|] == blockList;
      blockList := [];
      nErased := nErased - nBlocks;
    }
  }

  lemma NothingYet(flash: Flash, states: States, start: nat, cpb: nat, size: nat)
    ensures Image(flash, states, start, cpb, size, [], []) && Joined([]) == [] && SumOf([]) == 0 && XorOf([]) == 0
    ensures CountBlocks([]) == 0
  {}

  lemma ImageLength(flash: Flash, states: States, start: nat, cpb: nat, size: nat, done: seq<Loc>, pays: seq<seq<Byte>>)
    requires Image(flash, states, start, cpb, size, done, pays)
    ensures |done| == |pays|
  {}

  lemma NextIn(states: States, flash: Flash, start: nat, cpb: nat, size: nat, done: seq<Loc>, pays: seq<seq<Byte>>,
               curBlock: int, curChunk: int, nextBlock: int)
    requires Placed(states, flash, start, cpb, done, curBlock, curChunk, nextBlock)
    requires Image(flash, states, start, cpb, size, done, pays)
    ensures nextBlock >= start && |done| == |pays| && -1 <= curBlock < |states|
    ensures curBlock >= 0 ==> 0 < curChunk < cpb
  {
    if done != [] { FirstLeast(flash, states, start, cpb, size, done, pays, |done| - 1); }
  }

  lemma {:induction false} FirstLeast(flash: Flash, states: States, start: nat, cpb: nat, size: nat, done: seq<Loc>,
                                      pays: seq<seq<Byte>>, j: nat)
    requires Image(flash, states, start, cpb, size, done, pays) && j < |done|
    ensures start <= done[j].b < |states|
    decreases j
  {
    assert Linked(flash, states, start, cpb, done, j) && PageOn(flash, states, cpb, done, pays, j);
    if j > 0 { FirstLeast(flash, states, start, cpb, size, done, pays, j - 1); }
  }

  /** The page just programmed extends the stream. */
  lemma Flushed(flash: Flash, states: States, start: nat, cpb: nat, size: nat, done: seq<Loc>, pays: seq<seq<Byte>>,
                states': States, loc: Loc, pay: seq<Byte>, cb: int, cc: int, nb: int)
    requires Image(flash, states, start, cpb, size, done, pays) && |pay| == size && cpb >= 1 && loc.p < cpb
    requires loc.b < |states|
    requires Placed(states, flash, start, cpb, done, cb, cc, nb)
    requires if cb < 0 then loc.p == 0 && nb <= loc.b && states[loc.b] == Empty &&
             states' == states[loc.b := Checkpoint]
             else cb == loc.b && cc == loc.p && states' == states && loc.p > 0
    ensures var k := |pays|; var flash' := flash[loc := Ck(loc.b + 1, k + 1, HdrAfter(k, Joined(pays)), pay)];
            && Image(flash', states', start, cpb, size, done + [loc], pays + [pay])
            && Placed(states', flash', start, cpb, done + [loc], if loc.p + 1 >= cpb then -1
                      else loc.b, if loc.p + 1 >= cpb then 0 else loc.p + 1, loc.b + 1)
  {
    var k := |pays|;
    var flash' := flash[loc := Ck(loc.b + 1, k + 1, HdrAfter(k, Joined(pays)), pay)];
    hide Image, Linked, PageOn, HdrAfter, Joined;
    ImageMore(flash, states, start, cpb, size, done, pays, states', loc, pay);
    forall i | loc.b + 1 <= i < |states'| ensures !IsFirst(flash', states', i) { assert !IsFirst(flash, states, i); }
  }

  lemma CountMore(done: seq<Loc>, loc: Loc)
    ensures CountBlocks(done + [loc]) == CountBlocks(done) + if loc.p == 0 then 1 else 0
  {
    assert (done + [loc])[..|done|] == done;
  }

  lemma StartFilled(size: nat, hdr: Hdr)
    requires hdr == Hdr(VERSION, 0, 0, 0)
    ensures Filled(Zeros(size), hdr, 0, 0, 0, 0, [], [])
  {
    assert Zeros(size)[..0] == [];
  }

  lemma StartPlaced(states: States, flash: Flash, start: nat, cpb: nat)
    requires forall b: nat :: !IsFirst(flash, states, b)
    ensures Placed(states, flash, start, cpb, [], -1, -1, start)
  {}

  lemma NextAfter(states: States, flash: Flash, start: nat, cpb: nat, done: seq<Loc>, cb: int, cc: int, nb: int)
    requires Placed(states, flash, start, cpb, done, cb, cc, nb)
    ensures cb >= 0 ==> cb < |states| && states[cb] == Checkpoint && nb == cb + 1
  {}

  lemma FullIs(s: seq<Byte>, hdr: Hdr, offs: nat, sum: nat, xor: Byte, pageSeq: nat, pays: seq<seq<Byte>>,
               written: seq<Byte>)
    requires Filled(s, hdr, offs, sum, xor, pageSeq, pays, written) && offs >= |s|
    ensures written == Joined(pays) + s[..|s|] && sum == SumOf(written) && xor == XorOf(written) && pageSeq == |pays|
  {}

  lemma OffsIn(s: seq<Byte>, hdr: Hdr, offs: nat, sum: nat, xor: Byte, pageSeq: nat, pays: seq<seq<Byte>>,
               written: seq<Byte>)
    requires Filled(s, hdr, offs, sum, xor, pageSeq, pays, written)
    ensures sum == SumOf(written) && xor == XorOf(written) && offs <= |s| && pageSeq == |pays|
    ensures hdr == HdrAfter(|pays|, Joined(pays))
  {}

  lemma OneByte(s: seq<Byte>, hdr: Hdr, offs: nat, pageSeq: nat, pays: seq<seq<Byte>>, written: seq<Byte>, b: Byte)
    requires Filled(s, hdr, offs, SumOf(written), XorOf(written), pageSeq, pays, written) && offs < |s|
    ensures Filled(s[offs := b], hdr, offs + 1, AddByte(SumOf(written), b), XorByte(XorOf(written), b), pageSeq, pays,
                   written + [b])
  {
    hide AddByte, XorByte;
    SumMore(written, b);
    assert s[offs := b][..offs + 1] == s[..offs] + [b];
  }

  /** After a full page the buffer starts again, headed by the checksums so far. */
  lemma NextPage(s: seq<Byte>, s': seq<Byte>, sum: nat, xor: Byte, pays: seq<seq<Byte>>, written: seq<Byte>, size: nat)
    requires |s| == |s'| == size && written == Joined(pays) + s[..size] && sum == SumOf(written)
    requires xor == XorOf(written)
    requires s' == Zeros(size)
    ensures Filled(s', Hdr(VERSION, |pays| + 1, sum, xor), 0, sum, xor, |pays| + 1, pays + [s], written)
  {
    JoinMore(pays, s);
    assert s[..size] == s && s'[..0] == [];
  }

  // ---------- reading ----------

  lemma TargetIs(flash: Flash, states: States, a: nat, i: nat, t: nat)
    requires IsFirst(flash, states, i) && a <= i && NoFirst(flash, states, a, i)
    ensures a <= t && IsFirst(flash, states, t) && NoFirst(flash, states, a, t) ==> i == t
  {}

  lemma TargetIn(flash: Flash, states: States, t: nat)
    ensures IsFirst(flash, states, t) ==> t < |states|
  {}

  /** Where the reader will look, and that the next page of the stream is there. */
  lemma NextLoc(flash: Flash, states: States, start: nat, cpb: nat, size: nat, done: seq<Loc>, pays: seq<seq<Byte>>,
                j: nat,
                curBlock: int, curChunk: int, nextBlock: int, sum: nat, xor: Byte, got: seq<Byte>, s: seq<Byte>)
    requires Image(flash, states, start, cpb, size, done, pays) && j < |pays| && cpb >= 1
    requires ReadPlace(cpb, start, done, j, curBlock, curChunk, nextBlock)
    requires HasRead(s, size, sum, xor, j, size, pays, got)
    ensures |done| == |pays| && |pays[j]| == size && done[j] in flash && done[j].p < cpb && done[j].b < |states|
    ensures flash[done[j]] == Ck(done[j].b + 1, j + 1, Hdr(VERSION, j, sum, xor), pays[j])
    ensures curBlock >= 0 ==>
              curChunk >= 0 && done[j] == Loc(curBlock, curChunk) && done[j].p > 0 && nextBlock == curBlock + 1
    ensures curBlock < 0 ==>
              done[j].p == 0 && 0 <= nextBlock <= done[j].b && IsFirst(flash, states, done[j].b) &&
              NoFirst(flash, states, nextBlock, done[j].b)
    ensures CountBlocks(done[..j]) + (if done[j].p == 0 then 1
                                      else 0) == CountBlocks(done[..j + 1]) <= CountBlocks(done)
    ensures got == Joined(pays[..j]) && Joined(pays[..j + 1]) == got + pays[j] && sum == SumOf(got) && xor == XorOf(got)
  {
    hide *;
    ImageAt(flash, states, start, cpb, size, done, pays, j);
    WholePages(s, sum, xor, j, size, pays, got);
    ReadSums(s, sum, xor, j, size, pays, got);
    PageThere(flash, states, cpb, done, pays, j);
    PlaceNext(flash, states, start, cpb, done, j, curBlock, curChunk, nextBlock);
    FirstOfBlock(flash, states, cpb, done, pays, j);
    CountNext(done, j);
    CountMono(done, j + 1);
    JoinNext(pays, j);
  }

  lemma ImageAt(flash: Flash, states: States, start: nat, cpb: nat, size: nat, done: seq<Loc>, pays: seq<seq<Byte>>,
                j: nat)
    requires Image(flash, states, start, cpb, size, done, pays) && j < |pays|
    ensures |done| == |pays| && |pays[j]| == size && Linked(flash, states, start, cpb, done, j)
    ensures PageOn(flash, states, cpb, done, pays, j)
  {
    hide Linked, PageOn;
  }

  lemma PageThere(flash: Flash, states: States, cpb: nat, done: seq<Loc>, pays: seq<seq<Byte>>, j: nat)
    requires j < |done| == |pays| && PageOn(flash, states, cpb, done, pays, j)
    ensures done[j] in flash && done[j].p < cpb && done[j].b < |states|
    ensures flash[done[j]] == Ck(done[j].b + 1, j + 1,
                                 Hdr(VERSION, j, SumOf(Joined(pays[..j])), XorOf(Joined(pays[..j]))), pays[j])
  {
    hide SumOf, XorOf, Joined;
  }

  lemma FirstOfBlock(flash: Flash, states: States, cpb: nat, done: seq<Loc>, pays: seq<seq<Byte>>, j: nat)
    requires j < |done| == |pays| && PageOn(flash, states, cpb, done, pays, j)
    ensures done[j].p == 0 ==> IsFirst(flash, states, done[j].b)
  {
    hide HdrAfter, Joined;
  }

  lemma PlaceNext(flash: Flash, states: States, start: nat, cpb: nat, done: seq<Loc>, j: nat, curBlock: int,
                  curChunk: int, nextBlock: int)
    requires j < |done| && cpb >= 1
    requires Linked(flash, states, start, cpb, done, j) && ReadPlace(cpb, start, done, j, curBlock, curChunk, nextBlock)
    ensures curBlock >= 0 ==>
              curChunk >= 0 && done[j] == Loc(curBlock, curChunk) && done[j].p > 0 && nextBlock == curBlock + 1
    ensures curBlock < 0 ==>
              done[j].p == 0 && 0 <= nextBlock <= done[j].b && NoFirst(flash, states, nextBlock, done[j].b)
  {
    hide NoFirst;
  }

  lemma ReadSums(s: seq<Byte>, sum: nat, xor: Byte, j: nat, size: nat, pays: seq<seq<Byte>>, got: seq<Byte>)
    requires HasRead(s, size, sum, xor, j, size, pays, got)
    ensures sum == SumOf(got) && xor == XorOf(got)
  {
    hide SumOf, XorOf, Joined;
  }

  lemma JoinNext(pays: seq<seq<Byte>>, j: nat)
    requires j < |pays|
    ensures Joined(pays[..j + 1]) == Joined(pays[..j]) + pays[j]
  {
    assert pays[..j + 1] == pays[..j] + [pays[j]];
    JoinMore(pays[..j], pays[j]);
  }

  lemma {:induction false} JoinPrefix(pays: seq<seq<Byte>>, j: nat)
    requires j <= |pays|
    ensures Joined(pays[..j]) <= Joined(pays)
    decreases |pays| - j
  {
    if j < |pays| {
      JoinNext(pays, j);
      JoinPrefix(pays, j + 1);
    } else {
      assert pays[..j] == pays;
    }
  }

  lemma GotPrefix(s: seq<Byte>, offs: nat, sum: nat, xor: Byte, pageSeq: nat, size: nat, pays: seq<seq<Byte>>,
                  got: seq<Byte>)
    requires HasRead(s, offs, sum, xor, pageSeq, size, pays, got)
    ensures got <= Joined(pays) && offs <= size
  {
    if pageSeq > 0 {
      JoinPrefix(pays, pageSeq);
      JoinNext(pays, pageSeq - 1);
      assert s[..offs] <= s;
    }
  }

  lemma StartRead(s: seq<Byte>, size: nat, pays: seq<seq<Byte>>, cpb: nat, start: nat, done: seq<Loc>)
    requires |s| == size
    ensures HasRead(s, size, 0, 0, 0, size, pays, []) && ReadPlace(cpb, start, done, 0, -1, -1, start)
    ensures CountBlocks(done[..0]) == 0
  {}

  /** The page after the first `j` is in the buffer. */
  lemma PageRead(s: seq<Byte>, sum: nat, xor: Byte, size: nat, pays: seq<seq<Byte>>, got: seq<Byte>, cpb: nat,
                 start: nat, done: seq<Loc>,
                 j: nat, curBlock: int, curChunk: int, nextBlock: int)
    requires j < |pays| == |done| && s == pays[j] && |s| == size && got == Joined(pays[..j]) && sum == SumOf(got)
    requires xor == XorOf(got)
    requires nextBlock == done[j].b + 1 && curChunk == done[j].p + 1 && curBlock == if done[j].p + 1 >= cpb then -1
                 else done[j].b
    ensures HasRead(s, 0, sum, xor, j + 1, size, pays, got)
    ensures ReadPlace(cpb, start, done, j + 1, curBlock, curChunk, nextBlock)
  {
    assert s[..0] == [];
  }

  /** With the buffer used up, what was read are whole pages. */
  lemma WholePages(s: seq<Byte>, sum: nat, xor: Byte, pageSeq: nat, size: nat, pays: seq<seq<Byte>>, got: seq<Byte>)
    requires HasRead(s, size, sum, xor, pageSeq, size, pays, got)
    ensures got == Joined(pays[..pageSeq])
  {
    if pageSeq > 0 {
      JoinNext(pays, pageSeq - 1);
      assert s[..size] == s;
    }
  }

  /** At the end of a page with bytes still to come there is another page. */
  lemma MorePages(s: seq<Byte>, offs: nat, sum: nat, xor: Byte, pageSeq: nat, size: nat, pays: seq<seq<Byte>>,
                  got: seq<Byte>)
    requires HasRead(s, offs, sum, xor, pageSeq, size, pays, got) && offs >= size && |got| < |Joined(pays)|
    ensures pageSeq < |pays| && offs == size
  {
    WholePages(s, sum, xor, pageSeq, size, pays, got);
    assert pays[..|pays|] == pays;
  }

  lemma OneRead(s: seq<Byte>, offs: nat, sum: nat, xor: Byte, pageSeq: nat, size: nat, pays: seq<seq<Byte>>,
                got: seq<Byte>, b: Byte)
    requires HasRead(s, offs, sum, xor, pageSeq, size, pays, got) && offs < size && b == s[offs]
    ensures HasRead(s, offs + 1, AddByte(sum, b), XorByte(xor, b), pageSeq, size, pays, got + [b])
    ensures got + [b] <= Joined(pays)
  {
    hide AddByte, XorByte;
    SumMore(got, b);
    assert s[..offs + 1] == s[..offs] + [b];
    GotPrefix(s, offs + 1, AddByte(sum, b), XorByte(xor, b), pageSeq, size, pays, got + [b]);
  }

  ghost predicate PageGood(flash: Flash, b: int, c: int, size: nat, pageSeq: nat, sum: nat, xor: Byte) {
    b >= 0 && c >= 0 && Loc(b, c) in flash && var p := flash[Loc(b, c)];
      p.Ck? && |p.bytes| == size && p.id == pageSeq + 1 && p.hdr == Hdr(VERSION, pageSeq, sum, xor)
  }

  /** Reading stops: with one byte of what was read so far altered, the next page's header does not
    match. */
  lemma AlteredStops(flash: Flash, at: Loc, size: nat, k: nat, before: seq<Byte>, i: nat, b: Byte)
    requires at in flash && flash[at].Ck? && flash[at].hdr == HdrAfter(k, before) && i < |before| && b != before[i]
    ensures var read := before[i := b]; !PageGood(flash, at.b, at.p, size, k, SumOf(read), XorOf(read))
  {
    OneByteTold(before, i, b);
  }

  // ---------- round trip ----------

  function Total(ns: seq<nat>): nat { if ns == [] then 0 else Total(ns[..|ns| - 1]) + ns[|ns| - 1] }

  lemma {:induction false} TotalMono(ns: seq<nat>, k: nat)
    requires k <= |ns|
    ensures Total(ns[..k]) <= Total(ns)
    decreases |ns| - k
  {
    if k < |ns| {
      assert ns[..k + 1][..k] == ns[..k];
      TotalMono(ns, k + 1);
    } else {
      assert ns[..k] == ns;
    }
  }

  /** A checkpoint of these pieces, opened, written and closed. */
  method Save(c: Stream, parts: seq<seq<Byte>>) returns (saved: bool)
    requires c.Tidy()
    modifies c, c.buf
    ensures |c.states| == old(|c.states|)
    // it fails only for want of blocks
    ensures !saved ==> old(c.nErased) <= c.reserved || NoneEmpty(c.states, c.start, |c.states|)
    ensures saved ==> c.Saved() && c.written == Joined(parts) && c.Exact()
  {
    hide NoneEmpty, Image, Joined, SumOf, XorOf, CountBlocks, Filled, Placed, IsFirst;
    saved := c.OpenWrite();
    if !saved { return; }
    NoneJoined(parts);
    for i := 0 to |parts|
      invariant c.Writing() && c.offs < c.size && c.written == Joined(parts[..i]) && |c.states| == old(|c.states|)
    {
      var n, ok := c.Wr(parts[i]);
      if !ok { return false; }
      JoinMore(parts[..i], parts[i]);
      assert parts[..i + 1] == parts[..i] + [parts[i]];
    }
    assert parts[..|parts|] == parts;
    saved := c.CloseWrite();
  }

  /** A saved stream read from the start, in pieces of the given lengths. */
  method Restore(c: Stream, cuts: seq<nat>) returns (out: seq<seq<Byte>>)
    requires c.Saved()
    modifies c, c.buf
    ensures c.done == old(c.done) && c.pays == old(c.pays) && c.written == old(c.written)
    ensures CountBlocks(old(c.done)) <= (old(|c.states|) - 1 - c.start) / 16 + 2 && Total(cuts) <= |old(c.written)| ==>
              |out| == |cuts| && Joined(out) == old(c.written)[..Total(cuts)] && forall i :: 0 <= i < |cuts| ==>
                |out[i]| == cuts[i]
  {
    hide Image, Joined, SumOf, XorOf, CountBlocks, HasRead, ReadPlace, Total;
    out := [];
    c.OpenRead();
    ghost var w, pays, d, m := c.written, c.pays, c.done, c.maxBlocks;
    ghost var fine := CountBlocks(d) <= m && Total(cuts) <= |w|;
    NoneTotal(cuts);
    NoneJoined(out);
    for i := 0 to |cuts|
      invariant c.Shaped() && c.pays == pays && c.done == d && c.written == w && c.maxBlocks == m && |out| == i
      invariant fine ==> c.ReadOk(Joined(out)) && Joined(out) <= Joined(pays) && |Joined(out)| == Total(cuts[..i])
      invariant fine ==> forall j :: 0 <= j < i ==> |out[j]| == cuts[j]
    {
      TotalMono(cuts, i + 1);
      TotalNext(cuts, i);
      var data := c.Rd(cuts[i], Joined(out));
      JoinMore(out, data);
      out := out + [data];
    }
    assert cuts[..|cuts|] == cuts;
  }

  /** What is written in any pieces is read back in any other pieces. */
  method SaveAndRestore(c: Stream, parts: seq<seq<Byte>>, cuts: seq<nat>) returns (saved: bool, out: seq<seq<Byte>>)
    requires c.Tidy()
    modifies c, c.buf
    ensures !saved ==> old(c.nErased) <= c.reserved || NoneEmpty(c.states, c.start, |c.states|)
    ensures saved ==> c.Exact() && c.written == Joined(parts)
    ensures saved && CountBlocks(c.done) <= (old(|c.states|) - 1 - c.start) / 16 + 2 &&
            Total(cuts) <= |Joined(parts)| ==>
              |out| == |cuts| && Joined(out) == Joined(parts)[..Total(cuts)] && forall i :: 0 <= i < |cuts| ==>
                |out[i]| == cuts[i]
  {
    hide NoneEmpty, Image, Joined, CountBlocks, IsFirst, Total;
    out := [];
    saved := Save(c, parts);
    if saved { out := Restore(c, cuts); }
  }

  lemma NoneJoined(parts: seq<seq<Byte>>)
    ensures Joined(parts[..0]) == [] && Joined([]) == []
  {}

  lemma NoneTotal(cuts: seq<nat>)
    ensures Total(cuts[..0]) == 0
  {}

  lemma TotalNext(cuts: seq<nat>, i: nat)
    requires i < |cuts|
    ensures Total(cuts[..i + 1]) == Total(cuts[..i]) + cuts[i]
  {
    assert cuts[..i + 1][..i] == cuts[..i];
  }

  // ---------- block accounting ----------

  lemma {:induction false} JoinLengths(pays: seq<seq<Byte>>, a: nat, b: nat, size: nat)
    requires a < b <= |pays| && forall j :: 0 <= j < |pays| ==> |pays[j]| == size
    ensures |Joined(pays[..a])| + size <= |Joined(pays[..b])|
    decreases b
  {
    assert pays[..b] == pays[..b - 1] + [pays[b - 1]];
    JoinMore(pays[..b - 1], pays[b - 1]);
    if a < b - 1 { JoinLengths(pays, a, b - 1, size); }
  }

  /** After reading back exactly what was written, the reader has counted the writer's blocks if
    and only if the stream did not end exactly at the end of a block: there the writer flushed
    one more page, into a block of its own, that the reader never needs. */
  lemma BlocksCountedExact(size: nat, done: seq<Loc>, pays: seq<seq<Byte>>, written: seq<Byte>,
                           s: seq<Byte>, offs: nat, sum: nat, xor: Byte, pageSeq: nat)
    requires |done| == |pays| > 0 && size > 0 && forall j :: 0 <= j < |pays| ==> |pays[j]| == size
    requires var full := Joined(pays[..|pays| - 1]); full <= written && |written| < |full| + size
    requires HasRead(s, offs, sum, xor, pageSeq, size, pays, written) && (pageSeq > 0 ==> offs > 0)
    ensures CountBlocks(done[..pageSeq]) == CountBlocks(done) <==>
              !(written == Joined(pays[..|pays| - 1]) && done[|done| - 1].p == 0)
  {
    var m := |pays| - 1;
    hide Joined, CountBlocks;
    assert done[..m + 1] == done;
    CountNext(done, m);
    ReadLength(s, offs, sum, xor, pageSeq, size, pays, written);
    if pageSeq < m { JoinLengths(pays, pageSeq, m, size); }
  }

  /** How many bytes whole pages and the one in the buffer come to. */
  lemma ReadLength(s: seq<Byte>, offs: nat, sum: nat, xor: Byte, pageSeq: nat, size: nat, pays: seq<seq<Byte>>,
                   got: seq<Byte>)
    requires HasRead(s, offs, sum, xor, pageSeq, size, pays, got) && forall j :: 0 <= j < |pays| ==> |pays[j]| == size
    ensures |got| <= |Joined(pays[..pageSeq])|
    ensures pageSeq > 0 ==> |got| == |Joined(pays[..pageSeq - 1])| + offs
  {
    if pageSeq > 0 {
      JoinNext(pays, pageSeq - 1);
    }
  }
}
