/** A checkpoint on flash: a byte stream cut into pages, each headed by the running checksums of
  all bytes before it, the pages running through blocks found one after another. */
module CheckptImage {

  type Byte = bv8

  const VERSION := 7

  /** struct yaffs_checkpt_chunk_hdr. */
  datatype Hdr = Hdr(version: nat, pageSeq: nat, sum: nat, xor: Byte)

  datatype Loc = Loc(b: nat, p: nat)

  /** Pages with the checkpoint sequence number carry a hint, a chunk id, a header and bytes. */
  datatype Page = Ck(hint: int, id: nat, hdr: Hdr, bytes: seq<Byte>) | Other

  datatype BlockState = Empty | Checkpoint | Dead | InUse

  type Flash = map<Loc, Page>
  type States = seq<BlockState>

  function Zeros(n: nat): seq<Byte> { seq(n, _ => 0) }

  /** checkpt_sum and checkpt_xor, one byte on. */
  function AddByte(sum: nat, b: Byte): nat { (sum + b as nat) % 0x1_0000_0000 }
  function XorByte(x: Byte, b: Byte): Byte { x ^ b }

  function SumOf(s: seq<Byte>): nat {
    if s == [] then 0 else AddByte(SumOf(s[..|s| - 1]), s[|s| - 1])
  }

  function XorOf(s: seq<Byte>): Byte {
    if s == [] then 0 else XorByte(XorOf(s[..|s| - 1]), s[|s| - 1])
  }

  lemma SumMore(s: seq<Byte>, b: Byte)
    ensures SumOf(s + [b]) == AddByte(SumOf(s), b) && XorOf(s + [b]) == XorByte(XorOf(s), b)
  {
    hide AddByte, XorByte;
    assert (s + [b])[..|s|] == s;
  }

  function ByteSum(s: seq<Byte>): nat {
    if s == [] then 0 else ByteSum(s[..|s| - 1]) + s[|s| - 1] as nat
  }

  lemma {:induction false} SumIsByteSum(s: seq<Byte>)
    ensures SumOf(s) == ByteSum(s) % 0x1_0000_0000
    decreases |s|
  {
    if s != [] {
      SumIsByteSum(s[..|s| - 1]);
      ModAdd(ByteSum(s[..|s| - 1]), s[|s| - 1] as nat);
    }
  }

  lemma ModAdd(a: nat, b: nat)
    ensures (a % 0x1_0000_0000 + b) % 0x1_0000_0000 == (a + b) % 0x1_0000_0000
  {}

  lemma {:induction false} ByteSumPut(s: seq<Byte>, i: nat, b: Byte)
    requires i < |s|
    ensures ByteSum(s[i := b]) == ByteSum(s) - s[i] as nat + b as nat
    ensures XorOf(s[i := b]) == XorOf(s) ^ s[i] ^ b
    decreases |s|
  {
    var n := |s| - 1;
    var t := s[i := b];
    if i == n {
      assert t[..n] == s[..n];
      XorTwice(XorOf(s[..n]), s[n], b);
    } else {
      assert t[..n] == s[..n][i := b];
      ByteSumPut(s[..n], i, b);
      XorSwap(XorOf(s[..n]), s[i], b, s[n]);
    }
  }

  lemma XorTwice(x: Byte, a: Byte, b: Byte)
    ensures x ^ b == x ^ a ^ a ^ b
  {}

  lemma XorSwap(x: Byte, a: Byte, b: Byte, c: Byte)
    ensures (x ^ a ^ b) ^ c == (x ^ c) ^ a ^ b
  {}

  lemma XorDiffers(x: Byte, a: Byte, b: Byte)
    requires a != b
    ensures x ^ a ^ b != x
  {}

  lemma AsNats(a: Byte, b: Byte)
    requires a != b
    ensures a as nat != b as nat && a as nat < 256 && b as nat < 256
  {}

  lemma ModFar(x: nat, a: nat, b: nat)
    requires a < 256 && b < 256 && a != b && a <= x
    ensures (x - a + b) % 0x1_0000_0000 != x % 0x1_0000_0000
  {}

  lemma {:induction false} ByteSumAt(s: seq<Byte>, i: nat)
    requires i < |s|
    ensures s[i] as nat <= ByteSum(s)
    decreases |s|
  {
    if i < |s| - 1 { ByteSumAt(s[..|s| - 1], i); }
  }

  /** Each of the two checksums tells any one altered byte. */
  lemma OneByteTold(s: seq<Byte>, i: nat, b: Byte)
    requires i < |s| && b != s[i]
    ensures SumOf(s[i := b]) != SumOf(s) && XorOf(s[i := b]) != XorOf(s)
  {
    hide SumOf, XorOf, ByteSum;
    AsNats(s[i], b);
    ByteSumAt(s, i);
    ByteSumPut(s, i, b);
    XorDiffers(XorOf(s), s[i], b);
    SumIsByteSum(s);
    SumIsByteSum(s[i := b]);
    ModFar(ByteSum(s), s[i] as nat, b as nat);
  }

  function Joined(pays: seq<seq<Byte>>): seq<Byte> {
    if pays == [] then [] else Joined(pays[..|pays| - 1]) + pays[|pays| - 1]
  }

  lemma JoinMore(pays: seq<seq<Byte>>, p: seq<Byte>)
    ensures Joined(pays + [p]) == Joined(pays) + p
  {
    assert (pays + [p])[..|pays|] == pays;
  }

  /** The header of the page that follows these bytes. */
  function HdrAfter(k: nat, before: seq<Byte>): Hdr { Hdr(VERSION, k, SumOf(before), XorOf(before)) }

  // ---------- where the pages are ----------

  /** The first page of the block is a checkpoint page of a block not given up. */
  predicate IsFirst(flash: Flash, states: States, b: nat) {
    b < |states| && Loc(b, 0) in flash && flash[Loc(b, 0)].Ck? && states[b] != Dead
  }

  ghost predicate NoFirst(flash: Flash, states: States, a: nat, b: nat) {
    forall i :: a <= i < b ==> !IsFirst(flash, states, i)
  }

  /** Page `j` follows the one before it: in the same block, or at the start of the next block
    that begins with a checkpoint page. */
  ghost predicate Linked(flash: Flash, states: States, start: nat, cpb: nat, done: seq<Loc>, j: nat)
    requires j < |done|
  {
    if j == 0 then done[0].p == 0 && start <= done[0].b && NoFirst(flash, states, start, done[0].b)
    else if done[j - 1].p + 1 < cpb then done[j] == Loc(done[j - 1].b, done[j - 1].p + 1)
    else done[j].p == 0 && done[j - 1].b < done[j].b && NoFirst(flash, states, done[j - 1].b + 1, done[j].b)
  }

  /** Page `j` of the stream is on flash where it should be. */
  ghost predicate PageOn(flash: Flash, states: States, cpb: nat, done: seq<Loc>, pays: seq<seq<Byte>>, j: nat)
    requires j < |done| == |pays|
  {
    && done[j].b < |states| && states[done[j].b] != Dead && done[j].p < cpb && done[j] in flash
    && flash[done[j]] == Ck(done[j].b + 1, j + 1, HdrAfter(j, Joined(pays[..j])), pays[j])
  }

  /** The pages with payloads `pays`, of `size` bytes each, lie at `done`. */
  ghost predicate Image(flash: Flash, states: States, start: nat, cpb: nat, size: nat, done: seq<Loc>,
                        pays: seq<seq<Byte>>) {
    && |done| == |pays|
    && (forall j :: 0 <= j < |pays| ==> |pays[j]| == size)
    && forall j :: 0 <= j < |done| ==>
         Linked(flash, states, start, cpb, done, j) && PageOn(flash, states, cpb, done, pays, j)
  }

  function CountBlocks(done: seq<Loc>): nat {
    if done == [] then 0 else CountBlocks(done[..|done| - 1]) + if done[|done| - 1].p == 0 then 1 else 0
  }

  lemma {:induction false} CountMono(done: seq<Loc>, k: nat)
    requires k <= |done|
    ensures CountBlocks(done[..k]) <= CountBlocks(done)
    decreases |done|
  {
    if k < |done| {
      assert done[..|done| - 1][..k] == done[..k];
      CountMono(done[..|done| - 1], k);
    } else {
      assert done[..k] == done;
    }
  }

  lemma CountNext(done: seq<Loc>, k: nat)
    requires k < |done|
    ensures CountBlocks(done[..k + 1]) == CountBlocks(done[..k]) + if done[k].p == 0 then 1 else 0
  {
    assert done[..k + 1][..k] == done[..k];
  }

  /** Pages lie in increasing order. */
  lemma {:induction false} Rising(flash: Flash, states: States, start: nat, cpb: nat, size: nat, done: seq<Loc>,
                                  pays: seq<seq<Byte>>, j: nat, k: nat)
    requires Image(flash, states, start, cpb, size, done, pays) && j < k < |done|
    ensures done[j].b < done[k].b || (done[j].b == done[k].b && done[j].p < done[k].p)
    decreases k
  {
    assert Linked(flash, states, start, cpb, done, k) && PageOn(flash, states, cpb, done, pays, k - 1) &&
    PageOn(flash, states, cpb, done, pays, k);
    if j < k - 1 { Rising(flash, states, start, cpb, size, done, pays, j, k - 1); }
  }

  /** One page more, after all those there are. */
  lemma ImageMore(flash: Flash, states: States, start: nat, cpb: nat, size: nat, done: seq<Loc>, pays: seq<seq<Byte>>,
                  states': States, loc: Loc, pay: seq<Byte>)
    requires Image(flash, states, start, cpb, size, done, pays) && |pay| == size && loc.p < cpb
    requires |states'| == |states| && loc.b < |states| && states'[loc.b] != Dead
    requires forall i :: 0 <= i < |states| ==> states'[i] == states[i] || (i == loc.b && states[i] != Dead)
    requires if done == [] then loc.p == 0 && start <= loc.b && NoFirst(flash, states, start, loc.b)
             else var l := done[|done| - 1];
                  if l.p + 1 < cpb then loc == Loc(l.b, l.p + 1)
                  else loc.p == 0 && l.b < loc.b && NoFirst(flash, states, l.b + 1, loc.b)
    ensures var k := |pays|; var flash' := flash[loc := Ck(loc.b + 1, k + 1, HdrAfter(k, Joined(pays)), pay)];
            Image(flash', states', start, cpb, size, done + [loc], pays + [pay])
  {
    hide *;
    var k := |pays|;
    var flash' := flash[loc := Ck(loc.b + 1, k + 1, HdrAfter(k, Joined(pays)), pay)];
    ImageSize(flash, states, start, cpb, size, done, pays);
    NewPage(flash, states, start, cpb, size, done, pays, states', loc, pay);
    OldPages(flash, states, start, cpb, size, done, pays, states', loc, pay, flash');
    MakeImage(flash', states', start, cpb, size, done, pays, loc, pay);
  }

  /** The pages so far stay where they are. */
  ghost predicate OldOk(flash: Flash, states: States, start: nat, cpb: nat, done: seq<Loc>, pays: seq<seq<Byte>>,
                        loc: Loc, pay: seq<Byte>) {
    |done| == |pays| && forall j :: 0 <= j < |done| ==>
      Linked(flash, states, start, cpb, done + [loc], j) && PageOn(flash, states, cpb, done + [loc], pays + [pay], j)
  }

  lemma OldPages(flash: Flash, states: States, start: nat, cpb: nat, size: nat, done: seq<Loc>, pays: seq<seq<Byte>>,
                 states': States, loc: Loc, pay: seq<Byte>, flash': Flash)
    requires Image(flash, states, start, cpb, size, done, pays)
    requires |states'| == |states| && forall i :: 0 <= i < |states| ==>
               states'[i] == states[i] || (i == loc.b && states'[i] != Dead)
    requires forall q :: q != loc ==> (q in flash' <==> q in flash) && (q in flash ==> flash'[q] == flash[q])
    requires done != [] ==>
               var l := done[|done| - 1]; if l.p + 1 < cpb then loc == Loc(l.b, l.p + 1) else loc.p == 0 && l.b < loc.b
    ensures OldOk(flash', states', start, cpb, done, pays, loc, pay)
  {
    ImageSize(flash, states, start, cpb, size, done, pays);
    hide Image, Linked, PageOn;
    forall j | 0 <= j < |done|
      ensures Linked(flash', states', start, cpb, done + [loc], j)
      ensures PageOn(flash', states', cpb, done + [loc], pays + [pay], j)
    {
      OldLink(flash, states, start, cpb, size, done, pays, states', loc, flash', j);
      OldPage(flash, states, start, cpb, size, done, pays, states', loc, pay, flash', j);
    }
  }

  lemma ImageSize(flash: Flash, states: States, start: nat, cpb: nat, size: nat, done: seq<Loc>, pays: seq<seq<Byte>>)
    requires Image(flash, states, start, cpb, size, done, pays)
    ensures |done| == |pays| && forall j :: 0 <= j < |pays| ==> |pays[j]| == size
  {}

  lemma MakeImage(flash: Flash, states: States, start: nat, cpb: nat, size: nat, done: seq<Loc>, pays: seq<seq<Byte>>,
                  loc: Loc, pay: seq<Byte>)
    requires OldOk(flash, states, start, cpb, done, pays, loc, pay) && |pay| == size && forall j :: 0 <= j < |pays| ==>
               |pays[j]| == size
    requires |done| == |pays| && Linked(flash, states, start, cpb, done + [loc], |pays|)
    requires PageOn(flash, states, cpb, done + [loc], pays + [pay], |pays|)
    ensures Image(flash, states, start, cpb, size, done + [loc], pays + [pay])
  {
    hide Linked, PageOn;
  }

  lemma NewPage(flash: Flash, states: States, start: nat, cpb: nat, size: nat, done: seq<Loc>, pays: seq<seq<Byte>>,
                states': States, loc: Loc, pay: seq<Byte>)
    requires |done| == |pays| && loc.p < cpb && |states'| == |states| && loc.b < |states| && states'[loc.b] != Dead
    requires forall i :: 0 <= i < |states| && i != loc.b ==> states'[i] == states[i]
    requires if done == [] then loc.p == 0 && start <= loc.b && NoFirst(flash, states, start, loc.b)
             else var l := done[|done| - 1];
                  if l.p + 1 < cpb then loc == Loc(l.b, l.p + 1)
                  else loc.p == 0 && l.b < loc.b && NoFirst(flash, states, l.b + 1, loc.b)
    ensures var k := |pays|; var flash' := flash[loc := Ck(loc.b + 1, k + 1, HdrAfter(k, Joined(pays)), pay)];
            Linked(flash', states', start, cpb, done + [loc], k) &&
            PageOn(flash', states', cpb, done + [loc], pays + [pay], k)
  {
    var k := |pays|;
    var flash' := flash[loc := Ck(loc.b + 1, k + 1, HdrAfter(k, Joined(pays)), pay)];
    assert (pays + [pay])[..k] == pays;
    hide IsFirst;
    if k > 0 {
      if done[k - 1].p + 1 >= cpb { NoFirstKept(flash, states, flash', states', done[k - 1].b + 1, loc.b, loc); }
    } else {
      NoFirstKept(flash, states, flash', states', start, loc.b, loc);
    }
  }

  lemma OldLink(flash: Flash, states: States, start: nat, cpb: nat, size: nat, done: seq<Loc>, pays: seq<seq<Byte>>,
                states': States, loc: Loc, flash': Flash, j: nat)
    requires Image(flash, states, start, cpb, size, done, pays) && j < |done|
    requires |states'| == |states| && forall i :: 0 <= i < |states| && i != loc.b ==> states'[i] == states[i]
    requires forall q :: q != loc ==> (q in flash' <==> q in flash) && (q in flash ==> flash'[q] == flash[q])
    requires var l := done[|done| - 1]; if l.p + 1 < cpb then loc == Loc(l.b, l.p + 1) else loc.p == 0 && l.b < loc.b
    ensures Linked(flash', states', start, cpb, done + [loc], j)
  {
    assert Linked(flash, states, start, cpb, done, j);
    Before(flash, states, start, cpb, size, done, pays, loc, j);
    hide Image, PageOn, IsFirst;
    if j == 0 {
      NoFirstKept(flash, states, flash', states', start, done[0].b, loc);
    } else if done[j - 1].p + 1 >= cpb {
      NoFirstKept(flash, states, flash', states', done[j - 1].b + 1, done[j].b, loc);
    }
  }

  lemma OldPage(flash: Flash, states: States, start: nat, cpb: nat, size: nat, done: seq<Loc>, pays: seq<seq<Byte>>,
                states': States, loc: Loc, pay: seq<Byte>, flash': Flash, j: nat)
    requires Image(flash, states, start, cpb, size, done, pays) && j < |done|
    requires |states'| == |states| && forall i :: 0 <= i < |states| ==>
               states'[i] == states[i] || (i == loc.b && states'[i] != Dead)
    requires forall q :: q != loc ==> (q in flash' <==> q in flash) && (q in flash ==> flash'[q] == flash[q])
    requires var l := done[|done| - 1]; if l.p + 1 < cpb then loc == Loc(l.b, l.p + 1) else loc.p == 0 && l.b < loc.b
    ensures PageOn(flash', states', cpb, done + [loc], pays + [pay], j)
  {
    assert PageOn(flash, states, cpb, done, pays, j);
    Before(flash, states, start, cpb, size, done, pays, loc, j);
    assert (pays + [pay])[..j] == pays[..j];
  }

  lemma NoFirstKept(flash: Flash, states: States, flash': Flash, states': States, a: nat, b: nat, loc: Loc)
    requires NoFirst(flash, states, a, b) && b <= loc.b && |states'| == |states|
    requires forall i :: 0 <= i < |states| && i != loc.b ==> states'[i] == states[i]
    requires forall q :: q != loc ==> (q in flash' <==> q in flash) && (q in flash ==> flash'[q] == flash[q])
    ensures NoFirst(flash', states', a, b)
  {
    forall i | a <= i < b ensures !IsFirst(flash', states', i) { assert !IsFirst(flash, states, i); }
  }

  lemma Before(flash: Flash, states: States, start: nat, cpb: nat, size: nat, done: seq<Loc>, pays: seq<seq<Byte>>,
               loc: Loc, j: nat)
    requires Image(flash, states, start, cpb, size, done, pays) && j < |done|
    requires var l := done[|done| - 1]; if l.p + 1 < cpb then loc == Loc(l.b, l.p + 1) else loc.p == 0 && l.b < loc.b
    ensures done[j] != loc && done[j].b <= loc.b && (done[j].b == loc.b ==> done[j].p < loc.p)
  {
    if j < |done| - 1 { Rising(flash, states, start, cpb, size, done, pays, j, |done| - 1); }
  }
}
