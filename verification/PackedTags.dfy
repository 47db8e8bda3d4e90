/** Chunk tags packed into sixteen spare bytes and guarded by the ECC. */
module PackedTags {
  import Ecc

  datatype EccResult = NoError | Fixed | Unfixed

  const TYPE_FILE: bv32 := 1
  const TYPE_HARDLINK: bv32 := 4

  /** The fields of struct yaffs_ext_tags that survive packing for YAFFS2. */
  datatype ExtTags = ExtTags(chunkUsed: bool, objId: bv32, chunkId: bv32, nBytes: bv32, seqNumber: bv32,
                             extraAvailable: bool, parentId: bv32, isShrink: bool, shadows: bool,
                             objType: bv32, fileSize: bv64, equivId: bv32)

  /** struct yaffs_packed_tags2_tags_only. */
  datatype TagsOnly = TagsOnly(seqNumber: bv32, objId: bv32, chunkId: bv32, nBytes: bv32)

  const EXTRA_HEADER_INFO_FLAG: bv32 := 0x8000_0000
  const EXTRA_SHRINK_FLAG: bv32 := 0x4000_0000
  const EXTRA_SHADOWS_FLAG: bv32 := 0x2000_0000
  const ALL_EXTRA_FLAGS: bv32 := 0xf000_0000

  const UNUSED: ExtTags := ExtTags(false, 0, 0, 0, 0, false, 0, false, false, 0, 0, 0)

  function Low32(size: bv64): bv32 { (size & 0xffff_ffff) as bv32 }

  function Widen(w: bv32): bv64 { w as bv64 }

  predicate TooLong(size: bv64) { size >> 31 != 0 }

  /** yaffs_check_tags_extra_packable. */
  predicate ExtraPackable(t: ExtTags) {
    t.chunkId == 0 && t.extraAvailable && !(t.objType == TYPE_FILE && TooLong(t.fileSize))
  }

  /** The object type goes into the top four bits of the object id. */
  function TypedId(id: bv32, ty: bv32): bv32 { (id & 0x0fff_ffff) | (ty << 28) }

  /** The parent id takes the place of the chunk id, with flags in the top four bits. */
  function ParentWord(parent: bv32, shrink: bool, shadows: bool): bv32 {
    EXTRA_HEADER_INFO_FLAG | parent | (if shrink then EXTRA_SHRINK_FLAG else 0) | (if shadows then EXTRA_SHADOWS_FLAG
        else 0)
  }

  /** yaffs_pack_tags2_tags_only. */
  function Pack(t: ExtTags): TagsOnly {
    if ExtraPackable(t) then
      TagsOnly(t.seqNumber,
               TypedId(t.objId, t.objType),
               ParentWord(t.parentId, t.isShrink, t.shadows),
               if t.objType == TYPE_HARDLINK then t.equivId
               else if t.objType == TYPE_FILE then Low32(t.fileSize) else 0)
    else
      TagsOnly(t.seqNumber, t.objId, t.chunkId, t.nBytes)
  }

  predicate HasFlag(w: bv32, flag: bv32) { w & flag != 0 }

  function WithoutFlags(w: bv32): bv32 { w & !ALL_EXTRA_FLAGS }

  function TypeIn(w: bv32): bv32 { w >> 28 }

  function IdIn(w: bv32): bv32 { w & 0x0fff_ffff }

  /** yaffs_unpack_tags2_tags_only. */
  function Unpack(p: TagsOnly): ExtTags {
    if p.seqNumber == 0xffff_ffff then UNUSED
    else
      var t := UNUSED.(chunkUsed := true, objId := p.objId, chunkId := p.chunkId, nBytes := p.nBytes,
                       seqNumber := p.seqNumber);
      if HasFlag(p.chunkId, EXTRA_HEADER_INFO_FLAG) then
        var u := t.(chunkId := 0, nBytes := 0, extraAvailable := true, parentId := WithoutFlags(p.chunkId),
                    isShrink := HasFlag(p.chunkId, EXTRA_SHRINK_FLAG),
                    shadows := HasFlag(p.chunkId, EXTRA_SHADOWS_FLAG),
                    objType := TypeIn(p.objId), objId := IdIn(p.objId));
        if u.objType == TYPE_HARDLINK then u.(equivId := p.nBytes) else u.(fileSize := Widen(p.nBytes))
      else t
  }

  /** What a reader gets back for tags `t`. */
  function Readable(t: ExtTags): ExtTags {
    if ExtraPackable(t) then
      t.(chunkUsed := true, chunkId := 0, nBytes := 0,
         fileSize := if t.objType == TYPE_FILE then t.fileSize else 0,
         equivId := if t.objType == TYPE_HARDLINK then t.equivId else 0)
    else
      t.(chunkUsed := true, extraAvailable := false, parentId := 0, isShrink := false, shadows := false,
         objType := 0, fileSize := 0, equivId := 0)
  }

  /** Header tags with extra information come back whole: identity, parent, flags, size or link
    target. */
  lemma HeaderRoundTrip(t: ExtTags)
    requires ExtraPackable(t) && t.seqNumber != 0xffff_ffff
    requires t.objId < 0x1000_0000 && t.parentId < 0x1000_0000 && t.objType < 16
    ensures Unpack(Pack(t)) == Readable(t)
  {
    hide TypedId, ParentWord, HasFlag, WithoutFlags, TypeIn, IdIn, Low32, Widen, TooLong;
    ParentBack(t.parentId, t.isShrink, t.shadows);
    IdBack(t.objId, t.objType);
    if t.objType == TYPE_FILE { SizeBack(t.fileSize); }
    WidenZero();
  }

  lemma ParentBack(parent: bv32, shrink: bool, shadows: bool)
    requires parent < 0x1000_0000
    ensures var c := ParentWord(parent, shrink, shadows);
            && HasFlag(c, EXTRA_HEADER_INFO_FLAG) && WithoutFlags(c) == parent
            && HasFlag(c, EXTRA_SHRINK_FLAG) == shrink && HasFlag(c, EXTRA_SHADOWS_FLAG) == shadows
  {}

  lemma IdBack(id: bv32, ty: bv32)
    requires id < 0x1000_0000 && ty < 16
    ensures IdIn(TypedId(id, ty)) == id && TypeIn(TypedId(id, ty)) == ty
  {}

  lemma WidenZero()
    ensures Widen(0) == 0
  {}

  lemma SizeBack(size: bv64)
    requires !TooLong(size)
    ensures Widen(Low32(size)) == size
  {}

  /** Plain tags come back as written exactly if the sequence number is not the erased pattern
    and the chunk id leaves its top bit clear. */
  lemma PlainRoundTripExact(t: ExtTags)
    requires !ExtraPackable(t)
    ensures Unpack(Pack(t)) == Readable(t) <==>
              t.seqNumber != 0xffff_ffff && !HasFlag(t.chunkId, EXTRA_HEADER_INFO_FLAG)
  {}

  // ---------- bytes ----------

  /** A word as it lies in memory, least significant byte first. */
  function WordBytes(w: bv32): seq<bv8> {
    [(w & 0xff) as bv8, ((w >> 8) & 0xff) as bv8, ((w >> 16) & 0xff) as bv8, ((w >> 24) & 0xff) as bv8]
  }

  /** Byte `x` in place `k` of a word. */
  function Place(x: bv8, k: nat): bv32
    requires k < 4
  {
    if k == 0 then x as bv32 else if k == 1 then (x as bv32) << 8 else if k == 2 then (x as bv32) << 16
    else (x as bv32) << 24
  }

  /** The four bytes occupy different bits of the word. */
  function JoinBytes(a: bv8, b: bv8, c: bv8, d: bv8): bv32 {
    Xor32(Xor32(Xor32(Place(a, 0), Place(b, 1)), Place(c, 2)), Place(d, 3))
  }

  function Xor32(a: bv32, b: bv32): bv32 { a ^ b }

  lemma JoinWord(w: bv32)
    ensures var b := WordBytes(w); JoinBytes(b[0], b[1], b[2], b[3]) == w
  {}

  function TagBytes(p: TagsOnly): (b: seq<bv8>)
    ensures |b| == 16
  {
    WordBytes(p.seqNumber) + WordBytes(p.objId) + WordBytes(p.chunkId) + WordBytes(p.nBytes)
  }

  function FromBytes(b: seq<bv8>): TagsOnly
    requires |b| == 16
  {
    TagsOnly(JoinBytes(b[0], b[1], b[2], b[3]), JoinBytes(b[4], b[5], b[6], b[7]),
             JoinBytes(b[8], b[9], b[10], b[11]), JoinBytes(b[12], b[13], b[14], b[15]))
  }

  lemma BytesRoundTrip(p: TagsOnly)
    ensures FromBytes(TagBytes(p)) == p
  {
    JoinWord(p.seqNumber);
    JoinWord(p.objId);
    JoinWord(p.chunkId);
    JoinWord(p.nBytes);
  }

  /** What the spare area holds for tags `t`: the bytes and their code. */
  datatype Spare = Spare(raw: seq<bv8>, ecc: Ecc.EccOther)

  /** yaffs_pack_tags2 with ECC. */
  function PackSpare(t: ExtTags): (s: Spare)
    ensures |s.raw| == 16
  {
    Spare(TagBytes(Pack(t)), Ecc.Ecc(TagBytes(Pack(t))))
  }

  function ResultOf(r: int): EccResult { if r == 0 then NoError else if r == 1 then Fixed else Unfixed }

  /** yaffs_unpack_tags2 with ECC, as a function of what was read. */
  function UnpackSpare(s: Spare): (ExtTags, EccResult)
    requires |s.raw| == 16
  {
    if FromBytes(s.raw).seqNumber == 0xffff_ffff then (Unpack(FromBytes(s.raw)), NoError)
    else
      var o := Ecc.Corrected(s.raw, s.ecc, Ecc.Ecc(s.raw));
      CorrectedLength(s.raw, s.ecc, Ecc.Ecc(s.raw));
      (Unpack(FromBytes(o.data)), ResultOf(o.result))
  }

  lemma CorrectedLength(data: seq<bv8>, readEcc: Ecc.EccOther, testEcc: Ecc.EccOther)
    ensures |Ecc.Corrected(data, readEcc, testEcc).data| == |data|
  {}

  /** yaffs_unpack_tags2: repairs the packed bytes in place, then unpacks them. */
  method UnpackTags2(raw: array<bv8>, ecc: Ecc.EccOther) returns (t: ExtTags, result: EccResult)
    requires raw.Length == 16
    modifies raw
    ensures (t, result) == UnpackSpare(Spare(old(raw[..]), ecc))
  {
    hide Unpack, FromBytes, Ecc.Corrected, Ecc.Ecc, JoinBytes;
    ghost var d0 := raw[..];
    result := NoError;
    var p := FromBytes(raw[..]);
    if p.seqNumber != 0xffff_ffff {
      var test := Ecc.EccCalcOther(raw);
      var r, ecc' := Ecc.EccCorrectOther(raw, ecc, test);
      result := ResultOf(r);
    }
    t := Unpack(FromBytes(raw[..]));
  }

  function Hit(s: Spare, f: Ecc.Flip): (r: Spare)
    requires |s.raw| == 16 && Ecc.FlipOk(f, 16)
    ensures |r.raw| == 16
  {
    Spare(Ecc.HitData(s.raw, f), Ecc.HitCode(s.ecc, f, 16))
  }

  /** The tags survive one flipped bit anywhere in the spare area, as long as the flip does not
    make the chunk look erased. */
  lemma TagsSurviveFlip(t: ExtTags, f: Ecc.Flip)
    requires Ecc.FlipOk(f, 16) && FromBytes(Hit(PackSpare(t), f).raw).seqNumber != 0xffff_ffff
    ensures UnpackSpare(Hit(PackSpare(t), f)) == (Unpack(Pack(t)), Fixed)
  {
    hide Unpack, FromBytes, Ecc.Corrected, Ecc.Ecc, Ecc.HitData, Ecc.HitCode, JoinBytes, TagBytes;
    assert 16 <= Ecc.Pow2(32) by { PowBig(); }
    Ecc.OneFlipRepaired(TagBytes(Pack(t)), f);
    BytesRoundTrip(Pack(t));
  }

  lemma PowBig()
    ensures 16 <= Ecc.Pow2(32)
  {
    PowGrows(4, 32);
    assert Ecc.Pow2(4) == 2 * Ecc.Pow2(3) && Ecc.Pow2(3) == 2 * Ecc.Pow2(2) && Ecc.Pow2(2) == 2 * Ecc.Pow2(1);
  }

  lemma {:induction false} PowGrows(m: nat, n: nat)
    requires m <= n
    ensures Ecc.Pow2(m) <= Ecc.Pow2(n)
    decreases n - m
  {
    if m < n { PowGrows(m, n - 1); }
  }

  /** Two flipped bits are reported, and what was read is passed on unrepaired. */
  lemma TagsReportTwoFlips(t: ExtTags, f: Ecc.Flip, g: Ecc.Flip)
    requires Ecc.FlipOk(f, 16) && Ecc.FlipOk(g, 16) && f != g
    requires FromBytes(Hit(Hit(PackSpare(t), f), g).raw).seqNumber != 0xffff_ffff
    ensures UnpackSpare(Hit(Hit(PackSpare(t), f), g)).1 == Unfixed
  {
    hide Unpack, FromBytes, Ecc.Corrected, Ecc.Ecc, Ecc.HitData, Ecc.HitCode, JoinBytes, TagBytes;
    assert 16 <= Ecc.Pow2(32) by { PowBig(); }
    Ecc.TwoFlipsReported(TagBytes(Pack(t)), f, g);
  }

  // ---------- which sequence numbers are safe ----------

  /** Some single flip turns the record into what looks like an erased page. */
  ghost predicate FlipErases(t: ExtTags)
  {
    exists f: Ecc.Flip :: Ecc.FlipOk(f, 16) && FromBytes(Hit(PackSpare(t), f).raw).seqNumber == 0xffff_ffff
  }

  function Power(k: nat, b: bv8): bv32
    requires k < 4
  {
    Place(Ecc.Mask(b), k)
  }

  lemma PlaceXor(x: bv8, m: bv8, k: nat)
    requires k < 4
    ensures Place(Ecc.XorC(x, m), k) == Xor32(Place(x, k), Place(m, k))
  {
    if k == 0 { } else if k == 1 { } else if k == 2 { } else { }
  }

  lemma XorSwap(a: bv32, b: bv32, m: bv32)
    ensures Xor32(Xor32(a, m), b) == Xor32(Xor32(a, b), m) && Xor32(a, Xor32(b, m)) == Xor32(Xor32(a, b), m)
  {}

  /** One byte of a word changed by the mask `m`. */
  lemma JoinXor(a: bv8, b: bv8, c: bv8, d: bv8, m: bv8)
    ensures JoinBytes(Ecc.XorC(a, m), b, c, d) == Xor32(JoinBytes(a, b, c, d), Place(m, 0))
    ensures JoinBytes(a, Ecc.XorC(b, m), c, d) == Xor32(JoinBytes(a, b, c, d), Place(m, 1))
    ensures JoinBytes(a, b, Ecc.XorC(c, m), d) == Xor32(JoinBytes(a, b, c, d), Place(m, 2))
    ensures JoinBytes(a, b, c, Ecc.XorC(d, m)) == Xor32(JoinBytes(a, b, c, d), Place(m, 3))
  {
    hide Place, Xor32, Ecc.XorC;
    var p, q, r, s := Place(a, 0), Place(b, 1), Place(c, 2), Place(d, 3);
    PlaceXor(a, m, 0);
    PlaceXor(b, m, 1);
    PlaceXor(c, m, 2);
    PlaceXor(d, m, 3);
    XorSwap(p, q, Place(m, 0));
    XorSwap(Xor32(p, q), r, Place(m, 0));
    XorSwap(Xor32(Xor32(p, q), r), s, Place(m, 0));
    XorSwap(p, q, Place(m, 1));
    XorSwap(Xor32(p, q), r, Place(m, 1));
    XorSwap(Xor32(Xor32(p, q), r), s, Place(m, 1));
    XorSwap(Xor32(p, q), r, Place(m, 2));
    XorSwap(Xor32(Xor32(p, q), r), s, Place(m, 2));
    XorSwap(Xor32(Xor32(p, q), r), s, Place(m, 3));
  }

  lemma SeqOf(raw: seq<bv8>)
    requires |raw| == 16
    ensures FromBytes(raw).seqNumber == JoinBytes(raw[0], raw[1], raw[2], raw[3])
  {
    hide JoinBytes;
  }

  /** Flipping a bit of the first word flips it in the sequence number read back. */
  lemma FlipSeq(raw: seq<bv8>, k: nat, b: bv8)
    requires |raw| == 16 && k < 16 && b < 8
    ensures FromBytes(Ecc.FlipData(raw, k, b)).seqNumber ==
              if k < 4 then Xor32(FromBytes(raw).seqNumber, Power(k, b)) else FromBytes(raw).seqNumber
  {
    hide JoinBytes, FromBytes, Place, Xor32, Ecc.Mask, Ecc.XorC;
    SeqOf(raw);
    SeqOf(Ecc.FlipData(raw, k, b));
    JoinXor(raw[0], raw[1], raw[2], raw[3], Ecc.Mask(b));
  }

  lemma HitSeq(t: ExtTags, f: Ecc.Flip)
    requires Ecc.FlipOk(f, 16)
    ensures FromBytes(Hit(PackSpare(t), f).raw).seqNumber ==
              if f.InData? && f.k < 4 then Xor32(t.seqNumber, Power(f.k, f.b)) else t.seqNumber
  {
    hide TagBytes, FromBytes, Ecc.Mask, Ecc.Ecc, Ecc.HitCode, TypedId, ParentWord, Low32, TooLong, Power, Xor32;
    hide Ecc.FlipData;
    BytesRoundTrip(Pack(t));
    if f.InData? { FlipSeq(TagBytes(Pack(t)), f.k, f.b); }
  }

  /** A record can be made to look erased by one flip exactly if its sequence number has fewer
    than two zero bits; in particular it cannot when the number is below 0x7fffffff. */
  lemma FlipErasesExact(t: ExtTags)
    ensures FlipErases(t) <==> FewZeros(t.seqNumber)
    ensures t.seqNumber < 0x7fff_ffff ==> !FewZeros(t.seqNumber)
  {
    LowSeqSafe(t.seqNumber);
    if FewZeros(t.seqNumber) {
      if t.seqNumber == 0xffff_ffff {
        HitSeq(t, Ecc.InCol(0));
      } else {
        var k, b := LoneZero(t.seqNumber);
        HitSeq(t, Ecc.InData(k, b));
      }
    } else {
      forall f: Ecc.Flip | Ecc.FlipOk(f, 16) ensures FromBytes(Hit(PackSpare(t), f).raw).seqNumber != 0xffff_ffff {
        HitSeq(t, f);
        if f.InData? && f.k < 4 { PowerHasOneBit(t.seqNumber, f.k, f.b); }
      }
    }
  }

  predicate FewZeros(w: bv32) { !w & (!w - 1) == 0 || w == 0xffff_ffff }

  lemma LowSeqSafe(w: bv32)
    ensures w < 0x7fff_ffff ==> !FewZeros(w)
  {}

  lemma PowerHasOneBit(w: bv32, k: nat, b: bv8)
    requires k < 4 && b < 8
    ensures Xor32(w, Power(k, b)) == 0xffff_ffff ==> FewZeros(w)
  {}

  lemma LoneZero(w: bv32) returns (k: nat, b: bv8)
    requires FewZeros(w) && w != 0xffff_ffff
    ensures k < 4 && b < 8 && Xor32(w, Power(k, b)) == 0xffff_ffff
  {
    var z := !w;
    k := if z & 0xff != 0 then 0 else if z & 0xff00 != 0 then 1 else if z & 0xff_0000 != 0 then 2 else 3;
    var y := (z | (z >> 8) | (z >> 16) | (z >> 24)) & 0xff;
    b := if y & 1 != 0 then 0 else if y & 2 != 0 then 1 else if y & 4 != 0 then 2 else if y & 8 != 0 then 3
         else if y & 16 != 0 then 4 else if y & 32 != 0 then 5 else if y & 64 != 0 then 6 else 7;
  }
}
