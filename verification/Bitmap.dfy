/** The chunk bitmap of a block: a byte buffer that stands for the set of pages in use. */
module Bitmap {

  /** 1 << k. */
  function Mask(k: nat): bv8
    requires k < 8
  {
    if k == 0 then 1 else if k == 1 then 2 else if k == 2 then 4 else if k == 3 then 8
    else if k == 4 then 16 else if k == 5 then 32 else if k == 6 then 64 else 128
  }

  predicate BitOf(b: bv8, k: nat)
    requires k < 8
  {
    b & Mask(k) != 0
  }

  predicate BitAt(s: seq<bv8>, c: nat)
    requires c < 8 * |s|
  {
    BitOf(s[c / 8], c % 8)
  }

  /** The pages in use. */
  ghost function Bits(s: seq<bv8>): set<nat> {
    set c | 0 <= c < 8 * |s| && BitAt(s, c)
  }

  function Or(b: bv8, m: bv8): bv8 { b | m }
  function AndNot(b: bv8, m: bv8): bv8 { b & !m }

  lemma MasksApart(k: nat, j: nat)
    requires k < 8 && j < 8 && k != j
    ensures Mask(k) & Mask(j) == 0
  {}

  lemma BitMoves(b: bv8, m: bv8, n: bv8)
    requires m & n == 0
    ensures Or(b, m) & n == b & n && AndNot(b, m) & n == b & n
  {}

  lemma ByteBits(b: bv8, k: nat, j: nat)
    requires k < 8 && j < 8
    ensures BitOf(Or(b, Mask(k)), j) <==> j == k || BitOf(b, j)
    ensures BitOf(AndNot(b, Mask(k)), j) <==> j != k && BitOf(b, j)
  {
    if j != k {
      hide Mask, Or, AndNot;
      MasksApart(k, j);
      BitMoves(b, Mask(k), Mask(j));
    }
  }

  /** yaffs_set_chunk_bit. */
  method SetChunkBit(bits: array<bv8>, chunk: nat)
    requires chunk < 8 * bits.Length
    modifies bits
    ensures Bits(bits[..]) == old(Bits(bits[..])) + {chunk}
  {
    hide *;
    ghost var was := bits[..];
    bits[chunk / 8] := Or(bits[chunk / 8], Mask(chunk % 8));
    PutBit(was, bits[..], chunk, true);
  }

  /** yaffs_clear_chunk_bit. */
  method ClearChunkBit(bits: array<bv8>, chunk: nat)
    requires chunk < 8 * bits.Length
    modifies bits
    ensures Bits(bits[..]) == old(Bits(bits[..])) - {chunk}
  {
    hide *;
    ghost var was := bits[..];
    bits[chunk / 8] := AndNot(bits[chunk / 8], Mask(chunk % 8));
    PutBit(was, bits[..], chunk, false);
  }

  lemma PutBit(s: seq<bv8>, t: seq<bv8>, chunk: nat, on: bool)
    requires chunk < 8 * |s|
    requires t == s[chunk / 8 := if on then Or(s[chunk / 8], Mask(chunk % 8))
                    else AndNot(s[chunk / 8], Mask(chunk % 8))]
    ensures Bits(t) == if on then Bits(s) + {chunk} else Bits(s) - {chunk}
  {
    hide BitOf, Mask, Or, AndNot;
    forall c | 0 <= c < 8 * |s| ensures BitAt(t, c) <==> if c == chunk then on else BitAt(s, c) {
      ByteBits(s[chunk / 8], chunk % 8, c % 8);
    }
  }

  /** yaffs_check_chunk_bit. */
  method CheckChunkBit(bits: array<bv8>, chunk: nat) returns (r: bool)
    requires chunk < 8 * bits.Length
    ensures r <==> chunk in Bits(bits[..])
  {
    r := bits[chunk / 8] & Mask(chunk % 8) != 0;
    assert BitAt(bits[..], chunk) <==> r;
  }

  lemma ZeroByte(b: bv8)
    ensures b == 0 <==> forall k :: 0 <= k < 8 ==> !BitOf(b, k)
  {
    if forall k :: 0 <= k < 8 ==> !BitOf(b, k) {
      assert !BitOf(b, 0) && !BitOf(b, 1) && !BitOf(b, 2) && !BitOf(b, 3);
      assert !BitOf(b, 4) && !BitOf(b, 5) && !BitOf(b, 6) && !BitOf(b, 7);
    }
  }

  /** yaffs_still_some_chunks. */
  method StillSomeChunks(bits: array<bv8>) returns (r: bool)
    ensures r <==> Bits(bits[..]) != {}
  {
    hide BitOf;
    for i := 0 to bits.Length
      invariant forall c :: 0 <= c < 8 * i ==> !BitAt(bits[..], c)
    {
      ZeroByte(bits[i]);
      if bits[i] != 0 {
        var k :| 0 <= k < 8 && BitOf(bits[i], k);
        assert BitAt(bits[..], 8 * i + k);
        assert 8 * i + k in Bits(bits[..]);
        return true;
      }
      forall c | 8 * i <= c < 8 * i + 8 ensures !BitAt(bits[..], c) {
        assert c / 8 == i;
      }
    }
    return false;
  }

  /** hweight8: set bits among the low `n`. */
  function Weight(b: bv8, n: nat): nat
    requires n <= 8
  {
    if n == 0 then 0 else Weight(b, n - 1) + if BitOf(b, n - 1) then 1 else 0
  }

  ghost function BitsBelow(s: seq<bv8>, n: nat): set<nat>
    requires n <= 8 * |s|
  {
    set c | 0 <= c < n && BitAt(s, c)
  }

  lemma {:induction false} WeightCounts(s: seq<bv8>, i: nat, n: nat)
    requires i < |s| && n <= 8
    ensures |BitsBelow(s, 8 * i + n)| == |BitsBelow(s, 8 * i)| + Weight(s[i], n)
    decreases n
  {
    hide BitOf;
    if n > 0 {
      WeightCounts(s, i, n - 1);
      var c := 8 * i + n - 1;
      assert c / 8 == i && c % 8 == n - 1;
      if BitAt(s, c) {
        assert BitsBelow(s, c + 1) == BitsBelow(s, c) + {c};
      } else {
        assert BitsBelow(s, c + 1) == BitsBelow(s, c);
      }
    }
  }

  /** yaffs_count_chunk_bits. */
  method CountChunkBits(bits: array<bv8>) returns (n: nat)
    ensures n == |Bits(bits[..])|
  {
    hide Weight, BitAt;
    ghost var s := bits[..];
    n := 0;
    for i := 0 to bits.Length
      invariant n == |BitsBelow(s, 8 * i)|
    {
      WeightCounts(s, i, 8);
      n := n + Weight(bits[i], 8);
    }
    assert BitsBelow(s, 8 * |s|) == Bits(s);
  }
}
