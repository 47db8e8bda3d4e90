/** The n-byte ECC: column parity of the bits of each byte, line parity of the positions of
  the odd bytes.

  32-bit words are written as their bits, least significant first, so that exclusive or,
  complement and weight are plain facts about sequences. */
module Ecc {

  type Word = w: seq<bool> | |w| == 32 witness seq(32, _ => false)

  function Zero(): Word { seq(32, _ => false) }

  function XorW(a: Word, b: Word): Word {
    seq(32, i requires 0 <= i < 32 => a[i] != b[i])
  }

  function NotW(a: Word): Word {
    seq(32, i requires 0 <= i < 32 => !a[i])
  }

  /** The word with only bit `j` set. */
  function BitW(j: nat): Word
    requires j < 32
  {
    seq(32, i => i == j)
  }

  function Pow2(n: nat): nat { if n == 0 then 1 else 2 * Pow2(n - 1) }

  /** The low `n` bits of `k`. */
  function BitsOf(k: nat, n: nat): (w: seq<bool>)
    ensures |w| == n
  {
    if n == 0 then [] else [k % 2 == 1] + BitsOf(k / 2, n - 1)
  }

  function ValueOf(w: seq<bool>): nat {
    if w == [] then 0 else (if w[0] then 1 else 0) + 2 * ValueOf(w[1..])
  }

  function ToWord(k: nat): Word { BitsOf(k, 32) }

  lemma {:induction false} BitsRoundTrip(k: nat, n: nat)
    requires k < Pow2(n)
    ensures ValueOf(BitsOf(k, n)) == k
  {
    if n > 0 { BitsRoundTrip(k / 2, n - 1); }
  }

  /** Number of set bits: hweight32. */
  function Weight(w: seq<bool>): nat {
    if w == [] then 0 else (if w[0] then 1 else 0) + Weight(w[1..])
  }

  function WeightB(x: bv8): nat {
    (if x & 1 != 0 then 1 else 0) + (if x & 2 != 0 then 1 else 0) + (if x & 4 != 0 then 1 else 0) +
    (if x & 8 != 0 then 1 else 0) + (if x & 16 != 0 then 1 else 0) + (if x & 32 != 0 then 1 else 0) +
    (if x & 64 != 0 then 1 else 0) + (if x & 128 != 0 then 1 else 0)
  }

  // ---------- the code ----------

  function XorC(a: bv8, b: bv8): bv8 { a ^ b }

  /** column_parity_table: the table is linear in the bits of the byte, with these entries for
    the single bits.  Bit 0 is the parity of the byte, bits 2 to 7 the column parities. */
  function ColumnParity(b: bv8): bv8 { XorAll(Picks(b)) }

  function Picks(b: bv8): (s: seq<bv8>)
    ensures |s| == 8
  {
    [Pick(b, 1, 0x55), Pick(b, 2, 0x59), Pick(b, 4, 0x65), Pick(b, 8, 0x69),
     Pick(b, 16, 0x95), Pick(b, 32, 0x99), Pick(b, 64, 0xa5), Pick(b, 128, 0xa9)]
  }

  function Pick(b: bv8, m: bv8, v: bv8): bv8 { if b & m != 0 then v else 0 }

  function XorAll(s: seq<bv8>): bv8 { if s == [] then 0 else XorC(XorAll(s[..|s| - 1]), s[|s| - 1]) }

  predicate Odd(b: bv8) { ColumnParity(b) & 1 != 0 }

  /** struct yaffs_ecc_other. */
  datatype EccOther = EccOther(col: bv8, line: Word, prime: Word)

  /** The parities before the column bits are cut out of the accumulated byte. */
  function Parities(data: seq<bv8>): EccOther {
    if data == [] then EccOther(0, Zero(), Zero())
    else
      var n := |data| - 1;
      var p := Parities(data[..n]);
      var col := p.col ^ ColumnParity(data[n]);
      if Odd(data[n]) then EccOther(col, XorW(p.line, ToWord(n)), XorW(p.prime, NotW(ToWord(n))))
      else EccOther(col, p.line, p.prime)
  }

  /** The six column parity bits out of the accumulated table entries. */
  function Cut(c: bv8): bv8 { (c >> 2) & 0x3f }

  function Ecc(data: seq<bv8>): EccOther {
    var p := Parities(data);
    p.(col := Cut(p.col))
  }

  /** yaffs_ecc_calc_other. */
  lemma ParitiesStep(data: seq<bv8>)
    requires data != []
    ensures var n := |data| - 1; var p, q := Parities(data[..n]), Parities(data);
            && q.col == XorC(p.col, ColumnParity(data[n]))
            && q.line == (if Odd(data[n]) then XorW(p.line, ToWord(n)) else p.line)
            && q.prime == (if Odd(data[n]) then XorW(p.prime, NotW(ToWord(n))) else p.prime)
  {}

  lemma ParitiesNone()
    ensures Parities([]) == EccOther(0, Zero(), Zero())
  {}

  lemma OddIs(b: bv8)
    ensures Odd(b) <==> ColumnParity(b) & 1 != 0
  {}

  lemma EccIs(data: seq<bv8>)
    ensures var p := Parities(data); Ecc(data) == EccOther(Cut(p.col), p.line, p.prime)
  {}

  method EccCalcOther(data: array<bv8>) returns (ecc: EccOther)
    ensures ecc == Ecc(data[..])
  {
    hide *;
    ParitiesNone();
    var col: bv8 := 0;
    var line, prime := Zero(), Zero();
    for i := 0 to data.Length
      invariant EccOther(col, line, prime) == Parities(data[..i])
    {
      assert data[..i + 1][..i] == data[..i];
      ParitiesStep(data[..i + 1]);
      var b := ColumnParity(data[i]);
      OddIs(data[i]);
      col := XorC(col, b);
      if b & 1 != 0 {
        line := XorW(line, ToWord(i));
        prime := XorW(prime, NotW(ToWord(i)));
      }
    }
    assert data[..data.Length] == data[..];
    EccIs(data[..]);
    ecc := EccOther(Cut(col), line, prime);
  }

  /** The bit number encoded in the column delta of a single data error. */
  function ErrorBit(deltaCol: bv8): bv8 {
    (if deltaCol & 0x20 != 0 then 4 else 0) | (if deltaCol & 0x08 != 0 then 2 else 0) | (if deltaCol & 0x02 != 0 then 1
        else 0)
  }

  /** 1 << bit, for bit below 8. */
  function Mask(bit: bv8): bv8 {
    if bit == 0 then 1 else if bit == 1 then 2 else if bit == 2 then 4 else if bit == 3 then 8
    else if bit == 4 then 16 else if bit == 5 then 32 else if bit == 6 then 64 else 128
  }

  predicate ColPairs(d: bv8) { (d ^ (d >> 1)) & 0x15 == 0x15 }

  /** What the deltas between the stored and the recomputed code say about `n` bytes. */
  datatype Verdict = Clean | FlippedData(k: nat, bit: bv8) | FlippedCode | Hopeless

  function Judge(dc: bv8, dl: Word, dp: Word, n: nat): (v: Verdict)
    ensures v.FlippedData? ==> v.k < n
  {
    if dc == 0 && dl == Zero() && dp == Zero() then Clean
    else if dl == NotW(dp) && ColPairs(dc) then
      if ValueOf(dl) >= n then Hopeless else FlippedData(ValueOf(dl), ErrorBit(dc))
    else if Weight(dl) + Weight(dp) + WeightB(dc) == 1 then FlippedCode
    else Hopeless
  }

  function JudgeCodes(readEcc: EccOther, testEcc: EccOther, n: nat): (v: Verdict)
    ensures v.FlippedData? ==> v.k < n
  {
    Judge(XorC(readEcc.col, testEcc.col), XorW(readEcc.line, testEcc.line), XorW(readEcc.prime, testEcc.prime), n)
  }

  datatype Outcome = Outcome(result: int, data: seq<bv8>, readEcc: EccOther)

  /** What the correction does to the data and to the stored code. */
  function Corrected(data: seq<bv8>, readEcc: EccOther, testEcc: EccOther): Outcome {
    match JudgeCodes(readEcc, testEcc, |data|)
    case Clean => Outcome(0, data, readEcc)
    case FlippedData(k, bit) => Outcome(1, FlipData(data, k, bit), readEcc)
    case FlippedCode => Outcome(1, data, testEcc)
    case Hopeless => Outcome(-1, data, readEcc)
  }

  /** Bit `b` of byte `k` flipped. */
  function FlipData(data: seq<bv8>, k: nat, b: bv8): seq<bv8>
    requires k < |data|
  {
    data[k := XorC(data[k], Mask(b))]
  }

  /** yaffs_ecc_correct_other, in place. */
  method EccCorrectOther(data: array<bv8>, readEcc: EccOther, testEcc: EccOther)
      returns (result: int, readEcc': EccOther)
    modifies data
    ensures Outcome(result, data[..], readEcc') == Corrected(old(data[..]), readEcc, testEcc)
  {
    hide XorW, NotW, Zero, ValueOf, Weight, WeightB, ColPairs, Mask, ErrorBit, Judge;
    ghost var d0 := data[..];
    var v := JudgeCodes(readEcc, testEcc, data.Length);
    match v
    case Clean => return 0, readEcc;
    case FlippedData(k, bit) =>
      data[k] := data[k] ^ Mask(bit);
      assert data[..] == FlipData(d0, k, bit);
      return 1, readEcc;
    case FlippedCode => return 1, testEcc;
    case Hopeless => return -1, readEcc;
  }

  // ---------- flips ----------

  lemma {:induction false} XorAllMoves(s: seq<bv8>, k: nat, v: bv8)
    requires k < |s|
    ensures XorAll(s[k := XorC(s[k], v)]) == XorC(XorAll(s), v)
    decreases |s|
  {
    hide XorC;
    var n := |s| - 1;
    var t := s[k := XorC(s[k], v)];
    if k == n {
      assert t[..n] == s[..n];
      XorB(XorAll(s[..n]), s[n], v);
    } else {
      assert t[..n] == s[..n][k := XorC(s[k], v)];
      XorAllMoves(s[..n], k, v);
      XorB(XorAll(s[..n]), s[n], v);
    }
  }

  /** Place and table entry of a single bit. */
  predicate Entry(k: nat, m: bv8, v: bv8) {
    || (k == 0 && m == 1 && v == 0x55) || (k == 1 && m == 2 && v == 0x59) || (k == 2 && m == 4 && v == 0x65)
    || (k == 3 && m == 8 && v == 0x69) || (k == 4 && m == 16 && v == 0x95) || (k == 5 && m == 32 && v == 0x99)
    || (k == 6 && m == 64 && v == 0xa5) || (k == 7 && m == 128 && v == 0xa9)
  }

  lemma PickFlip(x: bv8, m: bv8, v: bv8)
    requires m & (m - 1) == 0 && m != 0
    ensures Pick(XorC(x, m), m, v) == XorC(Pick(x, m, v), v)
  {}

  lemma PickKeep(x: bv8, m: bv8, m': bv8, v: bv8)
    requires m & m' == 0
    ensures Pick(XorC(x, m), m', v) == Pick(x, m', v)
  {}

  lemma PickMoves(x: bv8, m: bv8, m': bv8, v: bv8)
    requires m' != 0 && (m & m' == 0 || (m == m' && m & (m - 1) == 0))
    ensures Pick(XorC(x, m), m', v) == if m == m' then XorC(Pick(x, m', v), v) else Pick(x, m', v)
  {
    hide XorC, Pick;
    if m == m' { PickFlip(x, m, v); } else { PickKeep(x, m, m', v); }
  }

  lemma PicksMove(x: bv8, k: nat, m: bv8, v: bv8)
    requires Entry(k, m, v)
    ensures k < 8 && Picks(XorC(x, m)) == Picks(x)[k := XorC(Picks(x)[k], v)]
  {
    hide XorC, Pick;
    var p, q := Picks(x), Picks(XorC(x, m));
    PickMoves(x, m, 1, 0x55);
    PickMoves(x, m, 2, 0x59);
    PickMoves(x, m, 4, 0x65);
    PickMoves(x, m, 8, 0x69);
    PickMoves(x, m, 16, 0x95);
    PickMoves(x, m, 32, 0x99);
    PickMoves(x, m, 64, 0xa5);
    PickMoves(x, m, 128, 0xa9);
    assert forall i :: 0 <= i < 8 ==> q[i] == if i == k then XorC(p[k], v) else p[i];
  }

  lemma EntryMoves(x: bv8, k: nat, m: bv8, v: bv8)
    requires Entry(k, m, v)
    ensures ColumnParity(XorC(x, m)) == XorC(ColumnParity(x), v)
  {
    hide XorC, Pick, XorAll, Picks;
    PicksMove(x, k, m, v);
    XorAllMoves(Picks(x), k, v);
  }

  lemma MaskColumns(b: bv8, x: bv8)
    requires b < 8
    ensures ColumnParity(XorC(x, Mask(b))) == XorC(ColumnParity(x), ColumnParity(Mask(b)))
    ensures ColumnParity(Mask(b)) == MaskEntry(b)
  {
    hide XorC, ColumnParity;
    EntryMoves(x, MaskPlace(b), Mask(b), MaskEntry(b));
    EntryMoves(0, MaskPlace(b), Mask(b), MaskEntry(b));
    NoColumns();
    XorZero(Mask(b));
    XorZero(MaskEntry(b));
  }

  lemma NoColumns()
    ensures ColumnParity(0) == 0
  {
    NoBits(Picks(0));
  }

  lemma {:induction false} NoBits(s: seq<bv8>)
    requires forall i :: 0 <= i < |s| ==> s[i] == 0
    ensures XorAll(s) == 0
  {
    if s != [] { NoBits(s[..|s| - 1]); }
  }

  function MaskPlace(b: bv8): nat {
    if b == 0 then 0 else if b == 1 then 1 else if b == 2 then 2 else if b == 3 then 3
    else if b == 4 then 4 else if b == 5 then 5 else if b == 6 then 6 else 7
  }

  /** The table entry of a single bit. */
  function MaskEntry(b: bv8): bv8 {
    if b == 0 then 0x55 else if b == 1 then 0x59 else if b == 2 then 0x65 else if b == 3 then 0x69
    else if b == 4 then 0x95 else if b == 5 then 0x99 else if b == 6 then 0xa5 else 0xa9
  }

  lemma MaskOdd(b: bv8, x: bv8)
    requires b < 8
    ensures Odd(Mask(b)) && (Odd(XorC(x, Mask(b))) <==> !Odd(x))
  {
    hide ColumnParity, Mask, XorC;
    MaskColumns(b, x);
    LowBit(ColumnParity(x), ColumnParity(Mask(b)));
    LowBits(b);
  }

  lemma LowBits(b: bv8)
    requires b < 8
    ensures Odd(Mask(b))
  {
    hide ColumnParity;
    MaskColumns(b, 0);
  }

  lemma LowBit(p: bv8, q: bv8)
    ensures q & 1 != 0 ==> (XorC(p, q) & 1 != 0 <==> p & 1 == 0)
  {}

  lemma MaskFacts(b: bv8, x: bv8)
    requires b < 8
    ensures ColumnParity(XorC(x, Mask(b))) == XorC(ColumnParity(x), ColumnParity(Mask(b)))
    ensures Odd(Mask(b)) && (Odd(XorC(x, Mask(b))) <==> !Odd(x))
    ensures XorC(XorC(x, Mask(b)), Mask(b)) == x
  {
    hide ColumnParity, Odd, Mask;
    MaskColumns(b, x);
    MaskOdd(b, x);
  }

  lemma XorFacts(a: Word, b: Word, c: Word)
    ensures XorW(XorW(a, c), XorW(b, c)) == XorW(a, b)
    ensures XorW(XorW(a, b), b) == a && XorW(a, b) == XorW(b, a)
    ensures XorW(XorW(a, b), c) == XorW(XorW(a, c), b)
    ensures XorW(a, Zero()) == a && (XorW(a, b) == Zero() <==> a == b)
  {}

  /** One flipped data bit moves each parity by a fixed amount. */
  lemma {:induction false} FlipMoves(data: seq<bv8>, k: nat, b: bv8)
    requires k < |data| && b < 8
    ensures var p, q := Parities(data), Parities(FlipData(data, k, b));
            && q.col == XorC(p.col, ColumnParity(Mask(b)))
            && q.line == XorW(p.line, ToWord(k))
            && q.prime == XorW(p.prime, NotW(ToWord(k)))
    decreases |data|
  {
    hide *;
    var n := |data| - 1;
    var d' := FlipData(data, k, b);
    var p := Parities(data[..n]);
    FlipSplits(data, k, b);
    ParitiesStep(data);
    ParitiesStep(d');
    if k == n {
      MaskFacts(b, data[n]);
      XorB(p.col, ColumnParity(data[n]), ColumnParity(Mask(b)));
      XorFacts(p.line, ToWord(n), ToWord(n));
      XorFacts(p.prime, NotW(ToWord(n)), NotW(ToWord(n)));
    } else {
      FlipMoves(data[..n], k, b);
      XorB(p.col, ColumnParity(data[n]), ColumnParity(Mask(b)));
      XorFacts(p.line, ToWord(n), ToWord(k));
      XorFacts(p.prime, NotW(ToWord(n)), NotW(ToWord(k)));
    }
  }

  lemma XorB(a: bv8, b: bv8, c: bv8)
    ensures XorC(a, XorC(b, c)) == XorC(XorC(a, b), c) && XorC(XorC(a, c), b) == XorC(XorC(a, b), c)
  {}

  lemma FlipSplits(data: seq<bv8>, k: nat, b: bv8)
    requires k < |data|
    ensures var n := |data| - 1; var d' := FlipData(data, k, b);
            && |d'| == |data|
            && (k == n ==> d'[..n] == data[..n] && d'[n] == XorC(data[n], Mask(b)))
            && (k < n ==> d'[..n] == FlipData(data[..n], k, b) && d'[n] == data[n])
  {}

  // ---------- weights ----------

  lemma {:induction false} WeightFlip(w: seq<bool>, j: nat)
    requires j < |w|
    ensures Weight(w[j := !w[j]]) == Weight(w) + (if w[j] then -1 else 1)
    decreases |w|
  {
    var v := w[j := !w[j]];
    if j == 0 {
      assert v[1..] == w[1..];
    } else {
      assert v[1..] == w[1..][j - 1 := !w[1..][j - 1]];
      WeightFlip(w[1..], j - 1);
    }
  }

  lemma {:induction false} WeightNone(w: seq<bool>)
    ensures Weight(w) == 0 <==> forall i :: 0 <= i < |w| ==> !w[i]
    decreases |w|
  {
    if w != [] {
      WeightNone(w[1..]);
      if Weight(w) == 0 {
        forall i | 0 <= i < |w| ensures !w[i] {
          if i > 0 { assert w[i] == w[1..][i - 1]; }
        }
      } else if !w[0] {
        var i :| 0 <= i < |w[1..]| && w[1..][i];
        assert w[i + 1];
      }
    }
  }

  lemma {:induction false} WeightNot(w: seq<bool>, v: seq<bool>)
    requires |w| == |v| && forall i :: 0 <= i < |w| ==> w[i] != v[i]
    ensures Weight(w) + Weight(v) == |w|
    decreases |w|
  {
    if w != [] { WeightNot(w[1..], v[1..]); }
  }

  lemma WordWeights(x: Word, j: nat)
    requires j < 32
    ensures Weight(x) == 0 <==> x == Zero()
    ensures Weight(x) + Weight(NotW(x)) == 32
    ensures Weight(XorW(x, BitW(j))) == Weight(x) + 1 || Weight(XorW(x, BitW(j))) == Weight(x) - 1
    ensures Weight(BitW(j)) == 1 && Weight(Zero()) == 0
  {
    hide Weight;
    WeightNone(x);
    WeightNot(x, NotW(x));
    WeightNone(Zero());
    OneBit(x, j);
    OneBit(Zero(), j);
    hide XorW, Zero, BitW;
    WeightFlip(x, j);
    WeightFlip(Zero(), j);
    XorZeroW(BitW(j));
  }

  lemma OneBit(x: Word, j: nat)
    requires j < 32
    ensures XorW(x, BitW(j)) == x[j := !x[j]] && !Zero()[j]
  {}

  lemma XorZeroW(x: Word)
    ensures XorW(Zero(), x) == x
  {}

  // ---------- errors ----------

  /** One flipped bit: in the data, or in one of the three parts of the stored code. */
  datatype Flip = InData(k: nat, b: bv8) | InCol(j: bv8) | InLine(i: nat) | InPrime(i: nat)

  predicate FlipOk(f: Flip, n: nat) {
    match f
    case InData(k, b) => k < n && b < 8
    case InCol(j) => j < 6
    case InLine(i) => i < 32
    case InPrime(i) => i < 32
  }

  function HitData(data: seq<bv8>, f: Flip): (r: seq<bv8>)
    requires FlipOk(f, |data|)
    ensures |r| == |data|
  {
    if f.InData? then FlipData(data, f.k, f.b) else data
  }

  function HitCode(e: EccOther, f: Flip, n: nat): EccOther
    requires FlipOk(f, n)
  {
    match f
    case InData(_, _) => e
    case InCol(j) => e.(col := XorC(e.col, Mask(j)))
    case InLine(i) => e.(line := XorW(e.line, BitW(i)))
    case InPrime(i) => e.(prime := XorW(e.prime, BitW(i)))
  }

  /** How a flip shows in the difference between the stored and the recomputed code. */
  function Trace(f: Flip, n: nat): EccOther
    requires FlipOk(f, n)
  {
    match f
    case InData(k, b) => EccOther(Cut(ColumnParity(Mask(b))), ToWord(k), NotW(ToWord(k)))
    case InCol(j) => EccOther(Mask(j), Zero(), Zero())
    case InLine(i) => EccOther(0, BitW(i), Zero())
    case InPrime(i) => EccOther(0, Zero(), BitW(i))
  }

  function XorE(a: EccOther, b: EccOther): EccOther {
    EccOther(XorC(a.col, b.col), XorW(a.line, b.line), XorW(a.prime, b.prime))
  }

  /** The stored code against the code of the received data. */
  function Delta(data: seq<bv8>, stored: EccOther): EccOther { XorE(stored, Ecc(data)) }

  lemma CutXor(a: bv8, b: bv8)
    ensures Cut(XorC(a, b)) == XorC(Cut(a), Cut(b))
  {}

  lemma XorAssoc(a: bv8, b: bv8, c: bv8)
    ensures XorC(a, XorC(b, c)) == XorC(XorC(a, b), c)
  {}

  lemma XorSwap(a: bv8, b: bv8, c: bv8)
    ensures XorC(XorC(a, c), b) == XorC(XorC(a, b), c)
  {}

  lemma XorZero(a: bv8)
    ensures XorC(a, 0) == a && XorC(0, a) == a
  {}

  lemma AssocW(a: Word, b: Word, c: Word)
    ensures XorW(a, XorW(b, c)) == XorW(XorW(a, b), c)
  {}

  /** Each flip adds its trace to the delta. */
  lemma FlipTraced(data: seq<bv8>, stored: EccOther, f: Flip)
    requires FlipOk(f, |data|)
    ensures Delta(HitData(data, f), HitCode(stored, f, |data|)) == XorE(Delta(data, stored), Trace(f, |data|))
  {
    hide Parities, XorW, XorC, NotW, BitW, BitsOf, ToWord, Zero, Mask, Cut, ColumnParity, FlipData;
    var p := Parities(data);
    var e := Ecc(data);
    match f
    case InData(k, b) =>
      FlipMoves(data, k, b);
      CutXor(p.col, ColumnParity(Mask(b)));
      XorAssoc(stored.col, Cut(p.col), Cut(ColumnParity(Mask(b))));
      AssocW(stored.line, p.line, ToWord(k));
      AssocW(stored.prime, p.prime, NotW(ToWord(k)));
    case InCol(j) =>
      XorSwap(stored.col, e.col, Mask(j));
      XorFacts(XorW(stored.line, e.line), Zero(), Zero());
      XorFacts(XorW(stored.prime, e.prime), Zero(), Zero());
    case InLine(i) =>
      XorZero(XorC(stored.col, e.col));
      XorFacts(stored.line, e.line, BitW(i));
      XorFacts(XorW(stored.prime, e.prime), Zero(), Zero());
    case InPrime(i) =>
      XorZero(XorC(stored.col, e.col));
      XorFacts(stored.prime, e.prime, BitW(i));
      XorFacts(XorW(stored.line, e.line), Zero(), Zero());
  }

  /** The column parities of one bit: three of six, one from each pair, naming the bit. */
  lemma ColFacts(b: bv8)
    requires b < 8
    ensures var t := Cut(ColumnParity(Mask(b)));
            t != 0 && ColPairs(t) && ErrorBit(t) == b && WeightB(t) == 3
  {
    hide ColumnParity;
    MaskColumns(b, 0);
  }

  function BitColumns(b: bv8): bv8 {
    if b == 0 then 0x15 else if b == 1 then 0x16 else if b == 2 then 0x19 else if b == 3 then 0x1a
    else if b == 4 then 0x25 else if b == 5 then 0x26 else if b == 6 then 0x29 else 0x2a
  }

  lemma ColIs(b: bv8)
    requires b < 8
    ensures Cut(ColumnParity(Mask(b))) == BitColumns(b)
  {
    hide ColumnParity;
    MaskColumns(b, 0);
  }

  lemma ColTwoBits(b: bv8, c: bv8)
    requires b < 8 && c < 8 && b != c
    ensures var t := XorC(Cut(ColumnParity(Mask(b))), Cut(ColumnParity(Mask(c))));
            t != 0 && WeightB(t) != 1
  {
    hide *;
    ColIs(b);
    ColIs(c);
    ColumnsApart(b, c);
  }

  lemma ColumnsApart(b: bv8, c: bv8)
    requires b < 8 && c < 8 && b != c
    ensures var t := XorC(BitColumns(b), BitColumns(c)); t != 0 && WeightB(t) != 1
  {}

  lemma ColBitAndCode(b: bv8, j: bv8)
    requires b < 8 && j < 6
    ensures var t := XorC(Cut(ColumnParity(Mask(b))), Mask(j));
            !ColPairs(t) && XorC(Mask(j), Cut(ColumnParity(Mask(b)))) == t
  {
    hide ColumnParity, Mask, Cut, ColPairs, XorC;
    ColIs(b);
    ColumnAndCode(b, j);
  }

  lemma ColumnAndCode(b: bv8, j: bv8)
    requires b < 8 && j < 6
    ensures var t := XorC(BitColumns(b), Mask(j)); !ColPairs(t) && XorC(Mask(j), BitColumns(b)) == t
  {}

  lemma ColTwoCodes(i: bv8, j: bv8)
    requires i < 6 && j < 6
    ensures WeightB(Mask(i)) == 1
    ensures i != j ==> WeightB(XorC(Mask(i), Mask(j))) == 2
  {}

  /** An undamaged record has no delta. */
  lemma NoDelta(data: seq<bv8>)
    ensures Delta(data, Ecc(data)) == EccOther(0, Zero(), Zero())
  {
    var e := Ecc(data);
    XorFacts(e.line, e.line, e.line);
    XorFacts(e.prime, e.prime, e.prime);
  }

  lemma XorEZero(t: EccOther)
    ensures XorE(EccOther(0, Zero(), Zero()), t) == t
  {
    XorFacts(Zero(), t.line, t.line);
    XorFacts(Zero(), t.prime, t.prime);
    XorFacts(t.line, t.line, t.line);
    XorFacts(t.prime, t.prime, t.prime);
  }

  lemma WordsApart(k: nat, m: nat)
    requires k < Pow2(32) && m < Pow2(32) && k != m
    ensures ToWord(k) != ToWord(m)
  {
    BitsRoundTrip(k, 32);
    BitsRoundTrip(m, 32);
  }

  /** Any one flipped bit, in data or code, is repaired. */
  lemma OneFlipRepaired(data: seq<bv8>, f: Flip)
    requires |data| <= Pow2(32) && FlipOk(f, |data|)
    ensures var received := HitData(data, f);
            Corrected(received, HitCode(Ecc(data), f, |data|), Ecc(received)) == Outcome(1, data, Ecc(data))
  {
    hide Parities, XorW, XorC, NotW, BitW, BitsOf, Zero, Mask, Cut, ColumnParity, Weight, WeightB, ColPairs, ErrorBit;
    hide Ecc, Pow2;
    var n := |data|;
    FlipTraced(data, Ecc(data), f);
    NoDelta(data);
    XorEZero(Trace(f, n));
    match f
    case InData(k, b) =>
      ColFacts(b);
      NotNot(ToWord(k));
      BitsRoundTrip(k, 32);
      FlipBack(data, k, b);
    case InCol(j) =>
      CodeWeights(0, 0);
      ColTwoCodes(j, j);
    case InLine(i) =>
      CodeWeights(i, 0);
    case InPrime(i) =>
      CodeWeights(0, i);
  }

  lemma FlipBack(data: seq<bv8>, k: nat, b: bv8)
    requires k < |data| && b < 8
    ensures FlipData(FlipData(data, k, b), k, b) == data
  {
    MaskFacts(b, data[k]);
  }

  lemma NotNot(w: Word)
    ensures NotW(NotW(w)) == w
  {}

  lemma CodeWeights(i: nat, j: nat)
    requires i < 32 && j < 32
    ensures Weight(BitW(i)) == 1 && Weight(Zero()) == 0 && WeightB(0) == 0
    ensures BitW(i) != Zero() && BitW(i) != NotW(Zero()) && Zero() != NotW(BitW(i)) && Zero() != NotW(Zero())
    ensures BitW(j) != Zero() && BitW(j) != NotW(Zero()) && Zero() != NotW(BitW(j)) && Weight(BitW(j)) == 1
  {
    WordWeights(Zero(), i);
    WordWeights(Zero(), j);
    WordWeights(BitW(i), i);
    WordWeights(BitW(j), j);
  }

  /** When the verdict is that nothing can be done. */
  lemma HopelessIf(d: EccOther, n: nat)
    requires d.col != 0 || d.line != Zero() || d.prime != Zero()
    requires d.line != NotW(d.prime) || !ColPairs(d.col)
    requires Weight(d.line) + Weight(d.prime) + WeightB(d.col) != 1
    ensures Judge(d.col, d.line, d.prime, n) == Hopeless
  {}

  lemma NeverOwnNot(x: Word)
    ensures x != NotW(x)
  {
    assert NotW(x)[0] == !x[0];
  }

  /** Two flipped data bits. */
  lemma TwoDataHopeless(k: nat, b: bv8, m: nat, c: bv8, n: nat)
    requires k < n && m < n && n <= Pow2(32) && b < 8 && c < 8 && (k != m || b != c)
    ensures var d := XorE(Trace(InData(k, b), n), Trace(InData(m, c), n)); Judge(d.col, d.line, d.prime, n) == Hopeless
  {
    hide Parities, XorW, XorC, NotW, BitW, BitsOf, ToWord, Zero, Mask, Cut, ColumnParity, Weight, WeightB, ColPairs;
    hide ErrorBit, Ecc, Pow2, Judge;
    var d := XorE(Trace(InData(k, b), n), Trace(InData(m, c), n));
    NotsXor(ToWord(k), ToWord(m));
    NeverOwnNot(d.line);
    WordWeights(d.line, 0);
    XorFacts(ToWord(k), ToWord(m), ToWord(m));
    if k != m {
      WordsApart(k, m);
    } else {
      ColTwoBits(b, c);
    }
    HopelessIf(d, n);
  }

  lemma NotsXor(a: Word, b: Word)
    ensures XorW(NotW(a), NotW(b)) == XorW(a, b) && XorW(NotW(a), b) == NotW(XorW(a, b)) && NotW(NotW(a)) == a
    ensures NotW(a) == NotW(b) <==> a == b
  {
    assert NotW(NotW(a)) == a && NotW(NotW(b)) == b;
  }

  /** One flipped data bit and one flipped bit of the code. */
  lemma DataAndCodeHopeless(k: nat, b: bv8, g: Flip, n: nat)
    requires k < n && b < 8 && FlipOk(g, n) && !g.InData?
    ensures var d := XorE(Trace(InData(k, b), n), Trace(g, n)); Judge(d.col, d.line, d.prime, n) == Hopeless
  {
    hide Parities, XorW, XorC, NotW, BitW, BitsOf, ToWord, Zero, Mask, Cut, ColumnParity, Weight, WeightB, ColPairs;
    hide ErrorBit, Ecc, Pow2, Judge;
    var w := ToWord(k);
    var d := XorE(Trace(InData(k, b), n), Trace(g, n));
    XorFacts(w, w, w);
    XorFacts(NotW(w), w, w);
    WordWeights(w, 0);
    NotNot(w);
    match g
    case InCol(j) =>
      ColBitAndCode(b, j);
      ZeroWord();
      HopelessIf(d, n);
    case InLine(i) =>
      WordWeights(w, i);
      WordMoves(w, i);
      ZeroWord();
      HopelessIf(d, n);
    case InPrime(i) =>
      WordWeights(NotW(w), i);
      WordMoves(NotW(w), i);
      ZeroWord();
      HopelessIf(d, n);
  }

  lemma ZeroWord()
    ensures Weight(Zero()) == 0
  {
    WordWeights(Zero(), 0);
  }

  lemma WordMoves(w: Word, i: nat)
    requires i < 32
    ensures XorW(w, BitW(i)) != w && NotW(XorW(w, BitW(i))) != NotW(w)
  {
    assert XorW(w, BitW(i))[i] != w[i];
    NotsXor(XorW(w, BitW(i)), w);
  }

  /** Two flipped bits of the code. */
  lemma TwoCodeHopeless(f: Flip, g: Flip, n: nat)
    requires FlipOk(f, n) && FlipOk(g, n) && !f.InData? && !g.InData? && f != g
    ensures var d := XorE(Trace(f, n), Trace(g, n)); Judge(d.col, d.line, d.prime, n) == Hopeless
  {
    hide Parities, XorW, XorC, NotW, BitW, BitsOf, ToWord, Zero, Mask, Cut, ColumnParity, Weight, WeightB, ColPairs;
    hide ErrorBit, Ecc, Pow2, Judge;
    var d := XorE(Trace(f, n), Trace(g, n));
    CodeWeight2(f, g, n);
    ColSum(0, 0);
    ZeroWord();
    WordWeights(d.prime, 0);
    WordWeights(d.line, 0);
    HopelessIf(d, n);
  }

  lemma CodeWeight2(f: Flip, g: Flip, n: nat)
    requires FlipOk(f, n) && FlipOk(g, n) && !f.InData? && !g.InData? && f != g
    ensures var d := XorE(Trace(f, n), Trace(g, n));
            Weight(d.line) + Weight(d.prime) + WeightB(d.col) == 2 && (d.col == 0 || WeightB(d.col) > 0)
  {
    hide Parities, XorW, XorC, NotW, BitW, BitsOf, ToWord, Zero, Mask, Cut, ColumnParity, Weight, WeightB, ColPairs;
    hide ErrorBit, Ecc, Pow2, Judge;
    var t, u := Trace(f, n), Trace(g, n);
    WordSum(t.line, u.line);
    WordSum(t.prime, u.prime);
    ColSum(t.col, u.col);
    ZeroWord();
    if f.InCol? { ColTwoCodes(f.j, if g.InCol? then g.j else f.j); }
    if g.InCol? { ColTwoCodes(g.j, g.j); }
    if f.InLine? { WordWeights(Zero(), f.i); BitsTwo(f.i, if g.InLine? then g.i else f.i); }
    if f.InPrime? { WordWeights(Zero(), f.i); BitsTwo(f.i, if g.InPrime? then g.i else f.i); }
    if g.InLine? || g.InPrime? { WordWeights(Zero(), g.i); }
  }

  lemma WordSum(a: Word, b: Word)
    ensures XorW(a, Zero()) == a && XorW(Zero(), b) == b && XorW(Zero(), Zero()) == Zero()
  {
    XorFacts(a, b, b);
    XorFacts(b, Zero(), b);
    XorFacts(Zero(), Zero(), Zero());
  }

  lemma ColSum(a: bv8, b: bv8)
    ensures XorC(a, 0) == a && XorC(0, b) == b && XorC(0, 0) == 0 && WeightB(0) == 0
    ensures WeightB(XorC(a, b)) == 0 ==> XorC(a, b) == 0
  {
    XorZero(a);
    WeightBZero(XorC(a, b));
  }

  lemma WeightBZero(a: bv8)
    ensures WeightB(a) == 0 ==> a == 0
  {}

  lemma BitsTwo(i: nat, j: nat)
    requires i < 32 && j < 32
    ensures i != j ==> Weight(XorW(BitW(i), BitW(j))) == 2
  {
    if i != j {
      assert XorW(BitW(i), BitW(j)) == BitW(i)[j := !BitW(i)[j]];
      WeightFlip(BitW(i), j);
      WordWeights(Zero(), i);
    }
  }

  /** Any two flipped bits, in data or code, are reported and nothing is touched. */
  lemma TwoFlipsReported(data: seq<bv8>, f: Flip, g: Flip)
    requires |data| <= Pow2(32) && FlipOk(f, |data|) && FlipOk(g, |data|) && f != g
    ensures var d := HitData(HitData(data, f), g); var e := HitCode(HitCode(Ecc(data), f, |data|), g, |data|);
            Corrected(d, e, Ecc(d)) == Outcome(-1, d, e)
  {
    hide Parities, XorW, XorC, NotW, BitW, BitsOf, ToWord, Zero, Mask, Cut, ColumnParity, Weight, WeightB, ColPairs;
    hide ErrorBit, Ecc, Pow2, Judge, Trace, HitCode;
    var n := |data|;
    FlipTraced(data, Ecc(data), f);
    NoDelta(data);
    XorEZero(Trace(f, n));
    FlipTraced(HitData(data, f), HitCode(Ecc(data), f, n), g);
    if f.InData? && g.InData? {
      TwoDataHopeless(f.k, f.b, g.k, g.b, n);
    } else if f.InData? {
      DataAndCodeHopeless(f.k, f.b, g, n);
    } else if g.InData? {
      DataAndCodeHopeless(g.k, g.b, f, n);
      XorESwap(Trace(f, n), Trace(g, n));
    } else {
      TwoCodeHopeless(f, g, n);
    }
  }

  lemma XorESwap(a: EccOther, b: EccOther)
    ensures XorE(a, b) == XorE(b, a)
  {
    XorFacts(a.line, b.line, b.line);
    XorFacts(a.prime, b.prime, b.prime);
  }
}
