/** The ECC of a 256-byte block: the same column and line parities as the n-byte code, with the
  eight bits of a byte's position interleaved with their complements in three code bytes. */
module Ecc256 {
  import opened Ecc

  datatype Sums = Sums(col: bv8, line: bv8, prime: bv8)

  /** The three bytes of the code. */
  datatype Code = Code(e0: bv8, e1: bv8, e2: bv8)

  function XorK(a: Code, b: Code): Code { Code(XorC(a.e0, b.e0), XorC(a.e1, b.e1), XorC(a.e2, b.e2)) }

  function NotC(a: bv8): bv8 { !a }

  /** The position of a byte, as the loop counter truncated to a byte. */
  function Place(n: nat): bv8 { (n % 256) as bv8 }

  lemma PlaceBack(n: nat)
    requires n < 256
    ensures Place(n) as nat == n
  {
    assert n % 256 == n;
  }

  /** The parities of the first bytes of a block. */
  function SumsOf(data: seq<bv8>): Sums {
    if data == [] then Sums(0, 0, 0)
    else
      var n := |data| - 1;
      var s := SumsOf(data[..n]);
      var col := XorC(s.col, ColumnParity(data[n]));
      if Odd(data[n]) then Sums(col, XorC(s.line, Place(n)), XorC(s.prime, NotC(Place(n))))
      else Sums(col, s.line, s.prime)
  }

  /** The upper four bits of `l` and `p`, interleaved. */
  function Interleave(l: bv8, p: bv8): bv8 {
    (if l & 0x80 != 0 then 0x80 else 0) | (if p & 0x80 != 0 then 0x40 else 0) |
    (if l & 0x40 != 0 then 0x20 else 0) | (if p & 0x40 != 0 then 0x10 else 0) |
    (if l & 0x20 != 0 then 0x08 else 0) | (if p & 0x20 != 0 then 0x04 else 0) |
    (if l & 0x10 != 0 then 0x02 else 0) | (if p & 0x10 != 0 then 0x01 else 0)
  }

  function CodeOf(s: Sums): Code {
    Code(NotC(Interleave(Up(s.line), Up(s.prime))), NotC(Interleave(s.line, s.prime)), ThirdByte(s.col))
  }

  function ThirdByte(col: bv8): bv8 { NotC(col) | 0x03 }

  function CodeFor(data: seq<bv8>): Code { CodeOf(SumsOf(data)) }

  lemma SumsStep(data: seq<bv8>)
    requires data != []
    ensures var n := |data| - 1; var s, t := SumsOf(data[..n]), SumsOf(data);
            && t.col == XorC(s.col, ColumnParity(data[n]))
            && t.line == (if Odd(data[n]) then XorC(s.line, Place(n)) else s.line)
            && t.prime == (if Odd(data[n]) then XorC(s.prime, NotC(Place(n))) else s.prime)
  {}

  /** yaffs_ecc_calc. */
  method EccCalc(data: array<bv8>) returns (ecc: Code)
    requires data.Length == 256
    ensures ecc == CodeFor(data[..])
  {
    hide ColumnParity, XorC, NotC, CodeOf, Place, Odd;
    var col: bv8, line: bv8, prime: bv8 := 0, 0, 0;
    for i := 0 to 256
      invariant Sums(col, line, prime) == SumsOf(data[..i])
    {
      assert data[..i + 1][..i] == data[..i];
      SumsStep(data[..i + 1]);
      OddIs(data[i]);
      var b := ColumnParity(data[i]);
      col := XorC(col, b);
      if b & 1 != 0 {
        line := XorC(line, Place(i));
        prime := XorC(prime, NotC(Place(i)));
      }
    }
    assert data[..256] == data[..];
    ecc := CodeOf(Sums(col, line, prime));
  }

  function Erased(n: nat): seq<bv8> { seq(n, _ => 0xff) }

  lemma {:induction false} ErasedSums(n: nat)
    ensures SumsOf(Erased(n)) == Sums(0, 0, 0)
  {
    if n > 0 {
      ErasedSums(n - 1);
      assert Erased(n)[..n - 1] == Erased(n - 1);
      ErasedByte();
      SumsStep(Erased(n));
    }
  }

  lemma ErasedByte()
    ensures ColumnParity(0xff) == 0 && !Odd(0xff) && XorC(0, 0) == 0
  {
    var p := Picks(0xff);
    assert p == [0x55, 0x59, 0x65, 0x69, 0x95, 0x99, 0xa5, 0xa9];
    assert p[..1] == [] + [p[0]] && p[..2] == p[..1] + [p[1]] && p[..3] == p[..2] + [p[2]] && p[..4] == p[..3] + [p[3]];
    assert p[..5] == p[..4] + [p[4]] && p[..6] == p[..5] + [p[5]] && p[..7] == p[..6] + [p[6]] && p == p[..7] + [p[7]];
    assert XorAll(p[..1]) == 0x55;
    assert XorAll(p[..2]) == XorC(XorAll(p[..1]), 0x59) == 0x0c;
    assert XorAll(p[..3]) == XorC(XorAll(p[..2]), 0x65) == 0x69;
    assert XorAll(p[..4]) == XorC(XorAll(p[..3]), 0x69) == 0x00;
    assert XorAll(p[..5]) == XorC(XorAll(p[..4]), 0x95) == 0x95;
    assert XorAll(p[..6]) == XorC(XorAll(p[..5]), 0x99) == 0x0c;
    assert XorAll(p[..7]) == XorC(XorAll(p[..6]), 0xa5) == 0xa9;
    assert XorAll(p) == XorC(XorAll(p[..7]), 0xa9) == 0x00;
  }

  /** The code of an erased block is what an erased page holds, so that erased pages read as clean. */
  lemma ErasedCode()
    ensures CodeFor(Erased(256)) == Code(0xff, 0xff, 0xff)
  {
    ErasedSums(256);
  }

  // ---------- the verdict on the deltas ----------

  datatype Finding = NoError | DataError(at: bv8, bit: bv8) | CodeError | Unfixable

  /** One bit of each pair is set. */
  predicate Paired(d: bv8, m: bv8) { (d ^ (d >> 1)) & m == m }

  function ErrorByte(d0: bv8, d1: bv8): bv8 {
    (if d1 & 0x80 != 0 then 0x80 else 0) | (if d1 & 0x20 != 0 then 0x40 else 0) |
    (if d1 & 0x08 != 0 then 0x20 else 0) | (if d1 & 0x02 != 0 then 0x10 else 0) |
    (if d0 & 0x80 != 0 then 0x08 else 0) | (if d0 & 0x20 != 0 then 0x04 else 0) |
    (if d0 & 0x08 != 0 then 0x02 else 0) | (if d0 & 0x02 != 0 then 0x01 else 0)
  }

  function ErrorBitOf(d2: bv8): bv8 {
    (if d2 & 0x80 != 0 then 4 else 0) | (if d2 & 0x20 != 0 then 2 else 0) | (if d2 & 0x08 != 0 then 1 else 0)
  }

  function Find(d: Code): Finding {
    if d.e0 | d.e1 | d.e2 == 0 then NoError
    else if Paired(d.e0, 0x55) && Paired(d.e1, 0x55) && Paired(d.e2, 0x54) then
      DataError(ErrorByte(d.e0, d.e1), ErrorBitOf(d.e2))
    else if WeightB(d.e0) + WeightB(d.e1) + WeightB(d.e2) == 1 then CodeError
    else Unfixable
  }

  datatype Repair = Repair(result: int, data: seq<bv8>, readEcc: Code)

  function Corrected(data: seq<bv8>, readEcc: Code, testEcc: Code): Repair
    requires |data| == 256
  {
    match Find(XorK(readEcc, testEcc))
    case NoError => Repair(0, data, readEcc)
    case DataError(at, bit) => Repair(1, FlipData(data, at as nat, bit), readEcc)
    case CodeError => Repair(1, data, testEcc)
    case Unfixable => Repair(-1, data, readEcc)
  }

  /** yaffs_ecc_correct, in place. */
  method EccCorrect(data: array<bv8>, readEcc: Code, testEcc: Code) returns (result: int, readEcc': Code)
    requires data.Length == 256
    modifies data
    ensures Repair(result, data[..], readEcc') == Corrected(old(data[..]), readEcc, testEcc)
  {
    hide Find, Mask, XorC, XorK;
    ghost var d0 := data[..];
    match Find(XorK(readEcc, testEcc))
    case NoError => return 0, readEcc;
    case DataError(at, bit) =>
      var i := at as nat;
      data[i] := XorC(data[i], Mask(bit));
      assert data[..] == FlipData(d0, i, bit);
      return 1, readEcc;
    case CodeError => return 1, testEcc;
    case Unfixable => return -1, readEcc;
  }

  // ---------- flips ----------

  /** One flipped bit: in the data, or in one of the three code bytes. */
  datatype Hit = DataHit(k: nat, b: bv8) | CodeHit(m: nat, j: bv8)

  /** The lowest two bits of the third code byte are always set and mean nothing. */
  predicate HitOk(h: Hit) {
    match h
    case DataHit(k, b) => k < 256 && b < 8
    case CodeHit(m, j) => m < 3 && j < 8 && (m == 2 ==> j >= 2)
  }

  function DataAfter(data: seq<bv8>, h: Hit): (r: seq<bv8>)
    requires HitOk(h) && |data| == 256
    ensures |r| == 256
  {
    if h.DataHit? then FlipData(data, h.k, h.b) else data
  }

  function CodeBit(m: nat, j: bv8): Code {
    Code(if m == 0 then Mask(j) else 0, if m == 1 then Mask(j) else 0, if m == 2 then Mask(j) else 0)
  }

  function CodeAfter(e: Code, h: Hit): Code {
    if h.DataHit? then e else XorK(e, CodeBit(h.m, h.j))
  }

  /** How a flip shows in the difference between the stored and the recomputed code. */
  function Trace(h: Hit): Code {
    match h
    case DataHit(k, b) => DataTrace(Place(k), b)
    case CodeHit(m, j) => CodeBit(m, j)
  }

  function DataTrace(k: bv8, b: bv8): Code {
    Code(Interleave(Up(k), Up(NotC(k))), Interleave(k, NotC(k)), Columns(b))
  }

  function Up(x: bv8): bv8 { x << 4 }

  /** The column parities of one bit. */
  function Columns(b: bv8): bv8 { MaskEntry(b) & 0xfc }

  lemma XorTwice(a: bv8, b: bv8, c: bv8)
    ensures XorC(XorC(a, c), b) == XorC(XorC(a, b), c) && XorC(XorC(a, b), b) == a
  {}

  /** One flipped data bit moves each parity by a fixed amount. */
  lemma {:induction false} FlipMoves(data: seq<bv8>, k: nat, b: bv8)
    requires k < |data| && b < 8
    ensures var p, q := SumsOf(data), SumsOf(FlipData(data, k, b));
            q == Sums(XorC(p.col, MaskEntry(b)), XorC(p.line, Place(k)), XorC(p.prime, NotC(Place(k))))
    decreases |data|
  {
    hide *;
    var n := |data| - 1;
    var d' := FlipData(data, k, b);
    var p := SumsOf(data[..n]);
    var at, bt := Place(n), Place(k);
    FlipSplits(data, k, b);
    SumsStep(data);
    SumsStep(d');
    MaskColumns(b, data[k]);
    if k == n {
      MaskOdd(b, data[n]);
      XorB(p.col, ColumnParity(data[n]), MaskEntry(b));
      XorTwice(p.line, at, at);
      XorTwice(p.prime, NotC(at), NotC(at));
    } else {
      FlipMoves(data[..n], k, b);
      XorTwice(p.col, ColumnParity(data[n]), MaskEntry(b));
      XorTwice(p.line, at, bt);
      XorTwice(p.prime, NotC(at), NotC(bt));
    }
  }

  /** The upper four bits, each in the higher or the lower place of its pair. */
  function High(l: bv8): bv8 {
    (if l & 0x80 != 0 then 0x80 else 0) | (if l & 0x40 != 0 then 0x20 else 0) |
    (if l & 0x20 != 0 then 0x08 else 0) | (if l & 0x10 != 0 then 0x02 else 0)
  }

  function Low(p: bv8): bv8 {
    (if p & 0x80 != 0 then 0x40 else 0) | (if p & 0x40 != 0 then 0x10 else 0) |
    (if p & 0x20 != 0 then 0x04 else 0) | (if p & 0x10 != 0 then 0x01 else 0)
  }

  lemma Interleaved(l: bv8, p: bv8)
    ensures Interleave(l, p) == XorC(High(l), Low(p))
  {}

  lemma HighXor(l: bv8, k: bv8)
    ensures High(XorC(l, k)) == XorC(High(l), High(k))
  {}

  lemma LowXor(l: bv8, k: bv8)
    ensures Low(XorC(l, k)) == XorC(Low(l), Low(k))
  {}

  lemma UpXor(l: bv8, k: bv8)
    ensures Up(XorC(l, k)) == XorC(Up(l), Up(k))
  {}

  lemma CrossXor(a: bv8, b: bv8, c: bv8, d: bv8)
    ensures XorC(XorC(a, b), XorC(c, d)) == XorC(XorC(a, c), XorC(b, d))
  {
    hide XorC;
    XorB(XorC(a, b), c, d);
    XorB(a, b, c);
    XorB(XorC(a, c), b, d);
  }

  lemma InterleaveXor(l: bv8, p: bv8, k: bv8, q: bv8)
    ensures Interleave(XorC(l, k), XorC(p, q)) == XorC(Interleave(l, p), Interleave(k, q))
  {
    hide *;
    Interleaved(l, p);
    Interleaved(k, q);
    Interleaved(XorC(l, k), XorC(p, q));
    HighXor(l, k);
    LowXor(p, q);
    CrossXor(High(l), High(k), Low(p), Low(q));
  }

  lemma CodeMoves(s: Sums, k: bv8, b: bv8)
    ensures CodeOf(Sums(XorC(s.col, MaskEntry(b)), XorC(s.line, k), XorC(s.prime, NotC(k)))) == XorK(CodeOf(s),
                DataTrace(k, b))
  {
    hide Interleave, MaskEntry, XorC, NotC, Up, Columns, ThirdByte;
    InterleaveXor(s.line, s.prime, k, NotC(k));
    UpXor(s.line, k);
    UpXor(s.prime, NotC(k));
    InterleaveXor(Up(s.line), Up(s.prime), Up(k), Up(NotC(k)));
    NotXor(Interleave(s.line, s.prime), Interleave(k, NotC(k)));
    NotXor(Interleave(Up(s.line), Up(s.prime)), Interleave(Up(k), Up(NotC(k))));
    ColumnByte(s.col, b);
  }

  lemma NotXor(a: bv8, b: bv8)
    ensures NotC(XorC(a, b)) == XorC(NotC(a), b)
  {}

  lemma ColumnByte(a: bv8, b: bv8)
    ensures ThirdByte(XorC(a, MaskEntry(b))) == XorC(ThirdByte(a), Columns(b))
  {
    hide MaskEntry;
  }

  lemma XorKFacts(a: Code, b: Code, c: Code)
    ensures XorK(XorK(a, c), b) == XorK(XorK(a, b), c) && XorK(a, XorK(b, c)) == XorK(XorK(a, b), c)
    ensures XorK(a, a) == Code(0, 0, 0) && XorK(Code(0, 0, 0), a) == a && XorK(a, b) == XorK(b, a)
  {
    hide XorC;
    XorLaws(a.e0, b.e0, c.e0);
    XorLaws(a.e1, b.e1, c.e1);
    XorLaws(a.e2, b.e2, c.e2);
  }

  lemma XorLaws(a: bv8, b: bv8, c: bv8)
    ensures XorC(XorC(a, c), b) == XorC(XorC(a, b), c) && XorC(a, XorC(b, c)) == XorC(XorC(a, b), c)
    ensures XorC(a, a) == 0 && XorC(0, a) == a && XorC(a, 0) == a && XorC(a, b) == XorC(b, a)
  {
    hide XorC;
    XorB(a, b, c);
    XorSelf(a, b);
    XorZero(a);
  }

  lemma XorSelf(a: bv8, b: bv8)
    ensures XorC(a, a) == 0 && XorC(a, b) == XorC(b, a)
  {}

  /** Each flip adds its trace to the delta. */
  lemma FlipTraced(data: seq<bv8>, stored: Code, h: Hit)
    requires |data| == 256 && HitOk(h)
    ensures XorK(CodeAfter(stored, h), CodeFor(DataAfter(data, h))) == XorK(XorK(stored, CodeFor(data)), Trace(h))
  {
    hide SumsOf, CodeOf, XorK, FlipData, DataTrace, CodeBit, Place;
    match h
    case DataHit(k, b) =>
      FlipMoves(data, k, b);
      CodeMoves(SumsOf(data), Place(k), b);
      XorKFacts(stored, CodeFor(data), DataTrace(Place(k), b));
    case CodeHit(m, j) =>
      XorKFacts(stored, CodeFor(data), CodeBit(m, j));
  }

  // ---------- verdicts on traces ----------

  /** The interleaved position bits of a single data error: one bit of each pair, naming the byte. */
  lemma OneLine(k: bv8)
    ensures var t := DataTrace(k, 0);
            && Paired(t.e0, 0x55) && Paired(t.e1, 0x55) && ErrorByte(t.e0, t.e1) == k && t.e0 != 0
            && WeightB(t.e0) == 4 && WeightB(t.e1) == 4
  {
    LowHalf(k);
    Opposite(k);
    Opposite(Up(k));
  }

  lemma LowHalf(k: bv8)
    ensures Interleave(Up(k), Up(NotC(k))) == Interleave(Up(k), NotC(Up(k)))
  {}

  lemma Opposite(y: bv8)
    ensures var a := Interleave(y, NotC(y)); WeightB(a) == 4 && Paired(a, 0x55) && a != 0
  {}

  lemma OneColumn(b: bv8)
    requires b < 8
    ensures Paired(Columns(b), 0x54) && ErrorBitOf(Columns(b)) == b && WeightB(Columns(b)) == 3
  {}

  lemma OneData(k: bv8, b: bv8)
    requires b < 8
    ensures Find(DataTrace(k, b)) == DataError(k, b)
  {
    hide Interleave, Paired, ErrorByte, ErrorBitOf, WeightB, MaskEntry, Columns, NotC, Up;
    OneLine(k);
    OneColumn(b);
    NoneSet(DataTrace(k, b));
  }

  lemma NoneSet(d: Code)
    ensures d.e0 | d.e1 | d.e2 == 0 <==> d == Code(0, 0, 0)
  {}

  lemma MaskWeight(j: bv8)
    requires j < 8
    ensures WeightB(Mask(j)) == 1 && Mask(j) != 0 && !Paired(Mask(j), 0x55)
    ensures WeightB(0) == 0 && !Paired(0, 0x55) && !Paired(0, 0x54)
  {}

  lemma OneCode(m: nat, j: bv8)
    requires m < 3 && j < 8
    ensures Find(CodeBit(m, j)) == CodeError
  {
    hide WeightB, Mask, Paired;
    MaskWeight(j);
    NoneSet(CodeBit(m, j));
  }

  /** Two flipped data bits. */
  lemma TwoData(k: bv8, b: bv8, m: bv8, c: bv8)
    requires b < 8 && c < 8 && (k != m || b != c)
    ensures Find(XorK(DataTrace(k, b), DataTrace(m, c))) == Unfixable
  {
    hide Interleave, Paired, ErrorByte, ErrorBitOf, WeightB, MaskEntry, Columns, NotC, Up, XorC;
    var d := XorK(DataTrace(k, b), DataTrace(m, c));
    LinesXor(k, m);
    EvenLines(XorC(k, m));
    SamePlace(k, m);
    NoneSet(d);
    if k == m { ColumnsDiffer(b, c); }
  }

  lemma SamePlace(k: bv8, m: bv8)
    ensures XorC(k, m) == 0 <==> k == m
  {}

  lemma NotsCancel(k: bv8, m: bv8)
    ensures XorC(NotC(k), NotC(m)) == XorC(k, m)
  {}

  lemma LinesXor(k: bv8, m: bv8)
    ensures var t, u, x := DataTrace(k, 0), DataTrace(m, 0), XorC(k, m);
            XorC(t.e0, u.e0) == Interleave(Up(x), Up(x)) && XorC(t.e1, u.e1) == Interleave(x, x)
  {
    hide Interleave, NotC, Up, XorC, MaskEntry, Columns;
    NotsCancel(k, m);
    UpXor(k, m);
    UpXor(NotC(k), NotC(m));
    InterleaveXor(k, NotC(k), m, NotC(m));
    InterleaveXor(Up(k), Up(NotC(k)), Up(m), Up(NotC(m)));
  }

  lemma EvenLines(x: bv8)
    ensures var a, b := Interleave(Up(x), Up(x)), Interleave(x, x);
            && !Paired(a, 0x55) && !Paired(b, 0x55)
            && (if x == 0 then a == 0 && b == 0 else (a != 0 || b != 0) && WeightB(a) + WeightB(b) >= 2)
            && (WeightB(0) == 0)
  {
    hide Interleave, Paired, WeightB;
    PairWeights(Up(x));
    PairWeights(x);
    Halves(x);
    MaskWeight(0);
  }

  lemma Halves(x: bv8)
    ensures x == 0 <==> x & 0xf0 == 0 && Up(x) & 0xf0 == 0
  {}

  lemma PairWeights(y: bv8)
    ensures var a := Interleave(y, y);
            !Paired(a, 0x55) && WeightB(a) >= 0 && (if y & 0xf0 == 0 then a == 0 else a != 0 && WeightB(a) >= 2)
  {}

  lemma ColumnsDiffer(b: bv8, c: bv8)
    requires b < 8 && c < 8 && b != c
    ensures var v := XorC(Columns(b), Columns(c)); v != 0 && WeightB(v) >= 2
  {}

  /** One flipped data bit and one flipped bit of the code. */
  lemma DataAndCode(k: bv8, b: bv8, m: nat, j: bv8)
    requires b < 8 && m < 3 && j < 8 && (m == 2 ==> j >= 2)
    ensures Find(XorK(DataTrace(k, b), CodeBit(m, j))) == Unfixable
  {
    hide Interleave, Paired, ErrorByte, ErrorBitOf, WeightB, MaskEntry, Columns, NotC, Up, XorC, Mask;
    var t := DataTrace(k, b);
    var d := XorK(t, CodeBit(m, j));
    OneLine(k);
    OneColumn(b);
    BreaksPair(t.e0, j);
    BreaksPair(t.e1, j);
    if m == 2 { BreaksColumn(b, j); }
    XorLaws(t.e0, 0, 0);
    XorLaws(t.e1, 0, 0);
    XorLaws(t.e2, 0, 0);
    WeightAbove(d.e2);
    NoneSet(d);
  }

  lemma WeightAbove(a: bv8)
    ensures WeightB(a) >= 0 && (a == 0 <==> WeightB(a) == 0)
  {}

  lemma BreaksPair(a: bv8, j: bv8)
    requires j < 8
    ensures Paired(a, 0x55) ==> !Paired(XorC(a, Mask(j)), 0x55) && WeightB(XorC(a, Mask(j))) >= 3
  {}

  lemma BreaksColumn(b: bv8, j: bv8)
    requires b < 8 && 2 <= j < 8
    ensures !Paired(XorC(Columns(b), Mask(j)), 0x54)
  {}

  /** Two flipped bits of the code. */
  lemma TwoCode(m: nat, i: bv8, n: nat, j: bv8)
    requires m < 3 && n < 3 && i < 8 && j < 8 && (m != n || i != j)
    ensures Find(XorK(CodeBit(m, i), CodeBit(n, j))) == Unfixable
  {
    hide WeightB, Mask, Paired, XorC, Find;
    MaskWeight(i);
    MaskWeight(j);
    XorLaws(Mask(i), 0, 0);
    XorLaws(Mask(j), 0, 0);
    XorLaws(0, 0, 0);
    if m == n {
      TwoMasks(i, j);
      InOneByte(m, XorC(Mask(i), Mask(j)));
    } else {
      InTwoBytes(XorK(CodeBit(m, i), CodeBit(n, j)));
    }
  }

  lemma InOneByte(m: nat, v: bv8)
    requires m < 3 && v != 0 && WeightB(v) == 2 && !Paired(v, 0x55)
    ensures Find(Code(if m == 0 then v else 0, if m == 1 then v else 0, if m == 2 then v else 0)) == Unfixable
  {
    hide WeightB, Paired;
    MaskWeight(0);
    NoneSet(Code(if m == 0 then v else 0, if m == 1 then v else 0, if m == 2 then v else 0));
  }

  lemma InTwoBytes(d: Code)
    requires d.e0 == 0 || d.e1 == 0 || d.e2 == 0
    requires WeightB(d.e0) + WeightB(d.e1) + WeightB(d.e2) == 2
    ensures Find(d) == Unfixable
  {
    hide WeightB, Paired;
    MaskWeight(0);
    NoneSet(d);
  }

  lemma TwoMasks(i: bv8, j: bv8)
    requires i < 8 && j < 8 && i != j
    ensures var v := XorC(Mask(i), Mask(j)); WeightB(v) == 2 && v != 0 && !Paired(v, 0x55)
  {}

  // ---------- the theorems ----------

  /** Any one flipped bit of a block, in data or code, is repaired. */
  lemma OneFlipRepaired(data: seq<bv8>, h: Hit)
    requires |data| == 256 && HitOk(h)
    ensures var received := DataAfter(data, h);
            Corrected(received, CodeAfter(CodeFor(data), h), CodeFor(received)) == Repair(1, data, CodeFor(data))
  {
    hide CodeFor, XorK, CodeAfter, Find, FlipData, DataTrace, CodeBit, Place;
    FlipTraced(data, CodeFor(data), h);
    XorKFacts(CodeFor(data), Trace(h), Trace(h));
    XorKFacts(Trace(h), CodeFor(data), CodeFor(data));
    match h
    case DataHit(k, b) =>
      OneData(Place(k), b);
      PlaceBack(k);
      FlipBack(data, k, b);
      CodeKept(data, h);
    case CodeHit(m, j) =>
      OneCode(m, j);
  }

  lemma CodeKept(data: seq<bv8>, h: Hit)
    requires h.DataHit?
    ensures CodeAfter(CodeFor(data), h) == CodeFor(data)
  {}

  /** Any two flipped bits of a block are reported and nothing is touched. */
  lemma TwoFlipsReported(data: seq<bv8>, f: Hit, h: Hit)
    requires |data| == 256 && HitOk(f) && HitOk(h) && f != h
    ensures var d := DataAfter(DataAfter(data, f), h); var e := CodeAfter(CodeAfter(CodeFor(data), f), h);
            Corrected(d, e, CodeFor(d)) == Repair(-1, d, e)
  {
    hide CodeFor, XorK, CodeAfter, Find, DataAfter, DataTrace, CodeBit, Place;
    FlipTraced(data, CodeFor(data), f);
    FlipTraced(DataAfter(data, f), CodeAfter(CodeFor(data), f), h);
    XorKFacts(CodeFor(data), Trace(f), Trace(h));
    XorKFacts(Trace(f), Trace(h), Trace(h));
    if f.DataHit? && h.DataHit? {
      if f.k != h.k { PlacesApart(f.k, h.k); }
      TwoData(Place(f.k), f.b, Place(h.k), h.b);
    } else if f.DataHit? {
      DataAndCode(Place(f.k), f.b, h.m, h.j);
    } else if h.DataHit? {
      DataAndCode(Place(h.k), h.b, f.m, f.j);
      XorKFacts(Trace(h), Trace(f), Trace(f));
    } else {
      TwoCode(f.m, f.j, h.m, h.j);
    }
  }

  lemma PlacesApart(k: nat, m: nat)
    requires k < 256 && m < 256 && k != m
    ensures Place(k) != Place(m)
  {
    hide Place;
    PlaceBack(k);
    PlaceBack(m);
  }
}
