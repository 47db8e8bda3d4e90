/** What the flash chip has been asked to do. */
module Nand {

  /** A page: block number and page within the block. */
  datatype Addr = Addr(b: nat, p: nat)

  /** An object's header is its chunk 0. */
  datatype Key = Key(obj: nat, chunk: nat)

  /** Chunk contents.  `rest` stands for the header fields that garbage collection leaves alone. */
  datatype Body = Data(bytes: seq<bv8>) | Header(rest: int, size: nat, shrink: bool, shadows: nat)

  datatype Page = Erased | Chunk(key: Key, body: Body) | Summary | Checkpt | Marker | Junk

  /** The page programs and block erasures so far, the latest outermost. */
  datatype Nand =
    | Blank
    | Programmed(nand: Nand, a: Addr, page: Page)
    | Wiped(nand: Nand, no: nat)

  function Read(n: Nand, a: Addr): Page {
    match n
    case Blank => Erased
    case Programmed(m, at, page) => if a == at then page else Read(m, a)
    case Wiped(m, b) => if a.b == b then Erased else Read(m, a)
  }

  /** First page of the block after the last one programmed since its erasure. */
  function Top(n: Nand, b: nat): nat {
    match n
    case Blank => 0
    case Programmed(m, at, _) => if at.b == b then at.p + 1 else Top(m, b)
    case Wiped(m, c) => if c == b then 0 else Top(m, b)
  }

  /** Every program operation hit a page above all those programmed since the last erasure. */
  predicate Proper(n: Nand) {
    match n
    case Blank => true
    case Programmed(m, at, _) => Proper(m) && Top(m, at.b) <= at.p
    case Wiped(m, _) => Proper(m)
  }

  /** The pages of the block programmed since its last erasure, in order. */
  function Since(n: Nand, b: nat): seq<nat> {
    match n
    case Blank => []
    case Programmed(m, at, _) => if at.b == b then Since(m, b) + [at.p] else Since(m, b)
    case Wiped(m, c) => if c == b then [] else Since(m, b)
  }

  /** Proper use means: between erasures the pages of a block are programmed in increasing
    order, hence none twice. */
  lemma {:induction false} ProgramOrder(n: Nand, b: nat)
    requires Proper(n)
    ensures forall i, j :: 0 <= i < j < |Since(n, b)| ==> Since(n, b)[i] < Since(n, b)[j]
    ensures forall i :: 0 <= i < |Since(n, b)| ==> Since(n, b)[i] < Top(n, b)
  {
    match n
    case Blank =>
    case Programmed(m, at, _) => ProgramOrder(m, b);
    case Wiped(m, _) => ProgramOrder(m, b);
  }

  /** Conversely, increasing order between erasures of every block is proper use. */
  lemma {:induction false} OrderIsProper(n: Nand)
    requires forall m, b, i, j :: Part(m, n) && 0 <= i < j < |Since(m, b)| ==> Since(m, b)[i] < Since(m, b)[j]
    ensures Proper(n)
  {
    match n
    case Blank =>
    case Programmed(m, at, _) =>
      OrderIsProper(m);
      LastIsTop(m, at.b);
      assert Part(n, n);
      var s := Since(m, at.b);
      if s != [] { assert Since(n, at.b)[|s| - 1] < Since(n, at.b)[|s|]; }
    case Wiped(m, _) => OrderIsProper(m);
  }

  /** `m` is what `n` was at some earlier time. */
  predicate Part(m: Nand, n: Nand) {
    m == n || match n case Blank => false case Programmed(k, _, _) => Part(m, k) case Wiped(k, _) => Part(m, k)
  }

  lemma {:induction false} LastIsTop(n: Nand, b: nat)
    ensures Top(n, b) == if Since(n, b) == [] then 0 else Since(n, b)[|Since(n, b)| - 1] + 1
  {
    match n
    case Blank =>
    case Programmed(m, at, _) => LastIsTop(m, b);
    case Wiped(m, _) => LastIsTop(m, b);
  }

  lemma {:induction false} ErasedAbove(n: Nand, a: Addr)
    requires Proper(n) && Top(n, a.b) <= a.p
    ensures Read(n, a) == Erased
  {
    match n
    case Blank =>
    case Programmed(m, at, _) => ErasedAbove(m, a);
    case Wiped(m, c) => if c != a.b { ErasedAbove(m, a); }
  }
}
