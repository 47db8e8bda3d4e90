/** The level 0 tnode as it lies in memory: sixteen entries of a fixed number of bits, packed
  one after another into 32-bit words.

  Words are written as their bits, least significant first. */
module PackedLeaf {

  type Word = w: seq<bool> | |w| == 32 witness seq(32, _ => false)

  function Shl(a: Word, k: nat): Word { seq(32, i requires 0 <= i < 32 => i >= k && a[i - k]) }
  function Shr(a: Word, k: nat): Word { seq(32, i requires 0 <= i < 32 => i + k < 32 && a[i + k]) }
  function And(a: Word, b: Word): Word { seq(32, i requires 0 <= i < 32 => a[i] && b[i]) }
  function Or(a: Word, b: Word): Word { seq(32, i requires 0 <= i < 32 => a[i] || b[i]) }
  function Not(a: Word): Word { seq(32, i requires 0 <= i < 32 => !a[i]) }

  /** tnode_mask: the low `width` bits. */
  function Mask(width: nat): Word { seq(32, i => i < width) }

  /** Bit `j` of the words in a row. */
  function Bit(map_: seq<Word>, j: nat): bool
    requires j < 32 * |map_|
  {
    map_[j / 32][j % 32]
  }

  /** Entry `p` as a word. */
  function Entry(map_: seq<Word>, width: nat, p: nat): Word
    requires width < 32 && p * width + width <= 32 * |map_|
  {
    seq(32, i requires 0 <= i < 32 => i < width && Bit(map_, p * width + i))
  }

  lemma Fits(width: nat, p: nat, n: nat)
    requires p < 16 && 16 * width <= 32 * n
    ensures p * width + width <= 32 * n
  {
    assert p * width <= 15 * width;
  }

  /** Clearing the masked bits of a word and setting them from another. */
  function Merge(was: Word, mask: Word, val: Word): (r: Word)
    ensures forall i :: 0 <= i < 32 ==> r[i] == if mask[i] then val[i] else was[i]
  {
    Or(And(was, Not(mask)), And(mask, val))
  }

  /** yaffs_load_tnode_0. */
  method Load(map_: array<Word>, width: nat, pos: nat, val: Word)
    requires 1 <= width < 32 && 16 * width <= 32 * map_.Length
    modifies map_
    ensures Loaded(old(map_[..]), map_[..], pos % 16 * width, width, val)
  {
    hide Shl, Shr, Merge, Mask, Loaded;
    ghost var was := map_[..];
    var p := pos % 16;
    Fits(width, p, map_.Length);
    var bitInMap := p * width;
    var wordInMap := bitInMap / 32;
    var bitInWord := bitInMap % 32;
    var mask := Shl(Mask(width), bitInWord);
    map_[wordInMap] := Merge(map_[wordInMap], mask, Shl(val, bitInWord));
    if width > 32 - bitInWord {
      bitInWord := 32 - bitInWord;
      wordInMap := wordInMap + 1;
      mask := Shr(Mask(width), bitInWord);
      map_[wordInMap] := Merge(map_[wordInMap], mask, Shr(val, bitInWord));
    }
    Stored(was, map_[..], bitInMap, width, val);
  }

  /** The `width` bits from bit `at` on are those of `val`, all others as they were. */
  ghost predicate Loaded(was: seq<Word>, now: seq<Word>, at: nat, width: nat, val: Word) {
    && |now| == |was| && width < 32
    && forall j :: 0 <= j < 32 * |was| ==> Bit(now, j) == if at <= j < at + width then val[j - at] else Bit(was, j)
  }

  lemma Stored(was: seq<Word>, now: seq<Word>, at: nat, width: nat, val: Word)
    requires 1 <= width < 32 && at + width <= 32 * |was| && |now| == |was|
    requires var w := at / 32; var b := at % 32;
             var first := was[w := Merge(was[w], Shl(Mask(width), b), Shl(val, b))];
             now == if width > 32 - b then first[w + 1 := Merge(first[w + 1], Shr(Mask(width), 32 - b),
                                                                Shr(val, 32 - b))] else first
    ensures Loaded(was, now, at, width, val)
  {
    var w, b := at / 32, at % 32;
    forall j | 0 <= j < 32 * |was| ensures Bit(now, j) == if at <= j < at + width then val[j - at] else Bit(was, j) {
      var q, r := j / 32, j % 32;
      if q == w {
        assert j - at == r - b;
      } else if q == w + 1 && width > 32 - b {
        assert j - at == r + (32 - b);
      }
    }
  }

  /** yaffs_get_group_base. */
  method Get(map_: array<Word>, width: nat, pos: nat) returns (val: Word)
    requires 1 <= width < 32 && 16 * width <= 32 * map_.Length
    ensures pos % 16 * width + width <= 32 * map_.Length && val == Entry(map_[..], width, pos % 16)
  {
    hide Shl, Shr, And, Or, Mask, Entry;
    var p := pos % 16;
    Fits(width, p, map_.Length);
    var bitInMap := p * width;
    var wordInMap := bitInMap / 32;
    var bitInWord := bitInMap % 32;
    val := Shr(map_[wordInMap], bitInWord);
    if width > 32 - bitInWord {
      bitInWord := 32 - bitInWord;
      wordInMap := wordInMap + 1;
      val := Or(val, Shl(map_[wordInMap], bitInWord));
    }
    val := And(val, Mask(width));
    Fetched(map_[..], width, p, val);
  }

  /** Where bit `i` of an entry that starts at bit `at` lies. */
  lemma BitPlace(m: seq<Word>, at: nat, i: nat)
    requires at + i < 32 * |m| && i < 32
    ensures var w, b := at / 32, at % 32;
            Bit(m, at + i) == if i < 32 - b then m[w][b + i] else m[w + 1][i - (32 - b)]
  {
    var w, b := at / 32, at % 32;
    if i < 32 - b {
      assert (at + i) / 32 == w && (at + i) % 32 == b + i;
    } else {
      assert (at + i) / 32 == w + 1 && (at + i) % 32 == i - (32 - b);
    }
  }

  /** What `Get` puts together from one or two words. */
  function Pieced(m: seq<Word>, width: nat, at: nat): Word
    requires 1 <= width < 32 && at + width <= 32 * |m|
  {
    var w, b := at / 32, at % 32;
    And(if width > 32 - b then Or(Shr(m[w], b), Shl(m[w + 1], 32 - b)) else Shr(m[w], b), Mask(width))
  }

  lemma FetchedBit(m: seq<Word>, width: nat, at: nat, i: nat)
    requires 1 <= width < 32 && at + width <= 32 * |m| && i < 32
    ensures Pieced(m, width, at)[i] == (i < width && Bit(m, at + i))
  {
    if i < width {
      hide Bit;
      BitPlace(m, at, i);
    }
  }

  lemma Fetched(m: seq<Word>, width: nat, p: nat, val: Word)
    requires 1 <= width < 32 && p * width + width <= 32 * |m| && val == Pieced(m, width, p * width)
    ensures val == Entry(m, width, p)
  {
    hide Pieced, Bit;
    forall i | 0 <= i < 32 ensures val[i] == Entry(m, width, p)[i] {
      FetchedBit(m, width, p * width, i);
    }
  }

  /** Storing an entry and fetching it gives the value back, up to the width; every other entry
    is as it was, also where entries straddle words. */
  lemma LoadThenGet(was: seq<Word>, now: seq<Word>, width: nat, p: nat, q: nat, val: Word)
    requires 1 <= width < 32 && 16 * width <= 32 * |was| && p < 16 && q < 16 && Loaded(was, now, p * width, width, val)
    ensures p * width + width <= 32 * |was| && q * width + width <= 32 * |was|
    ensures Entry(now, width, q) == if q == p then And(val, Mask(width)) else Entry(was, width, q)
  {
    Fits(width, p, |was|);
    Fits(width, q, |was|);
    Apart(width, p, q);
    forall i | 0 <= i < 32 ensures Entry(now, width, q)[i] == if q == p then And(val, Mask(width))[i]
                                                              else Entry(was, width, q)[i] {
      if i < width { assert 0 <= q * width + i < 32 * |was|; }
    }
  }

  lemma Apart(width: nat, p: nat, q: nat)
    ensures p < q ==> p * width + width <= q * width
    ensures q < p ==> q * width + width <= p * width
  {
    if p < q { assert (p + 1) * width <= q * width; } else if q < p { assert (q + 1) * width <= p * width; }
  }
}
