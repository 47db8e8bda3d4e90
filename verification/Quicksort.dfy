/** The block sort: Bentley and McIlroy's quicksort, in place.  The array elements stand for
  the `es`-byte records and `cmp` for the comparison callback. */
module Quicksort {

  /** `cmp` orders the values of `dom`: its sign is antisymmetric and transitive. */
  ghost predicate Orders<T(!new)>(cmp: (T, T) -> int, dom: iset<T>)
  {
    && (forall x, y :: x in dom && y in dom ==> (cmp(x, y) < 0 <==> cmp(y, x) > 0))
    && (forall x, y, z :: x in dom && y in dom && z in dom && cmp(x, y) <= 0 && cmp(y, z) <= 0 ==> cmp(x, z) <= 0)
  }

  ghost predicate Sorted<T>(s: seq<T>, lo: nat, hi: nat, cmp: (T, T) -> int)
    requires lo <= hi <= |s|
  {
    forall i, j :: lo <= i < j < hi ==> cmp(s[i], s[j]) <= 0
  }

  /** `t` is `s` with the elements of [lo, hi) rearranged. */
  ghost predicate Rearranged<T>(s: seq<T>, t: seq<T>, lo: nat, hi: nat)
  {
    && |s| == |t| && lo <= hi <= |s|
    && (forall i :: 0 <= i < lo ==> s[i] == t[i])
    && (forall i :: hi <= i < |s| ==> s[i] == t[i])
    && multiset(s[lo..hi]) == multiset(t[lo..hi])
  }

  ghost predicate AllIn<T>(s: seq<T>, lo: nat, hi: nat, dom: iset<T>)
    requires lo <= hi <= |s|
  {
    forall i :: lo <= i < hi ==> s[i] in dom
  }

  lemma Chain<T>(s: seq<T>, t: seq<T>, u: seq<T>, lo: nat, hi: nat)
    requires Rearranged(s, t, lo, hi) && Rearranged(t, u, lo, hi)
    ensures Rearranged(s, u, lo, hi)
  {}

  /** A rearrangement of a part is a rearrangement of the whole. */
  lemma Widen<T>(s: seq<T>, t: seq<T>, lo: nat, hi: nat, lo': nat, hi': nat)
    requires Rearranged(s, t, lo', hi') && lo <= lo' && hi' <= hi <= |s|
    ensures Rearranged(s, t, lo, hi)
  {
    assert s[lo..hi] == s[lo..lo'] + s[lo'..hi'] + s[hi'..hi];
    assert t[lo..hi] == t[lo..lo'] + t[lo'..hi'] + t[hi'..hi];
    assert s[lo..lo'] == t[lo..lo'] && s[hi'..hi] == t[hi'..hi];
  }

  /** What holds of every element of a part still does after rearranging it. */
  lemma Carried<T>(s: seq<T>, t: seq<T>, lo: nat, hi: nat, p: T -> bool)
    requires Rearranged(s, t, lo, hi) && forall i :: lo <= i < hi ==> p(s[i])
    ensures forall i :: lo <= i < hi ==> p(t[i])
  {
    forall i | lo <= i < hi ensures p(t[i]) {
      assert t[i] in multiset(t[lo..hi]) by { assert t[lo..hi][i - lo] == t[i]; }
      assert t[i] in s[lo..hi];
    }
  }

  lemma StillIn<T>(s: seq<T>, t: seq<T>, lo: nat, hi: nat, dom: iset<T>)
    requires Rearranged(s, t, lo, hi) && AllIn(s, lo, hi, dom)
    ensures AllIn(t, lo, hi, dom)
  {
    Carried(s, t, lo, hi, x => x in dom);
  }

  function Exchanged<T>(s: seq<T>, i: nat, j: nat): (t: seq<T>)
    requires i < |s| && j < |s|
    ensures |t| == |s|
  {
    s[i := s[j]][j := s[i]]
  }

  method Swap<T>(a: array<T>, i: nat, j: nat, ghost lo: nat, ghost hi: nat)
    requires lo <= i < hi <= a.Length && lo <= j < hi
    modifies a
    ensures a[..] == Exchanged(old(a[..]), i, j)
    ensures Rearranged(old(a[..]), a[..], lo, hi)
  {
    ghost var s := a[..];
    a[i], a[j] := a[j], a[i];
    assert a[..][lo..hi] == s[lo..hi][i - lo := s[j]][j - lo := s[i]];
  }

  /** The insertion sort used for short runs and when a partition moved nothing. */
  method InsertionSort<T(!new)>(a: array<T>, lo: nat, n: nat, cmp: (T, T) -> int, ghost dom: iset<T>)
    requires lo + n <= a.Length && Orders(cmp, dom) && AllIn(a[..], lo, lo + n, dom)
    modifies a
    ensures Rearranged(old(a[..]), a[..], lo, lo + n) && Sorted(a[..], lo, lo + n, cmp)
  {
    hide *;
    ghost var s0 := a[..];
    Unchanged(s0, lo, lo + n, cmp);
    var pm := lo + 1;
    while pm < lo + n
      invariant lo + 1 <= pm && (pm <= lo + n || n == 0)
      invariant Rearranged(s0, a[..], lo, lo + n)
      invariant Sorted(a[..], lo, if n == 0 then lo else pm, cmp)
    {
      ghost var s := a[..];
      StillIn(s0, s, lo, lo + n, dom);
      Sift(a, lo, n, pm, cmp, dom);
      Chain(s0, s, a[..], lo, lo + n);
      pm := pm + 1;
    }
  }

  lemma Unchanged<T>(s: seq<T>, lo: nat, hi: nat, cmp: (T, T) -> int)
    requires lo <= hi <= |s|
    ensures Rearranged(s, s, lo, hi) && Sorted(s, lo, lo, cmp) && (lo < hi ==> Sorted(s, lo, lo + 1, cmp))
  {}

  /** [lo, pm] is sorted apart from element `pl`, which is at most everything after it. */
  ghost predicate Sifted<T>(s: seq<T>, lo: nat, pl: nat, pm: nat, cmp: (T, T) -> int)
    requires lo <= pl <= pm < |s|
  {
    && (forall i, j :: lo <= i < j <= pm && i != pl && j != pl ==> cmp(s[i], s[j]) <= 0)
    && (forall j :: pl < j <= pm ==> cmp(s[pl], s[j]) <= 0)
  }

  lemma SiftStep<T(!new)>(s: seq<T>, lo: nat, pl: nat, pm: nat, hi: nat, cmp: (T, T) -> int, dom: iset<T>)
    requires lo < pl <= pm < hi <= |s| && Sifted(s, lo, pl, pm, cmp) && cmp(s[pl - 1], s[pl]) > 0
    requires Orders(cmp, dom) && AllIn(s, lo, hi, dom)
    ensures Sifted(Exchanged(s, pl, pl - 1), lo, pl - 1, pm, cmp)
  {
    var t := Exchanged(s, pl, pl - 1);
    assert s[pl - 1] in dom && s[pl] in dom;
    forall i, j | lo <= i < j <= pm && i != pl - 1 && j != pl - 1 ensures cmp(t[i], t[j]) <= 0 {
      assert t[i] == if i == pl then s[pl - 1] else s[i];
      assert t[j] == if j == pl then s[pl - 1] else s[j];
    }
  }

  lemma SiftEnd<T(!new)>(s: seq<T>, lo: nat, pl: nat, pm: nat, hi: nat, cmp: (T, T) -> int, dom: iset<T>)
    requires lo <= pl <= pm < hi <= |s| && Sifted(s, lo, pl, pm, cmp)
    requires Orders(cmp, dom) && AllIn(s, lo, hi, dom)
    requires pl == lo || cmp(s[pl - 1], s[pl]) <= 0
    ensures Sorted(s, lo, pm + 1, cmp)
  {
    forall i | lo <= i < pl ensures cmp(s[i], s[pl]) <= 0 {
      if i < pl - 1 {
        assert s[i] in dom && s[pl - 1] in dom && s[pl] in dom;
        assert cmp(s[i], s[pl - 1]) <= 0;
      }
    }
  }

  /** Moves element `pm` down to its place in the sorted run before it. */
  method Sift<T(!new)>(a: array<T>, lo: nat, n: nat, pm: nat, cmp: (T, T) -> int, ghost dom: iset<T>)
    requires lo <= pm < lo + n <= a.Length && Orders(cmp, dom) && AllIn(a[..], lo, lo + n, dom)
    requires Sorted(a[..], lo, pm, cmp)
    modifies a
    ensures Rearranged(old(a[..]), a[..], lo, lo + n)
    ensures Sorted(a[..], lo, pm + 1, cmp)
  {
    hide *;
    ghost var s0 := a[..];
    StartSift(s0, lo, pm, lo + n, cmp);
    var pl := pm;
    while pl > lo && cmp(a[pl - 1], a[pl]) > 0
      invariant lo <= pl <= pm
      invariant Rearranged(s0, a[..], lo, lo + n)
      invariant Sifted(a[..], lo, pl, pm, cmp)
    {
      ghost var s := a[..];
      StillIn(s0, s, lo, lo + n, dom);
      SiftStep(s, lo, pl, pm, lo + n, cmp, dom);
      Swap(a, pl, pl - 1, lo, lo + n);
      Chain(s0, s, a[..], lo, lo + n);
      pl := pl - 1;
    }
    StillIn(s0, a[..], lo, lo + n, dom);
    SiftEnd(a[..], lo, pl, pm, lo + n, cmp, dom);
  }

  lemma StartSift<T>(s: seq<T>, lo: nat, pm: nat, hi: nat, cmp: (T, T) -> int)
    requires lo <= pm < hi <= |s| && Sorted(s, lo, pm, cmp)
    ensures Sifted(s, lo, pm, pm, cmp) && Rearranged(s, s, lo, hi)
  {}

  // ---------- the partition ----------

  /** Mid-partition around the element at `lo`: equal elements at both ends, smaller ones
    before `pb`, greater ones from `pc` on; [pb, pc) has yet to be looked at. */
  ghost predicate Parted<T>(s: seq<T>, lo: nat, hi: nat, pa: nat, pb: nat, pc: nat, pd: nat, cmp: (T, T) -> int)
  {
    && lo < pa <= pb <= pc <= pd <= hi <= |s|
    && (forall i :: lo <= i < pa ==> cmp(s[i], s[lo]) == 0)
    && (forall i :: pa <= i < pb ==> cmp(s[i], s[lo]) < 0)
    && (forall i :: pc <= i < pd ==> cmp(s[i], s[lo]) > 0)
    && (forall i :: pd <= i < hi ==> cmp(s[i], s[lo]) == 0)
  }

  lemma PartStart<T(!new)>(s: seq<T>, lo: nat, hi: nat, cmp: (T, T) -> int, dom: iset<T>)
    requires lo < hi <= |s| && Orders(cmp, dom) && AllIn(s, lo, hi, dom)
    ensures Parted(s, lo, hi, lo + 1, lo + 1, hi, hi, cmp) && Rearranged(s, s, lo, hi)
  {
    assert s[lo] in dom;
  }

  lemma PartLow<T>(s: seq<T>, lo: nat, hi: nat, pa: nat, pb: nat, pc: nat, pd: nat, cmp: (T, T) -> int)
    requires Parted(s, lo, hi, pa, pb, pc, pd, cmp) && pb < pc
    ensures cmp(s[pb], s[lo]) == 0 ==> Parted(Exchanged(s, pa, pb), lo, hi, pa + 1, pb + 1, pc, pd, cmp)
    ensures cmp(s[pb], s[lo]) < 0 ==> Parted(s, lo, hi, pa, pb + 1, pc, pd, cmp)
  {}

  lemma PartHigh<T>(s: seq<T>, lo: nat, hi: nat, pa: nat, pb: nat, pc: nat, pd: nat, cmp: (T, T) -> int)
    requires Parted(s, lo, hi, pa, pb, pc + 1, pd, cmp) && pb <= pc && UpStopped(s, lo, pb, pc + 1, cmp)
    ensures cmp(s[pc], s[lo]) == 0 ==>
              Parted(Exchanged(s, pc, pd - 1), lo, hi, pa, pb, pc, pd - 1, cmp) &&
              UpStopped(Exchanged(s, pc, pd - 1), lo, pb, pc, cmp)
    ensures cmp(s[pc], s[lo]) > 0 ==> Parted(s, lo, hi, pa, pb, pc, pd, cmp) && UpStopped(s, lo, pb, pc, cmp)
  {}

  lemma PartBoth<T>(s: seq<T>, lo: nat, hi: nat, pa: nat, pb: nat, pc: nat, pd: nat, cmp: (T, T) -> int)
    requires Parted(s, lo, hi, pa, pb, pc, pd, cmp) && pb < pc
    requires UpStopped(s, lo, pb, pc, cmp) && DownStopped(s, lo, pb, pc, cmp)
    ensures pb < pc - 1 && Parted(Exchanged(s, pb, pc - 1), lo, hi, pa, pb + 1, pc - 1, pd, cmp)
  {}

  lemma PartBounds<T>(s: seq<T>, lo: nat, hi: nat, pa: nat, pb: nat, pc: nat, pd: nat, cmp: (T, T) -> int)
    requires Parted(s, lo, hi, pa, pb, pc, pd, cmp)
    ensures lo < pa <= pb <= pc <= pd <= hi <= |s|
  {}

  /** The inner loop that walks `pb` up. */
  method WalkUp<T(!new)>(a: array<T>, lo: nat, hi: nat, pa0: nat, pb0: nat, pc: nat, pd: nat, cmp: (T, T) -> int)
      returns (pa: nat, pb: nat, moved: bool)
    requires Parted(a[..], lo, hi, pa0, pb0, pc, pd, cmp)
    modifies a
    ensures Rearranged(old(a[..]), a[..], lo, hi)
    ensures Parted(a[..], lo, hi, pa, pb, pc, pd, cmp) && pb0 <= pb
    ensures UpStopped(a[..], lo, pb, pc, cmp)
  {
    hide *;
    ghost var s0 := a[..];
    PartBounds(s0, lo, hi, pa0, pb0, pc, pd, cmp);
    Same(s0, lo, hi);
    pa, pb, moved := pa0, pb0, false;
    while pb < pc
      invariant Rearranged(s0, a[..], lo, hi) && Parted(a[..], lo, hi, pa, pb, pc, pd, cmp)
      invariant lo < pa <= pb <= pc && pb0 <= pb
    {
      ghost var s := a[..];
      var r := cmp(a[pb], a[lo]);
      if r > 0 { break; }
      PartLow(s, lo, hi, pa, pb, pc, pd, cmp);
      if r == 0 {
        moved := true;
        Swap(a, pa, pb, lo, hi);
        Chain(s0, s, a[..], lo, hi);
        pa := pa + 1;
      }
      pb := pb + 1;
    }
    NowStopped(a[..], lo, pb, pc, cmp);
  }

  lemma NowStopped<T>(s: seq<T>, lo: nat, pb: nat, pc: nat, cmp: (T, T) -> int)
    requires lo < pb <= pc <= |s|
    ensures !(pb < pc && cmp(s[pb], s[lo]) <= 0) ==> UpStopped(s, lo, pb, pc, cmp)
    ensures !(pb < pc && cmp(s[pc - 1], s[lo]) >= 0) ==> DownStopped(s, lo, pb, pc, cmp)
  {}

  lemma Same<T>(s: seq<T>, lo: nat, hi: nat)
    requires lo <= hi <= |s|
    ensures Rearranged(s, s, lo, hi)
  {}

  /** The upward walk has stopped at a greater element, or has met the other one. */
  ghost predicate UpStopped<T>(s: seq<T>, lo: nat, pb: nat, pc: nat, cmp: (T, T) -> int)
  {
    lo < pb < pc <= |s| ==> cmp(s[pb], s[lo]) > 0
  }

  ghost predicate DownStopped<T>(s: seq<T>, lo: nat, pb: nat, pc: nat, cmp: (T, T) -> int)
  {
    lo < pb < pc <= |s| ==> cmp(s[pc - 1], s[lo]) < 0
  }

  /** The downward walk passes element `pc`, moving it to the end if it is equal. */
  method TakeHigh<T(!new)>(a: array<T>, lo: nat, hi: nat, pa: nat, pb: nat, pc: nat, pd0: nat, r: int, cmp: (T,
                    T) -> int)
      returns (pd: nat)
    requires Parted(a[..], lo, hi, pa, pb, pc + 1, pd0, cmp) && pb <= pc && UpStopped(a[..], lo, pb, pc + 1, cmp)
    requires r == cmp(a[pc], a[lo]) >= 0
    modifies a
    ensures Rearranged(old(a[..]), a[..], lo, hi) && pc <= pd <= hi
    ensures Parted(a[..], lo, hi, pa, pb, pc, pd, cmp) && UpStopped(a[..], lo, pb, pc, cmp)
  {
    hide *;
    ghost var s0 := a[..];
    PartBounds(s0, lo, hi, pa, pb, pc + 1, pd0, cmp);
    PartHigh(s0, lo, hi, pa, pb, pc, pd0, cmp);
    Same(s0, lo, hi);
    pd := pd0;
    if r == 0 {
      pd := pd - 1;
      Swap(a, pc, pd, lo, hi);
    }
  }

  /** The inner loop that walks `pc` down. */
  method WalkDown<T(!new)>(a: array<T>, lo: nat, hi: nat, pa: nat, pb: nat, pc0: nat, pd0: nat, cmp: (T, T) -> int)
      returns (pc: nat, pd: nat, moved: bool)
    requires Parted(a[..], lo, hi, pa, pb, pc0, pd0, cmp)
    requires UpStopped(a[..], lo, pb, pc0, cmp)
    modifies a
    ensures Rearranged(old(a[..]), a[..], lo, hi)
    ensures Parted(a[..], lo, hi, pa, pb, pc, pd, cmp) && pc <= pc0
    ensures UpStopped(a[..], lo, pb, pc, cmp) && DownStopped(a[..], lo, pb, pc, cmp)
  {
    hide *;
    ghost var s0 := a[..];
    PartBounds(s0, lo, hi, pa, pb, pc0, pd0, cmp);
    Same(s0, lo, hi);
    pc, pd, moved := pc0, pd0, false;
    while pb < pc
      invariant Rearranged(s0, a[..], lo, hi) && Parted(a[..], lo, hi, pa, pb, pc, pd, cmp)
      invariant lo < pb <= pc <= pd <= hi && pc <= pc0
      invariant UpStopped(a[..], lo, pb, pc, cmp)
    {
      ghost var s := a[..];
      var r := cmp(a[pc - 1], a[lo]);
      if r < 0 { break; }
      pc := pc - 1;
      if r == 0 { moved := true; }
      pd := TakeHigh(a, lo, hi, pa, pb, pc, pd, r, cmp);
      Chain(s0, s, a[..], lo, hi);
    }
    NowStopped(a[..], lo, pb, pc, cmp);
  }

  /** The whole partition loop; `moved` is the C variable swap_cnt. */
  method Partition<T(!new)>(a: array<T>, lo: nat, hi: nat, cmp: (T, T) -> int, ghost dom: iset<T>)
      returns (pa: nat, pb: nat, pd: nat, moved: bool)
    requires lo < hi <= a.Length && Orders(cmp, dom) && AllIn(a[..], lo, hi, dom)
    modifies a
    ensures Rearranged(old(a[..]), a[..], lo, hi)
    ensures Parted(a[..], lo, hi, pa, pb, pb, pd, cmp)
  {
    hide *;
    ghost var s0 := a[..];
    PartStart(s0, lo, hi, cmp, dom);
    pa, pb, pd, moved := lo + 1, lo + 1, hi, false;
    var pc: nat := hi;
    while true
      invariant Rearranged(s0, a[..], lo, hi) && Parted(a[..], lo, hi, pa, pb, pc, pd, cmp)
      decreases pc - pb
    {
      ghost var s := a[..];
      PartBounds(s, lo, hi, pa, pb, pc, pd, cmp);
      ghost var before := pc - pb;
      var m1, m2;
      pa, pb, m1 := WalkUp(a, lo, hi, pa, pb, pc, pd, cmp);
      Chain(s0, s, a[..], lo, hi);
      ghost var s1 := a[..];
      pc, pd, m2 := WalkDown(a, lo, hi, pa, pb, pc, pd, cmp);
      Chain(s0, s1, a[..], lo, hi);
      moved := moved || m1 || m2;
      ghost var s2 := a[..];
      PartBounds(s2, lo, hi, pa, pb, pc, pd, cmp);
      if pb >= pc { return; }
      PartBoth(s2, lo, hi, pa, pb, pc, pd, cmp);
      Swap(a, pb, pc - 1, lo, hi);
      Chain(s0, s2, a[..], lo, hi);
      moved := true;
      pb := pb + 1;
      pc := pc - 1;
    }
  }

  // ---------- gathering the equal elements in the middle ----------

  /** The two ranges of length `n` at `i` and `j` change places. */
  function RangesSwapped<T>(s: seq<T>, i: nat, j: nat, n: nat): (t: seq<T>)
    requires i + n <= j && j + n <= |s|
    ensures |t| == |s|
  {
    seq(|s|, k requires 0 <= k < |s| =>
               if i <= k < i + n then s[j + (k - i)] else if j <= k < j + n then s[i + (k - j)] else s[k])
  }

  method VecSwap<T>(a: array<T>, i: nat, j: nat, n: nat, ghost lo: nat, ghost hi: nat)
    requires lo <= i <= i + n <= j && j + n <= hi <= a.Length
    modifies a
    ensures a[..] == RangesSwapped(old(a[..]), i, j, n)
    ensures Rearranged(old(a[..]), a[..], lo, hi)
  {
    hide *;
    ghost var s0 := a[..];
    Same(s0, lo, hi);
    NoneSwapped(s0, i, j);
    var k := 0;
    while k < n
      invariant 0 <= k <= n
      invariant Rearranged(s0, a[..], lo, hi)
      invariant a[..] == RangesSwapped(s0, i, j, k)
    {
      ghost var s := a[..];
      OneMoreSwapped(s0, i, j, k);
      Swap(a, i + k, j + k, lo, hi);
      Chain(s0, s, a[..], lo, hi);
      k := k + 1;
    }
  }

  lemma NoneSwapped<T>(s: seq<T>, i: nat, j: nat)
    requires i <= j <= |s|
    ensures RangesSwapped(s, i, j, 0) == s
  {}

  lemma OneMoreSwapped<T>(s: seq<T>, i: nat, j: nat, k: nat)
    requires i + k < j && j + k < |s|
    ensures Exchanged(RangesSwapped(s, i, j, k), i + k, j + k) == RangesSwapped(s, i, j, k + 1)
  {}

  /** Smaller, equal and greater elements, in this order, relative to `v`. */
  ghost predicate ThreeWay<T>(s: seq<T>, lo: nat, l: nat, g: nat, hi: nat, v: T, cmp: (T, T) -> int)
  {
    && lo <= l < g <= hi <= |s|
    && (forall i :: lo <= i < l ==> cmp(s[i], v) < 0)
    && (forall i :: l <= i < g ==> cmp(s[i], v) == 0)
    && (forall i :: g <= i < hi ==> cmp(s[i], v) > 0)
  }

  /** The smaller elements are in front; the equal ones from the high end are still there. */
  ghost predicate HalfGathered<T>(s: seq<T>, lo: nat, l: nat, pb: nat, pd: nat, hi: nat, v: T, cmp: (T, T) -> int)
  {
    && lo <= l < pb <= pd <= hi <= |s|
    && (forall i :: lo <= i < l ==> cmp(s[i], v) < 0)
    && (forall i :: l <= i < pb ==> cmp(s[i], v) == 0)
    && (forall i :: pb <= i < pd ==> cmp(s[i], v) > 0)
    && (forall i :: pd <= i < hi ==> cmp(s[i], v) == 0)
  }

  function Least(a: nat, b: nat): nat { if a < b then a else b }

  lemma GatherLow<T>(s: seq<T>, lo: nat, hi: nat, pa: nat, pb: nat, pd: nat, cmp: (T, T) -> int)
    requires Parted(s, lo, hi, pa, pb, pb, pd, cmp)
    ensures var r := Least(pa - lo, pb - pa);
            lo + r <= pb - r &&
            HalfGathered(RangesSwapped(s, lo, pb - r, r), lo, lo + (pb - pa), pb, pd, hi, s[lo], cmp)
  {}

  lemma GatherHigh<T>(s: seq<T>, lo: nat, l: nat, pb: nat, pd: nat, hi: nat, v: T, cmp: (T, T) -> int)
    requires HalfGathered(s, lo, l, pb, pd, hi, v, cmp)
    ensures var r := Least(pd - pb, hi - pd);
            pb + r <= hi - r &&
            ThreeWay(RangesSwapped(s, pb, hi - r, r), lo, l, hi - (pd - pb), hi, v, cmp)
  {}

  /** Both block exchanges after a partition that moved something. */
  method Gather<T(!new)>(a: array<T>, lo: nat, hi: nat, pa: nat, pb: nat, pd: nat, cmp: (T, T) -> int)
      returns (l: nat, g: nat)
    requires hi <= a.Length && Parted(a[..], lo, hi, pa, pb, pb, pd, cmp)
    modifies a
    ensures Rearranged(old(a[..]), a[..], lo, hi)
    ensures lo <= l < g <= hi && l - lo == pb - pa && hi - g == pd - pb
    ensures ThreeWay(a[..], lo, l, g, hi, old(a[..])[lo], cmp)
  {
    hide *;
    ghost var s0 := a[..];
    PartBounds(s0, lo, hi, pa, pb, pb, pd, cmp);
    GatherLow(s0, lo, hi, pa, pb, pd, cmp);
    var r := Least(pa - lo, pb - pa);
    LeastOf(pa - lo, pb - pa);
    VecSwap(a, lo, pb - r, r, lo, hi);
    l, g := lo + (pb - pa), hi - (pd - pb);
    ghost var s1 := a[..];
    GatherHigh(s1, lo, l, pb, pd, hi, s0[lo], cmp);
    r := Least(pd - pb, hi - pd);
    LeastOf(pd - pb, hi - pd);
    VecSwap(a, pb, hi - r, r, lo, hi);
    Chain(s0, s1, a[..], lo, hi);
  }

  lemma LeastOf(a: nat, b: nat)
    ensures Least(a, b) <= a && Least(a, b) <= b
  {}

  // ---------- the sort ----------

  /** The middle one of three elements, by position. */
  function Med3<T>(s: seq<T>, i: nat, j: nat, k: nat, cmp: (T, T) -> int): (m: nat)
    requires i < |s| && j < |s| && k < |s|
    ensures m == i || m == j || m == k
  {
    if cmp(s[i], s[j]) < 0 then
      if cmp(s[j], s[k]) < 0 then j else if cmp(s[i], s[k]) < 0 then k else i
    else
      if cmp(s[j], s[k]) > 0 then j else if cmp(s[i], s[k]) < 0 then i else k
  }

  /** Med3 really is a median: one of the other two is not above it, the other not below. */
  lemma Med3IsMedian<T(!new)>(s: seq<T>, i: nat, j: nat, k: nat, cmp: (T, T) -> int, dom: iset<T>)
    requires i < |s| && j < |s| && k < |s| && i != j && j != k && i != k && Orders(cmp, dom) && s[i] in dom
    requires s[j] in dom && s[k] in dom
    ensures var m := Med3(s, i, j, k, cmp);
            var lo := if m == i then s[j] else s[i];
            var hi := if m == k then s[j] else s[k];
            (cmp(lo, s[m]) <= 0 && cmp(s[m], hi) <= 0) || (cmp(hi, s[m]) <= 0 && cmp(s[m], lo) <= 0)
  {}

  /** The pivot position for a run of at least seven elements. */
  method PickPivot<T>(a: array<T>, lo: nat, n: nat, cmp: (T, T) -> int) returns (pm: nat)
    requires lo + n <= a.Length && n >= 7
    ensures lo <= pm < lo + n
  {
    hide *;
    pm := lo + n / 2;
    if n > 7 {
      var pl, pn := lo, lo + n - 1;
      if n > 40 {
        var d := n / 8;
        pl := Med3(a[..], pl, pl + d, pl + 2 * d, cmp);
        pm := Med3(a[..], pm - d, pm, pm + d, cmp);
        pn := Med3(a[..], pn - 2 * d, pn - d, pn, cmp);
      }
      pm := Med3(a[..], pl, pm, pn, cmp);
    }
  }

  /** Everything in [lo, mid) is sorted and at most everything in [mid, hi). */
  ghost predicate SettledUpTo<T>(s: seq<T>, lo: nat, mid: nat, hi: nat, cmp: (T, T) -> int)
    requires lo <= mid <= hi <= |s|
  {
    && Sorted(s, lo, mid, cmp)
    && (forall i, j :: lo <= i < mid <= j < hi ==> cmp(s[i], s[j]) <= 0)
  }

  lemma SettledEnd<T>(s: seq<T>, lo: nat, mid: nat, hi: nat, cmp: (T, T) -> int)
    requires lo <= mid <= hi <= |s| && SettledUpTo(s, lo, mid, hi, cmp)
    requires mid == hi || Sorted(s, mid, hi, cmp) || mid + 1 == hi
    ensures Sorted(s, lo, hi, cmp)
  {}

  /** Rearranging the unsettled part keeps the settled one settled. */
  lemma SettledKept<T>(s: seq<T>, t: seq<T>, lo: nat, mid: nat, hi: nat, cmp: (T, T) -> int)
    requires lo <= mid <= hi <= |s| && SettledUpTo(s, lo, mid, hi, cmp) && Rearranged(s, t, mid, hi)
    ensures SettledUpTo(t, lo, mid, hi, cmp)
  {
    forall i, j | lo <= i < mid <= j < hi ensures cmp(t[i], t[j]) <= 0 {
      Carried(s, t, mid, hi, x => cmp(s[i], x) <= 0);
    }
  }

  /** The partition survives sorting its smaller part. */
  lemma ThreeWayKept<T>(s: seq<T>, t: seq<T>, lo: nat, l: nat, g: nat, hi: nat, v: T, cmp: (T, T) -> int)
    requires ThreeWay(s, lo, l, g, hi, v, cmp) && Rearranged(s, t, lo, l)
    ensures ThreeWay(t, lo, l, g, hi, v, cmp)
  {
    Carried(s, t, lo, l, x => cmp(x, v) < 0);
  }

  /** With the smaller part sorted, everything before the greater part is settled. */
  lemma SettleMore<T(!new)>(s: seq<T>, lo: nat, l: nat, g: nat, hi: nat, v: T, cmp: (T, T) -> int, dom: iset<T>)
    requires ThreeWay(s, lo, l, g, hi, v, cmp) && Sorted(s, lo, l, cmp)
    requires Orders(cmp, dom) && AllIn(s, lo, hi, dom) && v in dom
    ensures SettledUpTo(s, lo, g, hi, cmp)
  {
    forall i, j | lo <= i < g && i < j < hi ensures cmp(s[i], s[j]) <= 0 {
      assert s[i] in dom && s[j] in dom;
      if j < l {
      } else {
        assert cmp(s[i], v) <= 0 && cmp(v, s[j]) <= 0;
      }
    }
  }

  /** What one pass of the outer loop, on `n` elements from `lo`, leaves behind: either all is
    sorted, or everything before `g` is settled. */
  method SortRound<T(!new)>(a: array<T>, lo: nat, n: nat, cmp: (T, T) -> int, ghost dom: iset<T>)
      returns (done: bool, g: nat)
    requires lo + n <= a.Length && Orders(cmp, dom) && AllIn(a[..], lo, lo + n, dom)
    modifies a
    ensures Rearranged(old(a[..]), a[..], lo, lo + n)
    ensures done ==> Sorted(a[..], lo, lo + n, cmp)
    ensures !done ==> lo < g <= lo + n && SettledUpTo(a[..], lo, g, lo + n, cmp)
    decreases n, 0
  {
    hide *;
    ghost var s0 := a[..];
    var hi := lo + n;
    if n < 7 {
      InsertionSort(a, lo, n, cmp, dom);
      return true, lo;
    }
    var pm := PickPivot(a, lo, n, cmp);
    Swap(a, lo, pm, lo, hi);
    ghost var s1 := a[..];
    StillIn(s0, s1, lo, hi, dom);
    var pa, pb, pd, moved := Partition(a, lo, hi, cmp, dom);
    ghost var s2 := a[..];
    Chain(s0, s1, s2, lo, hi);
    StillIn(s0, s2, lo, hi, dom);
    if !moved {
      InsertionSort(a, lo, n, cmp, dom);
      Chain(s0, s2, a[..], lo, hi);
      return true, lo;
    }
    ghost var v := s2[lo];
    InDom(s2, lo, hi, dom);
    var l;
    l, g := Gather(a, lo, hi, pa, pb, pd, cmp);
    ghost var s3 := a[..];
    Chain(s0, s2, s3, lo, hi);
    StillIn(s0, s3, lo, hi, dom);
    FrontIn(s3, lo, l, hi, dom);
    if l - lo > 1 {
      Sort(a, lo, l - lo, cmp, dom);
    } else {
      Short(s3, lo, l, cmp);
    }
    ghost var s4 := a[..];
    ThreeWayKept(s3, s4, lo, l, g, hi, v, cmp);
    Widen(s3, s4, lo, hi, lo, l);
    Chain(s0, s3, s4, lo, hi);
    StillIn(s0, s4, lo, hi, dom);
    NothingSettled(s4, lo, hi, cmp);
    SettleMore(s4, lo, l, g, hi, v, cmp, dom);
    if hi - g > 1 {
      return false, g;
    }
    SettledEnd(s4, lo, g, hi, cmp);
    return true, g;
  }

  lemma InDom<T>(s: seq<T>, lo: nat, hi: nat, dom: iset<T>)
    requires lo < hi <= |s| && AllIn(s, lo, hi, dom)
    ensures s[lo] in dom
  {}

  lemma FrontIn<T>(s: seq<T>, lo: nat, l: nat, hi: nat, dom: iset<T>)
    requires lo <= l <= hi <= |s| && AllIn(s, lo, hi, dom)
    ensures AllIn(s, lo, l, dom) && AllIn(s, l, hi, dom)
  {}

  lemma Short<T>(s: seq<T>, lo: nat, l: nat, cmp: (T, T) -> int)
    requires lo <= l <= |s| && l - lo <= 1
    ensures Sorted(s, lo, l, cmp) && Rearranged(s, s, lo, l)
  {}

  lemma NothingSettled<T>(s: seq<T>, lo: nat, hi: nat, cmp: (T, T) -> int)
    requires lo <= hi <= |s|
    ensures SettledUpTo(s, lo, lo, hi, cmp) && Rearranged(s, s, lo, hi)
  {}

  /** Settling inside the unsettled part settles more of the whole. */
  lemma SettledJoin<T>(s: seq<T>, lo0: nat, lo: nat, g: nat, hi: nat, cmp: (T, T) -> int)
    requires lo0 <= lo <= g <= hi <= |s| && SettledUpTo(s, lo0, lo, hi, cmp) && SettledUpTo(s, lo, g, hi, cmp)
    ensures SettledUpTo(s, lo0, g, hi, cmp)
  {}

  /** yaffs_qsort: sorts the `n0` elements from `lo0` for every comparison that orders them,
    recursing on the smaller part and looping on the greater one. */
  method Sort<T(!new)>(a: array<T>, lo0: nat, n0: nat, cmp: (T, T) -> int, ghost dom: iset<T>)
    requires lo0 + n0 <= a.Length && Orders(cmp, dom) && AllIn(a[..], lo0, lo0 + n0, dom)
    modifies a
    ensures Rearranged(old(a[..]), a[..], lo0, lo0 + n0)
    ensures Sorted(a[..], lo0, lo0 + n0, cmp)
    decreases n0, 1
  {
    hide *;
    ghost var s0 := a[..];
    ghost var hi := lo0 + n0;
    var lo: nat, n: nat := lo0, n0;
    NothingSettled(s0, lo0, hi, cmp);
    while true
      invariant lo0 <= lo && lo + n == hi && n <= n0
      invariant Rearranged(s0, a[..], lo0, hi) && SettledUpTo(a[..], lo0, lo, hi, cmp)
      decreases n
    {
      ghost var s := a[..];
      StillIn(s0, s, lo0, hi, dom);
      FrontIn(s, lo0, lo, hi, dom);
      var done, g := SortRound(a, lo, n, cmp, dom);
      Widen(s, a[..], lo0, hi, lo, hi);
      Chain(s0, s, a[..], lo0, hi);
      SettledKept(s, a[..], lo0, lo, hi, cmp);
      if done {
        SettledEnd(a[..], lo0, lo, hi, cmp);
        return;
      }
      SettledJoin(a[..], lo0, lo, g, hi, cmp);
      lo, n := g, lo + n - g;
    }
  }
}
