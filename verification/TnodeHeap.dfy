/** Trees of tnodes in memory, and what changing one node does to the tree it is in.

  Memory maps addresses to nodes; address 0 is the null pointer. */
module TnodeHeap {

  /** A level 0 tnode holds 16 chunk entries, an internal one 8 pointers. */
  datatype Node = Leaf(e: seq<nat>) | Internal(kids: seq<nat>)

  type Mem = map<nat, Node>

  // ---------- chunk ids ----------

  /** Chunk ids below a tnode of level `l`. */
  function Span(l: nat): (s: nat)
    ensures s >= 16
  {
    if l == 0 then 16 else 8 * Span(l - 1)
  }

  /** (c >> (LEVEL0_BITS + (l - 1) * INTERNAL_BITS)) & INTERNAL_MASK. */
  function Slot(c: nat, l: nat): (x: nat)
    requires l >= 1
    ensures x < 8
  {
    c / Span(l - 1) % 8
  }

  /** Both chunk ids lie below the same tnode of level `l`. */
  predicate Near(c: nat, d: nat, l: nat) { c / Span(l) == d / Span(l) }

  lemma DivTwice(c: nat, s: nat)
    requires s > 0
    ensures c / (8 * s) == c / s / 8
  {
    var q := c / s;
    var r := c % s;
    assert c == q * s + r;
    var q8, r8 := q / 8, q % 8;
    assert q == 8 * q8 + r8;
    assert c == q8 * (8 * s) + (r8 * s + r) by {
      assert (8 * q8 + r8) * s == q8 * (8 * s) + r8 * s;
    }
    assert r8 * s <= 7 * s;
    DivIs(c, 8 * s, q8, r8 * s + r);
  }

  lemma DivIs(c: nat, s: nat, q: nat, r: nat)
    requires s > 0 && c == q * s + r && r < s
    ensures c / s == q
  {
    var k := c / s;
    assert c == k * s + c % s;
    MulAtLeast(q - k, s);
    assert (q - k) * s == q * s - k * s;
  }

  lemma MulAtLeast(a: int, s: int)
    requires s >= 0
    ensures a >= 1 ==> a * s >= s
    ensures a <= -1 ==> a * s <= -s
  {}

  /** Below the same tnode and in the same slot of it means below the same child. */
  lemma NearSlot(c: nat, d: nat, l: nat)
    requires l >= 1
    ensures Near(c, d, l - 1) <==> Near(c, d, l) && Slot(c, l) == Slot(d, l)
  {
    DivTwice(c, Span(l - 1));
    DivTwice(d, Span(l - 1));
  }

  lemma NearLeaf(c: nat, d: nat)
    ensures Near(c, d, 0) && c % 16 == d % 16 <==> c == d
  {}

  lemma BelowTop(c: nat, l: nat)
    ensures c < Span(l) <==> c / Span(l) == 0
  {
    if c < Span(l) { DivIs(c, Span(l), 0, c); }
  }

  lemma TopSlot(c: nat, l: nat)
    requires l >= 1 && c < Span(l)
    ensures Slot(c, l) == 0 <==> c < Span(l - 1)
  {
    BelowTop(c, l - 1);
    BelowTop(c, l);
    DivTwice(c, Span(l - 1));
  }

  lemma {:induction false} NearUp(c: nat, d: nat, k: nat, l: nat)
    requires k <= l && Near(c, d, k)
    ensures Near(c, d, l)
    decreases l
  {
    if k < l {
      NearUp(c, d, k, l - 1);
      NearSlot(c, d, l);
    }
  }

  // ---------- trees ----------

  /** The nodes of the tree of height `l` at `p`. */
  ghost function Foot(m: Mem, p: nat, l: nat): set<nat>
    decreases l, 0
  {
    if p == 0 || p !in m then {}
    else if l == 0 || m[p].Leaf? then {p}
    else {p} + KidsFoot(m, m[p].kids, l - 1)
  }

  ghost function KidsFoot(m: Mem, kids: seq<nat>, l: nat): set<nat>
    decreases l, |kids|
  {
    if kids == [] then {} else KidsFoot(m, kids[..|kids| - 1], l) + Foot(m, kids[|kids| - 1], l)
  }

  /** A tree: every pointer is null or leads to a tree one lower, no node is reached twice. */
  ghost predicate Shape(m: Mem, p: nat, l: nat)
    decreases l
  {
    && p != 0 && p in m
    && if l == 0 then m[p].Leaf? && |m[p].e| == 16
       else
         && m[p].Internal? && |m[p].kids| == 8
         && var kids := m[p].kids;
            && (forall i :: 0 <= i < 8 ==> kids[i] == 0 || Shape(m, kids[i], l - 1))
            && (forall i :: 0 <= i < 8 ==> p !in Foot(m, kids[i], l - 1))
            && forall i, j :: 0 <= i < j < 8 ==> Foot(m, kids[i], l - 1) !! Foot(m, kids[j], l - 1)
  }

  /** What the tree holds for a chunk id; 0 where there is nothing. */
  ghost function Lookup(m: Mem, p: nat, l: nat, c: nat): nat
    decreases l
  {
    if p == 0 || p !in m then 0
    else if l == 0 then if m[p].Leaf? && |m[p].e| == 16 then m[p].e[c % 16] else 0
    else if m[p].Internal? && |m[p].kids| == 8 then Lookup(m, m[p].kids[Slot(c, l)], l - 1, c)
    else 0
  }

  /** The node of level `k` on the way to a chunk id, or null. */
  ghost function At(m: Mem, p: nat, l: nat, c: nat, k: nat): nat
    decreases l
  {
    if p == 0 || p !in m || l <= k then p
    else if m[p].Internal? && |m[p].kids| == 8 then At(m, m[p].kids[Slot(c, l)], l - 1, c, k)
    else 0
  }

  /** All first pointers down to level 0 are there. */
  ghost predicate Spine(m: Mem, p: nat, l: nat)
    decreases l
  {
    p != 0 && p in m && (l > 0 ==> m[p].Internal? && |m[p].kids| == 8 && Spine(m, m[p].kids[0], l - 1))
  }

  lemma {:induction false} KidFoot(m: Mem, kids: seq<nat>, l: nat, q: nat)
    ensures q in KidsFoot(m, kids, l) <==> exists i :: 0 <= i < |kids| && q in Foot(m, kids[i], l)
    decreases |kids|
  {
    if kids != [] {
      var n := |kids| - 1;
      KidFoot(m, kids[..n], l, q);
      if q in KidsFoot(m, kids[..n], l) {
        var i :| 0 <= i < n && q in Foot(m, kids[..n][i], l);
        assert kids[i] == kids[..n][i];
      }
      if i :| 0 <= i < |kids| && q in Foot(m, kids[i], l) {
        if i < n { assert kids[..n][i] == kids[i]; }
      }
    }
  }

  lemma FootIs(m: Mem, p: nat, l: nat, q: nat)
    requires Shape(m, p, l) && l > 0
    ensures q in Foot(m, p, l) <==> q == p || exists i :: 0 <= i < 8 && q in Foot(m, m[p].kids[i], l - 1)
  {
    KidFoot(m, m[p].kids, l - 1, q);
  }

  lemma {:induction false} FootIn(m: Mem, p: nat, l: nat)
    ensures Foot(m, p, l) <= m.Keys && 0 !in Foot(m, p, l)
    decreases l
  {
    if p != 0 && p in m && l > 0 && m[p].Internal? {
      forall q | q in Foot(m, p, l) ensures q in m && q != 0 {
        KidFoot(m, m[p].kids, l - 1, q);
        if q != p {
          var i :| 0 <= i < |m[p].kids| && q in Foot(m, m[p].kids[i], l - 1);
          FootIn(m, m[p].kids[i], l - 1);
        }
      }
    }
  }

  /** Memory that agrees on the nodes of a tree holds the same tree. */
  ghost predicate Agree(m: Mem, m': Mem, s: set<nat>) { forall q :: q in s ==> q in m && q in m' && m'[q] == m[q] }

  ghost predicate Same(m: Mem, m': Mem, p: nat, l: nat) {
    && (forall c :: Lookup(m', p, l, c) == Lookup(m, p, l, c))
    && forall c: nat, k: nat :: At(m', p, l, c, k) == At(m, p, l, c, k)
  }

  /** The tree at `p` is the same in both memories. */
  ghost predicate Framed(m: Mem, m': Mem, p: nat, l: nat) {
    && Shape(m', p, l) && Foot(m', p, l) == Foot(m, p, l) && (Spine(m, p, l) ==> Spine(m', p, l)) && Same(m, m', p, l)
  }

  lemma FrameNode(m: Mem, m': Mem, p: nat, l: nat)
    requires Shape(m, p, l) && l > 0 && p in m' && m'[p] == m[p]
    requires forall i :: 0 <= i < 8 && m[p].kids[i] != 0 ==> Framed(m, m', m[p].kids[i], l - 1)
    ensures Framed(m, m', p, l)
  {
    FrameFoot(m, m', p, l);
    FrameSame(m, m', p, l);
  }

  lemma FrameFoot(m: Mem, m': Mem, p: nat, l: nat)
    requires Shape(m, p, l) && l > 0 && p in m' && m'[p] == m[p]
    requires forall i :: 0 <= i < 8 && m[p].kids[i] != 0 ==> Framed(m, m', m[p].kids[i], l - 1)
    ensures Foot(m', p, l) == Foot(m, p, l)
  {
    var kids := m[p].kids;
    forall i | 0 <= i < 8 ensures Foot(m', kids[i], l - 1) == Foot(m, kids[i], l - 1) {
      if kids[i] != 0 { assert Framed(m, m', kids[i], l - 1); }
    }
    KidsFootSame(m, m', kids, l - 1);
  }

  lemma {:induction false} KidsFootSame(m: Mem, m': Mem, kids: seq<nat>, l: nat)
    requires forall i :: 0 <= i < |kids| ==> Foot(m', kids[i], l) == Foot(m, kids[i], l)
    ensures KidsFoot(m', kids, l) == KidsFoot(m, kids, l)
    decreases |kids|
  {
    hide Foot;
    if kids != [] { KidsFootSame(m, m', kids[..|kids| - 1], l); }
  }

  lemma FrameSame(m: Mem, m': Mem, p: nat, l: nat)
    requires Shape(m, p, l) && l > 0 && p in m' && m'[p] == m[p]
    requires forall i :: 0 <= i < 8 && m[p].kids[i] != 0 ==> Framed(m, m', m[p].kids[i], l - 1)
    ensures Same(m, m', p, l) && (Spine(m, p, l) ==> Spine(m', p, l))
  {
    var kids := m[p].kids;
    forall c ensures Lookup(m', p, l, c) == Lookup(m, p, l, c) {
      var kid := kids[Slot(c, l)];
      assert kid != 0 ==> Framed(m, m', kid, l - 1);
    }
    forall c: nat, k: nat ensures At(m', p, l, c, k) == At(m, p, l, c, k) {
      if l > k {
        var kid := kids[Slot(c, l)];
        assert kid != 0 ==> Framed(m, m', kid, l - 1);
      }
    }
    assert kids[0] != 0 ==> Framed(m, m', kids[0], l - 1);
    assert Spine(m, p, l) ==> Spine(m, kids[0], l - 1);
  }

  lemma KidInside(m: Mem, p: nat, l: nat, i: nat)
    requires Shape(m, p, l) && l > 0 && i < 8
    ensures Foot(m, m[p].kids[i], l - 1) <= Foot(m, p, l) && p in Foot(m, p, l)
  {
    FootIs(m, p, l, p);
    forall q | q in Foot(m, m[p].kids[i], l - 1) ensures q in Foot(m, p, l) { FootIs(m, p, l, q); }
  }

  lemma {:induction false} Frame(m: Mem, m': Mem, p: nat, l: nat)
    requires Shape(m, p, l) && Agree(m, m', Foot(m, p, l))
    ensures Framed(m, m', p, l)
    decreases l
  {
    if l > 0 {
      hide Framed, Foot;
      KidInside(m, p, l, 0);
      forall i | 0 <= i < 8 && m[p].kids[i] != 0 ensures Framed(m, m', m[p].kids[i], l - 1) {
        KidInside(m, p, l, i);
        Frame(m, m', m[p].kids[i], l - 1);
      }
      FrameNode(m, m', p, l);
    }
  }

  // ---------- changing one child ----------

  /** Child `i` of the node at `p` is now the tree at `k`, or null; the other children are untouched. */
  ghost predicate ChildSet(m: Mem, m': Mem, p: nat, l: nat, i: nat, k: nat)
    requires Shape(m, p, l) && l > 0 && i < 8
  {
    var kids := m[p].kids;
    && p in m' && m'[p] == Internal(kids[i := k]) && (k == 0 || Shape(m', k, l - 1))
    && (forall j :: 0 <= j < 8 && j != i ==>
        Agree(m, m', Foot(m, kids[j], l - 1)) && Foot(m, kids[j], l - 1) !! Foot(m', k, l - 1))
    && p !in Foot(m', k, l - 1)
  }

  lemma SiblingsFramed(m: Mem, m': Mem, p: nat, l: nat, i: nat, k: nat)
    requires Shape(m, p, l) && l > 0 && i < 8 && ChildSet(m, m', p, l, i, k)
    ensures forall j :: 0 <= j < 8 && j != i && m[p].kids[j] != 0 ==> Framed(m, m', m[p].kids[j], l - 1)
  {
    hide Foot;
    forall j | 0 <= j < 8 && j != i && m[p].kids[j] != 0 ensures Framed(m, m', m[p].kids[j], l - 1) {
      Frame(m, m', m[p].kids[j], l - 1);
    }
  }

  lemma ChildShape(m: Mem, m': Mem, p: nat, l: nat, i: nat, k: nat)
    requires Shape(m, p, l) && l > 0 && i < 8 && ChildSet(m, m', p, l, i, k)
    ensures Shape(m', p, l)
  {
    SiblingsFramed(m, m', p, l, i, k);
    hide Same, Spine;
    var kids := m[p].kids;
    assert forall j :: 0 <= j < 8 && j != i ==> Foot(m', kids[j], l - 1) == Foot(m, kids[j], l - 1);
  }

  lemma ChildFoot(m: Mem, m': Mem, p: nat, l: nat, i: nat, k: nat)
    requires Shape(m, p, l) && l > 0 && i < 8 && ChildSet(m, m', p, l, i, k)
    ensures Foot(m', p, l) == Foot(m, p, l) - Foot(m, m[p].kids[i], l - 1) + Foot(m', k, l - 1)
  {
    SiblingsFramed(m, m', p, l, i, k);
    ChildShape(m, m', p, l, i, k);
    hide Same, Spine;
    var kids, kids' := m[p].kids, m'[p].kids;
    assert forall j :: 0 <= j < 8 && j != i ==> Foot(m', kids[j], l - 1) == Foot(m, kids[j], l - 1);
    forall q ensures q in Foot(m', p, l) <==> q in Foot(m, p, l) - Foot(m, kids[i], l - 1) + Foot(m', k, l - 1) {
      FootIs(m, p, l, q);
      FootIs(m', p, l, q);
      if j :| 0 <= j < 8 && j != i && q in Foot(m, kids[j], l - 1) {
        assert kids'[j] == kids[j];
      }
      assert kids'[i] == k;
    }
  }

  /** Lookups and ways through the changed child, and all others. */
  ghost predicate ChildSeen(m: Mem, m': Mem, p: nat, l: nat, i: nat, k: nat)
    requires l > 0
  {
    && (forall c: nat :: Lookup(m', p, l, c) == if Slot(c, l) == i then Lookup(m', k, l - 1, c) else Lookup(m, p, l, c))
    && (forall c: nat, n: nat :: n < l ==>
        At(m', p, l, c, n) == if Slot(c, l) == i then At(m', k, l - 1, c, n) else At(m, p, l, c, n))
    && (Spine(m, p, l) && (i == 0 ==> Spine(m', k, l - 1)) ==> Spine(m', p, l))
  }

  lemma ChildLookup(m: Mem, m': Mem, p: nat, l: nat, i: nat, k: nat)
    requires Shape(m, p, l) && l > 0 && i < 8 && ChildSet(m, m', p, l, i, k)
    ensures ChildSeen(m, m', p, l, i, k)
  {
    SiblingsFramed(m, m', p, l, i, k);
    hide Foot, Shape;
    var kids, kids' := m[p].kids, m'[p].kids;
    forall c: nat ensures Lookup(m', p, l, c) == if Slot(c, l) == i then Lookup(m', k, l - 1, c)
                                                 else Lookup(m, p, l, c) {
      var j := Slot(c, l);
      assert j != i && kids[j] != 0 ==> Framed(m, m', kids[j], l - 1);
    }
    ChildWays(m, m', p, l, i, k);
    ChildSpine(m, m', p, l, i, k);
  }

  lemma ChildWays(m: Mem, m': Mem, p: nat, l: nat, i: nat, k: nat)
    requires Shape(m, p, l) && l > 0 && i < 8 && ChildSet(m, m', p, l, i, k)
    ensures forall c: nat, n: nat :: n < l ==>
              At(m', p, l, c, n) == if Slot(c, l) == i then At(m', k, l - 1, c, n) else At(m, p, l, c, n)
  {
    SiblingsFramed(m, m', p, l, i, k);
    hide Foot, Shape, Lookup, Spine;
    var kids, kids' := m[p].kids, m'[p].kids;
    forall c: nat, n: nat | n < l ensures At(m', p, l, c, n) == if Slot(c, l) == i then At(m', k, l - 1, c, n)
                                                                else At(m, p, l, c, n) {
      var j := Slot(c, l);
      assert j != i && kids[j] != 0 ==> Framed(m, m', kids[j], l - 1);
    }
  }

  lemma ChildSpine(m: Mem, m': Mem, p: nat, l: nat, i: nat, k: nat)
    requires Shape(m, p, l) && l > 0 && i < 8 && ChildSet(m, m', p, l, i, k)
    ensures Spine(m, p, l) && (i == 0 ==> Spine(m', k, l - 1)) ==> Spine(m', p, l)
  {
    SiblingsFramed(m, m', p, l, i, k);
    hide Foot, Lookup, At, Same;
    var kids := m[p].kids;
    assert i != 0 && kids[0] != 0 ==> Framed(m, m', kids[0], l - 1);
    assert Spine(m, p, l) ==> Spine(m, kids[0], l - 1);
  }

  // ---------- changing a node on the way to a chunk id ----------

  /** From level `l` down to level `n` the ways to `c` and `d` are the same. */
  predicate SameWay(c: nat, d: nat, l: nat, n: nat)
    decreases l
  {
    l <= n || (Slot(c, l) == Slot(d, l) && SameWay(c, d, l - 1, n))
  }

  lemma {:induction false} SameWayNear(c: nat, d: nat, l: nat, n: nat)
    requires Near(c, d, l) && n <= l
    ensures SameWay(c, d, l, n) <==> Near(c, d, n)
    decreases l
  {
    if n < l {
      NearSlot(c, d, l);
      if Slot(c, l) == Slot(d, l) {
        SameWayNear(c, d, l - 1, n);
      } else if Near(c, d, n) {
        NearUp(c, d, n, l - 1);
      }
    }
  }

  /** The tree at `t`, of height `n` on the way to `c`, changed in place. */
  ghost predicate Replaced(m: Mem, m': Mem, p: nat, l: nat, t: nat, n: nat) {
    && Shape(m, p, l) && Shape(m', t, n) && Agree(m, m', Foot(m, p, l) - Foot(m, t, n))
    && Foot(m', t, n) !! (Foot(m, p, l) - Foot(m, t, n))
  }

  /** What that does to the whole tree. */
  ghost predicate Updated(m: Mem, m': Mem, p: nat, l: nat, c: nat, t: nat, n: nat) {
    && Shape(m', p, l) && Foot(m', p, l) == Foot(m, p, l) - Foot(m, t, n) + Foot(m', t, n)
    && (forall d :: Lookup(m', p, l, d) == if SameWay(c, d, l, n) then Lookup(m', t, n, d) else Lookup(m, p, l, d))
    && (forall k: nat :: k <= n ==> At(m', p, l, c, k) == At(m', t, n, c, k))
    && (Spine(m, p, l) && (Spine(m, t, n) ==> Spine(m', t, n)) ==> Spine(m', p, l))
  }

  lemma {:induction false} PathUpdate(m: Mem, m': Mem, p: nat, l: nat, c: nat, n: nat)
    requires n <= l && At(m, p, l, c, n) != 0 && Replaced(m, m', p, l, At(m, p, l, c, n), n)
    ensures Updated(m, m', p, l, c, At(m, p, l, c, n), n)
    decreases l
  {
    var t := At(m, p, l, c, n);
    if n < l {
      var i := Slot(c, l);
      var kid := m[p].kids[i];
      PathInside(m, kid, l - 1, c, n);
      PathDown(m, m', p, l, c, n);
      PathUpdate(m, m', kid, l - 1, c, n);
      PathUp(m, m', p, l, c, n);
    }
  }

  /** The node reached, and all below it, belong to the tree. */
  lemma {:induction false} PathInside(m: Mem, p: nat, l: nat, c: nat, n: nat)
    requires n <= l && At(m, p, l, c, n) != 0 && Shape(m, p, l)
    ensures Shape(m, At(m, p, l, c, n), n) && Foot(m, At(m, p, l, c, n), n) <= Foot(m, p, l)
    decreases l
  {
    if n < l {
      KidInside(m, p, l, Slot(c, l));
      PathInside(m, m[p].kids[Slot(c, l)], l - 1, c, n);
    }
  }

  lemma PathDown(m: Mem, m': Mem, p: nat, l: nat, c: nat, n: nat)
    requires n < l && At(m, p, l, c, n) != 0 && Replaced(m, m', p, l, At(m, p, l, c, n), n)
    ensures var kid := m[p].kids[Slot(c, l)];
            kid != 0 && At(m, kid, l - 1, c, n) == At(m, p, l, c, n) &&
            Replaced(m, m', kid, l - 1, At(m, kid, l - 1, c, n), n)
  {
    KidInside(m, p, l, Slot(c, l));
    hide Foot, Spine, Lookup;
  }

  lemma PathUp(m: Mem, m': Mem, p: nat, l: nat, c: nat, n: nat)
    requires n < l && At(m, p, l, c, n) != 0 && Replaced(m, m', p, l, At(m, p, l, c, n), n)
    requires var kid := m[p].kids[Slot(c, l)];
             && kid != 0 && At(m, kid, l - 1, c, n) == At(m, p, l, c, n)
             && Updated(m, m', kid, l - 1, c, At(m, p, l, c, n), n)
    ensures Updated(m, m', p, l, c, At(m, p, l, c, n), n)
  {
    var t := At(m, p, l, c, n);
    var i := Slot(c, l);
    var kid := m[p].kids[i];
    PathChild(m, m', p, l, c, n);
    hide Shape, Foot, Lookup, At, Spine, ChildSet, SameWay;
    ChildShape(m, m', p, l, i, kid);
    PathUpFoot(m, m', p, l, c, n);
    ChildLookup(m, m', p, l, i, kid);
    KidLookups(m, p, l);
    forall d: nat ensures Lookup(m', p, l, d) == if SameWay(c, d, l, n) then Lookup(m', t, n, d)
                                                 else Lookup(m, p, l, d) {
      SameWayStep(c, d, l, n);
    }
    KidSpine(m, p, l);
  }

  lemma PathUpFoot(m: Mem, m': Mem, p: nat, l: nat, c: nat, n: nat)
    requires n < l && At(m, p, l, c, n) != 0 && Replaced(m, m', p, l, At(m, p, l, c, n), n)
    requires var kid := m[p].kids[Slot(c, l)];
             && kid != 0 && At(m, kid, l - 1, c, n) == At(m, p, l, c, n)
             && Updated(m, m', kid, l - 1, c, At(m, p, l, c, n), n)
    requires ChildSet(m, m', p, l, Slot(c, l), m[p].kids[Slot(c, l)])
    ensures var t := At(m, p, l, c, n); Foot(m', p, l) == Foot(m, p, l) - Foot(m, t, n) + Foot(m', t, n)
  {
    var t := At(m, p, l, c, n);
    var kid := m[p].kids[Slot(c, l)];
    ChildFoot(m, m', p, l, Slot(c, l), kid);
    PathInside(m, kid, l - 1, c, n);
    KidInside(m, p, l, Slot(c, l));
    hide Shape, Foot, Lookup, At, Spine, ChildSet, SameWay;
  }

  lemma SameWayStep(c: nat, d: nat, l: nat, n: nat)
    requires n < l
    ensures SameWay(c, d, l, n) <==> Slot(c, l) == Slot(d, l) && SameWay(c, d, l - 1, n)
  {}

  lemma KidLookups(m: Mem, p: nat, l: nat)
    requires Shape(m, p, l) && l > 0
    ensures forall d: nat :: Lookup(m, p, l, d) == Lookup(m, m[p].kids[Slot(d, l)], l - 1, d)
    ensures forall d: nat, n: nat :: n < l ==> At(m, p, l, d, n) == At(m, m[p].kids[Slot(d, l)], l - 1, d, n)
  {}

  lemma KidSpine(m: Mem, p: nat, l: nat)
    requires Shape(m, p, l) && l > 0
    ensures Spine(m, p, l) ==> Spine(m, m[p].kids[0], l - 1)
  {}

  lemma PathChild(m: Mem, m': Mem, p: nat, l: nat, c: nat, n: nat)
    requires n < l && At(m, p, l, c, n) != 0 && Replaced(m, m', p, l, At(m, p, l, c, n), n)
    requires var kid := m[p].kids[Slot(c, l)];
             && kid != 0 && At(m, kid, l - 1, c, n) == At(m, p, l, c, n)
             && Updated(m, m', kid, l - 1, c, At(m, p, l, c, n), n)
    ensures ChildSet(m, m', p, l, Slot(c, l), m[p].kids[Slot(c, l)])
  {
    var i := Slot(c, l);
    var kids := m[p].kids;
    var t := At(m, p, l, c, n);
    PathInside(m, kids[i], l - 1, c, n);
    KidInside(m, p, l, i);
    forall j | 0 <= j < 8 && j != i
      ensures Agree(m, m', Foot(m, kids[j], l - 1)) && Foot(m, kids[j], l - 1) !! Foot(m', kids[i], l - 1)
    {
      KidInside(m, p, l, j);
    }
    assert kids[i := kids[i]] == kids;
  }
}
