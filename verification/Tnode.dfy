/** The chunk map of a file: a tree of tnodes that grows, is searched, filled, pruned and
  shortened, saved as leaves and built again. */
module Tnode {
  import opened TnodeHeap

  const MAX_LEVEL := 8
  const MAX_CHUNK_ID := 0x0fff_ffff

  /** What the file's tree holds for a chunk id. */
  ghost function Entry(m: Mem, top: nat, l: nat, c: nat): nat {
    if c < Span(l) then Lookup(m, top, l, c) else 0
  }

  /** The tree, and the other tnodes of the device. */
  ghost predicate TreeOk(m: Mem, brk: nat, nTnodes: nat, top: nat, l: nat, others: set<nat>) {
    && Shape(m, top, l) && Spine(m, top, l) && l <= MAX_LEVEL
    && m.Keys == Foot(m, top, l) + others && Foot(m, top, l) !! others
    && nTnodes == |m| && forall q :: q in m ==> 0 < q < brk
  }

  lemma MaxSpan()
    ensures Span(MAX_LEVEL) == MAX_CHUNK_ID + 1
  {
    assert Span(1) == 128 && Span(2) == 1024 && Span(3) == 8192 && Span(4) == 65536;
    assert Span(5) == 524288 && Span(6) == 4194304 && Span(7) == 33554432;
  }

  function Zeros(n: nat): seq<nat> { seq(n, _ => 0) }

  lemma LeafFacts(m: Mem, p: nat)
    requires p != 0 && p in m && m[p].Leaf? && |m[p].e| == 16
    ensures Shape(m, p, 0) && Foot(m, p, 0) == {p} && Spine(m, p, 0)
    ensures forall c: nat :: Lookup(m, p, 0, c) == m[p].e[c % 16]
  {}

  lemma NoKids(m: Mem, kids: seq<nat>, l: nat)
    requires forall i :: 0 <= i < |kids| ==> kids[i] == 0
    ensures KidsFoot(m, kids, l) == {}
  {
    if q :| q in KidsFoot(m, kids, l) { KidFoot(m, kids, l, q); }
  }

  /** A fresh tnode, seen as a tree of height `l`, holds nothing. */
  lemma {:induction false} FreshFacts(m: Mem, p: nat, l: nat)
    requires p != 0 && p in m && m[p] == if l == 0 then Leaf(Zeros(16)) else Internal(Zeros(8))
    ensures Shape(m, p, l) && Foot(m, p, l) == {p} && forall c: nat :: Lookup(m, p, l, c) == 0
  {
    if l > 0 {
      NoKids(m, Zeros(8), l - 1);
    }
  }

  // ---------- growing ----------

  /** One tnode more on top of the tree. */
  lemma Grown(m: Mem, m': Mem, p: nat, top: nat, l: nat)
    requires Shape(m, top, l) && Spine(m, top, l) && p != 0 && p !in m && m' == m[p := Internal(Zeros(8)[0 := top])]
    ensures Shape(m', p, l + 1) && Spine(m', p, l + 1) && Foot(m', p, l + 1) == Foot(m, top, l) + {p}
    ensures forall c: nat :: Entry(m', p, l + 1, c) == Entry(m, top, l, c)
  {
    FootIn(m, top, l);
    Frame(m, m', top, l);
    GrownFoot(m, m', p, top, l);
    forall c: nat ensures Entry(m', p, l + 1, c) == Entry(m, top, l, c) { OneKid(m', p, l + 1, c); }
  }

  /** A tnode with only its first pointer holds what the tree there holds. */
  lemma OneKid(m: Mem, p: nat, l: nat, c: nat)
    requires l > 0 && p != 0 && p in m && m[p].Internal? && |m[p].kids| == 8 && forall i :: 1 <= i < 8 ==>
               m[p].kids[i] == 0
    ensures Entry(m, p, l, c) == Entry(m, m[p].kids[0], l - 1, c)
  {
    assert Span(l) == 8 * Span(l - 1);
    if c < Span(l) {
      TopSlot(c, l);
      var j := Slot(c, l);
      assert Lookup(m, p, l, c) == Lookup(m, m[p].kids[j], l - 1, c);
    }
  }

  lemma GrownFoot(m: Mem, m': Mem, p: nat, top: nat, l: nat)
    requires p != 0 && p !in m && m' == m[p := Internal(Zeros(8)[0 := top])] && Framed(m, m', top, l)
    ensures Foot(m', p, l + 1) == Foot(m, top, l) + {p}
  {
    var kids := m'[p].kids;
    forall q ensures q in KidsFoot(m', kids, l) <==> q in Foot(m', top, l) {
      KidFoot(m', kids, l, q);
      assert kids[0] == top;
    }
  }

  /** Dropping the top tnode when only its first pointer is used. */
  lemma Shortened(m: Mem, m': Mem, top: nat, l: nat)
    requires Shape(m, top, l) && Spine(m, top, l) && l > 0 && m' == m - {top} && forall i :: 1 <= i < 8 ==>
               m[top].kids[i] == 0
    ensures var kid := m[top].kids[0];
            && kid != 0 && Shape(m', kid, l - 1) && Spine(m', kid, l - 1)
            && Foot(m', kid, l - 1) == Foot(m, top, l) - {top}
            && forall c: nat :: Entry(m', kid, l - 1, c) == Entry(m, top, l, c)
  {
    var kid := m[top].kids[0];
    FootIn(m, kid, l - 1);
    Frame(m, m', kid, l - 1);
    forall q ensures q in Foot(m, top, l) - {top} <==> q in Foot(m, kid, l - 1) {
      FootIs(m, top, l, q);
    }
    forall c: nat ensures Entry(m', kid, l - 1, c) == Entry(m, top, l, c) { OneKid(m, top, l, c); }
  }

  // ---------- hanging a node into the tree ----------

  /** Lookups of an id whose way is the same down to a node are lookups below that node. */
  lemma {:induction false} LookupAlong(m: Mem, p: nat, l: nat, c: nat, d: nat, n: nat)
    requires n <= l && Shape(m, p, l) && SameWay(c, d, l, n)
    ensures Lookup(m, p, l, d) == Lookup(m, At(m, p, l, c, n), n, d)
    decreases l
  {
    if n < l {
      var kid := m[p].kids[Slot(c, l)];
      if kid != 0 { LookupAlong(m, kid, l - 1, c, d, n); }
    }
  }

  /** Slot `Slot(c, n)` of the node of level `n` on the way to `c` is set to the one-node tree `k`,
    and the one-node tree that was there, if any, is freed. */
  ghost predicate Hung(m: Mem, m': Mem, top: nat, l: nat, c: nat, n: nat, k: nat) {
    && 1 <= n <= l && Shape(m, top, l) && At(m, top, l, c, n) != 0
    && var t := At(m, top, l, c, n);
       && Shape(m, t, n) && k != 0 && k !in Foot(m, top, l) && k in m'
       && var was := m[t].kids[Slot(c, n)];
          && m' == (m - {was})[t := Internal(m[t].kids[Slot(c, n) := k])][k := m'[k]] && k != t
          && Foot(m, was, n - 1) <= {was} && Shape(m', k, n - 1) && Foot(m', k, n - 1) == {k}
  }

  lemma HungChild(m: Mem, m': Mem, top: nat, l: nat, c: nat, n: nat, k: nat)
    requires Hung(m, m', top, l, c, n, k)
    ensures var t := At(m, top, l, c, n);
            && Shape(m, t, n) && Foot(m, t, n) <= Foot(m, top, l) && ChildSet(m, m', t, n, Slot(c, n), k)
            && (Spine(m, t, n) ==> m[t].kids[0] != 0) && t in m && m[t].Internal? && |m[t].kids| == 8
  {
    var t := At(m, top, l, c, n);
    var i := Slot(c, n);
    PathInside(m, top, l, c, n);
    KidInside(m, t, n, i);
    FootIn(m, t, n);
    assert Spine(m, t, n) ==> Spine(m, m[t].kids[0], n - 1);
    forall j | 0 <= j < 8 && j != i
      ensures Agree(m, m', Foot(m, m[t].kids[j], n - 1)) && Foot(m, m[t].kids[j], n - 1) !! Foot(m', k, n - 1)
    {
      KidInside(m, t, n, j);
      WasInKid(m, t, n, i, j);
    }
  }

  lemma WasInKid(m: Mem, t: nat, n: nat, i: nat, j: nat)
    requires Shape(m, t, n) && n > 0 && i < 8 && j < 8 && i != j
    ensures m[t].kids[i] !in Foot(m, m[t].kids[j], n - 1)
  {
    FootIn(m, m[t].kids[j], n - 1);
    var was := m[t].kids[i];
    if was != 0 {
      assert was in Foot(m, was, n - 1);
      if i < j { assert Foot(m, m[t].kids[i], n - 1) !! Foot(m, m[t].kids[j], n - 1); }
      else { assert Foot(m, m[t].kids[j], n - 1) !! Foot(m, m[t].kids[i], n - 1); }
    }
  }

  lemma HungTree(m: Mem, m': Mem, top: nat, l: nat, c: nat, n: nat, k: nat)
    requires Hung(m, m', top, l, c, n, k)
    ensures var was := m[At(m, top, l, c, n)].kids[Slot(c, n)];
            && Shape(m', top, l) && Foot(m', top, l) == Foot(m, top, l) - Foot(m, was, n - 1) + {k}
            && At(m', top, l, c, n - 1) == k
            && (forall d: nat :: Lookup(m', top, l, d) == if SameWay(c, d, l, n - 1) then Lookup(m', k, n - 1, d)
                else Lookup(m, top, l, d))
            && (Spine(m, top, l) && (Slot(c, n) == 0 && was != 0 ==> Spine(m', k, n - 1)) ==> Spine(m', top, l))
  {
    var t := At(m, top, l, c, n);
    var i := Slot(c, n);
    HungChild(m, m', top, l, c, n, k);
    HungFacts(m, m', top, l, c, n, k);
    hide Shape, Foot, Lookup, At, Spine, ChildSet, SameWay, Hung;
    ChildShape(m, m', t, n, i, k);
    ChildFoot(m, m', t, n, i, k);
    ChildLookup(m, m', t, n, i, k);
    HungReplaced(m, m', top, l, c, n, k);
    PathUpdate(m, m', top, l, c, n);
    KidInside(m, t, n, i);
    HungAt(m', t, n, c, k);
    forall d: nat ensures Lookup(m', top, l, d) == if SameWay(c, d, l, n - 1) then Lookup(m', k, n - 1, d)
                                                   else Lookup(m, top, l, d) {
      SameWayLast(c, d, l, n);
      if SameWay(c, d, l, n) { LookupAlong(m, top, l, c, d, n); }
    }
  }

  lemma HungFacts(m: Mem, m': Mem, top: nat, l: nat, c: nat, n: nat, k: nat)
    requires Hung(m, m', top, l, c, n, k)
    ensures var t := At(m, top, l, c, n);
            && 1 <= n <= l && t != 0 && Shape(m, top, l) && t in m && m[t].Internal? && |m[t].kids| == 8
            && t in m' && m'[t].Internal? && |m'[t].kids| == 8 && m'[t].kids[Slot(c, n)] == k
            && Foot(m', k, n - 1) == {k} && k !in Foot(m, top, l)
  {}

  lemma HungAt(m': Mem, t: nat, n: nat, c: nat, k: nat)
    requires n > 0 && t != 0 && t in m' && m'[t].Internal? && |m'[t].kids| == 8 && m'[t].kids[Slot(c, n)] == k
    ensures At(m', t, n, c, n - 1) == k
  {}

  lemma {:induction false} SameWayLast(c: nat, d: nat, l: nat, n: nat)
    requires 1 <= n <= l
    ensures SameWay(c, d, l, n - 1) <==> SameWay(c, d, l, n) && Slot(c, n) == Slot(d, n)
    decreases l
  {
    if n < l { SameWayLast(c, d, l - 1, n); }
  }

  lemma HungReplaced(m: Mem, m': Mem, top: nat, l: nat, c: nat, n: nat, k: nat)
    requires Hung(m, m', top, l, c, n, k)
    requires var t := At(m, top, l, c, n); var was := m[t].kids[Slot(c, n)];
             Shape(m', t, n) && Foot(m', t, n) == Foot(m, t, n) - Foot(m, was, n - 1) + Foot(m', k, n - 1)
    ensures Replaced(m, m', top, l, At(m, top, l, c, n), n)
  {
    var t := At(m, top, l, c, n);
    var was := m[t].kids[Slot(c, n)];
    PathInside(m, top, l, c, n);
    KidInside(m, t, n, Slot(c, n));
    FootIn(m, top, l);
    assert was != 0 ==> was in Foot(m, was, n - 1);
    hide Lookup, Spine;
  }

  class FileMap {
    var mem: Mem
    var brk: nat
    var nTnodes: nat
    var top: nat
    var topLevel: nat
    ghost var others: set<nat>
    /** How many requests for a tnode found no memory. */
    ghost var refused: nat

    ghost predicate Valid()
      reads this
    {
      TreeOk(mem, brk, nTnodes, top, topLevel, others)
    }

    /** An empty file: one level 0 tnode. */
    constructor ()
      ensures Valid() && topLevel == 0 && others == {} && forall c: nat :: Entry(mem, top, topLevel, c) == 0
    {
      mem, brk, nTnodes, top, topLevel, others, refused := map[1 := Leaf(Zeros(16))], 2, 1, 1, 0, {}, 0;
      FreshFacts(map[1 := Leaf(Zeros(16))], 1, 0);
    }

    /** yaffs_get_tnode: a zeroed tnode, or null when memory is short. */
    method GetTnode(node: Node) returns (p: nat)
      requires Valid() && (node == Leaf(Zeros(16)) || node == Internal(Zeros(8)))
      modifies this`mem, this`brk, this`nTnodes, this`others, this`refused
      ensures Valid()
      ensures refused == old(refused) + if p == 0 then 1 else 0
      ensures p == 0 ==> mem == old(mem) && nTnodes == old(nTnodes) && others == old(others)
      ensures p != 0 ==>
                p !in old(mem) && mem == old(mem)[p := node] && others == old(others) + {p} &&
                nTnodes == old(nTnodes) + 1
      ensures forall c: nat :: Entry(mem, top, topLevel, c) == Entry(old(mem), top, topLevel, c)
    {
      hide TreeOk, Entry;
      var got: bool := *;
      if !got {
        refused := refused + 1;
        return 0;
      }
      p := brk;
      GotTnode(mem, brk, nTnodes, top, topLevel, others, node);
      mem := mem[p := node];
      brk := brk + 1;
      nTnodes := nTnodes + 1;
      others := others + {p};
    }

    /** The loop that computes the depth a chunk id needs. */
    method RequiredDepth(c: nat) returns (d: nat)
      ensures c < Span(d) && (d == 0 || c >= Span(d - 1))
    {
      hide Span, Above;
      var x := c / 16;
      d := 0;
      DepthStart(c);
      while x != 0
        invariant x == Above(c, d) && (d == 0 || c >= Span(d - 1))
        decreases x
      {
        DepthStep(c, d);
        x := x / 8;
        d := d + 1;
      }
      DepthDone(c, d);
    }

    /** yaffs_find_tnode_0. */
    method FindTnode0(c: nat) returns (p: nat)
      requires Valid()
      ensures p == if c <= MAX_CHUNK_ID && c < Span(topLevel) then At(mem, top, topLevel, c, 0) else 0
      ensures if p == 0 then Entry(mem, top, topLevel, c) == 0 || c > MAX_CHUNK_ID
              else p in mem && mem[p].Leaf? && |mem[p].e| == 16 && Entry(mem, top, topLevel, c) == mem[p].e[c % 16]
    {
      if topLevel > MAX_LEVEL || c > MAX_CHUNK_ID { return 0; }
      var d := RequiredDepth(c);
      DeepEnough(c, d, topLevel);
      if d > topLevel { return 0; }
      var level := topLevel;
      p := top;
      while level > 0 && p != 0
        invariant p == 0 || Shape(mem, p, level)
        invariant At(mem, top, topLevel, c, 0) == At(mem, p, level, c, 0)
        invariant Lookup(mem, top, topLevel, c) == Lookup(mem, p, level, c)
        decreases level
      {
        p := mem[p].kids[Slot(c, level)];
        level := level - 1;
      }
    }

    /** A tnode already allocated becomes the new top. */
    method MakeTaller(p: nat)
      requires Valid() && p in others && p in mem && mem[p] == Internal(Zeros(8)) && topLevel < MAX_LEVEL
      modifies this`mem, this`top, this`topLevel, this`others
      ensures Valid() && topLevel == old(topLevel) + 1 && others == old(others) - {p}
      ensures forall c: nat :: Entry(mem, top, topLevel, c) == Entry(old(mem), old(top), old(topLevel), c)
      ensures forall q :: q in others ==> q in mem && mem[q] == old(mem)[q]
    {
      hide TreeOk, Entry;
      Taller(mem, brk, nTnodes, top, topLevel, others, p);
      mem := mem[p := Internal(mem[p].kids[0 := top])];
      top := p;
      topLevel := topLevel + 1;
      others := others - {p};
    }

    /** A tnode already allocated is hung into the slot on the way to `c` at level `n`; the one
      it replaces is freed. */
    method Hang(t: nat, c: nat, n: nat, k: nat)
      requires Valid() && 1 <= n <= topLevel && c < Span(topLevel) && t != 0 && t == At(mem, top, topLevel, c, n)
      requires k in others && k in mem
      requires t in mem && mem[t].Internal? && |mem[t].kids| == 8
      requires if n == 1 then mem[k].Leaf? && |mem[k].e| == 16
               else mem[k] == Internal(Zeros(8)) && mem[t].kids[Slot(c, n)] == 0
      modifies this`mem, this`nTnodes, this`others
      ensures Valid() && others == old(others) - {k} && At(mem, top, topLevel, c, n - 1) == k && k in mem
      ensures mem[k] == old(mem[k])
      ensures forall d: nat :: Entry(mem, top, topLevel, d) ==
                               if Near(c, d, n - 1) then (if n == 1 then old(mem[k]).e[d % 16] else 0)
                               else Entry(old(mem), top, topLevel, d)
      ensures old(mem[t]).kids[Slot(c, n)] == 0 ==> forall d: nat :: Near(c, d, n - 1) ==>
                Entry(old(mem), top, topLevel, d) == 0
      ensures forall q :: q in others ==> q in mem && mem[q] == old(mem)[q]
    {
      hide TreeOk, Entry, At, Near;
      ghost var m0 := mem;
      HangOk(mem, brk, nTnodes, top, topLevel, others, t, c, n, k);
      var x := Slot(c, n);
      var was := mem[t].kids[x];
      if was != 0 {
        mem := mem - {was};
        nTnodes := nTnodes - 1;
      }
      mem := mem[t := Internal(mem[t].kids[x := k])];
      others := others - {k};
      assert mem == HangMem(m0, t, x, k);
    }

    /** The tree is made as tall as chunk `c` needs. */
    method GrowTo(d: nat) returns (ok: bool)
      requires Valid() && d <= MAX_LEVEL
      modifies this`mem, this`brk, this`nTnodes, this`top, this`topLevel, this`others, this`refused
      ensures Valid() && others == old(others) && (ok ==> topLevel >= d) && refused == old(refused) + if ok then 0
                  else 1
      ensures forall c: nat :: Entry(mem, top, topLevel, c) == Entry(old(mem), old(top), old(topLevel), c)
      ensures forall q :: q in others ==> q in mem && q in old(mem) && mem[q] == old(mem)[q]
    {
      hide TreeOk, Entry;
      OthersIn(mem, brk, nTnodes, top, topLevel, others);
      while topLevel < d
        invariant Valid() && others == old(others) && refused == old(refused)
        invariant forall c: nat :: Entry(mem, top, topLevel, c) == Entry(old(mem), old(top), old(topLevel), c)
        invariant forall q :: q in others ==> q in mem && q in old(mem) && mem[q] == old(mem)[q]
        decreases d - topLevel
      {
        var p := GetTnode(Internal(Zeros(8)));
        if p == 0 { return false; }
        MakeTaller(p);
      }
      return true;
    }

    /** yaffs_add_find_tnode_0.  A tnode `passed` in takes the place of the one for its chunks. */
    method AddFindTnode0(c: nat, passed: nat) returns (p: nat)
      requires Valid()
      requires passed != 0 ==> passed in others && passed in mem && mem[passed].Leaf? && |mem[passed].e| == 16
      modifies this`mem, this`brk, this`nTnodes, this`top, this`topLevel, this`others, this`refused
      ensures Valid() && (c > MAX_CHUNK_ID ==> p == 0)
      ensures refused == old(refused) + if p == 0 && c <= MAX_CHUNK_ID then 1 else 0
      ensures p != 0 ==> c < Span(topLevel) && p == At(mem, top, topLevel, c, 0)
      ensures p == 0 || passed == 0 ==>
                others == old(others) && forall d: nat ::
                  Entry(mem, top, topLevel, d) == Entry(old(mem), old(top), old(topLevel), d)
      ensures p != 0 && passed != 0 ==> others == old(others) - {passed}
      ensures p != 0 && passed != 0 ==> forall d: nat :: Entry(mem, top, topLevel, d) ==
                                          if d / 16 == c / 16 then old(mem[passed]).e[d % 16]
                                          else Entry(old(mem), old(top), old(topLevel), d)
    {
      hide TreeOk, Entry, At, Near;
      LevelFits(mem, brk, nTnodes, top, topLevel, others);
      if topLevel > MAX_LEVEL || c > MAX_CHUNK_ID { return 0; }
      var d := RequiredDepth(c);
      DepthBound(c, d);
      var ok := GrowTo(d);
      if !ok { return 0; }
      SpanGrows(d, topLevel);
      ghost var node := if passed == 0 then Leaf(Zeros(16)) else mem[passed];
      ghost var e0 := old(mem);
      p := top;
      var l := topLevel;
      AtTop(mem, brk, nTnodes, top, topLevel, others, c);
      if l > 0 {
        while l > 1
          invariant 1 <= l <= topLevel && Valid() && others == old(others) && c < Span(topLevel)
          invariant p != 0 && p == At(mem, top, topLevel, c, l) && refused == old(refused)
          invariant passed != 0 ==> passed in mem && mem[passed] == node
          invariant forall d: nat :: Entry(mem, top, topLevel, d) == Entry(e0, old(top), old(topLevel), d)
          decreases l
        {
          p := StepDown(c, l, p);
          if p == 0 { return 0; }
          l := l - 1;
        }
        p := LastStep(c, p, passed);
      } else if passed != 0 {
        CopyLeaf(mem, brk, nTnodes, top, topLevel, others, c, passed);
        mem := mem[p := mem[passed]];
        mem := mem - {passed};
        nTnodes := nTnodes - 1;
        others := others - {passed};
      }
    }

    /** One step towards chunk `c`, adding an internal tnode where one is missing. */
    method StepDown(c: nat, l: nat, t: nat) returns (p: nat)
      requires Valid() && 1 < l <= topLevel && c < Span(topLevel) && t != 0 && t == At(mem, top, topLevel, c, l)
      modifies this`mem, this`brk, this`nTnodes, this`others, this`refused
      ensures Valid() && others == old(others) && (p != 0 ==> p == At(mem, top, topLevel, c, l - 1)) &&
              refused == old(refused) + if p == 0 then 1 else 0
      ensures forall d: nat :: Entry(mem, top, topLevel, d) == Entry(old(mem), top, topLevel, d)
      ensures forall q :: q in others ==> q in mem && q in old(mem) && mem[q] == old(mem)[q]
    {
      hide TreeOk, Entry, At, Near;
      OthersIn(mem, brk, nTnodes, top, topLevel, others);
      ThereAt(mem, brk, nTnodes, top, topLevel, others, c, l);
      var x := Slot(c, l);
      if mem[t].kids[x] == 0 {
        ghost var m0 := mem;
        var k := GetTnode(Internal(Zeros(8)));
        if k == 0 { return 0; }
        StillAt(m0, mem, brk, nTnodes, top, topLevel, others, c, l, k);
        Hang(t, c, l, k);
        return k;
      }
      p := mem[t].kids[x];
    }

    /** The step from level 1 to level 0. */
    method LastStep(c: nat, t: nat, passed: nat) returns (p: nat)
      requires Valid() && 1 <= topLevel && c < Span(topLevel) && t != 0 && t == At(mem, top, topLevel, c, 1)
      requires passed != 0 ==> passed in others && passed in mem && mem[passed].Leaf? && |mem[passed].e| == 16
      modifies this`mem, this`brk, this`nTnodes, this`others, this`refused
      ensures Valid() && (p != 0 ==> p == At(mem, top, topLevel, c, 0)) && refused == old(refused) + if p == 0 then 1
                  else 0
      ensures p == 0 || passed == 0 ==>
                others == old(others) && forall d: nat ::
                  Entry(mem, top, topLevel, d) == Entry(old(mem), top, topLevel, d)
      ensures passed != 0 ==> p != 0 && others == old(others) - {passed}
      ensures passed != 0 ==>
                forall d: nat :: Entry(mem, top, topLevel, d) == if d / 16 == c / 16 then old(mem[passed]).e[d % 16]
                                                                 else Entry(old(mem), top, topLevel, d)
    {
      hide TreeOk, Entry, At;
      OthersIn(mem, brk, nTnodes, top, topLevel, others);
      ThereAt(mem, brk, nTnodes, top, topLevel, others, c, 1);
      var x := Slot(c, 1);
      if passed != 0 {
        Hang(t, c, 1, passed);
        p := passed;
      } else if mem[t].kids[x] == 0 {
        ghost var m0 := mem;
        var k := GetTnode(Leaf(Zeros(16)));
        if k == 0 { return 0; }
        StillAt(m0, mem, brk, nTnodes, top, topLevel, others, c, 1, k);
        Hang(t, c, 1, k);
        p := k;
      } else {
        p := mem[t].kids[x];
      }
    }

    /** Storing a chunk's entry: yaffs_add_find_tnode_0, then yaffs_load_tnode_0. */
    method PutChunk(c: nat, v: nat) returns (ok: bool)
      requires Valid()
      modifies this`mem, this`brk, this`nTnodes, this`top, this`topLevel, this`others, this`refused
      ensures Valid() && others == old(others) && refused == old(refused) + if !ok && c <= MAX_CHUNK_ID then 1 else 0
      ensures c > MAX_CHUNK_ID ==> !ok
      ensures forall d: nat :: Entry(mem, top, topLevel, d) == if ok && d == c then v
                                                               else Entry(old(mem), old(top), old(topLevel), d)
    {
      hide TreeOk, Entry, At, Shape, Foot;
      var p := AddFindTnode0(c, 0);
      if p == 0 { return false; }
      StoreOk(mem, brk, nTnodes, top, topLevel, others, c, v);
      mem := mem[p := Leaf(mem[p].e[c % 16 := v])];
      ok := true;
    }

    /** yaffs_prune_worker: tnodes without data are freed, except, with `del0` clear, those on the
      leftmost way down.  What the tree holds does not change. */
    method PruneWorker(p: nat, l: nat, del0: bool) returns (r: nat)
      requires Shape(mem, p, l) && nTnodes == |mem|
      modifies this`mem, this`nTnodes
      ensures nTnodes == |mem| && Pruned(old(mem), mem, p, l, r, del0)
      decreases l
    {
      hide Shape, Foot, Lookup, Spine, Pruned, Useful, PruneLoop, Trimmed;
      ghost var m0 := mem;
      ShapeHere(mem, p, l);
      if l > 0 {
        PruneStart(m0, p, l, del0);
        for i := 0 to 8
          invariant nTnodes == |mem| && PruneLoop(m0, mem, p, l, i, del0) && p in mem && mem[p].Internal?
          invariant |mem[p].kids| == 8
        {
          ghost var m1 := mem;
          PruneKid(m0, m1, p, l, i, del0);
          if mem[p].kids[i] != 0 {
            ghost var kid := mem[p].kids[i];
            var k := PruneWorker(mem[p].kids[i], l - 1, if i == 0 then del0 else true);
            ghost var m2 := mem;
            PruneThere(m1, m2, p, l, i, k, del0);
            mem := mem[p := Internal(mem[p].kids[i := k])];
            PruneStep(m0, m1, m2, mem, p, l, i, k, del0);
            SameSize(m2, mem);
          } else {
            PruneSkip(m0, m1, p, l, i, del0);
          }
        }
        var hasData := exists i | 0 <= i < 8 :: mem[p].kids[i] != 0;
        if !hasData && del0 {
          ghost var m3 := mem;
          mem := mem - {p};
          nTnodes := nTnodes - 1;
          LessKeys(m3, mem, p);
          PruneGone(m0, m3, mem, p, l);
          return 0;
        }
        PruneKept(m0, mem, p, l, del0);
      } else {
        var hasData := exists i | 0 <= i < 16 :: mem[p].e[i] != 0;
        if !hasData && del0 {
          mem := mem - {p};
          nTnodes := nTnodes - 1;
          LessKeys(m0, mem, p);
          LeafGone(m0, mem, p);
          return 0;
        }
        LeafKept(m0, p, del0);
      }
      return p;
    }

    /** yaffs_prune_tree: drop tnodes without data, then shorten the tree while only its first
      pointer is used.  The first pointer is never null, so the new top is a tree. */
    method PruneTree()
      requires Valid()
      modifies this`mem, this`nTnodes, this`top, this`topLevel
      ensures Valid() && topLevel <= old(topLevel)
      ensures forall c: nat :: Entry(mem, top, topLevel, c) == Entry(old(mem), old(top), old(topLevel), c)
      ensures Trimmed(mem, top, topLevel)
      ensures topLevel > 0 ==>
                top in mem && mem[top].Internal? && |mem[top].kids| == 8 && exists i ::
                  1 <= i < 8 && mem[top].kids[i] != 0
    {
      hide TreeOk, Entry, Pruned, Shape, Foot, Lookup, Spine;
      if topLevel < 1 { return; }
      ghost var m0 := mem;
      TreeFacts(mem, brk, nTnodes, top, topLevel, others);
      var r := PruneWorker(top, topLevel, false);
      PrunedTree(m0, mem, brk, nTnodes, top, topLevel, others, r);
      top := r;
      var done := false;
      while topLevel > 0 && !done
        invariant Valid() && topLevel <= old(topLevel) && Trimmed(mem, top, topLevel)
        invariant forall c: nat :: Entry(mem, top, topLevel, c) == Entry(old(mem), old(top), old(topLevel), c)
        invariant done ==>
                    topLevel > 0 && top in mem && mem[top].Internal? && |mem[top].kids| == 8 && exists i ::
                      1 <= i < 8 && mem[top].kids[i] != 0
        decreases topLevel, !done
      {
        TreeFacts(mem, brk, nTnodes, top, topLevel, others);
        var hasData := exists i | 1 <= i < 8 :: mem[top].kids[i] != 0;
        if !hasData {
          ShortenOk(mem, brk, nTnodes, top, topLevel, others);
          var was := top;
          top := mem[top].kids[0];
          topLevel := topLevel - 1;
          mem := mem - {was};
          nTnodes := nTnodes - 1;
        } else {
          done := true;
        }
      }
    }

    /** yaffs2_checkpt_tnode_worker: the leaves below a tnode with the chunk id each starts at. */
    method SaveTnodes(p: nat, l: nat, offset: nat) returns (out: seq<Record>)
      requires p == 0 || Shape(mem, p, l)
      ensures out == Records(mem, p, l, offset)
      decreases l
    {
      if p == 0 { return []; }
      if l > 0 {
        out := [];
        for i := 0 to 8
          invariant out == KidRecords(mem, mem[p].kids, l - 1, offset, i)
        {
          if mem[p].kids[i] != 0 {
            var part := SaveTnodes(mem[p].kids[i], l - 1, offset * 8 + i);
            out := out + part;
          }
        }
        return;
      }
      return [Record(offset * 16, mem[p].e)];
    }

    /** yaffs2_rd_checkpt_tnodes: each record becomes a level 0 tnode hung into the tree. */
    method LoadTnodes(records: seq<Record>) returns (ok: bool)
      requires Valid() && forall i :: 0 <= i < |records| ==> |records[i].e| == 16 && records[i].base % 16 == 0
      requires forall c: nat :: Entry(mem, top, topLevel, c) == 0
      modifies this`mem, this`brk, this`nTnodes, this`top, this`topLevel, this`others, this`refused
      ensures Valid() && refused >= old(refused)
      ensures ok ==> forall c: nat :: Entry(mem, top, topLevel, c) == ListEntry(records, c)
      ensures refused == old(refused) && (forall i :: 0 <= i < |records| ==> records[i].base <= MAX_CHUNK_ID) ==> ok
    {
      hide TreeOk, Entry, ListEntry, At;
      EmptyList();
      assert records[..0] == [];
      for n := 0 to |records|
        invariant Valid() && refused == old(refused) && forall c: nat ::
                    Entry(mem, top, topLevel, c) == ListEntry(records[..n], c)
      {
        var r := records[n];
        ghost var m0, t0, l0 := mem, top, topLevel;
        var tn := GetTnode(Leaf(Zeros(16)));
        if tn == 0 { return false; }
        ghost var m1 := mem;
        FillOther(mem, brk, nTnodes, top, topLevel, others, tn, r.e);
        mem := mem[tn := Leaf(r.e)];
        var p := AddFindTnode0(r.base, tn);
        if p == 0 { return false; }
        forall c: nat ensures Entry(mem, top, topLevel, c) == ListEntry(records[..n + 1], c) {
          OneRecord(records, n, c);
          assert Entry(m0, t0, l0, c) == ListEntry(records[..n], c);
        }
      }
      assert records[..|records|] == records;
      ok := true;
    }
  }

  lemma LevelFits(m: Mem, brk: nat, nT: nat, top: nat, l: nat, others: set<nat>)
    requires TreeOk(m, brk, nT, top, l, others)
    ensures l <= MAX_LEVEL
  {}

  lemma GotTnode(m: Mem, brk: nat, n: nat, top: nat, l: nat, others: set<nat>, node: Node)
    requires TreeOk(m, brk, n, top, l, others)
    ensures brk !in m && brk != 0 && TreeOk(m[brk := node], brk + 1, n + 1, top, l, others + {brk})
    ensures forall c: nat :: Entry(m[brk := node], top, l, c) == Entry(m, top, l, c)
  {
    hide Shape, Foot, Lookup, Spine;
    var m' := m[brk := node];
    FootIn(m, top, l);
    Frame(m, m', top, l);
    Sees(m, m', top, l);
    assert m'.Keys == m.Keys + {brk};
    TopIn(m, top, l);
  }

  lemma Taller(m: Mem, brk: nat, n: nat, top: nat, l: nat, others: set<nat>, p: nat)
    requires TreeOk(m, brk, n, top, l, others) && p in others && m[p] == Internal(Zeros(8)) && l < MAX_LEVEL
    ensures var m' := m[p := Internal(m[p].kids[0 := top])];
            && TreeOk(m', brk, n, p, l + 1, others - {p})
            && (forall c: nat :: Entry(m', p, l + 1, c) == Entry(m, top, l, c))
            && forall q :: q in others - {p} ==> q in m' && m'[q] == m[q]
  {
    hide Shape, Foot, Lookup, Spine, Entry;
    var m' := m[p := Internal(m[p].kids[0 := top])];
    var bare := m - {p};
    FootIn(m, top, l);
    Frame(m, bare, top, l);
    Sees(m, bare, top, l);
    Grown(bare, bare[p := Internal(Zeros(8)[0 := top])], p, top, l);
    assert bare[p := Internal(Zeros(8)[0 := top])] == m';
    assert m'.Keys == m.Keys;
    SameSize(m, m');
  }

  lemma SameSize(m: Mem, m': Mem)
    requires m.Keys == m'.Keys
    ensures |m| == |m'|
  {
    assert |m| == |m.Keys| && |m'| == |m'.Keys|;
  }

  function HangMem(m: Mem, t: nat, x: nat, k: nat): Mem
    requires t in m && m[t].Internal? && x < |m[t].kids| && m[t].kids[x] != t
  {
    (m - {m[t].kids[x]})[t := Internal(m[t].kids[x := k])]
  }

  lemma HangOk(m: Mem, brk: nat, nT: nat, top: nat, l: nat, others: set<nat>, t: nat, c: nat, n: nat, k: nat)
    requires TreeOk(m, brk, nT, top, l, others) && 1 <= n <= l && c < Span(l) && t != 0 && t == At(m, top, l, c, n)
    requires k in others
    requires t in m && m[t].Internal? && |m[t].kids| == 8
    requires k in m
    requires if n == 1 then m[k].Leaf? && |m[k].e| == 16 else m[k] == Internal(Zeros(8)) && m[t].kids[Slot(c, n)] == 0
    ensures m[t].kids[Slot(c, n)] != t && (m[t].kids[Slot(c, n)] != 0 ==> m[t].kids[Slot(c, n)] in m && nT >= 1)
    ensures 0 !in m && k in m
    ensures var was := m[t].kids[Slot(c, n)]; var m' := HangMem(m, t, Slot(c, n), k);
            && TreeOk(m', brk, if was == 0 then nT else nT - 1, top, l, others - {k}) && At(m', top, l, c, n - 1) == k
            && k in m' && m'[k] == m[k]
            && (forall d: nat :: Entry(m', top, l, d) ==
                                 if Near(c, d, n - 1) then (if n == 1 then m[k].e[d % 16] else 0)
                                 else Entry(m, top, l, d))
            && (was == 0 ==> forall d: nat :: Near(c, d, n - 1) ==> Entry(m, top, l, d) == 0)
            && forall q :: q in others - {k} ==> q in m' && m'[q] == m[q]
  {
    hide Shape, Foot, Lookup, Spine, At, SameWay, Hung, TreeOk, Near, HangMem;
    var x := Slot(c, n);
    var was := m[t].kids[x];
    TreeFacts(m, brk, nT, top, l, others);
    HangWas(m, brk, nT, top, l, others, t, c, n);
    var m' := HangMem(m, t, x, k);
    HangHung(m, brk, nT, top, l, others, t, c, n, k);
    HungTree(m, m', top, l, c, n, k);
    HangSize(m, brk, nT, top, l, others, t, c, n, k);
    forall d: nat
      ensures Entry(m', top, l, d) == if Near(c, d, n - 1) then (if n == 1 then m[k].e[d % 16] else 0)
                                      else Entry(m, top, l, d)
      ensures was == 0 && Near(c, d, n - 1) ==> Entry(m, top, l, d) == 0
    {
      HangEntry(m, top, l, c, n, d);
      OneNode(m', k, n - 1, d);
    }
  }

  lemma TreeFacts(m: Mem, brk: nat, nT: nat, top: nat, l: nat, others: set<nat>)
    requires TreeOk(m, brk, nT, top, l, others)
    ensures Shape(m, top, l) && Spine(m, top, l) && 0 !in m && nT == |m|
    ensures forall q :: q in others ==> q in m && q !in Foot(m, top, l)
    ensures forall q :: q in m ==> |m| >= 1
  {}

  /** The replaced child is null or a single level 0 tnode of the tree. */
  lemma HangWas(m: Mem, brk: nat, nT: nat, top: nat, l: nat, others: set<nat>, t: nat, c: nat, n: nat)
    requires TreeOk(m, brk, nT, top, l, others) && 1 <= n <= l && t != 0 && t == At(m, top, l, c, n)
    ensures Shape(m, t, n) && Foot(m, t, n) <= Foot(m, top, l) && t in Foot(m, t, n)
    ensures var was := m[t].kids[Slot(c, n)];
            && (was != 0 ==> was in m && was in Foot(m, t, n) && was != t) && (was == 0 ==> Foot(m, was, n - 1) == {})
            && (n == 1 && was != 0 ==> Foot(m, was, n - 1) == {was})
  {
    PathInside(m, top, l, c, n);
    var was := m[t].kids[Slot(c, n)];
    KidInside(m, t, n, Slot(c, n));
    if was != 0 { assert was in Foot(m, was, n - 1); }
    FootIn(m, top, l);
  }

  lemma LessKeys(m: Mem, m': Mem, was: nat)
    requires m'.Keys == m.Keys - {was}
    ensures |m'| == |m| - if was in m then 1 else 0
  {
    assert |m'| == |m'.Keys| && |m| == |m.Keys|;
  }

  lemma HangHung(m: Mem, brk: nat, nT: nat, top: nat, l: nat, others: set<nat>, t: nat, c: nat, n: nat, k: nat)
    requires TreeOk(m, brk, nT, top, l, others) && 1 <= n <= l && t != 0 && t == At(m, top, l, c, n) && k in others
    requires t in m && m[t].Internal? && |m[t].kids| == 8 && m[t].kids[Slot(c, n)] != t
    requires if n == 1 then m[k].Leaf? && |m[k].e| == 16 else m[k] == Internal(Zeros(8)) && m[t].kids[Slot(c, n)] == 0
    ensures Hung(m, HangMem(m, t, Slot(c, n), k), top, l, c, n, k)
    ensures n == 1 ==> Spine(HangMem(m, t, Slot(c, n), k), k, 0)
  {
    hide Shape, Foot, Lookup, Spine, At, TreeOk;
    var m' := HangMem(m, t, Slot(c, n), k);
    TreeFacts(m, brk, nT, top, l, others);
    HangWas(m, brk, nT, top, l, others, t, c, n);
    assert m'[k] == m[k];
    if n == 1 { LeafFacts(m', k); } else { FreshFacts(m', k, n - 1); }
  }

  lemma HangSize(m: Mem, brk: nat, nT: nat, top: nat, l: nat, others: set<nat>, t: nat, c: nat, n: nat, k: nat)
    requires TreeOk(m, brk, nT, top, l, others) && 1 <= n <= l && t != 0 && t == At(m, top, l, c, n) && k in others
    requires t in m && m[t].Internal? && |m[t].kids| == 8
    requires var was := m[t].kids[Slot(c, n)]; was != t && (n == 1 || was == 0) && k in m && k != 0
    requires var m' := HangMem(m, t, Slot(c, n), k); var was := m[t].kids[Slot(c, n)];
             Shape(m', top, l) && Foot(m', top, l) == Foot(m, top, l) - Foot(m, was, n - 1) + {k} &&
             (Spine(m, top, l) && (Slot(c, n) == 0 && was != 0 ==> Spine(m', k, n - 1)) ==> Spine(m', top, l))
    requires n == 1 ==> Spine(HangMem(m, t, Slot(c, n), k), k, 0)
    ensures var was := m[t].kids[Slot(c, n)]; var m' := HangMem(m, t, Slot(c, n), k);
            TreeOk(m', brk, if was == 0 then nT else nT - 1, top, l, others - {k}) && k in m' && m'[k] == m[k] &&
            forall q :: q in others - {k} ==> q in m' && m'[q] == m[q]
  {
    hide Shape, Foot, Lookup, At, Spine, HangMem;
    var was := m[t].kids[Slot(c, n)];
    var m' := HangMem(m, t, Slot(c, n), k);
    HangWas(m, brk, nT, top, l, others, t, c, n);
    HangKeys(m, t, Slot(c, n), k);
    FootIn(m, top, l);
    LessKeys(m, m', was);
    var f, w := Foot(m, top, l), Foot(m, was, n - 1);
    SwapSets(m.Keys, f, others, was, k, w);
  }

  lemma SwapSets(keys: set<nat>, f: set<nat>, others: set<nat>, was: nat, k: nat, w: set<nat>)
    requires keys == f + others && f !! others && k in others && w == (if was == 0 then {} else {was}) && 0 !in keys
    requires was != 0 ==> was in f
    ensures keys - {was} == (f - w + {k}) + (others - {k}) && (f - w + {k}) !! (others - {k})
  {}

  lemma HangKeys(m: Mem, t: nat, x: nat, k: nat)
    requires t in m && m[t].Internal? && x < |m[t].kids| && m[t].kids[x] != t
    ensures var m' := HangMem(m, t, x, k);
            m'.Keys == m.Keys - {m[t].kids[x]} && forall q :: q in m' && q != t ==> m'[q] == m[q]
  {}

  lemma HangEntry(m: Mem, top: nat, l: nat, c: nat, n: nat, d: nat)
    requires Shape(m, top, l) && 1 <= n <= l && c < Span(l) && At(m, top, l, c, n) != 0
    ensures d < Span(l) ==> (SameWay(c, d, l, n - 1) <==> Near(c, d, n - 1))
    ensures Near(c, d, n - 1) ==> d < Span(l)
    ensures var t := At(m, top, l, c, n);
            && t in m && m[t].Internal? && |m[t].kids| == 8 && m[t].kids[Slot(c, n)] == 0
            && d < Span(l) && SameWay(c, d, l, n - 1) ==>
              Lookup(m, top, l, d) == 0
  {
    BelowTop(c, l);
    BelowTop(d, l);
    if Near(c, d, n - 1) { NearUp(c, d, n - 1, l); }
    if d < Span(l) {
      SameWayNear(c, d, l, n - 1);
      SameWayLast(c, d, l, n);
      if SameWay(c, d, l, n - 1) { LookupAlong(m, top, l, c, d, n); }
    }
  }

  lemma OneNode(m: Mem, k: nat, l: nat, d: nat)
    requires k != 0 && k in m && if l == 0 then m[k].Leaf? && |m[k].e| == 16 else m[k] == Internal(Zeros(8))
    ensures Lookup(m, k, l, d) == if l == 0 then m[k].e[d % 16] else 0
  {
    if l == 0 { LeafFacts(m, k); } else { FreshFacts(m, k, l); }
  }

  lemma OthersIn(m: Mem, brk: nat, nT: nat, top: nat, l: nat, others: set<nat>)
    requires TreeOk(m, brk, nT, top, l, others)
    ensures forall q :: q in others ==> q in m
  {}

  lemma DepthBound(c: nat, d: nat)
    requires c <= MAX_CHUNK_ID && (d == 0 || c >= Span(d - 1))
    ensures d <= MAX_LEVEL
  {
    MaxSpan();
    if d > MAX_LEVEL { SpanGrows(MAX_LEVEL, d - 1); }
  }

  lemma AtTop(m: Mem, brk: nat, nT: nat, top: nat, l: nat, others: set<nat>, c: nat)
    requires TreeOk(m, brk, nT, top, l, others)
    ensures top != 0 && At(m, top, l, c, l) == top
  {}

  lemma ThereAt(m: Mem, brk: nat, nT: nat, top: nat, l: nat, others: set<nat>, c: nat, n: nat)
    requires TreeOk(m, brk, nT, top, l, others) && 1 <= n <= l && At(m, top, l, c, n) != 0
    ensures var t := At(m, top, l, c, n);
            t in m && m[t].Internal? && |m[t].kids| == 8 && At(m, top, l, c, n - 1) == m[t].kids[Slot(c, n)]
  {
    PathInside(m, top, l, c, n);
    AtStep(m, top, l, c, n);
  }

  lemma {:induction false} AtStep(m: Mem, p: nat, l: nat, c: nat, n: nat)
    requires Shape(m, p, l) && 1 <= n <= l && At(m, p, l, c, n) != 0
    ensures var t := At(m, p, l, c, n);
            t in m && m[t].Internal? && |m[t].kids| == 8 && At(m, p, l, c, n - 1) == m[t].kids[Slot(c, n)]
    decreases l
  {
    if n < l { AtStep(m, m[p].kids[Slot(c, l)], l - 1, c, n); }
  }

  /** A newly allocated tnode disturbs no way through the tree. */
  lemma StillAt(m: Mem, m': Mem, brk: nat, nT: nat, top: nat, l: nat, others: set<nat>, c: nat, n: nat, k: nat)
    requires TreeOk(m', brk, nT, top, l, others) && k in others && k !in m && m' == m[k := m'[k]] && 1 <= n <= l
    requires At(m, top, l, c, n) != 0 && At(m, top, l, c, n) in m
    ensures At(m', top, l, c, n) == At(m, top, l, c, n) && k != At(m, top, l, c, n)
    ensures m'[At(m, top, l, c, n)] == m[At(m, top, l, c, n)]
  {
    FootIn(m', top, l);
    Frame(m', m, top, l);
  }

  /** Replacing a level 0 tnode that is the whole tree. */
  lemma CopyLeaf(m: Mem, brk: nat, nT: nat, top: nat, l: nat, others: set<nat>, c: nat, passed: nat)
    requires TreeOk(m, brk, nT, top, l, others) && l == 0 && c < 16 && passed in others && m[passed].Leaf?
    requires |m[passed].e| == 16
    ensures nT >= 1 && var m' := m[top := m[passed]] - {passed};
            && TreeOk(m', brk, nT - 1, top, l, others - {passed}) && At(m', top, l, c, 0) == top
            && forall d: nat :: Entry(m', top, l, d) == if d / 16 == c / 16 then m[passed].e[d % 16]
                                                        else Entry(m, top, l, d)
  {
    var m' := m[top := m[passed]] - {passed};
    LeafFacts(m, top);
    LeafFacts(m', top);
    LessKeys(m, m', passed);
    assert m'.Keys == {top} + (others - {passed});
  }

  lemma StoreOk(m: Mem, brk: nat, nT: nat, top: nat, l: nat, others: set<nat>, c: nat, v: nat)
    requires TreeOk(m, brk, nT, top, l, others) && c < Span(l) && At(m, top, l, c, 0) != 0
    ensures var p := At(m, top, l, c, 0);
            p in m && m[p].Leaf? && |m[p].e| == 16
    ensures var p := At(m, top, l, c, 0); var m' := m[p := Leaf(m[p].e[c % 16 := v])];
            && TreeOk(m', brk, nT, top, l, others)
            && forall d: nat :: Entry(m', top, l, d) == if d == c then v else Entry(m, top, l, d)
  {
    hide Shape, Foot, Lookup, At, Spine, SameWay, TreeOk;
    TreeFacts(m, brk, nT, top, l, others);
    StoreLeaf(m, top, l, c, v);
    var p := At(m, top, l, c, 0);
    var m' := m[p := Leaf(m[p].e[c % 16 := v])];
    PathUpdate(m, m', top, l, c, 0);
    StoreTree(m, m', brk, nT, top, l, others, c);
    forall d: nat ensures Entry(m', top, l, d) == if d == c then v
                                                  else Entry(m, top, l, d) { StoredEntry(m, m', top, l, c, v, d); }
  }

  lemma StoreLeaf(m: Mem, top: nat, l: nat, c: nat, v: nat)
    requires Shape(m, top, l) && At(m, top, l, c, 0) != 0
    ensures var p := At(m, top, l, c, 0);
            p in m && m[p].Leaf? && |m[p].e| == 16 && p in Foot(m, top, l) && Foot(m, p, 0) == {p}
    ensures var p := At(m, top, l, c, 0); var m' := m[p := Leaf(m[p].e[c % 16 := v])];
            Replaced(m, m', top, l, p, 0) && Foot(m', p, 0) == {p} && Spine(m', p, 0)
  {
    var p := At(m, top, l, c, 0);
    PathInside(m, top, l, c, 0);
    LeafFacts(m, p);
    LeafFacts(m[p := Leaf(m[p].e[c % 16 := v])], p);
    FootIn(m, top, l);
  }

  lemma StoreTree(m: Mem, m': Mem, brk: nat, nT: nat, top: nat, l: nat, others: set<nat>, c: nat)
    requires TreeOk(m, brk, nT, top, l, others) && m'.Keys == m.Keys
    requires var p := At(m, top, l, c, 0);
             Updated(m, m', top, l, c, p, 0) && p in Foot(m, top, l) && Foot(m, p, 0) == {p} == Foot(m', p, 0) &&
             Spine(m', p, 0)
    ensures TreeOk(m', brk, nT, top, l, others)
  {
    hide Shape, Foot, Lookup, Spine, SameWay;
    var p := At(m, top, l, c, 0);
    assert Foot(m', top, l) == Foot(m, top, l);
    SameSize(m, m');
  }

  lemma StoredEntry(m: Mem, m': Mem, top: nat, l: nat, c: nat, v: nat, d: nat)
    requires Shape(m, top, l) && c < Span(l)
    requires var p := At(m, top, l, c, 0);
             && p != 0 && p in m && m[p].Leaf? && |m[p].e| == 16 && p in m' && m'[p] == Leaf(m[p].e[c % 16 := v])
             && Lookup(m', top, l, d) == if SameWay(c, d, l, 0) then Lookup(m', p, 0, d) else Lookup(m, top, l, d)
    ensures Entry(m', top, l, d) == if d == c then v else Entry(m, top, l, d)
  {
    var p := At(m, top, l, c, 0);
    LeafFacts(m, p);
    LeafFacts(m', p);
    hide Shape, Foot, Lookup, At, Spine, SameWay;
    if d < Span(l) {
      BelowTop(c, l);
      BelowTop(d, l);
      SameWayNear(c, d, l, 0);
      NearLeaf(c, d);
      if SameWay(c, d, l, 0) { LookupAlong(m, top, l, c, d, 0); }
    }
  }

  // ---------- pruning ----------

  /** No tnode of the tree is without data. */
  ghost predicate Useful(m: Mem, p: nat, l: nat)
    decreases l
  {
    p in m && if l == 0 then m[p].Leaf? && exists i :: 0 <= i < |m[p].e| && m[p].e[i] != 0
              else m[p].Internal? && (exists i :: 0 <= i < |m[p].kids| && m[p].kids[i] != 0) &&
                   forall i :: 0 <= i < |m[p].kids| && m[p].kids[i] != 0 ==> Useful(m, m[p].kids[i], l - 1)
  }

  /** The same except for the leftmost way down. */
  ghost predicate Trimmed(m: Mem, p: nat, l: nat)
    decreases l
  {
    l > 0 ==> p in m && m[p].Internal? && |m[p].kids| == 8 && Trimmed(m, m[p].kids[0], l - 1) &&
              forall i :: 1 <= i < 8 && m[p].kids[i] != 0 ==> Useful(m, m[p].kids[i], l - 1)
  }

  /** The tree at `p` in `m` has become the tree at `r` in `m'`, or nothing. */
  ghost predicate Pruned(m: Mem, m': Mem, p: nat, l: nat, r: nat, del0: bool) {
    && (r == p || (r == 0 && del0)) && (r != 0 ==> Shape(m', r, l)) && Foot(m', r, l) <= Foot(m, p, l)
    && m'.Keys == m.Keys - Foot(m, p, l) + Foot(m', r, l)
    && (forall q :: q in m && q !in Foot(m, p, l) ==> m'[q] == m[q])
    && (forall c: nat :: Lookup(m', r, l, c) == Lookup(m, p, l, c))
    && (del0 && r != 0 ==> Useful(m', r, l))
    && (!del0 && Spine(m, p, l) ==> Spine(m', r, l) && Trimmed(m', r, l))
  }

  lemma ShapeHere(m: Mem, p: nat, l: nat)
    requires Shape(m, p, l)
    ensures p != 0 && p in m && if l == 0 then m[p].Leaf? && |m[p].e| == 16 else m[p].Internal? && |m[p].kids| == 8
  {}

  lemma LeafGone(m: Mem, m': Mem, p: nat)
    requires Shape(m, p, 0) && m' == m - {p} && forall i :: 0 <= i < 16 ==> m[p].e[i] == 0
    ensures Pruned(m, m', p, 0, 0, true)
  {
    LeafFacts(m, p);
  }

  lemma LeafKept(m: Mem, p: nat, del0: bool)
    requires Shape(m, p, 0) && (del0 ==> exists i :: 0 <= i < 16 && m[p].e[i] != 0)
    ensures Pruned(m, m, p, 0, p, del0)
  {
    LeafFacts(m, p);
    FootIn(m, p, 0);
  }

  /** After the first `i` children of the node at `p` have been pruned. */
  ghost predicate PruneLoop(m0: Mem, m: Mem, p: nat, l: nat, i: nat, del0: bool) {
    && l > 0 && i <= 8 && Shape(m0, p, l) && Shape(m, p, l) && Foot(m, p, l) <= Foot(m0, p, l)
    && m.Keys == m0.Keys - Foot(m0, p, l) + Foot(m, p, l)
    && (forall q :: q in m0 && q !in Foot(m0, p, l) ==> m[q] == m0[q])
    && (forall c: nat :: Lookup(m, p, l, c) == Lookup(m0, p, l, c))
    && (forall j :: 0 <= j < i && m[p].kids[j] != 0 && (j > 0 || del0) ==> Useful(m, m[p].kids[j], l - 1))
    && (!del0 && Spine(m0, p, l) ==> Spine(m, p, l) && (i > 0 ==> Trimmed(m, m[p].kids[0], l - 1)))
  }

  lemma PruneStart(m: Mem, p: nat, l: nat, del0: bool)
    requires Shape(m, p, l) && l > 0
    ensures PruneLoop(m, m, p, l, 0, del0)
  {
    FootIn(m, p, l);
  }

  lemma PruneKid(m0: Mem, m: Mem, p: nat, l: nat, i: nat, del0: bool)
    requires PruneLoop(m0, m, p, l, i, del0) && i < 8
    ensures Shape(m, p, l) && (m[p].kids[i] != 0 ==> Shape(m, m[p].kids[i], l - 1))
  {}

  lemma PruneSkip(m0: Mem, m: Mem, p: nat, l: nat, i: nat, del0: bool)
    requires PruneLoop(m0, m, p, l, i, del0) && i < 8 && m[p].kids[i] == 0
    ensures PruneLoop(m0, m, p, l, i + 1, del0)
  {
    assert Spine(m, p, l) ==> Spine(m, m[p].kids[0], l - 1);
  }

  /** The recursive call leaves the parent and the other children alone. */
  lemma PruneThere(m1: Mem, m2: Mem, p: nat, l: nat, i: nat, k: nat, del0: bool)
    requires Shape(m1, p, l) && l > 0 && i < 8 && Pruned(m1, m2, m1[p].kids[i], l - 1, k, if i == 0 then del0 else true)
    ensures p in m2 && m2[p] == m1[p] && p !in Foot(m2, k, l - 1)
    ensures forall j :: 0 <= j < 8 && j != i ==>
              Agree(m1, m2, Foot(m1, m1[p].kids[j], l - 1)) && Foot(m1, m1[p].kids[j], l - 1) !! Foot(m2, k, l - 1)
  {
    var kids := m1[p].kids;
    forall j | 0 <= j < 8 && j != i
      ensures Agree(m1, m2, Foot(m1, kids[j], l - 1)) && Foot(m1, kids[j], l - 1) !! Foot(m2, k, l - 1)
    {
      FootIn(m1, kids[j], l - 1);
      KidsApart(m1, p, l, i, j);
    }
  }

  lemma KidsApart(m: Mem, p: nat, l: nat, i: nat, j: nat)
    requires Shape(m, p, l) && l > 0 && i < 8 && j < 8 && i != j
    ensures Foot(m, m[p].kids[i], l - 1) !! Foot(m, m[p].kids[j], l - 1)
  {
    if i < j { assert Foot(m, m[p].kids[i], l - 1) !! Foot(m, m[p].kids[j], l - 1); }
    else { assert Foot(m, m[p].kids[j], l - 1) !! Foot(m, m[p].kids[i], l - 1); }
  }

  lemma PruneChild(m1: Mem, m2: Mem, m3: Mem, p: nat, l: nat, i: nat, k: nat, del0: bool)
    requires Shape(m1, p, l) && l > 0 && i < 8 && m1[p].kids[i] != 0
    requires Pruned(m1, m2, m1[p].kids[i], l - 1, k, if i == 0 then del0 else true)
    requires p in m2 && m2[p] == m1[p] && m3 == m2[p := Internal(m2[p].kids[i := k])]
    ensures ChildSet(m1, m3, p, l, i, k) && (k != 0 ==> Framed(m2, m3, k, l - 1))
    ensures Foot(m3, k, l - 1) == Foot(m2, k, l - 1)
  {
    PruneThere(m1, m2, p, l, i, k, del0);
    FootIn(m2, k, l - 1);
    if k != 0 { Frame(m2, m3, k, l - 1); }
    hide Shape, Foot, Lookup, Spine, Same;
    forall j | 0 <= j < 8 && j != i
      ensures Agree(m1, m3, Foot(m1, m1[p].kids[j], l - 1)) && Foot(m1, m1[p].kids[j], l - 1) !! Foot(m3, k, l - 1)
    {
      KidNotHere(m1, p, l, j);
      NullFoot(m2, m3, l - 1);
    }
    NullFoot(m2, m3, l - 1);
  }

  lemma NullFoot(m: Mem, m': Mem, l: nat)
    ensures Foot(m, 0, l) == {} == Foot(m', 0, l)
  {}

  lemma KidNotHere(m: Mem, p: nat, l: nat, j: nat)
    requires Shape(m, p, l) && l > 0 && j < 8
    ensures p !in Foot(m, m[p].kids[j], l - 1)
  {}

  lemma PruneStep(m0: Mem, m1: Mem, m2: Mem, m3: Mem, p: nat, l: nat, i: nat, k: nat, del0: bool)
    requires PruneLoop(m0, m1, p, l, i, del0) && i < 8 && m1[p].kids[i] != 0
    requires Pruned(m1, m2, m1[p].kids[i], l - 1, k, if i == 0 then del0 else true)
    requires p in m2 && m2[p] == m1[p] && m3 == m2[p := Internal(m2[p].kids[i := k])]
    ensures PruneLoop(m0, m3, p, l, i + 1, del0) && m3.Keys == m2.Keys
  {
    PruneChild(m1, m2, m3, p, l, i, k, del0);
    ChildShape(m1, m3, p, l, i, k);
    ChildFoot(m1, m3, p, l, i, k);
    ChildLookup(m1, m3, p, l, i, k);
    PruneKeys(m0, m1, m2, m3, p, l, i, k, del0);
    PruneLookups(m1, m2, m3, p, l, i, k, del0);
    PruneUseful(m0, m1, m2, m3, p, l, i, k, del0);
    PruneTrimmed(m0, m1, m2, m3, p, l, i, k, del0);
    hide Shape, Foot, Lookup, Spine, Useful, ChildSet, Trimmed;
  }

  lemma PruneKeys(m0: Mem, m1: Mem, m2: Mem, m3: Mem, p: nat, l: nat, i: nat, k: nat, del0: bool)
    requires PruneLoop(m0, m1, p, l, i, del0) && i < 8
    requires Pruned(m1, m2, m1[p].kids[i], l - 1, k, if i == 0 then del0 else true)
    requires p in m2 && m2[p] == m1[p] && m3 == m2[p := Internal(m2[p].kids[i := k])]
    requires Foot(m3, p, l) == Foot(m1, p, l) - Foot(m1, m1[p].kids[i], l - 1) + Foot(m3, k, l - 1)
    requires Foot(m3, k, l - 1) == Foot(m2, k, l - 1)
    ensures Foot(m3, p, l) <= Foot(m0, p, l) && m3.Keys == m0.Keys - Foot(m0, p, l) + Foot(m3, p, l)
    ensures m3.Keys == m2.Keys
    ensures forall q :: q in m0 && q !in Foot(m0, p, l) ==> q in m3 && m3[q] == m0[q]
  {
    KidInside(m1, p, l, i);
    FootIn(m0, p, l);
    assert p in Foot(m1, p, l);
    hide Shape, Foot, Lookup, Spine, Useful;
    var f0, f1, w, n := Foot(m0, p, l), Foot(m1, p, l), Foot(m1, m1[p].kids[i], l - 1), Foot(m2, k, l - 1);
    assert m3.Keys == m2.Keys;
    assert m0.Keys - f0 + f1 - w + n == m0.Keys - f0 + (f1 - w + n);
  }

  lemma PruneLookups(m1: Mem, m2: Mem, m3: Mem, p: nat, l: nat, i: nat, k: nat, del0: bool)
    requires Shape(m1, p, l) && l > 0 && i < 8 && m1[p].kids[i] != 0
    requires Pruned(m1, m2, m1[p].kids[i], l - 1, k, if i == 0 then del0 else true)
    requires (k != 0 ==> Framed(m2, m3, k, l - 1)) && ChildSeen(m1, m3, p, l, i, k)
    ensures forall c: nat :: Lookup(m3, p, l, c) == Lookup(m1, p, l, c)
    ensures !del0 && Spine(m1, p, l) ==> Spine(m3, p, l)
  {
    KidLookups(m1, p, l);
    KidSpine(m1, p, l);
    hide Shape, Foot, Spine, Useful;
    forall c: nat ensures Lookup(m3, p, l, c) == Lookup(m1, p, l, c) {
      if Slot(c, l) == i {
        assert Lookup(m2, k, l - 1, c) == Lookup(m1, m1[p].kids[i], l - 1, c);
        NullLookup(m2, m3, l - 1, c);
      }
    }
  }

  lemma NullLookup(m: Mem, m': Mem, l: nat, c: nat)
    ensures Lookup(m, 0, l, c) == 0 == Lookup(m', 0, l, c)
  {}

  lemma {:induction false} UsefulFrame(m: Mem, m': Mem, p: nat, l: nat)
    requires Shape(m, p, l) && Useful(m, p, l) && Agree(m, m', Foot(m, p, l))
    ensures Useful(m', p, l)
    decreases l
  {
    if l == 0 { LeafFacts(m, p); } else {
      KidInside(m, p, l, 0);
      assert m'[p] == m[p];
      forall i | 0 <= i < 8 && m[p].kids[i] != 0 ensures Useful(m', m[p].kids[i], l - 1) {
        KidInside(m, p, l, i);
        UsefulFrame(m, m', m[p].kids[i], l - 1);
      }
    }
  }

  lemma PruneUseful(m0: Mem, m1: Mem, m2: Mem, m3: Mem, p: nat, l: nat, i: nat, k: nat, del0: bool)
    requires PruneLoop(m0, m1, p, l, i, del0) && i < 8 && m1[p].kids[i] != 0
    requires Pruned(m1, m2, m1[p].kids[i], l - 1, k, if i == 0 then del0 else true)
    requires p in m2 && m2[p] == m1[p] && m3 == m2[p := Internal(m2[p].kids[i := k])] && ChildSet(m1, m3, p, l, i, k)
    ensures forall j :: 0 <= j <= i && m3[p].kids[j] != 0 && (j > 0 || del0) ==> Useful(m3, m3[p].kids[j], l - 1)
  {
    forall j | 0 <= j <= i && m3[p].kids[j] != 0 && (j > 0 || del0) ensures Useful(m3, m3[p].kids[j], l - 1) {
      if j < i {
        UsefulFrame(m1, m3, m1[p].kids[j], l - 1);
      } else {
        PruneThere(m1, m2, p, l, i, k, del0);
        FootIn(m2, k, l - 1);
        UsefulFrame(m2, m3, k, l - 1);
      }
    }
  }

  lemma {:induction false} TrimmedFrame(m: Mem, m': Mem, p: nat, l: nat)
    requires Shape(m, p, l) && Spine(m, p, l) && Trimmed(m, p, l) && Agree(m, m', Foot(m, p, l))
    ensures Trimmed(m', p, l)
    decreases l
  {
    if l > 0 {
      KidInside(m, p, l, 0);
      assert m'[p] == m[p];
      TrimmedFrame(m, m', m[p].kids[0], l - 1);
      forall i | 1 <= i < 8 && m[p].kids[i] != 0 ensures Useful(m', m[p].kids[i], l - 1) {
        KidInside(m, p, l, i);
        UsefulFrame(m, m', m[p].kids[i], l - 1);
      }
    }
  }

  lemma PruneTrimmed(m0: Mem, m1: Mem, m2: Mem, m3: Mem, p: nat, l: nat, i: nat, k: nat, del0: bool)
    requires PruneLoop(m0, m1, p, l, i, del0) && i < 8 && m1[p].kids[i] != 0
    requires Pruned(m1, m2, m1[p].kids[i], l - 1, k, if i == 0 then del0 else true)
    requires p in m2 && m2[p] == m1[p] && m3 == m2[p := Internal(m2[p].kids[i := k])] && ChildSet(m1, m3, p, l, i, k)
    ensures !del0 && Spine(m0, p, l) ==> Trimmed(m3, m3[p].kids[0], l - 1)
  {
    if !del0 && Spine(m0, p, l) {
      KidSpine(m1, p, l);
      if i == 0 {
        PruneThere(m1, m2, p, l, i, k, del0);
        FootIn(m2, k, l - 1);
        TrimmedFrame(m2, m3, k, l - 1);
      } else {
        TrimmedFrame(m1, m3, m1[p].kids[0], l - 1);
      }
    }
  }

  lemma PruneGone(m0: Mem, m3: Mem, m: Mem, p: nat, l: nat)
    requires PruneLoop(m0, m3, p, l, 8, true) && m == m3 - {p} && forall i :: 0 <= i < 8 ==> m3[p].kids[i] == 0
    ensures Pruned(m0, m, p, l, 0, true)
  {
    NoKids(m3, m3[p].kids, l - 1);
    assert Foot(m3, p, l) == {p};
    KidLookups(m3, p, l);
    FootIn(m0, p, l);
    KidInside(m0, p, l, 0);
    forall c: nat ensures Lookup(m0, p, l, c) == 0 {
      assert Lookup(m3, p, l, c) == Lookup(m3, m3[p].kids[Slot(c, l)], l - 1, c);
    }
  }

  lemma PruneKept(m0: Mem, m: Mem, p: nat, l: nat, del0: bool)
    requires PruneLoop(m0, m, p, l, 8, del0) && (del0 ==> exists i :: 0 <= i < 8 && m[p].kids[i] != 0)
    ensures Pruned(m0, m, p, l, p, del0)
  {
    assert del0 ==> Useful(m, p, l);
  }

  lemma TopIn(m: Mem, top: nat, l: nat)
    requires Shape(m, top, l)
    ensures top in m
  {}

  /** How often the chunk ids of a tnode of level `d` fit below chunk `c`. */
  function Above(c: nat, d: nat): int { c / Span(d) }

  lemma DepthStart(c: nat)
    ensures c / 16 == Above(c, 0)
  {}

  lemma DepthStep(c: nat, d: nat)
    requires Above(c, d) != 0
    ensures Above(c, d) / 8 == Above(c, d + 1) && c >= Span(d) && Above(c, d) / 8 < Above(c, d)
  {
    DivTwice(c, Span(d));
    BelowTop(c, d);
  }

  lemma DepthDone(c: nat, d: nat)
    requires Above(c, d) == 0
    ensures c < Span(d)
  {
    BelowTop(c, d);
  }

  lemma {:induction false} SpanGrows(a: nat, b: nat)
    requires a <= b
    ensures Span(a) <= Span(b)
    decreases b
  {
    if a < b { SpanGrows(a, b - 1); }
  }

  lemma DeepEnough(c: nat, d: nat, l: nat)
    requires c < Span(d) && (d == 0 || c >= Span(d - 1))
    ensures d > l <==> c >= Span(l)
  {
    if d > l { SpanGrows(l, d - 1); } else { SpanGrows(d, l); }
  }

  lemma Sees(m: Mem, m': Mem, top: nat, l: nat)
    requires Framed(m, m', top, l)
    ensures forall c: nat :: Entry(m', top, l, c) == Entry(m, top, l, c)
    ensures Shape(m', top, l) && Foot(m', top, l) == Foot(m, top, l) && (Spine(m, top, l) ==> Spine(m', top, l))
  {}

  lemma PrunedTree(m: Mem, m': Mem, brk: nat, nT: nat, top: nat, l: nat, others: set<nat>, r: nat)
    requires TreeOk(m, brk, |m|, top, l, others) && Pruned(m, m', top, l, r, false) && nT == |m'|
    ensures TreeOk(m', brk, nT, r, l, others) && Trimmed(m', r, l) && forall c: nat ::
              Entry(m', r, l, c) == Entry(m, top, l, c)
  {
    hide Shape, Foot, Lookup, Spine, Trimmed;
    FootIn(m, top, l);
    KeepOthers(m.Keys, m'.Keys, Foot(m, top, l), Foot(m', r, l), others);
    TopThere(m, top, l);
  }

  lemma TopThere(m: Mem, top: nat, l: nat)
    requires Shape(m, top, l)
    ensures top != 0
  {}

  lemma KeepOthers(keys: set<nat>, keys': set<nat>, f: set<nat>, f': set<nat>, others: set<nat>)
    requires keys == f + others && f !! others && f' <= f && keys' == keys - f + f'
    ensures keys' == f' + others && f' !! others && keys' <= keys
  {}

  lemma TrimmedKid(m: Mem, top: nat, l: nat)
    requires Shape(m, top, l) && Spine(m, top, l) && Trimmed(m, top, l) && l > 0
    ensures Shape(m, m[top].kids[0], l - 1) && Trimmed(m, m[top].kids[0], l - 1)
  {}

  /** The tree below the dropped top is untouched. */
  lemma ShortenAgrees(m: Mem, m': Mem, top: nat, l: nat)
    requires Shape(m, top, l) && Spine(m, top, l) && l > 0 && m' == m - {top}
    ensures Agree(m, m', Foot(m, m[top].kids[0], l - 1)) && Spine(m, m[top].kids[0], l - 1)
  {
    KidSpine(m, top, l);
    KidNotHere(m, top, l, 0);
    FootIn(m, m[top].kids[0], l - 1);
    hide Shape, Foot, Spine;
  }

  lemma ShortenOk(m: Mem, brk: nat, nT: nat, top: nat, l: nat, others: set<nat>)
    requires TreeOk(m, brk, nT, top, l, others) && l > 0 && Trimmed(m, top, l) && forall i :: 1 <= i < 8 ==>
               m[top].kids[i] == 0
    ensures nT >= 1 && top in m && m[top].Internal? && |m[top].kids| == 8
    ensures var kid := m[top].kids[0]; var m' := m - {top};
            TreeOk(m', brk, nT - 1, kid, l - 1, others) && Trimmed(m', kid, l - 1) && forall c: nat ::
              Entry(m', kid, l - 1, c) == Entry(m, top, l, c)
  {
    hide Shape, Foot, Lookup, Spine, Entry, Trimmed, Agree;
    ShapeHere(m, top, l);
    var kid := m[top].kids[0];
    var m' := m - {top};
    TrimmedKid(m, top, l);
    ShortenAgrees(m, m', top, l);
    TrimmedFrame(m, m', kid, l - 1);
    Shortened(m, m', top, l);
    LessKeys(m, m', top);
    TopThere(m, top, l);
    KidInside(m, top, l, 0);
  }

  // ---------- saving and loading ----------

  /** A leaf as it is saved: the chunk id it starts at, and its entries. */
  datatype Record = Record(base: nat, e: seq<nat>)

  ghost function Records(m: Mem, p: nat, l: nat, offset: nat): seq<Record>
    decreases l, 0
  {
    if p == 0 || p !in m then []
    else if l == 0 then if m[p].Leaf? then [Record(offset * 16, m[p].e)] else []
    else if m[p].Internal? && |m[p].kids| == 8 then KidRecords(m, m[p].kids, l - 1, offset, 8) else []
  }

  ghost function KidRecords(m: Mem, kids: seq<nat>, l: nat, offset: nat, n: nat): seq<Record>
    requires n <= |kids|
    decreases l, n + 1
  {
    if n == 0 then [] else KidRecords(m, kids, l, offset, n - 1) + Records(m, kids[n - 1], l, offset * 8 + (n - 1))
  }

  /** What a list of leaves holds for a chunk id. */
  function ListEntry(rs: seq<Record>, c: nat): nat {
    if rs == [] then 0
    else
      var r := rs[|rs| - 1];
      if r.base == c / 16 * 16 && |r.e| == 16 then r.e[c % 16] else ListEntry(rs[..|rs| - 1], c)
  }

  predicate Covers(rs: seq<Record>,
                   c: nat) { exists i :: 0 <= i < |rs| && rs[i].base == c / 16 * 16 && |rs[i].e| == 16 }

  lemma EmptyList()
    ensures forall c: nat :: ListEntry([], c) == 0
  {}

  lemma OneRecord(rs: seq<Record>, n: nat, c: nat)
    requires n < |rs| && |rs[n].e| == 16 && rs[n].base % 16 == 0
    ensures ListEntry(rs[..n + 1], c) == if c / 16 == rs[n].base / 16 then rs[n].e[c % 16] else ListEntry(rs[..n], c)
  {
    assert rs[..n + 1][..n] == rs[..n];
  }

  lemma FillOther(m: Mem, brk: nat, nT: nat, top: nat, l: nat, others: set<nat>, p: nat, e: seq<nat>)
    requires TreeOk(m, brk, nT, top, l, others) && p in others
    ensures p in m && TreeOk(m[p := Leaf(e)], brk, nT, top, l, others)
    ensures forall c: nat :: Entry(m[p := Leaf(e)], top, l, c) == Entry(m, top, l, c)
  {
    var m' := m[p := Leaf(e)];
    FootIn(m, top, l);
    Frame(m, m', top, l);
    Sees(m, m', top, l);
    SameSize(m, m');
    hide Shape, Foot, Lookup, Spine, Entry;
  }

  lemma {:induction false} ListJoin(a: seq<Record>, b: seq<Record>, c: nat)
    ensures ListEntry(a + b, c) == if Covers(b, c) then ListEntry(b, c) else ListEntry(a, c)
    decreases |b|
  {
    if b == [] {
      assert a + b == a;
    } else {
      var n := |b| - 1;
      assert (a + b)[..|a + b| - 1] == a + b[..n];
      ListJoin(a, b[..n], c);
      if b[n].base == c / 16 * 16 && |b[n].e| == 16 {
      } else {
        assert Covers(b, c) <==> Covers(b[..n], c) by {
          if i :| 0 <= i < |b| && b[i].base == c / 16 * 16 && |b[i].e| == 16 { assert b[..n][i] == b[i]; }
          if i :| 0 <= i < n && b[..n][i].base == c / 16 * 16 && |b[..n][i].e| == 16 { assert b[..n][i] == b[i]; }
        }
      }
    }
  }

  lemma CoversFront(rs: seq<Record>, n: nat, c: nat)
    requires n <= |rs|
    ensures Covers(rs[..n], c) ==> Covers(rs, c)
  {
    if i :| 0 <= i < n && rs[..n][i].base == c / 16 * 16 && |rs[..n][i].e| == 16 { assert rs[i] == rs[..n][i]; }
  }

  lemma {:induction false} NotCovered(rs: seq<Record>, c: nat)
    requires !Covers(rs, c)
    ensures ListEntry(rs, c) == 0
    decreases |rs|
  {
    if rs != [] {
      var n := |rs| - 1;
      assert rs[n].base != c / 16 * 16 || |rs[n].e| != 16;
      CoversFront(rs, n, c);
      NotCovered(rs[..n], c);
    }
  }

  /** The leaves below a tnode of level `l` cover only chunk ids below that tnode, and hold what
    the tree holds. */
  lemma {:induction false} RecordsRight(m: Mem, p: nat, l: nat, offset: nat, c: nat)
    requires p == 0 || Shape(m, p, l)
    ensures Covers(Records(m, p, l, offset), c) ==> c / Span(l) == offset
    ensures ListEntry(Records(m, p, l, offset), c) == if c / Span(l) == offset then Lookup(m, p, l, c) else 0
    decreases l, 0
  {
    if p == 0 {
      assert Records(m, p, l, offset) == [];
    } else if l == 0 {
      assert Records(m, p, l, offset) == [Record(offset * 16, m[p].e)];
      LeafRecord(offset, m[p].e, c);
      LeafFacts(m, p);
    } else {
      KidRecordsRight(m, m[p].kids, l - 1, offset, 8, c);
      DivTwice(c, Span(l - 1));
    }
  }

  lemma LeafRecord(offset: nat, e: seq<nat>, c: nat)
    requires |e| == 16
    ensures var rs := [Record(offset * 16, e)];
            (Covers(rs, c) <==> c / 16 == offset) && ListEntry(rs, c) == if c / 16 == offset then e[c % 16] else 0
  {
    var rs := [Record(offset * 16, e)];
    assert rs[0].base == offset * 16;
    if Covers(rs, c) { assert offset * 16 == c / 16 * 16; }
  }

  lemma {:induction false} KidRecordsRight(m: Mem, kids: seq<nat>, l: nat, offset: nat, n: nat, c: nat)
    requires n <= |kids| == 8 && forall i :: 0 <= i < 8 ==> kids[i] == 0 || Shape(m, kids[i], l)
    ensures var rs := KidRecords(m, kids, l, offset, n); var q := c / Span(l);
            && (Covers(rs, c) ==> offset * 8 <= q < offset * 8 + n)
            && ListEntry(rs, c) == if offset * 8 <= q < offset * 8 + n then Lookup(m, kids[q - offset * 8], l, c) else 0
    decreases l, n + 1
  {
    if n > 0 {
      var a := KidRecords(m, kids, l, offset, n - 1);
      var b := Records(m, kids[n - 1], l, offset * 8 + (n - 1));
      KidRecordsRight(m, kids, l, offset, n - 1, c);
      RecordsRight(m, kids[n - 1], l, offset * 8 + (n - 1), c);
      ListJoin(a, b, c);
      JoinCovers(a, b, c);
      if !Covers(b, c) { NotCovered(b, c); }
    }
  }

  lemma JoinCovers(a: seq<Record>, b: seq<Record>, c: nat)
    ensures Covers(a + b, c) <==> Covers(a, c) || Covers(b, c)
  {
    if i :| 0 <= i < |a| && a[i].base == c / 16 * 16 && |a[i].e| == 16 { assert (a + b)[i] == a[i]; }
    if i :| 0 <= i < |b| && b[i].base == c / 16 * 16 && |b[i].e| == 16 { assert (a + b)[|a| + i] == b[i]; }
    if i :| 0 <= i < |a + b| && (a + b)[i].base == c / 16 * 16 && |(a + b)[i].e| == 16 {
      assert if i < |a| then (a + b)[i] == a[i] else (a + b)[i] == b[i - |a|];
    }
  }

  lemma {:induction false} RecordsForm(m: Mem, p: nat, l: nat, offset: nat)
    requires p == 0 || Shape(m, p, l)
    ensures forall i :: 0 <= i < |Records(m, p, l, offset)| ==>
              var r := Records(m, p, l, offset)[i]; |r.e| == 16 && r.base % 16 == 0
    decreases l, 0
  {
    if p != 0 && l > 0 { KidRecordsForm(m, m[p].kids, l - 1, offset, 8); }
  }

  lemma {:induction false} KidRecordsForm(m: Mem, kids: seq<nat>, l: nat, offset: nat, n: nat)
    requires n <= |kids| == 8 && forall i :: 0 <= i < 8 ==> kids[i] == 0 || Shape(m, kids[i], l)
    ensures forall i :: 0 <= i < |KidRecords(m, kids, l, offset, n)| ==>
              var r := KidRecords(m, kids, l, offset, n)[i]; |r.e| == 16 && r.base % 16 == 0
    decreases l, n + 1
  {
    if n > 0 {
      KidRecordsForm(m, kids, l, offset, n - 1);
      RecordsForm(m, kids[n - 1], l, offset * 8 + (n - 1));
    }
  }

  /** Every record of a tree starts at a chunk id that a tree can hold. */
  lemma RecordsFit(m: Mem, brk: nat, nT: nat, top: nat, l: nat, others: set<nat>)
    requires TreeOk(m, brk, nT, top, l, others)
    ensures forall i :: 0 <= i < |Records(m, top, l, 0)| ==> Records(m, top, l, 0)[i].base <= MAX_CHUNK_ID
  {
    var rs := Records(m, top, l, 0);
    RecordsForm(m, top, l, 0);
    hide Shape, Foot, Lookup, Spine, ListEntry, Records;
    MaxSpan();
    SpanGrows(l, MAX_LEVEL);
    forall i | 0 <= i < |rs| ensures rs[i].base <= MAX_CHUNK_ID {
      var c := rs[i].base;
      assert Covers(rs, c);
      RecordsRight(m, top, l, 0, c);
      BelowTop(c, l);
    }
  }

  /** A tree saved as leaves and built again into an empty file holds the same for every chunk
    id, whatever the heights of the two trees. */
  method SaveAndLoad(f: FileMap) returns (g: FileMap, ok: bool)
    requires f.Valid()
    ensures fresh(g) && g.Valid() && (g.refused == 0 ==> ok)
    ensures ok ==> forall c: nat :: Entry(g.mem, g.top, g.topLevel, c) == Entry(f.mem, f.top, f.topLevel, c)
  {
    TreeFacts(f.mem, f.brk, f.nTnodes, f.top, f.topLevel, f.others);
    var records := f.SaveTnodes(f.top, f.topLevel, 0);
    RecordsForm(f.mem, f.top, f.topLevel, 0);
    g := new FileMap();
    ok := g.LoadTnodes(records);
    RecordsFit(f.mem, f.brk, f.nTnodes, f.top, f.topLevel, f.others);
    hide Shape, Foot, Lookup, Spine, ListEntry, Records;
    forall c: nat ensures ListEntry(records, c) == Entry(f.mem, f.top, f.topLevel, c) {
      RecordsRight(f.mem, f.top, f.topLevel, 0, c);
      BelowTop(c, f.topLevel);
    }
  }
}
