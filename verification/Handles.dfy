/** The three tables behind open files: handles share file descriptors, descriptors share
  inodes, an inode stands for an object that is open. */
module Handles {

  datatype Option<T> = None | Some(value: T)

  datatype Handle = Handle(fdId: int, useCount: nat)
  datatype FileDes = FileDes(inodeId: int, handleCount: int)
  datatype Inode = Inode(count: int, iObj: Option<nat>)

  function OneUseLess(h: Handle): Handle
    requires h.useCount > 0
  {
    h.(useCount := h.useCount - 1)
  }

  function OneHandleMore(f: FileDes): FileDes { f.(handleCount := f.handleCount + 1) }

  // ---------- references ----------

  /** Which entry of the next table each entry refers to, or -1. */
  function Uses(hs: seq<Handle>): (t: seq<int>)
    ensures |t| == |hs|
  {
    seq(|hs|, i requires 0 <= i < |hs| => if hs[i].useCount > 0 then hs[i].fdId else -1)
  }

  function Names(fs: seq<FileDes>): (t: seq<int>)
    ensures |t| == |fs|
  {
    seq(|fs|, i requires 0 <= i < |fs| => if fs[i].handleCount > 0 then fs[i].inodeId else -1)
  }

  function Count(t: seq<int>, v: int): (c: nat)
    ensures c <= |t|
  {
    if t == [] then 0 else Count(t[..|t| - 1], v) + if t[|t| - 1] == v then 1 else 0
  }

  lemma {:induction false} CountPut(t: seq<int>, i: nat, w: int, v: int)
    requires i < |t|
    ensures Count(t[i := w], v) == Count(t, v) - (if t[i] == v then 1 else 0) + if w == v then 1 else 0
    decreases |t|
  {
    var n := |t| - 1;
    if i == n {
      assert t[i := w][..n] == t[..n];
    } else {
      assert t[i := w][..n] == t[..n][i := w];
      CountPut(t[..n], i, w, v);
    }
  }

  lemma {:induction false} CountSome(t: seq<int>, v: int)
    ensures Count(t, v) > 0 <==> v in t
    decreases |t|
  {
    if t != [] {
      var n := |t| - 1;
      CountSome(t[..n], v);
      assert t == t[..n] + [t[n]];
    }
  }

  ghost function Targets(t: seq<int>): set<int> {
    set i | 0 <= i < |t| && t[i] >= 0 :: t[i]
  }

  lemma TargetsNext(t: seq<int>)
    requires t != []
    ensures var n := |t| - 1; Targets(t) == Targets(t[..n]) + if t[n] >= 0 then {t[n]} else {}
  {
    var n := |t| - 1;
    forall v | v in Targets(t) ensures v in Targets(t[..n]) || (v == t[n] && t[n] >= 0) {
      var i :| 0 <= i < |t| && t[i] == v;
      if i < n { assert t[..n][i] == v; }
    }
    forall v | v in Targets(t[..n]) ensures v in Targets(t) {
      var i :| 0 <= i < n && t[..n][i] == v;
      assert t[i] == v;
    }
  }

  /** The entries referred to are no more than the references. */
  lemma {:induction false} TargetsFew(t: seq<int>)
    ensures |Targets(t)| + Count(t, -1) <= |t|
    decreases |t|
  {
    if t != [] {
      var n := |t| - 1;
      var s := t[..n];
      TargetsFew(s);
      TargetsNext(t);
    }
  }

  /** With an unused entry, not every one of as many entries in the next table is referred to. */
  lemma SomeFree(t: seq<int>, n: nat)
    requires |t| <= n && Count(t, -1) > 0
    ensures exists v :: 0 <= v < n && Count(t, v) == 0
  {
    TargetsFew(t);
    if forall v :: 0 <= v < n ==> Count(t, v) > 0 {
      forall v | v in UpTo(n) ensures v in Targets(t) { CountSome(t, v); }
      UpToFew(n, Targets(t));
    }
  }

  ghost function UpTo(n: nat): (s: set<int>)
    ensures |s| == n && forall v :: v in s <==> 0 <= v < n
  {
    if n == 0 then {} else UpTo(n - 1) + {n - 1}
  }

  lemma {:induction false} UpToFew(n: nat, b: set<int>)
    requires UpTo(n) <= b
    ensures n <= |b|
  {
    if n > 0 {
      assert n - 1 in UpTo(n) && UpTo(n - 1) <= b - {n - 1};
      UpToFew(n - 1, b - {n - 1});
    }
  }

  // ---------- the invariant ----------

  /** Every count is the number of references, `lost` descriptors and inodes having one more
    counted than is there. */
  ghost predicate Counted(hs: seq<Handle>, fs: seq<FileDes>, ns: seq<Inode>, lostFd: int, lostInode: int) {
    && |hs| == |fs| == |ns|
    && (forall f :: 0 <= f < |fs| ==> fs[f].handleCount == Count(Uses(hs), f) + if f == lostFd then 1 else 0)
    && (forall n :: 0 <= n < |ns| ==> ns[n].count == Count(Names(fs), n) + if n == lostInode then 1 else 0)
    && (forall i :: 0 <= i < |hs| && hs[i].useCount > 0 ==> -1 <= hs[i].fdId < |fs|)
    && forall f :: 0 <= f < |fs| && fs[f].handleCount > 0 ==> -1 <= fs[f].inodeId < |ns|
  }

  ghost predicate Opened(ns: seq<Inode>, o: nat) { exists n :: 0 <= n < |ns| && ns[n].iObj == Some(o) }

  /** An inode in use stands for one object that exists and is hooked to it; an unlinked object
    exists for as long as it is open. */
  ghost predicate ObjectsOk(ns: seq<Inode>, alive: set<nat>, unlinked: set<nat>, hooked: set<nat>) {
    && (forall n :: 0 <= n < |ns| ==> (ns[n].count > 0 <==> ns[n].iObj.Some?))
    && (forall n, m :: 0 <= n < m < |ns| && ns[n].iObj.Some? ==> ns[n].iObj != ns[m].iObj)
    && (forall o :: Opened(ns, o) <==> o in hooked) && hooked <= alive
    && unlinked <= alive && forall o :: o in unlinked ==> Opened(ns, o)
  }

  /** Nothing half made: used handles have descriptors, used descriptors inodes. */
  predicate Settled(hs: seq<Handle>, fs: seq<FileDes>) {
    && (forall i :: 0 <= i < |hs| && hs[i].useCount > 0 ==> 0 <= hs[i].fdId)
    && forall f :: 0 <= f < |fs| && fs[f].handleCount > 0 ==> 0 <= fs[f].inodeId
  }

  /** Open objects are exactly those some handle leads to. */
  lemma OpenedByHandle(hs: seq<Handle>, fs: seq<FileDes>, ns: seq<Inode>, alive: set<nat>, unlinked: set<nat>,
                       hooked: set<nat>, o: nat)
    requires Counted(hs, fs, ns, -1, -1) && ObjectsOk(ns, alive, unlinked, hooked) && Settled(hs, fs)
    ensures Opened(ns, o) <==>
            exists i ::
              0 <= i < |hs| && hs[i].useCount > 0 && 0 <= hs[i].fdId < |fs| && 0 <= fs[hs[i].fdId].inodeId < |ns| &&
                        ns[fs[hs[i].fdId].inodeId].iObj == Some(o)
  {
    if Opened(ns, o) {
      var n :| 0 <= n < |ns| && ns[n].iObj == Some(o);
      CountSome(Names(fs), n);
      var f :| 0 <= f < |fs| && Names(fs)[f] == n;
      CountSome(Uses(hs), f);
      var i :| 0 <= i < |hs| && Uses(hs)[i] == f;
      assert hs[i].useCount > 0 && fs[hs[i].fdId].inodeId == n;
    }
  }

  /** No count exceeds the number of handles, so none outgrows its bit field. */
  lemma CountsFit(hs: seq<Handle>, fs: seq<FileDes>, ns: seq<Inode>)
    requires Counted(hs, fs, ns, -1, -1)
    ensures forall f :: 0 <= f < |fs| ==> 0 <= fs[f].handleCount <= |hs|
    ensures forall n :: 0 <= n < |ns| ==> 0 <= ns[n].count <= |hs|
  {}

  lemma UsesPut(hs: seq<Handle>, i: nat, h: Handle)
    requires i < |hs|
    ensures Uses(hs[i := h]) == Uses(hs)[i := if h.useCount > 0 then h.fdId else -1]
    ensures forall v :: Count(Uses(hs[i := h]), v) == Count(Uses(hs), v) - (if Uses(hs)[i] == v then 1 else 0)
                                                     + if (if h.useCount > 0 then h.fdId else -1) == v then 1 else 0
  {
    var w := if h.useCount > 0 then h.fdId else -1;
    assert Uses(hs[i := h]) == Uses(hs)[i := w];
    forall v { CountPut(Uses(hs), i, w, v); }
  }

  lemma NamesPut(fs: seq<FileDes>, i: nat, d: FileDes)
    requires i < |fs|
    ensures Names(fs[i := d]) == Names(fs)[i := if d.handleCount > 0 then d.inodeId else -1]
    ensures forall v :: Count(Names(fs[i := d]), v) == Count(Names(fs), v) - (if Names(fs)[i] == v then 1 else 0)
                                                      + if (if d.handleCount > 0 then d.inodeId else -1) == v then 1
                                                        else 0
  {
    var w := if d.handleCount > 0 then d.inodeId else -1;
    assert Names(fs[i := d]) == Names(fs)[i := w];
    forall v { CountPut(Names(fs), i, w, v); }
  }

  class OpenFiles {
    const handle: array<Handle>
    const fd: array<FileDes>
    const inode: array<Inode>
    var alive: set<nat>
    var unlinked: set<nat>
    var hooked: set<nat>

    ghost predicate Inv(lostFd: int, lostInode: int)
      reads this, handle, fd, inode
    {
      Counted(handle[..], fd[..], inode[..], lostFd, lostInode) && ObjectsOk(inode[..], alive, unlinked, hooked)
    }

    ghost predicate Valid()
      reads this, handle, fd, inode
    {
      Inv(-1, -1) && Settled(handle[..], fd[..])
    }

    /** yaffsfs_InitHandles. */
    constructor (n: nat, objects: set<nat>)
      ensures Valid() && fresh(handle) && fresh(fd) && fresh(inode) && handle.Length == n && alive == objects
      ensures unlinked == {}
    {
      handle := new Handle[n](_ => Handle(-1, 0));
      fd := new FileDes[n](_ => FileDes(-1, 0));
      inode := new Inode[n](_ => Inode(0, None));
      alive, unlinked, hooked := objects, {}, {};
      new;
      forall f ensures f >= 0 ==> Count(Uses(handle[..]), f) == 0 && Count(Names(fd[..]), f) == 0 {
        CountSome(Uses(handle[..]), f);
        CountSome(Names(fd[..]), f);
      }
    }

    /** yaffsfs_NewHandle, the handle still without a descriptor. */
    method NewHandle() returns (r: int)
      requires Valid()
      modifies handle
      ensures Inv(-1, -1)
      ensures r < 0 ==> r == -1 && handle[..] == old(handle[..]) && forall i :: 0 <= i < handle.Length ==>
                handle[i].useCount > 0
      ensures r >= 0 ==>
                r < handle.Length && old(handle[r].useCount) == 0 && handle[..] == old(handle[..])[r := Handle(-1, 1)]
    {
      hide Counted, ObjectsOk;
      ghost var hs := handle[..];
      for i := 0 to handle.Length
        invariant handle[..] == hs && forall j :: 0 <= j < i ==> handle[j].useCount > 0
      {
        if handle[i].useCount < 1 {
          handle[i] := Handle(-1, 1);
          assert handle[..] == hs[i := Handle(-1, 1)];
          BareHandle(hs, fd[..], inode[..], i);
          return i;
        }
      }
      return -1;
    }

    /** yaffsfs_NewHandleAndFileDes.  Descriptors never run out before handles do. */
    method NewHandleAndFileDes() returns (r: int, ghost f: int)
      requires Valid()
      modifies handle, fd
      ensures Inv(-1, -1)
      ensures r < 0 ==>
                r == -1 && Valid() && handle[..] == old(handle[..]) && fd[..] == old(fd[..]) && forall i ::
                  0 <= i < handle.Length ==> handle[i].useCount > 0
      ensures r >= 0 ==>
                r < handle.Length && 0 <= f < fd.Length && old(handle[r].useCount) == 0 && old(fd[f].handleCount) == 0
      ensures r >= 0 ==> handle[..] == old(handle[..])[r := Handle(f, 1)] && fd[..] == old(fd[..])[f := FileDes(-1, 1)]
    {
      hide Counted, ObjectsOk;
      ghost var hs, fs := handle[..], fd[..];
      r := NewHandle();
      if r < 0 { return -1, -1; }
      ghost var hs1 := handle[..];
      for i := 0 to fd.Length
        invariant handle[..] == hs1 && fd[..] == fs && forall j :: 0 <= j < i ==> fd[j].handleCount >= 1
      {
        if fd[i].handleCount < 1 {
          NoCount(hs, fs, inode[..], i);
          fd[i] := FileDes(-1, 1);
          handle[r] := handle[r].(fdId := i);
          assert fd[..] == fs[i := FileDes(-1, 1)];
          assert handle[..] == hs[r := Handle(i, 1)];
          HandleAndFd(hs, fs, inode[..], r, i);
          return r, i;
        }
      }
      FdFree(hs, fs, inode[..], r);
      assert false;
      r, f := -1, -1;
    }

    /** yaffsfs_PutInode, for a descriptor that no longer names inode `n`. */
    method PutInode(n: nat)
      requires n < inode.Length && Inv(-1, n)
      modifies inode, this`alive, this`unlinked, this`hooked
      ensures Inv(-1, -1) && Released(old(alive), old(unlinked), alive, unlinked, inode[..])
    {
      hide Counted, ObjectsOk, Released;
      ghost var ns := inode[..];
      InodeHeld(handle[..], fd[..], ns, alive, unlinked, hooked, n);
      inode[n] := inode[n].(count := inode[n].count - 1);
      if inode[n].count <= 0 {
        var o := inode[n].iObj.value;
        hooked := hooked - {o};
        if o in unlinked { alive, unlinked := alive - {o}, unlinked - {o}; }
        inode[n] := Inode(0, None);
        assert inode[..] == ns[n := Inode(0, None)];
        ReleaseInode(handle[..], fd[..], ns, old(alive), old(unlinked), old(hooked), n);
      } else {
        assert inode[..] == ns[n := ns[n].(count := ns[n].count - 1)];
        DropInode(handle[..], fd[..], ns, alive, unlinked, hooked, n);
      }
    }

    /** yaffsfs_PutFileDes, for a handle that no longer names descriptor `f`. */
    method PutFileDes(f: int)
      requires -1 <= f < fd.Length && Inv(f, -1)
      modifies fd, inode, this`alive, this`unlinked, this`hooked
      ensures Inv(-1, -1) && Released(old(alive), old(unlinked), alive, unlinked, inode[..])
      ensures fd[..] == if f < 0 then old(fd[..]) else old(fd[..])[f := FdLess(old(fd[f]))]
      ensures f < 0 || old(fd[f].inodeId) < 0 ==>
                inode[..] == old(inode[..]) && alive == old(alive) && unlinked == old(unlinked)
    {
      hide Counted, ObjectsOk, Released;
      ghost var fs := fd[..];
      NothingReleased(handle[..], fs, inode[..], alive, unlinked, hooked, f);
      if f >= 0 {
        FdHeld(handle[..], fs, inode[..], f);
        fd[f] := fd[f].(handleCount := fd[f].handleCount - 1);
        assert fd[..] == fs[f := fs[f].(handleCount := fs[f].handleCount - 1)];
        DropFd(handle[..], fs, inode[..], f);
        if fd[f].handleCount < 1 {
          if fd[f].inodeId >= 0 {
            ghost var fs1 := fd[..];
            PutInode(fd[f].inodeId);
            fd[f] := fd[f].(inodeId := -1);
            assert fd[..] == fs1[f := FileDes(-1, 0)];
            UnnameFd(handle[..], fs1, inode[..], f);
          }
        }
      }
    }

    /** yaffsfs_PutHandle. */
    method PutHandle(h: int)
      requires Inv(-1, -1)
      modifies handle, fd, inode, this`alive, this`unlinked, this`hooked
      ensures Inv(-1, -1) && Released(old(alive), old(unlinked), alive, unlinked, inode[..])
      ensures if !(0 <= h < handle.Length && old(handle[h].useCount) > 0) then
                handle[..] == old(handle[..]) && fd[..] == old(fd[..])
              else if old(handle[h].useCount) > 1 then
                handle[..] == old(handle[..])[h := OneUseLess(old(handle[h]))] && fd[..] == old(fd[..])
              else
                handle[..] == old(handle[..])[h := Handle(-1, 0)] && FdsLess(old(fd[..]), fd[..], old(handle[h].fdId))
      ensures 0 <= h < handle.Length && 0 <= old(handle[h].fdId) < fd.Length && old(fd[handle[h].fdId].inodeId) < 0 ==>
                inode[..] == old(inode[..]) && alive == old(alive) && unlinked == old(unlinked)
    {
      hide Counted, ObjectsOk, Released;
      ghost var hs, fs := handle[..], fd[..];
      NothingReleased(hs, fs, inode[..], alive, unlinked, hooked, -1);
      if 0 <= h < handle.Length && handle[h].useCount > 0 {
        HandleHeld(hs, fs, inode[..], h);
        handle[h] := handle[h].(useCount := handle[h].useCount - 1);
        assert handle[..] == hs[h := hs[h].(useCount := hs[h].useCount - 1)];
        DropHandle(hs, fs, inode[..], h);
        if handle[h].useCount < 1 {
          ghost var hs1 := handle[..];
          PutFileDes(handle[h].fdId);
          handle[h] := handle[h].(fdId := -1);
          assert handle[..] == hs1[h := Handle(-1, 0)];
          UnnameHandle(hs1, fd[..], inode[..], h);
        }
      }
    }

    /** yaffsfs_GetHandle. */
    method GetHandle(h: int) returns (ok: bool)
      requires Valid()
      modifies handle
      ensures Valid() && (ok <==> 0 <= h < handle.Length && old(handle[h].useCount) > 0)
      ensures handle[..] == if ok then old(handle[..])[h := old(handle[h]).(useCount := old(handle[h].useCount) + 1)]
                            else old(handle[..])
    {
      hide Counted, ObjectsOk;
      ghost var hs := handle[..];
      if 0 <= h < handle.Length && handle[h].useCount > 0 {
        handle[h] := handle[h].(useCount := handle[h].useCount + 1);
        assert handle[..] == hs[h := hs[h].(useCount := hs[h].useCount + 1)];
        MoreUse(hs, fd[..], inode[..], h);
        return true;
      }
      return false;
    }

    /** yaffs_dup: a new handle on the same descriptor. */
    method Dup(h: int) returns (r: int)
      requires Valid()
      modifies handle, fd
      ensures Valid()
      ensures r < 0 ==> r == -1 && handle[..] == old(handle[..]) && fd[..] == old(fd[..])
      ensures r < 0 && 0 <= h < handle.Length && old(handle[h].useCount) > 0 ==>
                forall i :: 0 <= i < handle.Length ==> handle[i].useCount > 0
      ensures r >= 0 ==> && r < handle.Length && 0 <= h < handle.Length && r != h
                         && old(handle[h].useCount) > 0 && old(handle[r].useCount) == 0
                         && handle[..] == old(handle[..])[r := Handle(old(handle[h].fdId), 1)]
                         && 0 <= old(handle[h].fdId) < fd.Length
                         && fd[..] == old(fd[..])[old(handle[h].fdId) := OneHandleMore(old(fd[handle[h].fdId]))]
    {
      hide Counted, ObjectsOk;
      ghost var hs, fs := handle[..], fd[..];
      if !(0 <= h < handle.Length && handle[h].useCount > 0) { return -1; }
      HandleHeld(hs, fs, inode[..], h);
      r := NewHandle();
      if r < 0 { return; }
      var f := handle[h].fdId;
      handle[r] := handle[r].(fdId := f);
      fd[f] := fd[f].(handleCount := fd[f].handleCount + 1);
      assert handle[..] == hs[r := Handle(f, 1)];
      assert fd[..] == fs[f := fs[f].(handleCount := fs[f].handleCount + 1)];
      OneMoreHandle(hs, fs, inode[..], r, f);
    }

    /** yaffsfs_GetInodeIdForObject.  With a descriptor that names no inode yet there is always
      a free inode, or the object has one already. */
    method GetInodeIdForObject(o: nat, ghost f: nat) returns (id: nat)
      requires Inv(-1, -1) && o in alive && f < fd.Length && fd[f] == FileDes(-1, 1)
      modifies inode, this`hooked
      ensures id < inode.Length && Inv(-1, id) && hooked == old(hooked) + {o} && inode[id].iObj == Some(o)
      ensures inode[..] == old(inode[..])[id := Inode(old(inode[id].count) + 1, Some(o))]
    {
      hide Counted, ObjectsOk;
      ghost var ns := inode[..];
      Lengths(handle[..], fd[..], ns);
      var ret := -1;
      var i := 0;
      while i < inode.Length && ret < 0
        invariant 0 <= i <= inode.Length && inode[..] == ns && -1 <= ret < inode.Length
        invariant if ret >= 0 then inode[ret].iObj == Some(o) else forall j :: 0 <= j < i ==> inode[j].iObj != Some(o)
      {
        if inode[i].iObj == Some(o) { ret := i; }
        i := i + 1;
      }
      i := 0;
      while i < inode.Length && ret < 0
        invariant 0 <= i <= inode.Length && inode[..] == ns && -1 <= ret < inode.Length
        invariant ret < 0 ==> forall j :: 0 <= j < i ==> inode[j].iObj.Some?
        invariant ret >= 0 ==>
                    inode[ret].iObj == Some(o) || (inode[ret].iObj.None? && forall j :: 0 <= j < inode.Length ==>
                                                   inode[j].iObj != Some(o))
        invariant ret < 0 ==> forall j :: 0 <= j < inode.Length ==> inode[j].iObj != Some(o)
      {
        if inode[i].iObj.None? { ret := i; }
        i := i + 1;
      }
      InodeFree(handle[..], fd[..], ns, alive, unlinked, hooked, f);
      id := ret;
      if inode[id].iObj.None? { inode[id] := inode[id].(count := 0); }
      inode[id] := Inode(inode[id].count + 1, Some(o));
      hooked := hooked + {o};
      FreshInode(handle[..], fd[..], ns, alive, unlinked, old(hooked), id, o);
      assert inode[..] == ns[id := Inode(ns[id].count + 1, Some(o))];
    }

    /** yaffs_open, of object `o` if the path leads to one; `denied` when sharing or modes forbid it. */
    method Open(o: Option<nat>, denied: bool) returns (r: int)
      requires Valid() && (o.Some? ==> o.value in alive && o.value !in unlinked)
      modifies handle, fd, inode, this`alive, this`unlinked, this`hooked
      ensures Valid() && alive == old(alive) && unlinked == old(unlinked)
      ensures r < 0 ==>
                r == -1 && (o.None? || denied || forall i :: 0 <= i < handle.Length ==> old(handle[i].useCount) > 0)
      ensures r >= 0 ==> && r < handle.Length && o.Some? && handle[r].useCount == 1 && old(handle[r].useCount) == 0
                         && 0 <= handle[r].fdId < fd.Length && fd[handle[r].fdId].handleCount == 1
                         && 0 <= fd[handle[r].fdId].inodeId < inode.Length
                         && inode[fd[handle[r].fdId].inodeId].iObj == o
      ensures forall i :: 0 <= i < handle.Length && i != r && old(handle[i].useCount) > 0 ==>
                handle[i] == old(handle[i])
    {
      hide Counted, ObjectsOk, Released;
      ghost var hs, fs := handle[..], fd[..];
      ghost var f;
      r, f := NewHandleAndFileDes();
      if r < 0 { return; }
      if o.Some? && !denied {
        var d := handle[r].fdId;
        var id := GetInodeIdForObject(o.value, d);
        ghost var fs1 := fd[..];
        fd[d] := fd[d].(inodeId := id);
        assert fd[..] == fs1[d := FileDes(id, 1)];
        NameFd(handle[..], fs1, inode[..], d, id);
        KeepSettled(hs, fs, handle[..], fd[..], r, d);
      } else {
        ghost var hs1, fs1 := handle[..], fd[..];
        PutHandle(r);
        Backed(hs, fs, hs1, fs1, handle[..], fd[..], r, f);
        r := -1;
      }
    }

    /** yaffs_close. */
    method Close(h: int) returns (ok: bool)
      requires Valid()
      modifies handle, fd, inode, this`alive, this`unlinked, this`hooked
      ensures Valid() && Released(old(alive), old(unlinked), alive, unlinked, inode[..])
      ensures ok <==> 0 <= h < handle.Length && old(handle[h].useCount) > 0
      ensures forall i :: 0 <= i < handle.Length ==>
                handle[i] == if i != h || !ok then old(handle[i]) else if old(handle[i].useCount) > 1
                            then old(handle[i]).(useCount := old(handle[i].useCount) - 1) else Handle(-1, 0)
    {
      hide Counted, ObjectsOk, Released;
      ghost var hs, fs := handle[..], fd[..];
      NothingReleased(hs, fs, inode[..], alive, unlinked, hooked, -1);
      ok := 0 <= h < handle.Length && handle[h].useCount > 0;
      if ok {
        PutHandle(h);
        StillSettled(hs, fs, handle[..], fd[..], h);
      }
    }

    /** Unlinking: an object that is open lives on until its last handle goes. */
    method Unlink(o: nat)
      requires Valid() && o in alive && o !in unlinked
      modifies this`alive, this`unlinked
      ensures Valid()
      ensures Opened(inode[..], o) ==> alive == old(alive) && unlinked == old(unlinked) + {o}
      ensures !Opened(inode[..], o) ==> alive == old(alive) - {o} && unlinked == old(unlinked)
    {
      if o in hooked {
        unlinked := unlinked + {o};
      } else {
        alive := alive - {o};
      }
    }
  }

  lemma BareHandle(hs: seq<Handle>, fs: seq<FileDes>, ns: seq<Inode>, i: nat)
    requires Counted(hs, fs, ns, -1, -1) && i < |hs| && hs[i].useCount == 0
    ensures Counted(hs[i := Handle(-1, 1)], fs, ns, -1, -1)
  {
    UsesPut(hs, i, Handle(-1, 1));
  }

  lemma NoCount(hs: seq<Handle>, fs: seq<FileDes>, ns: seq<Inode>, f: nat)
    requires Counted(hs, fs, ns, -1, -1) && f < |fs| && fs[f].handleCount < 1
    ensures fs[f].handleCount == 0
  {}

  lemma HandleAndFd(hs: seq<Handle>, fs: seq<FileDes>, ns: seq<Inode>, i: nat, f: nat)
    requires Counted(hs, fs, ns, -1, -1) && i < |hs| && hs[i].useCount == 0 && f < |fs| && fs[f].handleCount == 0
    ensures Counted(hs[i := Handle(f, 1)], fs[f := FileDes(-1, 1)], ns, -1, -1)
  {
    UsesPut(hs, i, Handle(f, 1));
    NamesPut(fs, f, FileDes(-1, 1));
  }

  /** An unused handle means an unused descriptor. */
  lemma FdFree(hs: seq<Handle>, fs: seq<FileDes>, ns: seq<Inode>, i: nat)
    requires Counted(hs, fs, ns, -1, -1) && i < |hs| && hs[i].useCount == 0
    ensures exists f :: 0 <= f < |fs| && fs[f].handleCount < 1
  {
    CountSome(Uses(hs), -1);
    assert Uses(hs)[i] == -1;
    SomeFree(Uses(hs), |fs|);
    var f :| 0 <= f < |fs| && Count(Uses(hs), f) == 0;
    assert fs[f].handleCount == 0;
  }

  /** What closing does to objects: gone are just the unlinked ones that are no longer open. */
  ghost predicate Released(alive: set<nat>, unlinked: set<nat>, alive': set<nat>, unlinked': set<nat>, ns: seq<Inode>) {
    && alive' <= alive && unlinked' == unlinked * alive'
    && forall o :: o in alive ==> (o !in alive' <==> o in unlinked && !Opened(ns, o))
  }

  function FdLess(d: FileDes): FileDes {
    if d.handleCount > 1 then d.(handleCount := d.handleCount - 1) else if d.inodeId >= 0 then FileDes(-1, 0)
    else d.(handleCount := d.handleCount - 1)
  }

  predicate FdsLess(fs: seq<FileDes>, gs: seq<FileDes>, f: int) {
    gs == if 0 <= f < |fs| then fs[f := FdLess(fs[f])] else fs
  }

  lemma InodeHeld(hs: seq<Handle>, fs: seq<FileDes>, ns: seq<Inode>, alive: set<nat>, unlinked: set<nat>,
                  hooked: set<nat>, n: nat)
    requires Counted(hs, fs, ns, -1, n) && ObjectsOk(ns, alive, unlinked, hooked) && n < |ns|
    ensures ns[n].count > 0 && ns[n].iObj.Some?
  {}

  lemma ReleaseInode(hs: seq<Handle>, fs: seq<FileDes>, ns: seq<Inode>, alive: set<nat>, unlinked: set<nat>,
                     hooked: set<nat>, n: nat)
    requires Counted(hs, fs, ns, -1, n) && ObjectsOk(ns, alive, unlinked, hooked) && n < |ns| && ns[n].iObj.Some?
    requires ns[n].count == 1
    ensures var o := ns[n].iObj.value; var ms := ns[n := Inode(0, None)];
            var alive', unlinked' := if o in unlinked then alive - {o} else alive, if o in unlinked then unlinked - {o}
                                     else unlinked;
            && Counted(hs, fs, ms, -1, -1) && ObjectsOk(ms, alive', unlinked', hooked - {o})
            && Released(alive, unlinked, alive', unlinked', ms)
  {
    var o := ns[n].iObj.value;
    var ms := ns[n := Inode(0, None)];
    forall p: nat ensures Opened(ms, p) <==> p != o && Opened(ns, p) {
      if p != o && Opened(ns, p) {
        var m :| 0 <= m < |ns| && ns[m].iObj == Some(p);
        assert ms[m].iObj == Some(p);
      }
      if Opened(ms, p) {
        var m :| 0 <= m < |ms| && ms[m].iObj == Some(p);
        assert ns[m].iObj == Some(p) && m != n;
      }
    }
    assert Opened(ns, o);
  }

  lemma DropInode(hs: seq<Handle>, fs: seq<FileDes>, ns: seq<Inode>, alive: set<nat>, unlinked: set<nat>,
                  hooked: set<nat>, n: nat)
    requires Counted(hs, fs, ns, -1, n) && ObjectsOk(ns, alive, unlinked, hooked) && n < |ns| && ns[n].count > 1
    ensures var ms := ns[n := ns[n].(count := ns[n].count - 1)];
            Counted(hs, fs, ms, -1, -1) && ObjectsOk(ms, alive, unlinked, hooked) &&
            Released(alive, unlinked, alive, unlinked, ms)
  {
    var ms := ns[n := ns[n].(count := ns[n].count - 1)];
    SameOpened(ns, ms);
  }

  lemma SameOpened(ns: seq<Inode>, ms: seq<Inode>)
    requires |ns| == |ms| && forall n :: 0 <= n < |ns| ==> ns[n].iObj == ms[n].iObj
    ensures forall o :: Opened(ns, o) <==> Opened(ms, o)
  {
    forall o: nat ensures Opened(ns, o) <==> Opened(ms, o) {
      if n :| 0 <= n < |ns| && ns[n].iObj == Some(o) { assert ms[n].iObj == Some(o); }
      if n :| 0 <= n < |ms| && ms[n].iObj == Some(o) { assert ns[n].iObj == Some(o); }
    }
  }

  lemma NothingReleased(hs: seq<Handle>, fs: seq<FileDes>, ns: seq<Inode>, alive: set<nat>, unlinked: set<nat>,
                        hooked: set<nat>, f: int)
    requires Counted(hs, fs, ns, f, -1) && ObjectsOk(ns, alive, unlinked, hooked)
    ensures Released(alive, unlinked, alive, unlinked, ns) && |hs| == |fs| == |ns|
  {}

  lemma FdHeld(hs: seq<Handle>, fs: seq<FileDes>, ns: seq<Inode>, f: nat)
    requires Counted(hs, fs, ns, f, -1) && f < |fs|
    ensures fs[f].handleCount > 0 && -1 <= fs[f].inodeId < |ns|
  {}

  lemma DropFd(hs: seq<Handle>, fs: seq<FileDes>, ns: seq<Inode>, f: nat)
    requires Counted(hs, fs, ns, f, -1) && f < |fs|
    ensures var d := fs[f].(handleCount := fs[f].handleCount - 1);
            Counted(hs, fs[f := d], ns, -1, if d.handleCount < 1 && d.inodeId >= 0 then d.inodeId else -1)
  {
    NamesPut(fs, f, fs[f].(handleCount := fs[f].handleCount - 1));
  }

  lemma UnnameFd(hs: seq<Handle>, fs: seq<FileDes>, ns: seq<Inode>, f: nat)
    requires Counted(hs, fs, ns, -1, -1) && f < |fs| && fs[f].handleCount < 1
    ensures fs[f].handleCount == 0 && Counted(hs, fs[f := FileDes(-1, 0)], ns, -1, -1)
  {
    NamesPut(fs, f, FileDes(-1, 0));
  }

  lemma HandleHeld(hs: seq<Handle>, fs: seq<FileDes>, ns: seq<Inode>, h: nat)
    requires Counted(hs, fs, ns, -1, -1) && h < |hs| && hs[h].useCount > 0
    ensures -1 <= hs[h].fdId < |fs| && |hs| == |fs| == |ns|
  {}

  lemma DropHandle(hs: seq<Handle>, fs: seq<FileDes>, ns: seq<Inode>, h: nat)
    requires Counted(hs, fs, ns, -1, -1) && h < |hs| && hs[h].useCount > 0
    ensures var d := hs[h].(useCount := hs[h].useCount - 1);
            Counted(hs[h := d], fs, ns, if d.useCount < 1 then d.fdId else -1, -1)
  {
    UsesPut(hs, h, hs[h].(useCount := hs[h].useCount - 1));
  }

  lemma UnnameHandle(hs: seq<Handle>, fs: seq<FileDes>, ns: seq<Inode>, h: nat)
    requires Counted(hs, fs, ns, -1, -1) && h < |hs| && hs[h].useCount == 0
    ensures Counted(hs[h := Handle(-1, 0)], fs, ns, -1, -1)
  {
    UsesPut(hs, h, Handle(-1, 0));
  }

  lemma MoreUse(hs: seq<Handle>, fs: seq<FileDes>, ns: seq<Inode>, h: nat)
    requires Counted(hs, fs, ns, -1, -1) && h < |hs| && hs[h].useCount > 0
    ensures Counted(hs[h := hs[h].(useCount := hs[h].useCount + 1)], fs, ns, -1, -1)
  {
    UsesPut(hs, h, hs[h].(useCount := hs[h].useCount + 1));
  }

  lemma OneMoreHandle(hs: seq<Handle>, fs: seq<FileDes>, ns: seq<Inode>, r: nat, f: nat)
    requires Counted(hs, fs, ns, -1, -1) && r < |hs| && hs[r].useCount == 0 && f < |fs| && exists i ::
               0 <= i < |hs| && hs[i].useCount > 0 && hs[i].fdId == f
    ensures fs[f].handleCount > 0
    ensures Counted(hs[r := Handle(f, 1)], fs[f := fs[f].(handleCount := fs[f].handleCount + 1)], ns, -1, -1)
  {
    var i :| 0 <= i < |hs| && hs[i].useCount > 0 && hs[i].fdId == f;
    assert Uses(hs)[i] == f;
    CountSome(Uses(hs), f);
    UsesPut(hs, r, Handle(f, 1));
    NamesPut(fs, f, fs[f].(handleCount := fs[f].handleCount + 1));
  }

  lemma Lengths(hs: seq<Handle>, fs: seq<FileDes>, ns: seq<Inode>)
    requires Counted(hs, fs, ns, -1, -1)
    ensures |hs| == |fs| == |ns|
  {}

  lemma InodeFree(hs: seq<Handle>, fs: seq<FileDes>, ns: seq<Inode>, alive: set<nat>, unlinked: set<nat>,
                  hooked: set<nat>, f: nat)
    requires Counted(hs, fs, ns, -1, -1) && ObjectsOk(ns, alive, unlinked, hooked) && f < |fs| && fs[f].inodeId == -1
    ensures exists n :: 0 <= n < |ns| && ns[n].iObj.None?
  {
    CountSome(Names(fs), -1);
    assert Names(fs)[f] == -1;
    SomeFree(Names(fs), |ns|);
    var n :| 0 <= n < |ns| && Count(Names(fs), n) == 0;
    assert ns[n].count == 0;
  }

  lemma FreshInode(hs: seq<Handle>, fs: seq<FileDes>, ns: seq<Inode>, alive: set<nat>, unlinked: set<nat>,
                   hooked: set<nat>, id: nat, o: nat)
    requires Counted(hs, fs, ns, -1, -1) && ObjectsOk(ns, alive, unlinked, hooked) && id < |ns| && o in alive
    requires ns[id].iObj == Some(o) || (ns[id].iObj.None? && forall j :: 0 <= j < |ns| ==> ns[j].iObj != Some(o))
    ensures var ms := ns[id := Inode(ns[id].count + 1, Some(o))];
            ns[id].count >= 0 && (ns[id].iObj.None? ==> ns[id].count == 0) && Counted(hs, fs, ms, -1, id) &&
            ObjectsOk(ms, alive, unlinked, hooked + {o})
  {
    var ms := ns[id := Inode(ns[id].count + 1, Some(o))];
    forall p: nat ensures Opened(ms, p) <==> p == o || Opened(ns, p) {
      if Opened(ns, p) {
        var m :| 0 <= m < |ns| && ns[m].iObj == Some(p);
        assert ms[m].iObj == Some(p);
      }
      if Opened(ms, p) {
        var m :| 0 <= m < |ms| && ms[m].iObj == Some(p);
        assert m != id ==> ns[m].iObj == Some(p);
      }
      assert ms[id].iObj == Some(o);
    }
  }

  lemma NameFd(hs: seq<Handle>, fs: seq<FileDes>, ns: seq<Inode>, f: nat, id: nat)
    requires Counted(hs, fs, ns, -1, id) && f < |fs| && fs[f] == FileDes(-1, 1) && id < |ns|
    ensures Counted(hs, fs[f := FileDes(id, 1)], ns, -1, -1)
  {
    NamesPut(fs, f, FileDes(id, 1));
  }

  lemma KeepSettled(hs: seq<Handle>, fs: seq<FileDes>, hs': seq<Handle>, fs': seq<FileDes>, r: nat, f: nat)
    requires Settled(hs, fs) && r < |hs| == |hs'| && f < |fs| == |fs'| && hs' == hs[r := Handle(f, 1)]
    requires fs' == fs[f := fs'[f]] && fs'[f].inodeId >= 0
    ensures Settled(hs', fs')
  {}

  lemma Backed(hs: seq<Handle>, fs: seq<FileDes>, hs1: seq<Handle>, fs1: seq<FileDes>, hs2: seq<Handle>,
               fs2: seq<FileDes>, r: nat, f: nat)
    requires Settled(hs, fs) && r < |hs| && f < |fs| && hs1 == hs[r := Handle(f, 1)] && fs1 == fs[f := FileDes(-1, 1)]
    requires hs2 == hs1[r := Handle(-1, 0)] && FdsLess(fs1, fs2, f)
    ensures Settled(hs2, fs2)
  {}

  lemma StillSettled(hs: seq<Handle>, fs: seq<FileDes>, hs': seq<Handle>, fs': seq<FileDes>, h: nat)
    requires Settled(hs, fs) && h < |hs| && hs[h].useCount > 0
    requires if hs[h].useCount > 1 then hs' == hs[h := hs[h].(useCount := hs[h].useCount - 1)] && fs' == fs
             else hs' == hs[h := Handle(-1, 0)] && FdsLess(fs, fs', hs[h].fdId)
    ensures Settled(hs', fs')
  {}
}
