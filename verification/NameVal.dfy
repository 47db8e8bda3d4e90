/** The name-value store kept inside an object header: records packed one after another in a
  byte buffer, each an int with the record's size, a NUL-terminated name and the value.

  `size` is the length the code is told; the array may be longer, because copying the name
  pads with zeros past the end of the record. */
module NameVal {

  type Byte = b: int | 0 <= b < 256
  type Bytes = seq<Byte>

  const INT := 4
  const ENODATA := 61
  const ERANGE := 34
  const ENOSPC := 28
  const EEXIST := 17

  datatype Rec = Rec(name: Bytes, value: Bytes)

  function RecLen(r: Rec): nat { INT + |r.name| + 1 + |r.value| }

  /** An int in memory, least significant byte first. */
  function IntBytes(v: nat): (s: Bytes)
    requires v < 0x8000_0000
    ensures |s| == INT
  {
    var v1, v2, v3 := v / 256, v / 256 / 256, v / 256 / 256 / 256;
    [v % 256, v1 % 256, v2 % 256, v3]
  }

  function IntAt(s: Bytes, p: nat): int
    requires p + INT <= |s|
  {
    var v := s[p] as int + 256 * s[p + 1] as int + 65536 * s[p + 2] as int + 16777216 * s[p + 3] as int;
    if v >= 0x8000_0000 then v - 0x1_0000_0000 else v
  }

  lemma IntRoundTrip(s: Bytes, p: nat, v: nat)
    requires p + INT <= |s| && v < 0x8000_0000 && s[p..p + INT] == IntBytes(v)
    ensures IntAt(s, p) == v
  {
    assert s[p] == s[p..p + INT][0] && s[p + 1] == s[p..p + INT][1] && s[p + 2] == s[p..p + INT][2] &&
    s[p + 3] == s[p..p + INT][3];
  }

  function Packed(r: Rec): (s: Bytes)
    requires RecLen(r) < 0x8000_0000
    ensures |s| == RecLen(r)
  {
    IntBytes(RecLen(r)) + r.name + [0] + r.value
  }

  /** Where record `k` starts. */
  function Off(recs: seq<Rec>, k: nat): nat
    requires k <= |recs|
  {
    if k == 0 then 0 else Off(recs, k - 1) + RecLen(recs[k - 1])
  }

  predicate Plain(name: Bytes) { forall i :: 0 <= i < |name| ==> name[i] != 0 }

  ghost predicate Distinct(recs: seq<Rec>) {
    && (forall k :: 0 <= k < |recs| ==> Plain(recs[k].name))
    && forall k, m :: 0 <= k < m < |recs| ==> recs[k].name != recs[m].name
  }

  /** The buffer holds these records, then zeros for the length of an int or up to the end. */
  ghost predicate Holds(s: Bytes, size: nat, recs: seq<Rec>) {
    && INT < size <= |s| && size < 0x4000_0000 && Off(recs, |recs|) <= size && Distinct(recs)
    && (forall k :: 0 <= k < |recs| ==> RecAt(s, recs, k))
    && forall j :: Off(recs, |recs|) <= j < size && j < Off(recs, |recs|) + INT ==> s[j] == 0
  }

  /** Record `k` lies in its place. */
  predicate RecAt(s: Bytes, recs: seq<Rec>, k: nat)
    requires k < |recs|
  {
    HeldAt(s, Off(recs, k), recs[k])
  }

  predicate HeldAt(s: Bytes, p: nat, r: Rec) {
    p + RecLen(r) <= |s| && RecLen(r) < 0x4000_0000 && s[p..p + RecLen(r)] == Packed(r)
  }

  /** A record that ends at the end of the buffer, or past it, is not seen. */
  function Seen(recs: seq<Rec>, size: nat): (n: nat)
    ensures n <= |recs|
  {
    if recs != [] && Off(recs, |recs|) >= size then |recs| - 1 else |recs|
  }

  function Shown(recs: seq<Rec>, size: nat): seq<Rec> { recs[..Seen(recs, size)] }

  /** These records lie one after another from the start of the buffer on. */
  ghost predicate Laid(s: Bytes, recs: seq<Rec>) {
    Distinct(recs) && forall k :: 0 <= k < |recs| ==> RecAt(s, recs, k)
  }

  lemma {:induction false} OffGrows(recs: seq<Rec>, k: nat, m: nat)
    requires k <= m <= |recs|
    ensures Off(recs, k) + (m - k) * 5 <= Off(recs, m)
    decreases m
  {
    if k < m { OffGrows(recs, k, m - 1); }
  }

  /** What the scanning loops read at record `k`. */
  function SizeAt(s: Bytes, size: nat, p: nat): int
    requires size <= |s|
  {
    if p + INT < size then IntAt(s, p) else 0
  }

  lemma RecSize(s: Bytes, p: nat, r: Rec)
    requires HeldAt(s, p, r)
    ensures p + INT <= |s| && IntAt(s, p) == RecLen(r)
  {
    hide IntAt, IntBytes;
    assert s[p..p + INT] == s[p..p + RecLen(r)][..INT];
    assert Packed(r)[..INT] == IntBytes(RecLen(r));
    IntRoundTrip(s, p, RecLen(r));
  }

  lemma ZeroInt(s: Bytes, p: nat)
    requires p + INT <= |s| && forall j :: p <= j < p + INT ==> s[j] == 0
    ensures IntAt(s, p) == 0
  {}

  lemma OffStep(recs: seq<Rec>, k: nat)
    requires k < |recs|
    ensures Off(recs, k) + RecLen(recs[k]) == Off(recs, k + 1) <= Off(recs, |recs|)
    ensures k + 1 < |recs| ==> Off(recs, k + 1) + 5 <= Off(recs, |recs|)
  {
    OffGrows(recs, k + 1, |recs|);
  }

  lemma SizeRead(s: Bytes, size: nat, recs: seq<Rec>, k: nat)
    requires Holds(s, size, recs) && k <= |recs|
    ensures var p := Off(recs, k);
            && p <= size
            && (k < Seen(recs, size) ==>
                SizeAt(s, size, p) == RecLen(recs[k]) && p + RecLen(recs[k]) == Off(recs, k + 1) < size)
            && (k >= Seen(recs, size) ==> SizeAt(s, size, p) <= 0 || p + SizeAt(s, size, p) >= size)
  {
    hide HeldAt, IntAt, Distinct, Plain, Off;
    var p := Off(recs, k);
    if k < |recs| {
      OffStep(recs, k);
      assert RecAt(s, recs, k);
      RecSize(s, p, recs[k]);
    } else if p + INT < size {
      ZeroInt(s, p);
    }
  }

  /** strncmp(s + at, name, n) == 0, for a name that a NUL follows. */
  function StrnEq(s: Bytes, at: nat, name: Bytes, n: nat): bool
    decreases n
  {
    if n == 0 then true
    else if at >= |s| then false
    else if name == [] then s[at] == 0
    else s[at] == name[0] && s[at] != 0 && StrnEq(s, at + 1, name[1..], n - 1)
  }

  lemma {:induction false} NameEq(s: Bytes, at: nat, held: Bytes, name: Bytes, n: nat)
    requires at + |held| < |s| && s[at..at + |held|] == held && s[at + |held|] == 0 && Plain(held) && Plain(name)
    requires n > |held|
    ensures StrnEq(s, at, name, n) <==> name == held
    decreases |held|
  {
    if held != [] {
      assert s[at] == held[0] && s[at + 1..at + 1 + |held[1..]|] == held[1..];
      assert Plain(held[1..]) && forall i :: 0 <= i < |name| - 1 ==> name[1..][i] == name[i + 1];
      if name != [] {
        NameEq(s, at + 1, held[1..], name[1..], n - 1);
        assert name == [name[0]] + name[1..] && held == [held[0]] + held[1..];
      }
    } else if name != [] {
      assert name[0] != 0;
    }
  }

  lemma NameMatch(s: Bytes, p: nat, r: Rec, name: Bytes)
    requires HeldAt(s, p, r) && Plain(r.name) && Plain(name)
    ensures StrnEq(s, p + INT, name, RecLen(r)) <==> name == r.name
  {
    HeldParts(s, p, r);
    NameEq(s, p + INT, r.name, name, RecLen(r));
  }

  lemma SubSlice(s: Bytes, a: nat, b: nat, i: nat, j: nat)
    requires a <= b <= |s| && i <= j <= b - a
    ensures s[a..b][i..j] == s[a + i..a + j]
  {
    forall k | 0 <= k < j - i ensures s[a..b][i..j][k] == s[a + i..a + j][k] {}
  }

  lemma HeldParts(s: Bytes, p: nat, r: Rec)
    requires HeldAt(s, p, r)
    ensures var q := p + INT;
            && p + RecLen(r) <= |s| && s[q..q + |r.name|] == r.name && s[q + |r.name|] == 0
            && s[q + |r.name| + 1..p + RecLen(r)] == r.value
  {
    hide IntBytes;
    var t := s[p..p + RecLen(r)];
    var n := |r.name|;
    assert t[INT..INT + n] == r.name && t[INT + n] == 0 && t[INT + n + 1..] == r.value;
    SubSlice(s, p, p + RecLen(r), INT, INT + n);
    SubSlice(s, p, p + RecLen(r), INT + n + 1, RecLen(r));
    assert s[p + INT + n] == t[INT + n] && t[INT + n + 1..] == t[INT + n + 1..RecLen(r)];
  }

  /** The record with this name is the `k`th. */
  predicate IsAt(recs: seq<Rec>, k: nat, name: Bytes) { k < |recs| && recs[k].name == name }

  predicate Absent(recs: seq<Rec>, n: nat, name: Bytes)
    requires n <= |recs|
  {
    forall k :: 0 <= k < n ==> recs[k].name != name
  }

  /** One step of the scan: either it is at a record that is seen, or it stops. */
  lemma ScanStep(s: Bytes, size: nat, recs: seq<Rec>, k: nat)
    requires Holds(s, size, recs) && k <= Seen(recs, size)
    ensures var p := Off(recs, k); var sz := SizeAt(s, size, p);
            && p <= size
            && (sz > 0 && sz < size && p + sz < size <==> k < Seen(recs, size))
            && (k < Seen(recs, size) ==>
                HeldAt(s, p, recs[k]) && Plain(recs[k].name) && sz == RecLen(recs[k]) && p + sz == Off(recs, k + 1))
  {
    hide HeldAt, IntAt, Plain, Off, SizeAt;
    if k < |recs| { assert RecAt(s, recs, k); }
    SizeRead(s, size, recs, k);
  }

  /** nval_find. */
  method Find(xb: array<Byte>, size: nat, name: Bytes, ghost recs: seq<Rec>)
      returns (pos: int, existSize: nat, ghost k: nat)
    requires Holds(xb[..], size, recs) && Plain(name)
    ensures pos < 0 ==> pos == -ENODATA && existSize == 0 && Absent(recs, Seen(recs, size), name)
    ensures pos >= 0 ==>
              k < Seen(recs, size) && IsAt(recs, k, name) && pos == Off(recs, k) && existSize == RecLen(recs[k])
  {
    hide Holds, HeldAt, IntAt, Plain, Off, StrnEq;
    ghost var s := xb[..];
    k := 0;
    OffZero(s, size, recs);
    var p := 0;
    var sz := IntAt(xb[..], 0);
    ScanStep(s, size, recs, 0);
    while sz > 0 && sz < size && p + sz < size
      invariant k <= Seen(recs, size) && p == Off(recs, k) && sz == SizeAt(s, size, p) && p <= size
      invariant Absent(recs, k, name)
      decreases size - p
    {
      ScanStep(s, size, recs, k);
      NameMatch(s, p, recs[k], name);
      if StrnEq(xb[..], p + INT, name, sz) { return p, sz, k; }
      p := p + sz;
      if p < size - INT { sz := IntAt(xb[..], p); } else { sz := 0; }
      k := k + 1;
      ScanStep(s, size, recs, k);
    }
    ScanStep(s, size, recs, k);
    pos, existSize := -ENODATA, 0;
  }

  lemma OffZero(s: Bytes, size: nat, recs: seq<Rec>)
    requires Holds(s, size, recs)
    ensures Off(recs, 0) == 0 && SizeAt(s, size, 0) == IntAt(s, 0) && INT < size <= |s|
  {}

  /** nval_used. */
  method Used(xb: array<Byte>, size: nat, ghost recs: seq<Rec>) returns (p: nat)
    requires Holds(xb[..], size, recs)
    ensures p == Off(recs, Seen(recs, size)) && p <= size
  {
    hide Holds, HeldAt, IntAt, Plain, Off;
    ghost var s := xb[..];
    ghost var k := 0;
    OffZero(s, size, recs);
    p := 0;
    var sz := IntAt(xb[..], 0);
    ScanStep(s, size, recs, 0);
    while sz > 0 && sz < size && p + sz < size
      invariant k <= Seen(recs, size) && p == Off(recs, k) && sz == SizeAt(s, size, p) && p <= size
      decreases size - p
    {
      ScanStep(s, size, recs, k);
      p := p + sz;
      if p < size - INT { sz := IntAt(xb[..], p); } else { sz := 0; }
      k := k + 1;
      ScanStep(s, size, recs, k);
    }
    ScanStep(s, size, recs, k);
  }

  // ---------- deletion ----------

  function Without(recs: seq<Rec>, name: Bytes): seq<Rec> {
    if recs == [] then []
    else
      var n := |recs| - 1;
      if recs[n].name == name then Without(recs[..n], name) else Without(recs[..n], name) + [recs[n]]
  }

  function Cut(recs: seq<Rec>, k: nat): seq<Rec>
    requires k < |recs|
  {
    recs[..k] + recs[k + 1..]
  }

  lemma {:induction false} WithoutAbsent(recs: seq<Rec>, name: Bytes)
    requires Absent(recs, |recs|, name)
    ensures Without(recs, name) == recs
    decreases |recs|
  {
    if recs != [] {
      var n := |recs| - 1;
      assert recs[n].name != name;
      WithoutAbsent(recs[..n], name);
      assert recs == recs[..n] + [recs[n]];
    }
  }

  lemma {:induction false} WithoutOne(recs: seq<Rec>, k: nat)
    requires Distinct(recs) && k < |recs|
    ensures Without(recs, recs[k].name) == Cut(recs, k)
    decreases |recs|
  {
    var n := |recs| - 1;
    var name := recs[k].name;
    if k == n {
      assert Absent(recs[..n], n, name);
      WithoutAbsent(recs[..n], name);
      assert Cut(recs, k) == recs[..n];
    } else {
      assert recs[n].name != name;
      WithoutOne(recs[..n], k);
      assert Cut(recs, k) == Cut(recs[..n], k) + [recs[n]];
    }
  }

  lemma {:induction false} OffPrefix(a: seq<Rec>, b: seq<Rec>, k: nat)
    requires k <= |a| && k <= |b| && a[..k] == b[..k]
    ensures Off(a, k) == Off(b, k)
    decreases k
  {
    if k > 0 {
      assert a[..k - 1] == a[..k][..k - 1] && b[..k - 1] == b[..k][..k - 1];
      assert a[k - 1] == a[..k][k - 1] && b[k - 1] == b[..k][k - 1];
      OffPrefix(a, b, k - 1);
    }
  }

  lemma {:induction false} OffCut(recs: seq<Rec>, k: nat, j: nat)
    requires k < |recs| && j < |recs|
    ensures Off(Cut(recs, k), j) == if j <= k then Off(recs, j) else Off(recs, j + 1) - RecLen(recs[k])
    decreases j
  {
    if j <= k {
      assert Cut(recs, k)[..j] == recs[..j];
      OffPrefix(Cut(recs, k), recs, j);
    } else {
      OffCut(recs, k, j - 1);
      assert Cut(recs, k)[j - 1] == recs[j];
    }
  }

  /** The buffer after a record of `len` bytes at `p` is shifted out. */
  ghost predicate ShiftedOut(s: Bytes, t: Bytes, size: nat, p: nat, len: nat) {
    && |s| == |t| && p + len <= size <= |s|
    && (forall i :: 0 <= i < p ==> t[i] == s[i])
    && (forall i :: p <= i < size - len ==> t[i] == s[i + len])
    && (forall i :: size - len <= i < size ==> t[i] == 0)
    && forall i :: size <= i < |s| ==> t[i] == s[i]
  }

  lemma HeldBefore(s: Bytes, t: Bytes, size: nat, p: nat, len: nat, q: nat, r: Rec)
    requires ShiftedOut(s, t, size, p, len) && HeldAt(s, q, r) && q + RecLen(r) <= p
    ensures HeldAt(t, q, r)
  {
    assert t[q..q + RecLen(r)] == s[q..q + RecLen(r)];
  }

  lemma HeldAfter(s: Bytes, t: Bytes, size: nat, p: nat, len: nat, q: nat, r: Rec)
    requires ShiftedOut(s, t, size, p, len) && HeldAt(s, q, r) && p + len <= q && q + RecLen(r) <= size
    ensures HeldAt(t, q - len, r)
  {
    assert t[q - len..q - len + RecLen(r)] == s[q..q + RecLen(r)];
  }

  lemma HeldOne(s: Bytes, size: nat, recs: seq<Rec>, k: nat)
    requires Holds(s, size, recs) && k < |recs|
    ensures HeldAt(s, Off(recs, k), recs[k])
    ensures Off(recs, k) + RecLen(recs[k]) == Off(recs, k + 1) <= Off(recs, |recs|) <= size
  {
    assert RecAt(s, recs, k);
    hide HeldAt, Off;
    OffStep(recs, k);
  }

  lemma CutHeld(s: Bytes, t: Bytes, size: nat, recs: seq<Rec>, k: nat, j: nat)
    requires Holds(s, size, recs) && k < |recs| && j < |recs| - 1
    requires ShiftedOut(s, t, size, Off(recs, k), RecLen(recs[k]))
    ensures HeldAt(t, Off(Cut(recs, k), j), Cut(recs, k)[j])
  {
    hide HeldAt, Off, Holds, ShiftedOut;
    OffCut(recs, k, j);
    HeldOne(s, size, recs, k);
    if j < k {
      HeldOne(s, size, recs, j);
      OffOrder(recs, j + 1, k);
      HeldBefore(s, t, size, Off(recs, k), RecLen(recs[k]), Off(recs, j), recs[j]);
    } else {
      HeldOne(s, size, recs, j + 1);
      OffOrder(recs, k + 1, j + 1);
      HeldAfter(s, t, size, Off(recs, k), RecLen(recs[k]), Off(recs, j + 1), recs[j + 1]);
      if j == k { OffCut(recs, k, k); }
    }
  }

  lemma OffOrder(recs: seq<Rec>, k: nat, m: nat)
    requires k <= m <= |recs|
    ensures Off(recs, k) <= Off(recs, m)
  {
    OffGrows(recs, k, m);
  }

  lemma CutDistinct(recs: seq<Rec>, k: nat)
    requires Distinct(recs) && k < |recs|
    ensures Distinct(Cut(recs, k))
  {}

  lemma CutHolds(s: Bytes, t: Bytes, size: nat, recs: seq<Rec>, k: nat)
    requires Holds(s, size, recs) && k < |recs| && ShiftedOut(s, t, size, Off(recs, k), RecLen(recs[k]))
    ensures Holds(t, size, Cut(recs, k)) && Off(Cut(recs, k), |recs| - 1) == Off(recs, |recs|) - RecLen(recs[k])
  {
    hide HeldAt, Off, Distinct;
    var cut := Cut(recs, k);
    CutDistinct(recs, k);
    OffCut(recs, k, |recs| - 1);
    HeldOne(s, size, recs, k);
    forall j | 0 <= j < |cut| ensures HeldAt(t, Off(cut, j), cut[j]) { CutHeld(s, t, size, recs, k, j); }
  }

  method ShiftOut(xb: array<Byte>, size: nat, pos: nat, sz: nat)
    requires pos + sz <= size <= xb.Length
    modifies xb
    ensures ShiftedOut(old(xb[..]), xb[..], size, pos, sz)
  {
    forall i | pos <= i < size - sz { xb[i] := xb[i + sz]; }
    forall i | size - sz <= i < size { xb[i] := 0; }
  }

  lemma ShiftTail(s: Bytes, t: Bytes, size: nat, p: nat, len: nat)
    requires ShiftedOut(s, t, size, p, len)
    ensures |s| == |t| && size <= |s| && s[size..] == t[size..]
  {}

  /** nval_del. */
  method Del(xb: array<Byte>, size: nat, name: Bytes, ghost recs: seq<Rec>) returns (r: int, ghost left: seq<Rec>)
    requires Holds(xb[..], size, recs) && Plain(name)
    modifies xb
    ensures Holds(xb[..], size, left) && xb[size..] == old(xb[size..])
    ensures if Absent(recs, Seen(recs, size), name) then r == -ENODATA && left == recs && xb[..] == old(xb[..])
            else r == 0 && left == Without(recs, name)
  {
    hide Holds, HeldAt, IntAt, Plain, Off, Distinct, Without, Cut, ShiftedOut;
    ghost var s := xb[..];
    var pos, len, k := Find(xb, size, name, recs);
    Bounds(s, size, recs);
    if pos < 0 || pos >= size {
      if pos >= 0 { HeldOne(s, size, recs, k); }
      return -ENODATA, recs;
    }
    HeldOne(s, size, recs, k);
    RecSize(s, pos, recs[k]);
    var sz := IntAt(xb[..], pos);
    ShiftOut(xb, size, pos, sz);
    CutHolds(s, xb[..], size, recs, k);
    FoundName(s, size, recs, k);
    ShiftTail(s, xb[..], size, pos, sz);
    r, left := 0, Without(recs, name);
  }

  lemma Bounds(s: Bytes, size: nat, recs: seq<Rec>)
    requires Holds(s, size, recs)
    ensures INT < size <= |s| && size < 0x4000_0000 && Distinct(recs) && Off(recs, |recs|) <= size
  {}

  lemma FoundName(s: Bytes, size: nat, recs: seq<Rec>, k: nat)
    requires Holds(s, size, recs) && k < Seen(recs, size)
    ensures Without(recs, recs[k].name) == Cut(recs, k) && !Absent(recs, Seen(recs, size), recs[k].name)
  {
    WithoutOne(recs, k);
  }

  // ---------- setting ----------

  /** The buffer after record `r` is written at `p`, zeros following for the length of an int. */
  ghost predicate Written(s: Bytes, t: Bytes, p: nat, r: Rec) {
    && |s| == |t| && p + RecLen(r) + INT <= |s| && RecLen(r) < 0x4000_0000
    && (forall i :: 0 <= i < p ==> t[i] == s[i]) && t[p..p + RecLen(r)] == Packed(r)
    && (forall i :: p + RecLen(r) <= i < p + RecLen(r) + INT ==> t[i] == 0)
    && forall i :: p + RecLen(r) + INT <= i < |s| ==> t[i] == s[i]
  }

  /** The three copies of nval_set.  Copying the name pads with zeros for as many bytes as the
    whole record has, which is INT bytes too many. */
  method WriteRec(xb: array<Byte>, start: nat, name: Bytes, value: Bytes)
    requires start + RecLen(Rec(name, value)) + INT <= xb.Length && RecLen(Rec(name, value)) < 0x4000_0000
    modifies xb
    ensures Written(old(xb[..]), xb[..], start, Rec(name, value))
  {
    hide IntBytes, Packed;
    var recLen := RecLen(Rec(name, value));
    var size := IntBytes(recLen);
    forall i | 0 <= i < INT { xb[start + i] := size[i]; }
    var pos := start + INT;
    forall i | 0 <= i < recLen { xb[pos + i] := if i < |name| then name[i] else 0; }
    pos := pos + |name| + 1;
    forall i | 0 <= i < |value| { xb[pos + i] := value[i]; }
    PackedAt(xb[..], start, Rec(name, value));
  }

  lemma PackedAt(t: Bytes, p: nat, r: Rec)
    requires p + RecLen(r) <= |t| && RecLen(r) < 0x4000_0000
    requires forall i :: 0 <= i < INT ==> t[p + i] == IntBytes(RecLen(r))[i]
    requires forall i :: 0 <= i < |r.name| ==> t[p + INT + i] == r.name[i]
    requires t[p + INT + |r.name|] == 0
    requires forall i :: 0 <= i < |r.value| ==> t[p + INT + |r.name| + 1 + i] == r.value[i]
    ensures t[p..p + RecLen(r)] == Packed(r)
  {
    hide IntBytes;
    var u := Packed(r);
    forall i | 0 <= i < RecLen(r) ensures t[p + i] == u[i] {
      if INT <= i < INT + |r.name| {
        assert t[p + INT + (i - INT)] == r.name[i - INT];
      } else if i > INT + |r.name| {
        assert t[p + INT + |r.name| + 1 + (i - (INT + |r.name| + 1))] == r.value[i - (INT + |r.name| + 1)];
      }
    }
  }

  lemma Append(s: Bytes, t: Bytes, size: nat, recs: seq<Rec>, r: Rec)
    requires Laid(s, recs) && Written(s, t, Off(recs, |recs|), r) && INT < size <= |s| && size < 0x4000_0000
    requires Plain(r.name) && Absent(recs, |recs|, r.name)
    ensures Laid(t, recs + [r]) && Off(recs + [r], |recs| + 1) == Off(recs, |recs|) + RecLen(r)
    ensures Off(recs, |recs|) + RecLen(r) <= size ==> Holds(t, size, recs + [r])
  {
    hide HeldAt, Off, Distinct, Plain, Packed;
    var all := recs + [r];
    var n := |recs|;
    forall k | 0 <= k <= n ensures Off(all, k) == Off(recs, k) {
      assert all[..k] == recs[..k];
      OffPrefix(all, recs, k);
    }
    OffStep(all, n);
    MoreDistinct(recs, r);
    HeldIs(t, Off(recs, n), r);
    forall k | 0 <= k < n ensures HeldAt(t, Off(all, k), all[k]) {
      assert RecAt(s, recs, k);
      OffStep(recs, k);
      StillHeld(s, t, Off(recs, n), r, Off(recs, k), recs[k]);
    }
  }

  lemma HeldIs(t: Bytes, p: nat, r: Rec)
    requires p + RecLen(r) <= |t| && RecLen(r) < 0x4000_0000 && t[p..p + RecLen(r)] == Packed(r)
    ensures HeldAt(t, p, r)
  {}

  lemma StillHeld(s: Bytes, t: Bytes, p: nat, r: Rec, q: nat, old_: Rec)
    requires Written(s, t, p, r) && HeldAt(s, q, old_) && q + RecLen(old_) <= p
    ensures HeldAt(t, q, old_)
  {
    assert t[q..q + RecLen(old_)] == s[q..q + RecLen(old_)];
  }

  lemma MoreDistinct(recs: seq<Rec>, r: Rec)
    requires Distinct(recs) && Plain(r.name) && Absent(recs, |recs|, r.name)
    ensures Distinct(recs + [r])
  {}

  function Existing(recs: seq<Rec>, name: Bytes): nat {
    if recs == [] then 0
    else if recs[|recs| - 1].name == name then RecLen(recs[|recs| - 1])
    else Existing(recs[..|recs| - 1], name)
  }

  lemma {:induction false} ExistingIs(recs: seq<Rec>, k: nat)
    requires Distinct(recs) && k < |recs|
    ensures Existing(recs, recs[k].name) == RecLen(recs[k]) > 0
    decreases |recs|
  {
    if k < |recs| - 1 {
      assert recs[|recs| - 1].name != recs[k].name;
      ExistingIs(recs[..|recs| - 1], k);
    }
  }

  lemma {:induction false} ExistingNone(recs: seq<Rec>, name: Bytes)
    requires Absent(recs, |recs|, name)
    ensures Existing(recs, name) == 0
    decreases |recs|
  {
    if recs != [] {
      assert recs[|recs| - 1].name != name;
      ExistingNone(recs[..|recs| - 1], name);
    }
  }

  /** The records that stay when `name` is set: the one of that name is shifted out, and with it
    a hidden record comes back; otherwise the new record goes where a hidden one begins. */
  function Staying(recs: seq<Rec>, size: nat, name: Bytes): seq<Rec> {
    if Existing(Shown(recs, size), name) > 0 then Without(recs, name) else Shown(recs, size)
  }

  function SetResult(recs: seq<Rec>, size: nat, r: Rec, create: bool, replace: bool): int {
    var there := Existing(Shown(recs, size), r.name);
    if create && there > 0 then -EEXIST
    else if replace && there == 0 then -ENODATA
    else if RecLen(r) > size - Off(recs, Seen(recs, size)) + there then -ENOSPC
    else 0
  }

  /** The room is reckoned without a record hidden at the end of the buffer, which a shift brings back. */
  predicate RoomReckoned(recs: seq<Rec>, size: nat, r: Rec) {
    var there := Existing(Shown(recs, size), r.name);
    Seen(recs, size) == |recs| || there == 0 || RecLen(r) <= there
  }

  /** The bytes behind the records seen, and those of the record of that name, if one is seen. */
  function Room(recs: seq<Rec>, size: nat, name: Bytes): int {
    size - Off(recs, Seen(recs, size)) +
    match Visible(recs, size, name) case None => 0 case Some(v) => RecLen(Rec(name, v))
  }

  lemma ExistingVisible(recs: seq<Rec>, size: nat, name: Bytes)
    ensures Existing(Shown(recs, size), name) ==
              match Visible(recs, size, name) case None => 0 case Some(v) => RecLen(Rec(name, v))
  {
    var shown := Shown(recs, size);
    ExistingValue(shown, name);
    assert shown[..|shown|] == recs[..|shown|];
    ValueSame(shown, recs, |shown|, name);
  }

  /** nval_set.  Whatever it writes has to be in memory. */
  method Set(xb: array<Byte>, size: nat, name: Bytes, value: Bytes, create: bool, replace: bool, ghost recs: seq<Rec>)
    returns (r: int, ghost recs': seq<Rec>)
    requires Holds(xb[..], size, recs) && Plain(name)
    requires var stay := Staying(recs, size, name);
             SetResult(recs, size, Rec(name, value), create, replace) == 0 ==>
               Off(stay, |stay|) + RecLen(Rec(name, value)) + INT <= xb.Length
    modifies xb
    ensures r == SetResult(recs, size, Rec(name, value), create, replace)
    // the verdict by what nval_get would find before
    ensures create && Visible(recs, size, name) != None ==> r == -EEXIST
    ensures replace && Visible(recs, size, name) == None ==> r == -ENODATA
    ensures (create ==> Visible(recs, size, name) == None) && (replace ==> Visible(recs, size, name) != None) ==>
              if RecLen(Rec(name, value)) <= Room(recs, size, name) then r == 0 else r == -ENOSPC
    ensures r == 0 ==> recs' == Staying(recs, size, name) + [Rec(name, value)] && Laid(xb[..], recs')
    ensures r == 0 ==> (Off(recs', |recs'|) <= size <==> RoomReckoned(recs, size, Rec(name, value)))
    ensures r == 0 && RoomReckoned(recs, size, Rec(name, value)) ==> Holds(xb[..], size, recs')
    ensures r != 0 ==> recs' == recs && xb[..] == old(xb[..])
    // nothing past the buffer is touched if an int's worth of room is left
    ensures r == 0 && Off(recs', |recs'|) + INT <= size ==> xb[size..] == old(xb[size..])
  {
    hide Holds, HeldAt, IntAt, Plain, Off, Distinct, Without, Cut, ShiftedOut, Existing, Written, Laid, Shown, Seen;
    hide Visible;
    ghost var s := xb[..];
    Bounds(s, size, recs);
    var nameLen := if |name| <= size then |name| else size;
    var pos, sizeExist, k := Find(xb, size, name, recs);
    Sought(s, size, recs, name, k, pos);
    ExistingVisible(recs, size, name);
    r, recs' := 0, recs;
    if create && pos >= 0 { return -EEXIST, recs; }
    if replace && pos < 0 { return -ENODATA, recs; }
    var start := Used(xb, size, recs);
    var space := size - start + sizeExist;
    var recLen := INT + nameLen + 1 + |value|;
    if recLen > space { return -ENOSPC, recs; }
    if pos >= 0 {
      var gone;
      gone, recs' := Del(xb, size, name, recs);
      AfterDel(s, xb[..], size, recs, k);
      start := Used(xb, size, recs');
    } else {
      recs' := Shown(recs, size);
      OnlyShown(s, size, recs, name);
    }
    ghost var s1 := xb[..];
    WriteRec(xb, start, name, value);
    Append(s1, xb[..], size, recs', Rec(name, value));
    WrittenTail(s1, xb[..], start, Rec(name, value), size);
    recs' := recs' + [Rec(name, value)];
  }

  /** Where the reckoning is off: two records fill the buffer, so that the second is not seen;
    the first, set to a value one byte longer, is taken to fit and ends up past the end. */
  lemma RoomMisreckoned()
    ensures var recs, r := [Rec([1], []), Rec([2], [0, 0, 0, 0])], Rec([1], [7]);
            var s := Packed(recs[0]) + Packed(recs[1]);
            var stay := Staying(recs, 16, [1]);
            Holds(s, 16, recs) && SetResult(recs, 16, r, false, false) == 0 && Off(stay, |stay|) + RecLen(r) == 17
  {
    var recs := [Rec([1], []), Rec([2], [0, 0, 0, 0])];
    var s := Packed(recs[0]) + Packed(recs[1]);
    assert Off(recs, 0) == 0 && Off(recs, 1) == 6 && Off(recs, 2) == 16;
    assert RecAt(s, recs, 0) && RecAt(s, recs, 1);
    assert Shown(recs, 16) == [recs[0]];
    WithoutOne(recs, 0);
    assert Cut(recs, 0) == [recs[1]];
  }

  lemma SeenAll(recs: seq<Rec>, size: nat)
    requires Off(recs, |recs|) < size
    ensures Seen(recs, size) == |recs|
  {}

  /** What the search says about the records seen. */
  lemma Sought(s: Bytes, size: nat, recs: seq<Rec>, name: Bytes, k: nat, pos: int)
    requires Holds(s, size, recs)
    requires if pos < 0 then Absent(recs, Seen(recs, size), name) else k < Seen(recs, size) && IsAt(recs, k, name)
    ensures Off(recs, Seen(recs, size)) <= Off(recs, |recs|) <= size
    ensures Off(recs, |recs|) == if Seen(recs, size) == |recs| then Off(recs, Seen(recs, size)) else size
    ensures if pos < 0 then Existing(Shown(recs, size), name) == 0
            else Existing(Shown(recs, size), name) == RecLen(recs[k]) > 0 &&
                 RecLen(recs[k]) <= Off(recs, Seen(recs, size))
  {
    var shown := Shown(recs, size);
    OffOrder(recs, Seen(recs, size), |recs|);
    if pos < 0 {
      ExistingNone(shown, name);
    } else {
      ExistingIs(shown, k);
      HeldOne(s, size, recs, k);
      OffOrder(recs, k + 1, Seen(recs, size));
    }
  }

  lemma OnlyShown(s: Bytes, size: nat, recs: seq<Rec>, name: Bytes)
    requires Holds(s, size, recs) && Absent(recs, Seen(recs, size), name)
    ensures var shown := Shown(recs, size);
            Laid(s, shown) && Absent(shown, |shown|, name) && Off(shown, |shown|) == Off(recs, Seen(recs, size))
  {
    hide HeldAt, Off;
    var shown := Shown(recs, size);
    forall k | 0 <= k <= |shown| ensures Off(shown, k) == Off(recs, k) {
      assert shown[..k] == recs[..k];
      OffPrefix(shown, recs, k);
    }
    forall k | 0 <= k < |shown| ensures RecAt(s, shown, k) { assert RecAt(s, recs, k); }
  }

  lemma AfterDel(s: Bytes, t: Bytes, size: nat, recs: seq<Rec>, k: nat)
    requires Holds(s, size, recs) && k < Seen(recs, size)
    requires Holds(t, size, Without(recs, recs[k].name))
    ensures var cut := Without(recs, recs[k].name);
            && Off(cut, |cut|) == Off(recs, |recs|) - RecLen(recs[k]) && Seen(cut, size) == |cut|
            && Absent(cut, |cut|, recs[k].name) && Laid(t, cut)
    ensures !Absent(recs, Seen(recs, size), recs[k].name)
  {
    hide HeldAt, Off, Cut;
    FoundName(s, size, recs, k);
    CutSize(s, size, recs, k);
    CutAbsent(recs, k);
  }

  lemma CutSize(s: Bytes, size: nat, recs: seq<Rec>, k: nat)
    requires Holds(s, size, recs) && k < |recs|
    ensures var cut := Cut(recs, k);
            |cut| == |recs| - 1 && Off(cut, |cut|) == Off(recs, |recs|) - RecLen(recs[k]) && Seen(cut, size) == |cut|
  {
    hide Holds, HeldAt, Off, Distinct;
    OffCut(recs, k, |recs| - 1);
    HeldOne(s, size, recs, k);
    SeenAll(Cut(recs, k), size);
  }

  lemma CutAbsent(recs: seq<Rec>, k: nat)
    requires Distinct(recs) && k < |recs|
    ensures Absent(Cut(recs, k), |recs| - 1, recs[k].name) && !Absent(recs, |recs|, recs[k].name)
  {
    var cut := Cut(recs, k);
    forall j | 0 <= j < |cut| ensures cut[j].name != recs[k].name {
      assert cut[j] == recs[if j < k then j else j + 1];
    }
  }

  lemma WrittenTail(s: Bytes, t: Bytes, p: nat, r: Rec, size: nat)
    requires Written(s, t, p, r) && size <= |s|
    ensures p + RecLen(r) + INT <= size ==> s[size..] == t[size..]
  {}

  // ---------- reading ----------

  /** nval_get.  With no room given it is a query for the size. */
  method Get(xb: array<Byte>, size: nat, name: Bytes, buf: array<Byte>, bsize: nat, ghost recs: seq<Rec>)
      returns (r: int, ghost k: nat)
    requires Holds(xb[..], size, recs) && Plain(name) && bsize <= buf.Length && buf != xb
    modifies buf
    ensures if Absent(recs, Seen(recs, size), name) then r == -ENODATA && buf[..] == old(buf[..])
            else && k < Seen(recs, size) && IsAt(recs, k, name)
                 && var v := recs[k].value;
                    if bsize == 0 then r == |v| && buf[..] == old(buf[..])
                    else if |v| <= bsize then r == |v| && buf[..] == v + old(buf[..])[|v|..]
                    else r == -ERANGE && buf[..] == old(buf[..])
  {
    hide Holds, HeldAt, IntAt, Plain, Off, Distinct;
    ghost var s := xb[..];
    Bounds(s, size, recs);
    var pos, len;
    pos, len, k := Find(xb, size, name, recs);
    if pos < 0 { return -ENODATA, k; }
    HeldOne(s, size, recs, k);
    ghost var rec := recs[k];
    ghost var start := pos;
    RecSize(s, pos, rec);
    HeldParts(s, pos, rec);
    PlainName(s, size, recs, k);
    if pos < size {
      var sz := IntAt(xb[..], pos);
      pos := pos + INT;
      sz := sz - INT;
      ghost var j := 0;
      while xb[pos] != 0 && sz > 0 && pos < size
        invariant 0 <= j <= |rec.name| && pos == start + INT + j && sz == RecLen(rec) - INT - j && xb[..] == s
        decreases sz
      {
        assert s[start + INT + |rec.name|] == 0;
        pos := pos + 1;
        sz := sz - 1;
        j := j + 1;
      }
      AtNul(s, start, rec, j);
      pos := pos + 1;
      sz := sz - 1;
      if bsize == 0 { return sz, k; }
      if sz <= bsize {
        forall i | 0 <= i < sz { buf[i] := xb[pos + i]; }
        assert s[pos..pos + sz] == rec.value;
        return sz, k;
      }
    }
    return -ERANGE, k;
  }

  lemma PlainName(s: Bytes, size: nat, recs: seq<Rec>, k: nat)
    requires Holds(s, size, recs) && k < |recs|
    ensures Plain(recs[k].name) && Off(recs, k) + RecLen(recs[k]) <= size
  {
    hide Off;
    HeldOne(s, size, recs, k);
  }

  lemma AtNul(s: Bytes, p: nat, r: Rec, j: nat)
    requires HeldAt(s, p, r) && Plain(r.name) && j <= |r.name| && p + INT + j < |s| && s[p + INT + j] == 0
    ensures j == |r.name|
  {
    HeldParts(s, p, r);
    var held := s[p + INT..p + INT + |r.name|];
    assert forall i :: 0 <= i < |held| ==> s[p + INT + i] == held[i];
  }

  /** The first `m` names, each with its NUL. */
  function NamesOf(recs: seq<Rec>, m: nat): Bytes
    requires m <= |recs|
  {
    if m == 0 then [] else NamesOf(recs, m - 1) + recs[m - 1].name + [0]
  }

  /** strnlen. */
  function StrnLen(s: Bytes, at: nat, n: nat): nat
    decreases n
  {
    if n == 0 || at >= |s| || s[at] == 0 then 0 else 1 + StrnLen(s, at + 1, n - 1)
  }

  lemma {:induction false} NameLen(s: Bytes, at: nat, name: Bytes, n: nat)
    requires at + |name| < |s| && s[at..at + |name|] == name && s[at + |name|] == 0 && Plain(name) && n > |name|
    ensures StrnLen(s, at, n) == |name|
    decreases |name|
  {
    if name != [] {
      assert s[at] == name[0] && s[at + 1..at + 1 + |name[1..]|] == name[1..];
      NameLen(s, at + 1, name[1..], n - 1);
    }
  }

  /** nval_list: the names seen, up to the first that does not fit. */
  method List(xb: array<Byte>, size: nat, buf: array<Byte>, bsize: nat, ghost recs: seq<Rec>)
      returns (ncopied: nat, ghost m: nat)
    requires Holds(xb[..], size, recs) && bsize <= buf.Length && buf != xb
    modifies buf
    ensures m <= Seen(recs, size) && ncopied == |NamesOf(recs, m)| <= buf.Length && buf[..ncopied] == NamesOf(recs, m)
    ensures m < Seen(recs, size) ==> |NamesOf(recs, m + 1)| >= bsize
    ensures m > 0 ==> |NamesOf(recs, m)| < bsize
  {
    hide Holds, HeldAt, IntAt, Plain, Off, Distinct, NamesOf, StrnLen;
    ghost var s := xb[..];
    m := 0;
    ghost var k := 0;
    OffZero(s, size, recs);
    NamesNone(recs);
    ncopied := 0;
    var filled := false;
    var pos := 0;
    var sz := IntAt(xb[..], 0);
    ScanStep(s, size, recs, 0);
    while sz > INT && sz <= size && pos + sz < size && !filled
      invariant k <= Seen(recs, size) && pos == Off(recs, k) && sz == SizeAt(s, size, pos) && pos <= size && xb[..] == s
      invariant m <= k && ncopied == |NamesOf(recs, m)| <= buf.Length && buf[..ncopied] == NamesOf(recs, m)
      invariant !filled ==> m == k
      invariant filled ==> m < Seen(recs, size) && |NamesOf(recs, m + 1)| >= bsize
      invariant m > 0 ==> |NamesOf(recs, m)| < bsize
      decreases size - pos
    {
      ScanStep(s, size, recs, k);
      ghost var rec := recs[k];
      HeldParts(s, pos, rec);
      pos := pos + INT;
      sz := sz - INT;
      NameLen(s, pos, rec.name, sz);
      var nameLen := StrnLen(xb[..], pos, sz);
      NamesMore(recs, m);
      if ncopied + nameLen + 1 < bsize {
        CopyName(xb, pos, nameLen, buf, ncopied);
        ncopied := ncopied + nameLen + 1;
        m := m + 1;
      } else {
        filled := true;
      }
      pos := pos + sz;
      if pos < size - INT { sz := IntAt(xb[..], pos); } else { sz := 0; }
      k := k + 1;
      ScanStep(s, size, recs, k);
    }
    ScanStep(s, size, recs, k);
  }

  method CopyName(xb: array<Byte>, pos: nat, len: nat, buf: array<Byte>, at: nat)
    requires pos + len <= xb.Length && at + len + 1 <= buf.Length && buf != xb
    modifies buf
    ensures buf[..at + len + 1] == old(buf[..at]) + xb[pos..pos + len] + [0] && xb[..] == old(xb[..])
  {
    forall i | 0 <= i < len { buf[at + i] := xb[pos + i]; }
    buf[at + len] := 0;
  }

  lemma NamesNone(recs: seq<Rec>)
    ensures NamesOf(recs, 0) == []
  {}

  lemma NamesMore(recs: seq<Rec>, m: nat)
    requires m < |recs|
    ensures NamesOf(recs, m + 1) == NamesOf(recs, m) + recs[m].name + [0]
  {}

  // ---------- the buffer as a map ----------

  function ValueIn(recs: seq<Rec>, n: nat, name: Bytes): (v: Option)
    requires n <= |recs|
  {
    if n == 0 then None else if recs[n - 1].name == name then Some(recs[n - 1].value) else ValueIn(recs, n - 1, name)
  }

  datatype Option = None | Some(value: Bytes)

  /** What nval_get finds. */
  function Visible(recs: seq<Rec>, size: nat, name: Bytes): Option { ValueIn(recs, Seen(recs, size), name) }

  lemma {:induction false} ValueSame(a: seq<Rec>, b: seq<Rec>, n: nat, name: Bytes)
    requires n <= |a| && n <= |b| && a[..n] == b[..n]
    ensures ValueIn(a, n, name) == ValueIn(b, n, name)
    decreases n
  {
    if n > 0 {
      assert a[n - 1] == a[..n][n - 1] && b[n - 1] == b[..n][n - 1] && a[..n - 1] == a[..n][..n - 1] &&
      b[..n - 1] == b[..n][..n - 1];
      ValueSame(a, b, n - 1, name);
    }
  }

  lemma {:induction false} ValueWithout(recs: seq<Rec>, name: Bytes, other: Bytes)
    ensures var w := Without(recs, name);
            ValueIn(w, |w|, other) == if other == name then None else ValueIn(recs, |recs|, other)
    decreases |recs|
  {
    if recs != [] {
      var n := |recs| - 1;
      var w := Without(recs[..n], name);
      ValueWithout(recs[..n], name, other);
      ValueSame(recs, recs[..n], n, other);
      if recs[n].name != name {
        assert (w + [recs[n]])[..|w|] == w[..|w|];
        ValueSame(w + [recs[n]], w, |w|, other);
      }
    }
  }

  lemma {:induction false} ExistingValue(recs: seq<Rec>, name: Bytes)
    ensures Existing(recs, name) ==
              match ValueIn(recs, |recs|, name) case None => 0 case Some(v) => RecLen(Rec(name, v))
    decreases |recs|
  {
    if recs != [] {
      var n := |recs| - 1;
      ExistingValue(recs[..n], name);
      ValueSame(recs, recs[..n], n, name);
    }
  }

  /** Setting a name leaves every other name its value, but a record hidden at the end of the buffer
    comes back if the name was there and is lost if it was not; the name itself has the new value if
    and only if the record stops short of the end of the buffer. */
  lemma SetThenGetExact(recs: seq<Rec>, size: nat, name: Bytes, value: Bytes, other: Bytes)
    requires Off(recs, |recs|) <= size
    ensures var recs' := Staying(recs, size, name) + [Rec(name, value)];
            && (other != name ==> Visible(recs', size, other) ==
                                  if Visible(recs, size, name) == None then Visible(recs, size, other)
                                  else ValueIn(recs, |recs|, other))
            && (Visible(recs', size, name) == Some(value) <==> Off(recs', |recs'|) < size)
  {
    hide Off, Without;
    var stay := Staying(recs, size, name);
    var shown := Shown(recs, size);
    var recs' := stay + [Rec(name, value)];
    ValueWithout(recs, name, other);
    ValueWithout(recs, name, name);
    ExistingValue(shown, name);
    assert shown[..|shown|] == recs[..|shown|] && recs'[..|stay|] == stay[..|stay|];
    ValueSame(shown, recs, |shown|, name);
    ValueSame(shown, recs, |shown|, other);
    ValueSame(recs', stay, |stay|, other);
    ValueSame(recs', stay, |stay|, name);
  }

  /** Deleting removes one name and, if a record was hidden at the end of the buffer, shows it again. */
  lemma DelRemovesOne(recs: seq<Rec>, size: nat, name: Bytes, other: Bytes)
    requires Distinct(recs) && Off(recs, |recs|) <= size && !Absent(recs, Seen(recs, size), name)
    ensures var left := Without(recs, name);
            && Visible(left, size, name) == None
            && (other != name ==> Visible(left, size, other) == ValueIn(recs, |recs|, other))
            && (Off(recs, |recs|) < size && other != name ==> Visible(left, size, other) == Visible(recs, size, other))
  {
    var k :| 0 <= k < Seen(recs, size) && recs[k].name == name;
    WithoutOne(recs, k);
    OffCut(recs, k, |recs| - 1);
    OffStep(recs, k);
    hide Off, Without;
    ValueWithout(recs, name, other);
    ValueWithout(recs, name, name);
    SeenAll(Cut(recs, k), size);
  }
}
