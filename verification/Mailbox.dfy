/** The lwIP mailbox: a ring of messages between any number of posters and fetchers.

  A post and a fetch are three atomic steps each: take a semaphore, change the ring with the
  scheduler locked, give the other semaphore.  A run is any interleaving of the steps of any
  number of threads; every step is a method that keeps `Valid`. */
module Mailbox {

  /** Where a thread is between two of its steps. */
  datatype Pc<T> =
    | Outside                    // not in a mailbox call
    | Inserting(m: T)            // a poster past the free_msg semaphore
    | Announcing                 // a poster that has inserted, before signalling queued_msg
    | Taking                     // a fetcher past the queued_msg semaphore
    | Freeing                    // a fetcher that has its message, before signalling free_msg

  datatype Kind = AtOutside | AtInserting | AtAnnouncing | AtTaking | AtFreeing

  function KindOf<T>(p: Pc<T>): Kind {
    match p
    case Outside => AtOutside
    case Inserting(_) => AtInserting
    case Announcing => AtAnnouncing
    case Taking => AtTaking
    case Freeing => AtFreeing
  }

  function Threads<T>(pc: map<nat, Pc<T>>, k: Kind): set<nat> {
    set t | t in pc && KindOf(pc[t]) == k
  }

  function PcOf<T>(pc: map<nat, Pc<T>>, t: nat): Pc<T> {
    if t in pc then pc[t] else Outside
  }

  /** One thread moving from one point to another changes exactly two head counts. */
  lemma Moved<T>(pc: map<nat, Pc<T>>, t: nat, p: Pc<T>, k: Kind)
    requires KindOf(p) != KindOf(PcOf(pc, t))
    ensures k != AtOutside ==>
              |Threads(pc[t := p], k)| == |Threads(pc, k)| + (if k == KindOf(p) then 1 else 0)
                                                           - (if k == KindOf(PcOf(pc, t)) then 1 else 0)
    ensures k == KindOf(PcOf(pc, t)) && k != AtOutside ==> |Threads(pc, k)| >= 1
  {
    if k != AtOutside {
      var a, b := Threads(pc, k), Threads(pc[t := p], k);
      if k == KindOf(p) {
        assert t !in a && b == a + {t};
      } else if k == KindOf(PcOf(pc, t)) {
        assert t in a && b == a - {t};
      } else {
        assert b == a;
      }
    }
  }

  /** Slot `i` places after slot `h` of a ring of `n`. */
  function Slot(h: nat, i: nat, n: nat): nat
    requires h < n && i <= n
  {
    if h + i < n then h + i else h + i - n
  }

  lemma SlotNext(h: nat, n: nat)
    requires h < n
    ensures (h + 1) % n == Slot(h, 1, n)
  {
    if h + 1 == n {
      assert n % n == 0;
    }
  }

  /** The `k` messages in the ring, oldest first. */
  function InRing<T>(msg: seq<T>, h: nat, k: nat): (r: seq<T>)
    requires h < |msg| && k <= |msg|
    ensures |r| == k
  {
    seq(k, i requires 0 <= i < k => msg[Slot(h, i, |msg|)])
  }

  /** The ring holds, oldest first, what was posted and not yet fetched. */
  ghost predicate Ring<T>(s: seq<T>, head: int, nextq: nat, posted: seq<T>, fetched: seq<T>) {
    && nextq < |s| && -1 <= head < |s|
    && |fetched| <= |posted| <= |fetched| + |s|
    && (head == -1 <==> |posted| == |fetched|)
    && (head >= 0 ==>
        nextq == Slot(head, |posted| - |fetched|, |s|) && posted == fetched + InRing(s, head, |posted| - |fetched|))
    && (head == -1 ==> posted == fetched)
  }

  lemma RingPut<T>(s: seq<T>, head: int, nextq: nat, posted: seq<T>, fetched: seq<T>, m: T)
    requires Ring(s, head, nextq, posted, fetched) && |posted| < |fetched| + |s|
    ensures Ring(s[nextq := m], if head == -1 then nextq else head, (nextq + 1) % |s|, posted + [m], fetched)
  {
    var k := |posted| - |fetched|;
    var s' := s[nextq := m];
    SlotNext(nextq, |s|);
    if head == -1 {
      assert InRing(s', nextq, 1) == [m];
    } else {
      assert InRing(s', head, k + 1) == InRing(s, head, k) + [m];
    }
  }

  lemma RingGet<T>(s: seq<T>, head: int, nextq: nat, posted: seq<T>, fetched: seq<T>)
    requires Ring(s, head, nextq, posted, fetched) && |fetched| < |posted|
    ensures 0 <= head < |s| && s[head] == posted[|fetched|]
    ensures var next := (head + 1) % |s|;
            Ring(s, if next == nextq then -1 else next, nextq, posted, fetched + [s[head]])
  {
    var k := |posted| - |fetched|;
    SlotNext(head, |s|);
    assert InRing(s, head, k)[0] == s[head];
    if k > 1 {
      assert InRing(s, Slot(head, 1, |s|), k - 1) == InRing(s, head, k)[1..];
    }
  }

  class Mbox<T(0)> {
    const slots: nat                 // MBOXSLOTS
    const msg: array<T>
    var head: int                    // slot of the oldest message, or -1
    var nextq: nat                   // slot the next message goes to
    var queuedMsg: nat               // count of the semaphore fetchers wait on
    var freeMsg: nat                 // count of the semaphore posters wait on
    var pc: map<nat, Pc<T>>
    /** Messages in the order in which they entered the ring, and in which they left it. */
    ghost var posted: seq<T>
    ghost var fetched: seq<T>

    ghost function InUse(): nat
      reads this
    {
      if |posted| >= |fetched| then |posted| - |fetched| else 0
    }

    ghost predicate RingOk()
      reads this, msg
    {
      msg.Length == slots > 0 && Ring(msg[..], head, nextq, posted, fetched)
    }

    /** Every slot is accounted for by the free semaphore, a poster about to fill it, the ring,
      or a fetcher about to free it; every message in the ring by the queue semaphore, a
      poster about to announce it, or a fetcher about to take it. */
    ghost predicate CountsOk()
      reads this
    {
      && freeMsg + |Threads(pc, AtInserting)| + InUse() + |Threads(pc, AtFreeing)| == slots
      && queuedMsg + |Threads(pc, AtAnnouncing)| + |Threads(pc, AtTaking)| == InUse()
    }

    ghost predicate Valid()
      reads this, msg
    {
      RingOk() && CountsOk()
    }

    /** sys_mbox_new. */
    constructor (n: nat)
      requires n > 0
      ensures Valid() && slots == n && posted == [] && fetched == [] && pc == map[] && fresh(msg)
    {
      slots, msg := n, new T[n];
      head, nextq, queuedMsg, freeMsg, pc := -1, 0, 0, n, map[];
      posted, fetched := [], [];
      new;
      assert Threads(pc, AtInserting) == {} && Threads(pc, AtFreeing) == {};
      assert Threads(pc, AtAnnouncing) == {} && Threads(pc, AtTaking) == {};
    }

    /** First step of sys_mbox_post: the wait on free_msg ends only when its count allows. */
    method AcquireFree(t: nat, m: T)
      requires Valid() && PcOf(pc, t) == Outside && freeMsg > 0
      modifies this
      ensures Valid() && posted == old(posted) && fetched == old(fetched)
      ensures pc == old(pc)[t := Inserting(m)] && freeMsg == old(freeMsg) - 1 && queuedMsg == old(queuedMsg)
    {
      MoveCounts(pc, t, Inserting(m));
      freeMsg := freeMsg - 1;
      pc := pc[t := Inserting(m)];
    }

    /** First step of sys_mbox_trypost: never waits; false means ERR_MEM. */
    method TryAcquireFree(t: nat, m: T) returns (ok: bool)
      requires Valid() && PcOf(pc, t) == Outside
      modifies this
      ensures Valid() && posted == old(posted) && fetched == old(fetched) && ok == (old(freeMsg) > 0)
      ensures pc == if ok then old(pc)[t := Inserting(m)] else old(pc)
    {
      ok := freeMsg > 0;
      if ok { AcquireFree(t, m); }
    }

    /** The critical section of a post.  The slot written holds no message that is still in the
      ring. */
    method Insert(t: nat)
      requires Valid() && PcOf(pc, t).Inserting?
      modifies this, msg
      ensures Valid() && posted == old(posted) + [PcOf(old(pc), t).m] && fetched == old(fetched)
      ensures pc == old(pc)[t := Announcing] && freeMsg == old(freeMsg) && queuedMsg == old(queuedMsg)
    {
      var m := PcOf(pc, t).m;
      hide Ring;
      MoveCounts(pc, t, Announcing);
      RingPut(msg[..], head, nextq, posted, fetched, m);
      var slot := nextq;
      nextq := (slot + 1) % slots;
      msg[slot] := m;
      if head == -1 { head := slot; }
      pc := pc[t := Announcing];
      posted := posted + [m];
    }

    /** Last step of a post: signal queued_msg. */
    method Announce(t: nat)
      requires Valid() && PcOf(pc, t).Announcing?
      modifies this
      ensures Valid() && posted == old(posted) && fetched == old(fetched)
      ensures pc == old(pc)[t := Outside] && queuedMsg == old(queuedMsg) + 1 && freeMsg == old(freeMsg)
    {
      MoveCounts(pc, t, Outside);
      pc := pc[t := Outside];
      queuedMsg := queuedMsg + 1;
    }

    /** First step of sys_arch_mbox_fetch: false means that the wait timed out. */
    method AcquireQueued(t: nat, timedOut: bool) returns (ok: bool)
      requires Valid() && PcOf(pc, t) == Outside && (queuedMsg > 0 || timedOut)
      modifies this
      ensures Valid() && posted == old(posted) && fetched == old(fetched)
      ensures ok == !timedOut && pc == if ok then old(pc)[t := Taking] else old(pc)
      ensures queuedMsg == old(queuedMsg) - (if ok then 1 else 0) && freeMsg == old(freeMsg)
    {
      ok := !timedOut;
      if ok {
        MoveCounts(pc, t, Taking);
        queuedMsg := queuedMsg - 1;
        pc := pc[t := Taking];
      }
    }

    /** The critical section of a fetch: it never finds the ring empty, and takes the message
      that has been in the ring longest. */
    method Take(t: nat) returns (m: T)
      requires Valid() && PcOf(pc, t).Taking?
      modifies this
      ensures Valid() && posted == old(posted) && fetched == old(fetched) + [m]
      ensures old(head) != -1 && |old(fetched)| < |posted| && m == posted[|old(fetched)|]
      ensures pc == old(pc)[t := Freeing] && queuedMsg == old(queuedMsg) && freeMsg == old(freeMsg)
    {
      hide Ring;
      MoveCounts(pc, t, Freeing);
      RingGet(msg[..], head, nextq, posted, fetched);
      var slot := head;
      m := msg[slot];
      head := (slot + 1) % slots;
      if head == nextq { head := -1; }
      pc := pc[t := Freeing];
      fetched := fetched + [m];
    }

    /** Last step of a fetch: signal free_msg. */
    method Free(t: nat)
      requires Valid() && PcOf(pc, t).Freeing?
      modifies this
      ensures Valid() && posted == old(posted) && fetched == old(fetched)
      ensures pc == old(pc)[t := Outside] && freeMsg == old(freeMsg) + 1 && queuedMsg == old(queuedMsg)
    {
      MoveCounts(pc, t, Outside);
      pc := pc[t := Outside];
      freeMsg := freeMsg + 1;
    }

    /** At every moment of every run: what came out is what went in first, in that order, and the
      ring holds the rest.  A fetcher past its semaphore finds a message; a poster past its
      semaphore finds a slot that no waiting message occupies. */
    lemma FirstInFirstOut(t: nat)
      requires Valid()
      ensures |fetched| <= |posted| <= |fetched| + slots && fetched == posted[..|fetched|]
      ensures head >= 0 ==> InRing(msg[..], head, |posted| - |fetched|) == posted[|fetched|..]
      ensures PcOf(pc, t).Taking? ==> head >= 0 && msg[head] == posted[|fetched|]
      ensures PcOf(pc, t).Inserting? ==> head == -1 || forall i :: 0 <= i < |posted| - |fetched| ==>
                Slot(head, i, slots) != nextq
    {
      assert InUse() == |posted| - |fetched|;
      if PcOf(pc, t).Taking? {
        assert t in Threads(pc, AtTaking);
        RingGet(msg[..], head, nextq, posted, fetched);
      }
      if PcOf(pc, t).Inserting? {
        assert t in Threads(pc, AtInserting);
        assert |posted| - |fetched| < slots;
      }
      if head >= 0 {
        assert posted[|fetched|..] == InRing(msg[..], head, |posted| - |fetched|);
      }
    }

    /** The next step of thread `t` can be taken at once: there is a slot to fill or a message to
      take, no semaphore is signalled beyond the number of slots, and one that is waited on has a
      count left. */
    ghost predicate Enabled(t: nat)
      reads this
    {
      match PcOf(pc, t)
      case Outside => freeMsg > 0 || queuedMsg > 0
      case Inserting(_) => InUse() < slots
      case Announcing => queuedMsg < slots
      case Taking => head >= 0
      case Freeing => freeMsg < slots
    }

    /** Past its semaphore a thread never has to wait. */
    lemma InsideIsEnabled(t: nat)
      requires Valid() && !PcOf(pc, t).Outside?
      ensures Enabled(t)
    {
      assert t in Threads(pc, KindOf(pc[t]));
      assert |Threads(pc, KindOf(pc[t]))| >= 1;
    }

    /** Whenever both semaphores are exhausted some thread is inside a call and can move on. */
    lemma NeverStuck()
      requires Valid() && queuedMsg == 0 && freeMsg == 0
      ensures exists t :: t in pc && !pc[t].Outside? && Enabled(t)
    {
      var a := Threads(pc, AtInserting) + Threads(pc, AtFreeing) + Threads(pc, AtAnnouncing) + Threads(pc, AtTaking);
      assert Threads(pc, AtInserting) <= a && Threads(pc, AtFreeing) <= a;
      assert Threads(pc, AtAnnouncing) <= a && Threads(pc, AtTaking) <= a;
      assert a == {} ==> Threads(pc, AtInserting) == {} && Threads(pc, AtFreeing) == {} &&
                         Threads(pc, AtAnnouncing) == {} && Threads(pc, AtTaking) == {};
      var t :| t in a;
      InsideIsEnabled(t);
      assert t in pc && !pc[t].Outside?;
    }

    /** With no call under way the semaphores count the messages and the free slots exactly. */
    lemma CountsAtRest()
      requires Valid() && forall t :: t in pc ==> pc[t].Outside?
      ensures queuedMsg == |posted| - |fetched| && freeMsg == slots - (|posted| - |fetched|)
    {
      assert Threads(pc, AtInserting) == {} && Threads(pc, AtFreeing) == {};
      assert Threads(pc, AtAnnouncing) == {} && Threads(pc, AtTaking) == {};
    }
  }

  lemma MoveCounts<T>(pc: map<nat, Pc<T>>, t: nat, p: Pc<T>)
    requires KindOf(p) != KindOf(PcOf(pc, t))
    ensures forall k :: k != AtOutside ==>
              |Threads(pc[t := p], k)| == |Threads(pc, k)| + (if k == KindOf(p) then 1 else 0)
                                                           - (if k == KindOf(PcOf(pc, t)) then 1 else 0)
    ensures forall k :: k == KindOf(PcOf(pc, t)) && k != AtOutside ==> |Threads(pc, k)| >= 1
  {
    forall k { Moved(pc, t, p, k); }
  }
}
