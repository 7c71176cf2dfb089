/** The SIEVE queue: keys in insertion order, one visited bit each, and a hand
    that walks them cyclically. */
module SieveQueue {
  import opened Prelude
  import opened Keyspace

  const SIEVE_S_HORIZON_MS: real := 60000.0
  const SIEVE_S_TTL_THRESHOLD: real := 0.1

  datatype Slot = Slot(key: Bytes, visited: bool)

  function Keys(q: seq<Slot>): (ks: seq<Bytes>)
    ensures |ks| == |q| && forall i :: 0 <= i < |q| ==> ks[i] == q[i].key
  {
    seq(|q|, i requires 0 <= i < |q| => q[i].key)
  }

  /** The queue as the hand meets it. */
  ghost function FromHand(q: seq<Slot>, hand: nat): seq<Slot>
    requires hand <= |q|
  {
    q[hand..] + q[..hand]
  }

  /** `key`'s bit set to `bit`, and nothing else changed. */
  function Marked(q: seq<Slot>, key: Bytes, bit: bool): seq<Slot> {
    seq(|q|, i requires 0 <= i < |q| => if q[i].key == key then Slot(key, bit) else q[i])
  }

  /** `q` without `key`, whatever its bit. */
  function Unqueued(q: seq<Slot>, key: Bytes): seq<Slot> {
    Without(q, {Slot(key, true), Slot(key, false)})
  }

  lemma UnqueuedOne(q: seq<Slot>, i: nat)
    requires NoDup(Keys(q)) && i < |q|
    ensures q[..i] + q[i + 1..] == Unqueued(q, q[i].key)
  {
    var both := {Slot(q[i].key, true), Slot(q[i].key, false)};
    assert forall j, k :: 0 <= j < k < |q| ==> Keys(q)[j] != Keys(q)[k];
    RemoveIndex(q, i);
    forall x | x in q
      ensures x in {q[i]} <==> x in both
    {
      var j :| 0 <= j < |q| && q[j] == x;
      assert j != i ==> Keys(q)[j] != Keys(q)[i];
    }
    WithoutSame(q, {q[i]}, both);
  }

  lemma UnqueuedNone(q: seq<Slot>, key: Bytes)
    requires forall i :: 0 <= i < |q| ==> q[i].key != key
    ensures Unqueued(q, key) == q
  {
    WithoutDisjoint(q, {Slot(key, true), Slot(key, false)});
  }

  lemma MarkedAt(q: seq<Slot>, i: nat, bit: bool)
    requires NoDup(Keys(q)) && i < |q|
    ensures q[i := Slot(q[i].key, bit)] == Marked(q, q[i].key, bit)
    ensures Keys(Marked(q, q[i].key, bit)) == Keys(q)
  {
    assert forall j :: 0 <= j < |q| && j != i ==> Keys(q)[j] != Keys(q)[i];
  }

  predicate NearExpiry(e: Entry, now: int, threshold: real) {
    match e.expireAt
    case None => false
    case Some(d) => d <= now || (d - now) as real <= threshold * SIEVE_S_HORIZON_MS
  }

  /** What one sweep consults: the store, the policy and the clock. */
  datatype View = View(store: Store, scope: Scope, ttlAware: bool, now: int, threshold: real) {
    predicate May(s: Slot) {
      Eligible(store, scope, s.key)
    }

    /** Would the hand evict `s` rather than give it another round? */
    predicate Takes(s: Slot)
      requires May(s)
    {
      !s.visited || (ttlAware && NearExpiry(store[s.key], now, threshold))
    }

    /** What a pass of the hand leaves of `r[lo..hi]`: tombstones and
        out-of-scope keys dropped, every bit cleared. */
    ghost function Passed(r: seq<Slot>, lo: nat, hi: nat): seq<Slot>
      requires lo <= hi <= |r|
    {
      if lo == hi then []
      else if May(r[hi - 1]) then Passed(r, lo, hi - 1) + [Slot(r[hi - 1].key, false)]
      else Passed(r, lo, hi - 1)
    }

    /** The hand would evict none of the first `i` keys on sight. */
    ghost predicate Spares(r: seq<Slot>, i: nat)
      requires i <= |r|
    {
      forall j :: 0 <= j < i && May(r[j]) ==> !Takes(r[j])
    }

    /** None of the first `i` keys may be evicted at all. */
    ghost predicate Barren(r: seq<Slot>, i: nat)
      requires i <= |r|
    {
      forall j :: 0 <= j < i ==> !May(r[j])
    }

    /** The SIEVE choice, stated on the cyclic order `r`: the first evictable
        key the hand would take, or else, when it would spare them all, simply
        the first evictable key. `left` is the cyclic order afterwards. */
    ghost predicate Chooses(r: seq<Slot>, p: nat, left: seq<Slot>)
      requires p < |r|
    {
      && May(r[p])
      && ((&& Takes(r[p])
           && Spares(r, p)
           && left == r[p + 1..] + Passed(r, 0, p))
          || (&& Spares(r, |r|)
              && Barren(r, p)
              && left == Passed(r, p + 1, |r|)))
    }

    ghost predicate Picks(r: seq<Slot>, key: Bytes, left: seq<Slot>) {
      exists p: nat :: p < |r| && r[p].key == key && Chooses(r, p, left)
    }

    /** Where the sweep stands after looking at the first `i` slots of `r`
        without taking any. */
    ghost predicate Swept(r: seq<Slot>, i: nat, cur: seq<Slot>)
      requires i <= |r|
    {
      Spares(r, i) && cur == r[i..] + Passed(r, 0, i)
    }

    lemma {:induction false} PassedHead(r: seq<Slot>, hi: nat) returns (p: nat)
      requires hi <= |r| && Passed(r, 0, hi) != []
      ensures p < hi && May(r[p]) && Barren(r, p)
      ensures Passed(r, 0, hi) == [Slot(r[p].key, false)] + Passed(r, p + 1, hi)
    {
      if Passed(r, 0, hi - 1) == [] {
        p := hi - 1;
        PassedEmpty(r, hi - 1);
      } else {
        p := PassedHead(r, hi - 1);
      }
    }

    lemma {:induction false} PassedEmpty(r: seq<Slot>, hi: nat)
      requires hi <= |r| && Passed(r, 0, hi) == []
      ensures Barren(r, hi)
    {
      if hi != 0 {
        PassedEmpty(r, hi - 1);
      }
    }

    /** A slot passed over, dropped or cleared, is one more slot swept. */
    lemma SweptNext(r: seq<Slot>, i: nat, cur: seq<Slot>, next: seq<Slot>)
      requires i < |r| && Swept(r, i, cur)
      requires May(r[i]) ==> !Takes(r[i])
      requires next == cur[1..] + if May(r[i]) then [Slot(r[i].key, false)] else []
      ensures Swept(r, i + 1, next)
    {
    }

    /** The slot under the hand is the next one of `r`, or, a full round on,
        one whose bit the sweep itself has cleared. */
    lemma SweptHead(r: seq<Slot>, i: nat, cur: seq<Slot>)
      requires i <= |r| && Swept(r, i, cur) && cur != []
      ensures i < |r| ==> cur[0] == r[i]
      ensures i == |r| ==> May(cur[0]) && Takes(cur[0])
      ensures May(cur[0]) && Takes(cur[0]) ==> Picks(r, cur[0].key, cur[1..])
    {
      if i < |r| {
        if May(cur[0]) && Takes(cur[0]) {
          assert Chooses(r, i, cur[1..]);
        }
      } else {
        var p := PassedHead(r, |r|);
        assert Chooses(r, p, cur[1..]);
      }
    }
  }

  // ---- The choice in plain terms ----

  /** `k` has a deadline that is at most `ms` milliseconds away, or past. */
  predicate DueWithin(store: Store, k: Bytes, now: int, ms: int) {
    k in store && store[k].expireAt.Some? && store[k].expireAt.value <= now + ms
  }

  /** The TTL-aware choice at the default threshold, in milliseconds: a visited
      key that is not due within six seconds goes only if every evictable key is
      visited and none is due that soon; and the first evictable key that is due
      that soon goes, visited or not, if no evictable key before it is unvisited. */
  ghost predicate ChoosesByTtl(store: Store, scope: Scope, now: int, r: seq<Slot>, key: Bytes) {
    && (forall p :: 0 <= p < |r| && r[p].key == key && r[p].visited && !DueWithin(store, key, now, 6000) ==>
          forall j :: 0 <= j < |r| && Eligible(store, scope, r[j].key) ==> r[j].visited && !DueWithin(store, r[j].key, now, 6000))
    && (forall q :: 0 <= q < |r| && Eligible(store, scope, r[q].key) && DueWithin(store, r[q].key, now, 6000)
          && (forall j :: 0 <= j < q && Eligible(store, scope, r[j].key) ==> r[j].visited && !DueWithin(store, r[j].key, now, 6000))
          ==> key == r[q].key)
  }

  /** The plain choice: a visited key goes only if every evictable key is visited,
      and the first evictable key that is unvisited goes. */
  ghost predicate ChoosesByVisits(store: Store, scope: Scope, r: seq<Slot>, key: Bytes) {
    && (forall p :: 0 <= p < |r| && r[p].key == key && r[p].visited ==>
          forall j :: 0 <= j < |r| && Eligible(store, scope, r[j].key) ==> r[j].visited)
    && (forall q :: 0 <= q < |r| && Eligible(store, scope, r[q].key) && !r[q].visited
          && (forall j :: 0 <= j < q && Eligible(store, scope, r[j].key) ==> r[j].visited)
          ==> key == r[q].key)
  }

  ghost predicate ChoosesPlainly(store: Store, scope: Scope, ttlAware: bool, now: int, r: seq<Slot>, key: Bytes) {
    if ttlAware then ChoosesByTtl(store, scope, now, r, key) else ChoosesByVisits(store, scope, r, key)
  }

  lemma NearIsSixSeconds(e: Entry, now: int)
    ensures NearExpiry(e, now, SIEVE_S_TTL_THRESHOLD) <==> e.expireAt.Some? && e.expireAt.value <= now + 6000
  {
    assert SIEVE_S_TTL_THRESHOLD * SIEVE_S_HORIZON_MS == 6000.0;
  }

  lemma TakesInPlainTerms(v: View, s: Slot)
    requires v.May(s) && (v.ttlAware ==> v.threshold == SIEVE_S_TTL_THRESHOLD)
    ensures v.Takes(s) <==> !s.visited || (v.ttlAware && DueWithin(v.store, s.key, v.now, 6000))
  {
    if v.ttlAware {
      NearIsSixSeconds(v.store[s.key], v.now);
    }
  }

  lemma SlotOf(r: seq<Slot>, p: nat, q: nat)
    requires NoDup(Keys(r)) && p < |r| && q < |r| && r[p].key == r[q].key
    ensures p == q
  {
    assert Keys(r)[p] == Keys(r)[q];
  }

  lemma PicksInPlainTerms(v: View, r: seq<Slot>, key: Bytes, left: seq<Slot>)
    requires NoDup(Keys(r)) && v.Picks(r, key, left)
    ensures v.ttlAware && v.threshold == SIEVE_S_TTL_THRESHOLD ==> ChoosesByTtl(v.store, v.scope, v.now, r, key)
    ensures !v.ttlAware ==> ChoosesByVisits(v.store, v.scope, r, key)
  {
    hide NearExpiry, NoDup, Keys, View.Passed, View.Takes;
    if v.ttlAware ==> v.threshold == SIEVE_S_TTL_THRESHOLD {
      var p: nat :| p < |r| && r[p].key == key && v.Chooses(r, p, left);
      forall j | 0 <= j < |r| && v.May(r[j])
        ensures v.Takes(r[j]) <==> !r[j].visited || (v.ttlAware && DueWithin(v.store, r[j].key, v.now, 6000))
      {
        TakesInPlainTerms(v, r[j]);
      }
      forall q | 0 <= q < |r| && r[q].key == key
        ensures q == p
      {
        SlotOf(r, p, q);
      }
    }
  }

  /** So an access spares: a key just marked as visited is not the plain victim
      while some evictable key is unvisited. */
  lemma AccessSpares(store: Store, scope: Scope, q: seq<Slot>, hand: nat, accessed: Bytes, i: nat, key: Bytes)
    requires hand <= |q| && i < |q| && q[i].key != accessed && Eligible(store, scope, q[i].key) && !q[i].visited
    requires ChoosesByVisits(store, scope, FromHand(Marked(q, accessed, true), hand), key)
    requires exists j :: 0 <= j < |q| && q[j].key == accessed
    ensures key != accessed
  {
    var m := Marked(q, accessed, true);
    var r := FromHand(m, hand);
    var j :| 0 <= j < |q| && q[j].key == accessed;
    var at, free := if hand <= j then j - hand else j + |q| - hand, if hand <= i then i - hand else i + |q| - hand;
    assert r[at] == m[j] == Slot(accessed, true);
    assert r[free] == m[i] == q[i];
  }

  lemma FromHandNoDup(q: seq<Slot>, hand: nat)
    requires NoDup(Keys(q)) && hand <= |q|
    ensures NoDup(Keys(FromHand(q, hand)))
  {
    var r := Keys(FromHand(q, hand));
    forall i, j | 0 <= i < j < |r|
      ensures r[i] != r[j]
    {
      assert r[i] == Keys(q)[if i < |q| - hand then i + hand else i + hand - |q|];
      assert r[j] == Keys(q)[if j < |q| - hand then j + hand else j + hand - |q|];
    }
  }

  /** Taking out slot `idx` and shifting the hand with it takes the key out of
      the cyclic order and moves nothing else. */
  lemma RemovedFromHand(q: seq<Slot>, hand: nat, idx: nat)
    requires NoDup(Keys(q)) && hand < |q| && idx < |q|
    ensures FromHand(q[..idx] + q[idx + 1..], if idx < hand then hand - 1 else hand) ==
            Unqueued(FromHand(q, hand), q[idx].key)
  {
    hide Unqueued, NoDup, Keys;
    var r := FromHand(q, hand);
    var pos := if idx < hand then |q| - hand + idx else idx - hand;
    FromHandNoDup(q, hand);
    UnqueuedOne(r, pos);
    var t := q[..idx] + q[idx + 1..];
    if idx < hand {
      assert t[hand - 1..] == q[hand..] && t[..hand - 1] == q[..idx] + q[idx + 1..hand];
      assert FromHand(t, hand - 1) == r[..pos] + r[pos + 1..];
    } else {
      assert t[hand..] == q[hand..idx] + q[idx + 1..] && t[..hand] == q[..hand];
      assert FromHand(t, hand) == r[..pos] + r[pos + 1..];
    }
  }

  lemma TakeAtHand(q: seq<Slot>, hand: nat)
    requires hand < |q|
    ensures FromHand(q, hand)[0] == q[hand]
    ensures FromHand(q[..hand] + q[hand + 1..], hand) == FromHand(q, hand)[1..]
  {
  }

  lemma PassAtHand(q: seq<Slot>, hand: nat, s: Slot)
    requires hand < |q|
    ensures FromHand(q[hand := s], hand + 1) == FromHand(q, hand)[1..] + [s]
  {
  }

  lemma WrapHand(q: seq<Slot>)
    ensures FromHand(q, |q|) == FromHand(q, 0)
  {
  }

  /** What one look at the key under the hand does: drop it, take it, or clear
      its bit and move on. */
  ghost predicate Looked(v: View, q: seq<Slot>, hand: nat, victim: Option<Bytes>, q': seq<Slot>, hand': nat)
    requires hand < |q| && hand' <= |q'|
  {
    var s := q[hand];
    if v.May(s) && !v.Takes(s) then
      && victim == None
      && FromHand(q', hand') == FromHand(q, hand)[1..] + [Slot(s.key, false)]
      && Keys(q') == Keys(q)
    else
      && victim == (if v.May(s) then Some(s.key) else None)
      && FromHand(q', hand') == FromHand(q, hand)[1..]
      && Keys(q') == Without(Keys(q), {s.key})
  }

  /** The sweep's invariant: `r` and `ks` are the cyclic and the linear order it
      began with, and the keys it has dropped from `ks` are tombstones. */
  ghost predicate Sweeping(v: View, r: seq<Slot>, i: nat, ks: seq<Bytes>, gone: set<Bytes>, q: seq<Slot>, hand: nat)
    requires i <= |r| && hand <= |q|
  {
    && v.Swept(r, i, FromHand(q, hand))
    && Keys(q) == Without(ks, gone)
    && forall k :: k in gone ==> !Eligible(v.store, v.scope, k)
  }

  /** What a finished sweep means. Nothing is evicted exactly when no queued key
      may be; otherwise the victim is the SIEVE choice on the cyclic order the
      hand saw. Only the victim and keys that may not be evicted leave the queue,
      and the rest keep their order. */
  ghost predicate Evicted(v: View, r: seq<Slot>, ks: seq<Bytes>, victim: Option<Bytes>, gone: set<Bytes>, q: seq<Slot>, hand: nat)
    requires hand <= |q|
  {
    && Keys(q) == Without(ks, gone)
    && (forall k :: k in gone && victim != Some(k) ==> !Eligible(v.store, v.scope, k))
    && (match victim
        case None => q == [] && forall k :: k in ks ==> !Eligible(v.store, v.scope, k)
        case Some(key) => v.Picks(r, key, FromHand(q, hand)) && key in gone && key in ks && Eligible(v.store, v.scope, key))
  }

  lemma LookSweeps(v: View, r: seq<Slot>, i: nat, ks: seq<Bytes>, gone: set<Bytes>, q: seq<Slot>, hand: nat,
                   victim: Option<Bytes>, q': seq<Slot>, hand': nat)
    returns (gone': set<Bytes>)
    requires i <= |r| && hand < |q| && hand' <= |q'|
    requires Sweeping(v, r, i, ks, gone, q, hand)
    requires Looked(v, q, hand, victim, q', hand')
    ensures victim == None ==> i < |r| && Sweeping(v, r, i + 1, ks, gone', q', hand')
    ensures victim.Some? ==> Evicted(v, r, ks, victim, gone', q', hand')
  {
    var cur := FromHand(q, hand);
    assert cur[0] == q[hand];
    v.SweptHead(r, i, cur);
    WithoutMembers(ks, gone);
    assert Keys(q)[hand] == q[hand].key;
    gone' := gone;
    if victim.Some? || !v.May(q[hand]) {
      gone' := gone + {q[hand].key};
      WithoutTwice(ks, gone, {q[hand].key});
    }
    if victim == None {
      v.SweptNext(r, i, cur, FromHand(q', hand'));
    }
  }

  /** An empty queue ends the sweep: everything in it was a tombstone. */
  lemma SweptBare(v: View, r: seq<Slot>, i: nat, ks: seq<Bytes>, gone: set<Bytes>)
    requires i <= |r| && Sweeping(v, r, i, ks, gone, [], 0)
    ensures Evicted(v, r, ks, None, gone, [], 0)
  {
    WithoutMembers(ks, gone);
    assert Without(ks, gone) == [];
  }

  lemma SweepingWraps(v: View, r: seq<Slot>, i: nat, ks: seq<Bytes>, gone: set<Bytes>, q: seq<Slot>)
    requires i <= |r| && Sweeping(v, r, i, ks, gone, q, |q|)
    ensures Sweeping(v, r, i, ks, gone, q, 0)
  {
    WrapHand(q);
  }

  lemma SweepStarts(v: View, q: seq<Slot>, hand: nat)
    requires hand <= |q|
    ensures Sweeping(v, FromHand(q, hand), 0, Keys(q), {}, q, hand)
  {
    WithoutDisjoint(Keys(q), {});
  }

  lemma EvictedInPlainTerms(v: View, q0: seq<Slot>, hand0: nat, key: Bytes, gone: set<Bytes>, q: seq<Slot>, hand: nat)
    requires NoDup(Keys(q0)) && hand0 <= |q0| && hand <= |q|
    requires Evicted(v, FromHand(q0, hand0), Keys(q0), Some(key), gone, q, hand)
    ensures v.threshold == SIEVE_S_TTL_THRESHOLD ==>
              ChoosesPlainly(v.store, v.scope, v.ttlAware, v.now, FromHand(q0, hand0), key)
  {
    hide ChoosesByTtl, ChoosesByVisits;
    FromHandNoDup(q0, hand0);
    PicksInPlainTerms(v, FromHand(q0, hand0), key, FromHand(q, hand));
  }

  class SieveState {
    var queue: seq<Slot>
    var hand: nat
    var scope: Scope
    var threshold: real

    ghost predicate Valid()
      reads this
    {
      NoDup(Keys(queue)) && (hand == 0 || hand < |queue|)
    }

    ghost function KeySet(): set<Bytes>
      reads this
    {
      SetOf(Keys(queue))
    }

    constructor ()
      ensures Valid() && queue == [] && scope == AllKeys && threshold == SIEVE_S_TTL_THRESHOLD
    {
      queue := [];
      hand := 0;
      scope := AllKeys;
      threshold := SIEVE_S_TTL_THRESHOLD;
    }

    /** Position of `key`, or the queue length when it is not queued. */
    method IndexOf(key: Bytes) returns (i: nat)
      ensures i <= |queue|
      ensures i < |queue| ==> queue[i].key == key
      ensures i == |queue| <==> key !in KeySet()
    {
      i := 0;
      while i < |queue| && queue[i].key != key
        invariant i <= |queue|
        invariant forall j :: 0 <= j < i ==> queue[j].key != key
      {
        i := i + 1;
      }
      if i < |queue| {
        assert Keys(queue)[i] == key;
      }
    }

    /** Takes slot `i` out; later slots shift down. */
    method ShiftRemove(i: nat)
      requires NoDup(Keys(queue)) && i < |queue|
      modifies this`queue
      ensures queue == old(queue)[..i] + old(queue)[i + 1..]
      ensures Keys(queue) == Without(Keys(old(queue)), {old(queue)[i].key})
      ensures NoDup(Keys(queue))
    {
      ghost var ks := Keys(queue);
      queue := queue[..i] + queue[i + 1..];
      RemoveIndex(ks, i);
      WithoutNoDup(ks, {ks[i]});
      assert Keys(queue) == ks[..i] + ks[i + 1..];
    }

    /** Takes slot `idx` out; the hand keeps its key, or moves on from the one
        taken. */
    method TakeOut(idx: nat)
      requires Valid() && idx < |queue|
      modifies this`queue, this`hand
      ensures Valid()
      ensures Keys(queue) == Without(Keys(old(queue)), {old(queue)[idx].key})
      ensures FromHand(queue, hand) == Unqueued(old(FromHand(queue, hand)), old(queue)[idx].key)
    {
      RemovedFromHand(queue, hand, idx);
      if idx < hand {
        hand := hand - 1;
      }
      ShiftRemove(idx);
      if hand >= |queue| {
        WrapHand(queue);
        hand := 0;
      }
    }

    method ObserveRemove(key: Bytes)
      requires Valid()
      modifies this`queue, this`hand
      ensures Valid()
      ensures Keys(queue) == Without(Keys(old(queue)), {key})
      ensures KeySet() == old(KeySet()) - {key}
      ensures FromHand(queue, hand) == Unqueued(old(FromHand(queue, hand)), key)
    {
      WithoutMembers(Keys(queue), {key});
      var idx := IndexOf(key);
      if idx < |queue| {
        TakeOut(idx);
      } else {
        WithoutDisjoint(Keys(queue), {key});
        assert forall i :: 0 <= i < |queue| ==> Keys(queue)[i] != key;
        UnqueuedNone(FromHand(queue, hand), key);
      }
    }

    /** A queued key keeps its place with its bit cleared; a new one joins the
        tail; a key without TTL leaves a volatile queue. */
    method ObserveInsert(key: Bytes, hasTtl: bool)
      requires Valid()
      modifies this`queue, this`hand
      ensures Valid()
      ensures scope == Volatile && !hasTtl ==>
                Keys(queue) == Without(Keys(old(queue)), {key}) && KeySet() == old(KeySet()) - {key}
      ensures scope == AllKeys || hasTtl ==>
                KeySet() == old(KeySet()) + {key} && hand == old(hand)
      ensures (scope == AllKeys || hasTtl) && key !in old(KeySet()) ==>
                queue == old(queue) + [Slot(key, false)]
      ensures (scope == AllKeys || hasTtl) && key in old(KeySet()) ==>
                queue == Marked(old(queue), key, false)
    {
      if scope == Volatile && !hasTtl {
        ObserveRemove(key);
        return;
      }
      var idx := IndexOf(key);
      if idx < |queue| {
        MarkedAt(queue, idx, false);
        queue := queue[idx := Slot(key, false)];
      } else {
        queue := queue + [Slot(key, false)];
        assert Keys(queue) == old(Keys(queue)) + [key];
      }
    }

    method ObserveAccess(key: Bytes)
      requires Valid()
      modifies this`queue
      ensures Valid() && Keys(queue) == old(Keys(queue))
      ensures queue == Marked(old(queue), key, true)
    {
      var idx := IndexOf(key);
      if idx < |queue| {
        MarkedAt(queue, idx, true);
        queue := queue[idx := Slot(key, true)];
      } else {
        assert forall i :: 0 <= i < |queue| ==> Keys(queue)[i] != key;
      }
    }

    /** Queues the eligible keys of `store` afresh. The order is the hash map's,
        so any order. */
    method Rebuild(store: Store, newScope: Scope)
      modifies this`queue, this`hand, this`scope
      ensures Valid() && scope == newScope && hand == 0
      ensures KeySet() == set k | k in store && Eligible(store, newScope, k)
      ensures forall s :: s in queue ==> !s.visited
    {
      queue, hand, scope := [], 0, newScope;
      var todo := store.Keys;
      while todo != {}
        invariant hand == 0 && scope == newScope
        invariant todo <= store.Keys
        invariant NoDup(Keys(queue))
        invariant forall k :: k in Keys(queue) <==> k in store.Keys - todo && Eligible(store, newScope, k)
        invariant forall s :: s in queue ==> !s.visited
        decreases todo
      {
        var k :| k in todo;
        ghost var before := Keys(queue);
        assert k !in before;
        if newScope == AllKeys || store[k].expireAt.Some? {
          queue := queue + [Slot(k, false)];
          assert Keys(queue) == before + [k];
        }
        todo := todo - {k};
      }
    }

    method Clear()
      modifies this`queue, this`hand
      ensures Valid() && queue == []
    {
      queue, hand := [], 0;
    }

    /** Takes the slot under the hand out. */
    method DropAtHand()
      requires NoDup(Keys(queue)) && hand < |queue|
      modifies this`queue
      ensures NoDup(Keys(queue)) && hand <= |queue|
      ensures FromHand(queue, hand) == old(FromHand(queue, hand))[1..]
      ensures Keys(queue) == Without(Keys(old(queue)), {old(queue)[hand].key})
    {
      TakeAtHand(queue, hand);
      ShiftRemove(hand);
    }

    /** One look of the hand at the key under it. */
    method Look(store: Store, evictScope: Scope, ttlAware: bool, now: int) returns (victim: Option<Bytes>)
      requires NoDup(Keys(queue)) && hand < |queue|
      modifies this`queue, this`hand
      ensures NoDup(Keys(queue)) && hand <= |queue|
      ensures victim.Some? ==> Valid()
      ensures Looked(View(store, evictScope, ttlAware, now, threshold), old(queue), old(hand), victim, queue, hand)
    {
      var key := queue[hand].key;
      if !Eligible(store, evictScope, key) {
        DropAtHand();
        return None;
      }
      var visited := queue[hand].visited;
      var forceDemote := ttlAware && NearExpiry(store[key], now, threshold);
      if !visited || forceDemote {
        DropAtHand();
        if hand >= |queue| {
          WrapHand(queue);
          hand := 0;
        }
        return Some(key);
      }
      PassAtHand(queue, hand, Slot(key, false));
      queue := queue[hand := Slot(key, false)];
      assert Keys(queue) == old(Keys(queue));
      hand := hand + 1;
      return None;
    }

    /** A look, and what it makes of a sweep that stands at `i` and `gone`. */
    method LookOn(store: Store, evictScope: Scope, ttlAware: bool, now: int,
                  ghost r: seq<Slot>, ghost i: nat, ghost ks: seq<Bytes>, ghost gone: set<Bytes>)
      returns (victim: Option<Bytes>, ghost gone': set<Bytes>)
      requires NoDup(Keys(queue)) && hand < |queue| && i <= |r|
      requires Sweeping(View(store, evictScope, ttlAware, now, threshold), r, i, ks, gone, queue, hand)
      modifies this`queue, this`hand
      ensures NoDup(Keys(queue)) && hand <= |queue|
      ensures victim == None ==>
                i < |r| && Sweeping(View(store, evictScope, ttlAware, now, threshold), r, i + 1, ks, gone', queue, hand)
      ensures victim.Some? ==>
                Valid() && Evicted(View(store, evictScope, ttlAware, now, threshold), r, ks, victim, gone', queue, hand)
    {
      victim := Look(store, evictScope, ttlAware, now);
      gone' := LookSweeps(View(store, evictScope, ttlAware, now, threshold),
                          r, i, ks, gone, old(queue), old(hand), victim, queue, hand);
    }

    /** One sweep of the hand. The look budget of one more than the queue length
        always suffices, so the sweep never gives up with a candidate left. */
    method EvictOne(store: Store, evictScope: Scope, ttlAware: bool, now: int)
      returns (victim: Option<Bytes>, ghost gone: set<Bytes>)
      requires Valid()
      modifies this`queue, this`hand
      ensures Valid()
      ensures Evicted(View(store, evictScope, ttlAware, now, threshold),
                      old(FromHand(queue, hand)), old(Keys(queue)), victim, gone, queue, hand)
      ensures victim.Some? && threshold == SIEVE_S_TTL_THRESHOLD ==>
                ChoosesPlainly(store, evictScope, ttlAware, now, old(FromHand(queue, hand)), victim.value)
    {
      hide Sweeping, Evicted, NoDup, ChoosesPlainly;
      ghost var v := View(store, evictScope, ttlAware, now, threshold);
      ghost var r, ks := FromHand(queue, hand), Keys(queue);
      SweepStarts(v, queue, hand);
      gone, victim := {}, None;
      var n, scanned := |queue|, 0;
      while victim == None && scanned < n + 1
        invariant hand <= |queue| && NoDup(Keys(queue))
        invariant victim == None ==> scanned <= n && Sweeping(v, r, scanned, ks, gone, queue, hand)
        invariant victim.Some? ==> Valid() && Evicted(v, r, ks, victim, gone, queue, hand)
        decreases victim == None, n + 1 - scanned
      {
        if hand >= |queue| {
          SweepingWraps(v, r, scanned, ks, gone, queue);
          hand := 0;
        }
        if hand >= |queue| {
          SweptBare(v, r, scanned, ks, gone);
          break;
        }
        victim, gone := LookOn(store, evictScope, ttlAware, now, r, scanned, ks, gone);
        if victim == None {
          scanned := scanned + 1;
        }
      }
      if victim.Some? {
        EvictedInPlainTerms(v, old(queue), old(hand), victim.value, gone, queue, hand);
      }
    }
  }
}
