/** The AdaptiveClimb list: keys from most to least protected, and the one
    self-tuning distance `jump`. */
module ClimbList {
  import opened Prelude
  import opened Keyspace

  datatype Climb = Climb(queue: seq<Bytes>, jump: nat) {
    /** `jump` never leaves `[1, len]` (and is 1 for the empty list). */
    predicate Tuned() {
      NoDup(queue) && 1 <= jump <= Max(1, |queue|)
    }
  }

  function Clamp(jump: nat, len: nat): nat {
    if len == 0 then 1 else Max(1, Min(jump, len))
  }

  /** A miss: `key` re-enters `jump` places above the tail, after `jump` grew. */
  function Inserted(c: Climb, key: Bytes): Climb {
    var rest := Without(c.queue, {key});
    var len := |rest|;
    var j := Clamp(c.jump, len);
    var jump := if j < len then j + 1 else j;
    var pos := if jump <= len then len - jump else 0;
    Climb(rest[..pos] + [key] + rest[pos..], jump)
  }

  /** A hit on position `p`: `jump` shrinks and the key moves up by it. */
  function Hit(c: Climb, p: nat): Climb
    requires p < |c.queue|
  {
    var to := Landing(c.jump, p);
    Climb(c.queue[..to] + [c.queue[p]] + c.queue[to..p] + c.queue[p + 1..], Shrunk(c.jump))
  }

  function Shrunk(jump: nat): nat {
    if jump > 1 then jump - 1 else jump
  }

  function Landing(jump: nat, p: nat): (to: nat)
    ensures to <= p
  {
    if Shrunk(jump) <= p then p - Shrunk(jump) else 0
  }

  function Removed(c: Climb, key: Bytes): Climb {
    var rest := Without(c.queue, {key});
    Climb(rest, Clamp(c.jump, |rest|))
  }

  lemma Splice<T(!new)>(s: seq<T>, pos: nat, x: T)
    requires pos <= |s| && NoDup(s) && x !in s
    ensures NoDup(s[..pos] + [x] + s[pos..])
    ensures Without(s[..pos] + [x] + s[pos..], {x}) == s
  {
    var t := s[..pos] + [x] + s[pos..];
    assert NoDup(t) by {
      forall i, j | 0 <= i < j < |t|
        ensures t[i] != t[j]
      {
        assert t[i] == if i < pos then s[i] else if i == pos then x else s[i - 1];
        assert t[j] == if j < pos then s[j] else if j == pos then x else s[j - 1];
      }
    }
    RemoveIndex(t, pos);
    assert t[..pos] + t[pos + 1..] == s;
  }

  /** An insertion moves nobody but `key` and leaves the list tuned. */
  lemma InsertedKeepsOrder(c: Climb, key: Bytes)
    requires NoDup(c.queue)
    ensures Inserted(c, key).Tuned()
    ensures Without(Inserted(c, key).queue, {key}) == Without(c.queue, {key})
    ensures SetOf(Inserted(c, key).queue) == SetOf(c.queue) + {key}
  {
    var rest := Without(c.queue, {key});
    WithoutNoDup(c.queue, {key});
    WithoutMembers(c.queue, {key});
    var len := |rest|;
    var j := Clamp(c.jump, len);
    var jump := if j < len then j + 1 else j;
    var pos := if jump <= len then len - jump else 0;
    Splice(rest, pos, key);
    assert rest == rest[..pos] + rest[pos..];
  }

  lemma RemovedKeepsOrder(c: Climb, key: Bytes)
    requires NoDup(c.queue)
    ensures Removed(c, key).Tuned()
    ensures SetOf(Removed(c, key).queue) == SetOf(c.queue) - {key}
  {
    WithoutNoDup(c.queue, {key});
    WithoutMembers(c.queue, {key});
  }

  /** Moving position `p` up to `to` permutes nobody else. */
  lemma MoveUp<T(!new)>(s: seq<T>, p: nat, to: nat)
    requires NoDup(s) && to <= p < |s|
    ensures var t := s[..to] + [s[p]] + s[to..p] + s[p + 1..];
            && NoDup(t) && |t| == |s| && t[to] == s[p]
            && Without(t, {s[p]}) == Without(s, {s[p]})
            && SetOf(t) == SetOf(s)
  {
    var t := s[..to] + [s[p]] + s[to..p] + s[p + 1..];
    var rest := s[..p] + s[p + 1..];
    assert rest == Without(s, {s[p]}) by {
      RemoveIndex(s, p);
    }
    WithoutNoDup(s, {s[p]});
    WithoutMembers(s, {s[p]});
    assert rest[..to] + [s[p]] + rest[to..] == t;
    Splice(rest, to, s[p]);
    WithoutMembers(t, {s[p]});
    assert t[to] == s[p];
    forall x
      ensures x in t <==> x in s
    {
      if x != s[p] {
        assert x in t <==> x in rest;
      }
    }
  }

  /** A hit moves nobody but the key hit, which climbs at least one place. */
  lemma HitKeepsOrder(c: Climb, p: nat)
    requires c.Tuned() && p < |c.queue|
    ensures Hit(c, p).Tuned()
    ensures Without(Hit(c, p).queue, {c.queue[p]}) == Without(c.queue, {c.queue[p]})
    ensures SetOf(Hit(c, p).queue) == SetOf(c.queue)
    ensures Landing(c.jump, p) <= Max(0, p - 1) && Landing(c.jump, p) < |Hit(c, p).queue|
    ensures Hit(c, p).queue[Landing(c.jump, p)] == c.queue[p]
  {
    MoveUp(c.queue, p, Landing(c.jump, p));
  }

  /** A hit in numbers: `jump` shrinks by one but not below 1, and the key moves up
      by the new `jump`, or to the head if that is closer. */
  lemma HitMoves(c: Climb, p: nat)
    requires c.Tuned() && p < |c.queue|
    ensures Hit(c, p).jump == Max(1, c.jump - 1)
    ensures |Hit(c, p).queue| == |c.queue| && Hit(c, p).queue[Max(0, p - Max(1, c.jump - 1))] == c.queue[p]
  {
    MoveUp(c.queue, p, Landing(c.jump, p));
  }

  /** A miss in numbers: with `n` other keys listed, `jump` grows by one but not
      above `n` (and is at least 1), and the key enters that far above the tail. */
  lemma InsertMoves(c: Climb, key: Bytes)
    requires c.Tuned()
    ensures var n, d := |Without(c.queue, {key})|, Inserted(c, key);
            && d.jump == Max(1, Min(n, Min(c.jump, n) + 1))
            && |d.queue| == n + 1 && d.queue[Max(0, n - d.jump)] == key
  {
  }

  /** `n` hits on one key bring `jump` down by `n`, and never below 1. */
  lemma {:induction false} HitsTune(c: Climb, p: nat, n: nat)
    requires c.Tuned() && p < |c.queue|
    ensures Hits(c, p, n).jump == Max(1, c.jump - n)
    decreases n
  {
    if n != 0 {
      HitMoves(c, p);
      HitKeepsOrder(c, p);
      HitsTune(Hit(c, p), Landing(c.jump, p), n - 1);
    }
  }

  /** A hit on `key` leads from `c` to `d`; a key that is not listed hits nothing. */
  ghost predicate HitOn(c: Climb, key: Bytes, d: Climb) {
    if key in c.queue then exists p: nat :: p < |c.queue| && c.queue[p] == key && d == Hit(c, p) else d == c
  }

  /** `n` hits in a row on the key at `p`. */
  ghost function Hits(c: Climb, p: nat, n: nat): Climb
    requires c.Tuned() && p < |c.queue|
    decreases n
  {
    if n == 0 then c
    else
      HitKeepsOrder(c, p);
      Hits(Hit(c, p), Landing(c.jump, p), n - 1)
  }

  /** A key at position `p` is at the head after `p` consecutive hits. */
  lemma {:induction false} ClimbsToHead(c: Climb, p: nat, n: nat)
    requires c.Tuned() && p < |c.queue| && p <= n
    ensures Hits(c, p, n).queue != [] && Hits(c, p, n).queue[0] == c.queue[p]
    decreases n
  {
    if n != 0 {
      HitKeepsOrder(c, p);
      ClimbsToHead(Hit(c, p), Landing(c.jump, p), n - 1);
    }
  }

  /** What the engine does to the list between two hits; an eviction is a
      removal of the victim. */
  datatype Op = Write(key: Bytes) | Drop(key: Bytes)

  ghost function Run(ops: seq<Op>): Climb {
    if ops == [] then Climb([], 1)
    else
      var c := Run(ops[..|ops| - 1]);
      match ops[|ops| - 1]
      case Write(k) => Inserted(c, k)
      case Drop(k) => Removed(c, k)
  }

  /** When `k` was last written, counting from 1; 0 if never. */
  ghost function LastWrite(ops: seq<Op>, k: Bytes): nat {
    if ops == [] then 0
    else if ops[|ops| - 1] == Write(k) then |ops|
    else LastWrite(ops[..|ops| - 1], k)
  }

  lemma {:induction false} LastWriteBound(ops: seq<Op>, k: Bytes)
    ensures LastWrite(ops, k) <= |ops|
  {
    if ops != [] {
      LastWriteBound(ops[..|ops| - 1], k);
    }
  }

  ghost predicate ByRecency(ops: seq<Op>, q: seq<Bytes>) {
    forall i, j :: 0 <= i < j < |q| ==> LastWrite(ops, q[i]) > LastWrite(ops, q[j])
  }

  lemma {:induction false} WithoutByRecency(ops: seq<Op>, q: seq<Bytes>, k: Bytes)
    requires ByRecency(ops, q)
    ensures ByRecency(ops, Without(q, {k}))
  {
    if q != [] {
      WithoutByRecency(ops, q[1..], k);
      WithoutMembers(q[1..], {k});
      var rest := Without(q[1..], {k});
      assert forall j :: 0 <= j < |rest| ==> rest[j] in q[1..];
    }
  }

  /** With `jump` saturated a write enters at the head. */
  lemma EntersAtHead(c: Climb, key: Bytes)
    requires c.Tuned() && |c.queue| <= c.jump + 1
    ensures Inserted(c, key).queue == [key] + Without(c.queue, {key})
    ensures |Inserted(c, key).queue| <= Inserted(c, key).jump + 1
  {
    var rest := Without(c.queue, {key});
    WithoutLength(c.queue, {key});
    assert rest[..0] + [key] + rest[0..] == [key] + rest;
  }

  /** Without hits AdaptiveClimb is exactly LRU by last write: `jump` stays
      saturated, so every write enters at the head. */
  lemma {:induction false} HitFreeIsRecency(ops: seq<Op>)
    ensures Run(ops).Tuned() && |Run(ops).queue| <= Run(ops).jump + 1
    ensures ByRecency(ops, Run(ops).queue)
  {
    if ops != [] {
      var before, op := ops[..|ops| - 1], ops[|ops| - 1];
      HitFreeIsRecency(before);
      var c := Run(before);
      OpKeepsRecency(before, op, c.queue);
      if op.Write? {
        EntersAtHead(c, op.key);
        InsertedKeepsOrder(c, op.key);
      } else {
        WithoutLength(c.queue, {op.key});
        RemovedKeepsOrder(c, op.key);
      }
      assert before + [op] == ops;
    }
  }

  lemma OpKeepsRecency(before: seq<Op>, op: Op, q: seq<Bytes>)
    requires ByRecency(before, q)
    ensures ByRecency(before + [op], Without(q, {op.key}))
    ensures op.Write? ==> ByRecency(before + [op], [op.key] + Without(q, {op.key}))
  {
    WithoutByRecency(before, q, op.key);
    WithoutMembers(q, {op.key});
    RecencyCarries(before, op, Without(q, {op.key}));
  }

  /** Keys an operation does not name keep their order, all older than it. */
  lemma RecencyCarries(before: seq<Op>, op: Op, rest: seq<Bytes>)
    requires ByRecency(before, rest) && op.key !in rest
    ensures ByRecency(before + [op], rest)
    ensures op.Write? ==> ByRecency(before + [op], [op.key] + rest)
  {
    var ops := before + [op];
    assert ops[..|before|] == before;
    forall i | 0 <= i < |rest|
      ensures LastWrite(ops, rest[i]) == LastWrite(before, rest[i]) < |ops|
    {
      LastWriteBound(before, rest[i]);
    }
  }

  /** The key `evict_one` takes from a list: the last that may be evicted. */
  ghost predicate Takes(q: seq<Bytes>, may: Bytes -> bool, i: nat) {
    && i < |q| && may(q[i])
    && forall j :: i < j < |q| ==> !may(q[j])
  }

  /** `key` is what `evict_one` takes from `q`. */
  ghost predicate Victim(q: seq<Bytes>, store: Store, scope: Scope, key: Bytes) {
    exists i: nat :: Takes(q, k => Eligible(store, scope, k), i) && key == q[i]
  }

  /** So on a run without hits the victim is the least recently written of the
      keys that may be evicted. */
  lemma VictimIsOldest(ops: seq<Op>, may: Bytes -> bool, i: nat, k: Bytes)
    requires Takes(Run(ops).queue, may, i) && k in Run(ops).queue && may(k)
    ensures LastWrite(ops, Run(ops).queue[i]) <= LastWrite(ops, k)
    ensures k != Run(ops).queue[i] ==> LastWrite(ops, Run(ops).queue[i]) < LastWrite(ops, k)
  {
    HitFreeIsRecency(ops);
    var q := Run(ops).queue;
    var j :| 0 <= j < |q| && q[j] == k;
    assert j <= i;
  }

  /** Evicting `v` and then telling the list of its removal is one removal. */
  lemma EvictionIsDrop(c: Climb, v: Bytes)
    ensures Removed(Climb(Without(c.queue, {v}), c.jump), v) == Removed(c, v)
  {
    WithoutMembers(c.queue, {v});
    WithoutDisjoint(Without(c.queue, {v}), {v});
  }

  class AdaptiveClimbState {
    var queue: seq<Bytes>
    var jump: nat
    var scope: Scope

    ghost function Value(): Climb
      reads this
    {
      Climb(queue, jump)
    }

    ghost predicate Valid()
      reads this
    {
      Value().Tuned()
    }

    constructor ()
      ensures Valid() && queue == [] && scope == AllKeys
    {
      queue, jump, scope := [], 1, AllKeys;
    }

    method ClampJump()
      modifies this`jump
      ensures jump == Clamp(old(jump), |queue|)
    {
      if |queue| == 0 {
        jump := 1;
      } else if jump < 1 {
        jump := 1;
      } else if jump > |queue| {
        jump := |queue|;
      }
    }

    method ObserveRemove(key: Bytes)
      requires NoDup(queue)
      modifies this`queue, this`jump
      ensures Value() == Removed(old(Value()), key)
      ensures Valid() && SetOf(queue) == old(SetOf(queue)) - {key}
    {
      RemovedKeepsOrder(Value(), key);
      queue := Without(queue, {key});
      ClampJump();
    }

    method ObserveInsert(key: Bytes, hasTtl: bool)
      requires NoDup(queue)
      modifies this`queue, this`jump
      ensures Value() == if scope == Volatile && !hasTtl then Removed(old(Value()), key) else Inserted(old(Value()), key)
      ensures Valid()
      ensures SetOf(queue) == if scope == Volatile && !hasTtl then old(SetOf(queue)) - {key} else old(SetOf(queue)) + {key}
    {
      if scope == Volatile && !hasTtl {
        ObserveRemove(key);
        return;
      }
      InsertedKeepsOrder(Value(), key);
      Reenter(key);
    }

    /** `jump` grows, and `key` goes in that far above the tail. */
    method Reenter(key: Bytes)
      modifies this`queue, this`jump
      ensures Value() == Inserted(old(Value()), key)
    {
      queue := Without(queue, {key});
      ClampJump();
      var len := |queue|;
      if len == 0 {
        jump := 1;
      } else if jump < len {
        jump := jump + 1;
      }
      var pos := if jump <= len then len - jump else 0;
      queue := queue[..pos] + [key] + queue[pos..];
    }

    method ObserveAccess(key: Bytes)
      requires Valid()
      modifies this`queue, this`jump
      ensures HitOn(old(Value()), key, Value())
      ensures Valid() && SetOf(queue) == old(SetOf(queue))
    {
      var p := 0;
      while p < |queue| && queue[p] != key
        invariant p <= |queue|
        invariant key !in queue[..p]
      {
        p := p + 1;
      }
      if p == |queue| {
        return;
      }
      HitKeepsOrder(Value(), p);
      if jump > 1 {
        jump := jump - 1;
      }
      if p > 0 {
        var to := if jump <= p then p - jump else 0;
        if to < p {
          queue := queue[..to] + [queue[p]] + queue[to..p] + queue[p + 1..];
        }
      } else {
        assert queue == queue[..0] + [queue[0]] + queue[0..0] + queue[1..];
      }
      assert Value() == Hit(old(Value()), p);
    }

    method Rebuild(store: Store, newScope: Scope)
      modifies this
      ensures Valid() && scope == newScope && jump == 1
      ensures SetOf(queue) == set k | k in store && Eligible(store, newScope, k)
    {
      queue, jump, scope := [], 1, newScope;
      var todo := store.Keys;
      while todo != {}
        invariant jump == 1 && scope == newScope
        invariant todo <= store.Keys
        invariant NoDup(queue)
        invariant forall k :: k in queue <==> k in store.Keys - todo && Eligible(store, newScope, k)
        decreases todo
      {
        var k :| k in todo;
        assert k !in queue;
        if newScope == AllKeys || store[k].expireAt.Some? {
          queue := queue + [k];
        }
        todo := todo - {k};
      }
    }

    method Clear()
      modifies this`queue, this`jump
      ensures Valid() && queue == []
    {
      queue, jump := [], 1;
    }

    /** The eligible key nearest the tail, if any. The caller follows an eviction
        with `ObserveRemove`, which re-tunes `jump`. */
    method EvictOne(store: Store, evictScope: Scope) returns (victim: Option<Bytes>)
      requires Valid()
      modifies this`queue
      ensures victim == None <==> forall k :: k in old(queue) ==> !Eligible(store, evictScope, k)
      ensures victim == None ==> queue == old(queue)
      ensures victim.Some? ==>
                && Victim(old(queue), store, evictScope, victim.value)
                && victim.value in old(queue) && Eligible(store, evictScope, victim.value)
      ensures victim.Some? ==> queue == Without(old(queue), {victim.value})
      ensures NoDup(queue)
    {
      var idx := |queue|;
      while idx > 0
        invariant 0 <= idx <= |queue| && queue == old(queue)
        invariant forall j :: idx <= j < |queue| ==> !Eligible(store, evictScope, queue[j])
      {
        idx := idx - 1;
        var key := queue[idx];
        if Eligible(store, evictScope, key) {
          assert Takes(queue, k => Eligible(store, evictScope, k), idx);
          assert Victim(queue, store, evictScope, key);
          RemoveIndex(queue, idx);
          WithoutNoDup(queue, {key});
          queue := queue[..idx] + queue[idx + 1..];
          return Some(key);
        }
      }
      return None;
    }
  }
}
