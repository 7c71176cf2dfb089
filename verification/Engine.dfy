/** The engine: the keyspace and the three structures that shadow it, namely
    the byte counter, the eviction index and the append-only log. */
module Engine {
  import opened Prelude
  import opened Keyspace
  import opened Decimal
  import opened LiveMap
  import R = Records
  import SieveQueue
  import ClimbList
  import Sweeper

  /** The active index and the keyspace agree on what may be evicted. `dropped`
      are the keys whose last index event was a PERSIST, which unqueues a key
      even where the scope is all keys. */
  ghost predicate IndexAgrees(kind: IndexKind, store: Store, queued: set<Bytes>, dropped: set<Bytes>) {
    match kind
    case NoIndex => queued == {}
    case _ =>
      if kind.scope == AllKeys then forall k :: k in store ==> (k in queued <==> k !in dropped)
      else forall k :: k in store ==> (k in queued <==> store[k].expireAt.Some?)
  }

  /** What the index looks like after `key` was written with or without TTL. */
  ghost function QueuedAfterInsert(kind: IndexKind, queued: set<Bytes>, key: Bytes, hasTtl: bool): set<Bytes> {
    if kind == NoIndex then {}
    else if kind.scope == Volatile && !hasTtl then queued - {key}
    else queued + {key}
  }

  lemma AgreesAfterInsert(kind: IndexKind, store: Store, queued: set<Bytes>, dropped: set<Bytes>, key: Bytes, e: Entry)
    requires IndexAgrees(kind, store, queued, dropped)
    ensures IndexAgrees(kind, store[key := e], QueuedAfterInsert(kind, queued, key, e.expireAt.Some?), dropped - {key})
  {
  }

  lemma AgreesAfterPersist(kind: IndexKind, store: Store, queued: set<Bytes>, dropped: set<Bytes>, key: Bytes)
    requires IndexAgrees(kind, store, queued, dropped) && key in store
    ensures IndexAgrees(kind, store[key := Entry(store[key].data, None)], queued - {key}, dropped + {key})
  {
  }

  lemma ReplacedBytes(s: Store, key: Bytes, e: Entry)
    ensures TotalBytes(s[key := e]) == TotalBytes(s) + EntryBytes(key, e) - if key in s then EntryBytes(key, s[key]) else 0
    ensures key in s ==> EntryBytes(key, s[key]) <= TotalBytes(s)
  {
    TotalBytesUpdate(s, key, e);
    if key in s {
      TotalBytesSplit(s, key);
    } else {
      assert s - {key} == s;
    }
  }

  /** The keys the policy can evict. */
  ghost function Evictable(cfg: Config, store: Store, queued: set<Bytes>): set<Bytes> {
    match cfg.policy
    case NoEviction => {}
    case Sampled(scope) => if cfg.samples == 0 then {} else set k | k in store && Eligible(store, scope, k)
    case SievePolicy(scope, _) => set k | k in store && k in queued && Eligible(store, scope, k)
    case ClimbPolicy(scope) => set k | k in store && k in queued && Eligible(store, scope, k)
  }

  lemma NothingToEvict(cfg: Config, store: Store, queued: set<Bytes>)
    requires cfg.policy == NoEviction
    ensures Evictable(cfg, store, queued) == {}
  {
  }

  lemma EvictableIsStored(cfg: Config, store: Store, queued: set<Bytes>)
    ensures Evictable(cfg, store, queued) <= store.Keys
  {
  }

  /** Dropping tombstones and the victim from the index costs no other key. */
  lemma QueueShrinks(cfg: Config, store: Store, queued: set<Bytes>, gone: set<Bytes>, dropped: set<Bytes>, victim: Bytes)
    requires IndexAgrees(KindOf(cfg.policy), store, queued, dropped)
    requires cfg.policy.SievePolicy? || cfg.policy.ClimbPolicy?
    requires forall k :: k in gone ==> k == victim || !Eligible(store, PolicyScope(cfg.policy), k)
    ensures IndexAgrees(KindOf(cfg.policy), store - {victim}, queued - gone, dropped)
    ensures Evictable(cfg, store - {victim}, queued - gone - {victim}) == Evictable(cfg, store, queued) - {victim}
  {
  }

  predicate Fits(used: nat, incoming: nat, max: nat) {
    used + incoming <= max
  }

  /** With the first `i` of `order` gone the write still does not fit. */
  ghost predicate StillFull(s0: Store, order: seq<Bytes>, i: nat, incoming: nat, max: nat)
    requires i <= |order|
  {
    !Fits(TotalBytes(s0 - SetOf(order[..i])), incoming, max)
  }

  /** A sweep over `s0`, whose evictable keys are `all`, has evicted `order`, one
      after the other, each because the write did not fit at that moment. */
  ghost predicate Evicting(s0: Store, all: set<Bytes>, order: seq<Bytes>, incoming: nat, max: nat) {
    && NoDup(order) && SetOf(order) <= all <= s0.Keys
    && forall i :: 0 <= i < |order| ==> StillFull(s0, order, i, incoming, max)
  }

  /** What a finished sweep means: success exactly when the write would fit with
      every evictable key gone, which is exactly when it fits now. */
  ghost predicate Enforced(s0: Store, all: set<Bytes>, order: seq<Bytes>, incoming: nat, max: nat, ok: bool) {
    && Evicting(s0, all, order, incoming, max)
    && (ok <==> Fits(TotalBytes(s0 - all), incoming, max))
    && (ok <==> Fits(TotalBytes(s0 - SetOf(order)), incoming, max))
  }

  lemma EvictingStarts(s0: Store, all: set<Bytes>, incoming: nat, max: nat)
    requires all <= s0.Keys
    ensures Evicting(s0, all, [], incoming, max)
    ensures s0 - SetOf<Bytes>([]) == s0 && all - SetOf([]) == all
  {
  }

  lemma StillFullNext(s0: Store, order: seq<Bytes>, v: Bytes, i: nat, incoming: nat, max: nat)
    requires i < |order| + 1
    requires if i == |order| then !Fits(TotalBytes(s0 - SetOf(order)), incoming, max) else StillFull(s0, order, i, incoming, max)
    ensures StillFull(s0, order + [v], i, incoming, max)
  {
    assert (order + [v])[..i] == order[..i];
    assert order[..|order|] == order;
  }

  lemma EvictingNext(s0: Store, all: set<Bytes>, order: seq<Bytes>, incoming: nat, max: nat, v: Bytes)
    requires Evicting(s0, all, order, incoming, max)
    requires v in all - SetOf(order) && !Fits(TotalBytes(s0 - SetOf(order)), incoming, max)
    ensures Evicting(s0, all, order + [v], incoming, max)
  {
    SetOfSnoc(order, v);
    forall i | 0 <= i < |order + [v]|
      ensures StillFull(s0, order + [v], i, incoming, max)
    {
      StillFullNext(s0, order, v, i, incoming, max);
    }
    assert NoDup(order + [v]) by {
      assert forall i :: 0 <= i < |order| ==> order[i] in SetOf(order);
    }
  }

  lemma LessOneMore(s0: Store, all: set<Bytes>, order: seq<Bytes>, v: Bytes)
    requires v in s0 && v !in SetOf(order)
    ensures s0 - SetOf(order) - {v} == s0 - SetOf(order + [v])
    ensures all - SetOf(order) - {v} == all - SetOf(order + [v])
    ensures |s0 - SetOf(order + [v])| + 1 == |s0 - SetOf(order)|
  {
    SetOfSnoc(order, v);
    assert (s0 - SetOf(order) - {v}).Keys == (s0 - SetOf(order)).Keys - {v};
  }

  lemma EvictingEnds(s0: Store, all: set<Bytes>, order: seq<Bytes>, incoming: nat, max: nat, ok: bool)
    requires Evicting(s0, all, order, incoming, max)
    requires ok == Fits(TotalBytes(s0 - SetOf(order)), incoming, max)
    requires !ok ==> SetOf(order) == all
    ensures Enforced(s0, all, order, incoming, max, ok)
  {
    var evicted := SetOf(order);
    assert s0 - evicted - (all - evicted) == s0 - all;
    TotalBytesMonotone(s0 - evicted, all - evicted);
  }

  /** A write that fits as things are evicts nothing. */
  lemma FittingEvictsNone(s0: Store, all: set<Bytes>, order: seq<Bytes>, incoming: nat, max: nat)
    requires Evicting(s0, all, order, incoming, max)
    ensures Fits(TotalBytes(s0), incoming, max) ==> order == []
  {
    if order != [] {
      assert order[..0] == [] && s0 - SetOf<Bytes>([]) == s0;
      assert StillFull(s0, order, 0, incoming, max);
    }
  }

  function SaturatingSub(a: nat, b: nat): nat {
    if b <= a then a - b else 0
  }

  lemma LiveInsert(s: Store, k: Bytes, e: Entry, now: int)
    requires !Expired(e, now)
    ensures Live(s[k := e], now) == Live(s, now)[k := e]
  {
  }

  lemma LiveRemove(s: Store, gone: set<Bytes>, now: int)
    ensures Live(s - gone, now) == Live(s, now) - gone
  {
  }

  lemma StampApplies(s: Store, key: Bytes, value: Bytes, at: int)
    ensures R.Apply(s[key := Entry(value, None)], R.PExpireAt(key, at)) == s[key := Entry(value, Some(at))]
  {
  }

  /** The records of a rewrite under a deadline. */
  function Rewritten(key: Bytes, value: Bytes, keepTtl: Option<int>): seq<R.Record> {
    if keepTtl.Some? then [R.Set(key, value), R.PExpireAt(key, keepTtl.value)] else [R.Set(key, value)]
  }

  class KvEngine {
    var store: Store
    var used: nat
    var aof: bool
    var log: seq<R.Record>
    ghost var base: Store
    var clock: int
    var cfg: Config
    var kind: IndexKind
    var cursor: nat
    const sieve: SieveQueue.SieveState
    const ac: ClimbList.AdaptiveClimbState
    ghost var dropped: set<Bytes>

    ghost function Queued(): set<Bytes>
      reads `kind, sieve, ac
    {
      match kind
      case NoIndex => {}
      case SieveIndex(_, _) => sieve.KeySet()
      case ClimbIndex(_) => SetOf(ac.queue)
    }

    /** Both index structures are sound; the inactive one is empty. Between the
        two halves of an eviction AdaptiveClimb's `jump` may be out of tune. */
    ghost predicate LooseShape()
      reads `kind, `cfg, sieve, ac
    {
      && kind == KindOf(cfg.policy)
      && sieve.Valid() && sieve.threshold == SieveQueue.SIEVE_S_TTL_THRESHOLD && NoDup(ac.queue)
      && (if kind.SieveIndex? then sieve.scope == kind.scope else sieve.queue == [])
      && (if kind.ClimbIndex? then ac.scope == kind.scope else ac.Valid() && ac.queue == [])
    }

    ghost predicate IndexShape()
      reads `kind, `cfg, sieve, ac
    {
      LooseShape() && ac.Valid()
    }

    /** The log, read on top of what the process started from, shows clients
        what `s` shows them. */
    ghost predicate LogReads(s: Store)
      reads `aof, `base, `log, `clock
    {
      aof ==> R.AllWritable(log) && Live(R.ApplyAll(base, log), clock) == Live(s, clock)
    }

    ghost predicate Core()
      reads `store, `used, `kind, `cfg, `dropped, sieve, ac
    {
      && IndexShape()
      && used == TotalBytes(store)
      && IndexAgrees(kind, store, Queued(), dropped)
      && R.AllStorable(store)
    }

    /** The joint invariant over the four structures. */
    ghost predicate Valid()
      reads this, sieve, ac
    {
      Core() && LogReads(store)
    }

    lemma StoredIsStorable()
      requires Core()
      ensures R.AllStorable(store)
    {
    }

    /** What clients can see now. */
    ghost function Visible(): Store
      reads `store, `clock
    {
      Live(store, clock)
    }

    constructor ()
      ensures Valid() && fresh(sieve) && fresh(ac)
      ensures store == map[] && !aof && clock == 0 && cfg == Config(0, NoEviction, 5) && dropped == {}
    {
      store, used, aof, log, base := map[], 0, false, [], map[];
      clock, cursor, kind, cfg := 0, 0, NoIndex, Config(0, NoEviction, 5);
      dropped := {};
      sieve := new SieveQueue.SieveState();
      ac := new ClimbList.AdaptiveClimbState();
    }

    /** Attaches the log writer: from here on every change is recorded. */
    method AttachAof()
      requires Valid()
      modifies this`aof, this`log, this`base
      ensures Valid() && aof && log == [] && base == Visible()
    {
      LiveTwice(store, clock, clock);
      aof, log, base := true, [], Visible();
    }

    /** Time passes. */
    method Tick(later: int)
      requires Valid() && clock <= later
      modifies this`clock
      ensures Valid() && clock == later
      ensures Visible() == Live(old(Visible()), later)
    {
      LiveTwice(store, clock, later);
      if aof {
        LiveLater(R.ApplyAll(base, log), store, clock, later);
      }
      clock := later;
    }

    // ---- Primitives every command is made of ----

    /** Appends `r` if a writer is attached. `was` is the store before the
        command's own change. */
    method Log(r: R.Record, ghost was: Store)
      requires LogReads(was) && R.Writable(r) && R.Admissible(was, r, clock)
      modifies this`log
      ensures LogReads(R.Apply(was, r))
      ensures log == if aof then old(log) + [r] else old(log)
    {
      if aof {
        R.LogGrows(base, log, was, r, clock);
        log := log + [r];
      }
    }

    /** The counter subtracts with saturation; the contract says the saturation
        is never needed. */
    method ApplyDelta(delta: int)
      requires 0 <= used + delta
      modifies this`used
      ensures used == old(used) + delta
    {
      if delta > 0 {
        used := used + delta;
      } else {
        var mag := -delta;
        used := SaturatingSub(used, mag);
      }
    }

    method NotifyInsert(key: Bytes, hasTtl: bool)
      requires IndexShape()
      modifies sieve, ac, this`dropped
      ensures IndexShape()
      ensures Queued() == QueuedAfterInsert(kind, old(Queued()), key, hasTtl)
      ensures dropped == old(dropped) - {key}
    {
      if kind.SieveIndex? {
        sieve.ObserveInsert(key, hasTtl);
      } else if kind.ClimbIndex? {
        ac.ObserveInsert(key, hasTtl);
      }
      dropped := dropped - {key};
    }

    method NotifyRemove(key: Bytes)
      requires LooseShape()
      modifies sieve, ac
      ensures IndexShape()
      ensures Queued() == old(Queued()) - {key}
    {
      if kind.SieveIndex? {
        sieve.ObserveRemove(key);
      } else if kind.ClimbIndex? {
        ac.ObserveRemove(key);
      }
    }

    method NotifyAccess(key: Bytes)
      requires IndexShape()
      modifies sieve, ac
      ensures IndexShape()
      ensures Queued() == old(Queued())
      ensures kind.SieveIndex? ==> sieve.queue == SieveQueue.Marked(old(sieve.queue), key, true)
      ensures kind.ClimbIndex? ==> ClimbList.HitOn(old(ac.Value()), key, ac.Value())
    {
      if kind.SieveIndex? {
        sieve.ObserveAccess(key);
      } else if kind.ClimbIndex? {
        ac.ObserveAccess(key);
      }
    }

    method TrackInsert(key: Bytes, entry: Entry) returns (previous: Option<Entry>)
      requires Core() && R.Storable(key, entry)
      modifies this`store, this`used, this`dropped, sieve, ac
      ensures Core()
      ensures store == old(store)[key := entry]
      ensures dropped == old(dropped) - {key}
      ensures previous == if key in old(store) then Some(old(store)[key]) else None
    {
      previous := if key in store then Some(store[key]) else None;
      ReplacedBytes(store, key, entry);
      AgreesAfterInsert(kind, store, Queued(), dropped, key, entry);
      var outgoing := if key in store then EntryBytes(key, store[key]) else 0;
      store := store[key := entry];
      ApplyDelta(EntryBytes(key, entry) - outgoing);
      NotifyInsert(key, entry.expireAt.Some?);
    }

    method TrackRemove(key: Bytes) returns (removed: Option<Entry>)
      requires LooseShape() && used == TotalBytes(store) && R.AllStorable(store)
      requires IndexAgrees(kind, store - {key}, Queued(), dropped)
      modifies this`store, this`used, sieve, ac
      ensures Core()
      ensures store == old(store) - {key}
      ensures removed == if key in old(store) then Some(old(store)[key]) else None
      ensures Queued() == old(Queued()) - {key}
    {
      removed := None;
      if key in store {
        TotalBytesSplit(store, key);
        removed := Some(store[key]);
        ApplyDelta(0 - EntryBytes(key, store[key]));
      } else {
        assert store - {key} == store;
      }
      store := store - {key};
      NotifyRemove(key);
    }

    /** `track_remove` outside an eviction, where the index is in tune. */
    method Remove(key: Bytes) returns (removed: Option<Entry>)
      requires Core()
      modifies this`store, this`used, sieve, ac
      ensures Core() && store == old(store) - {key} && Queued() == old(Queued()) - {key}
      ensures removed == if key in old(store) then Some(old(store)[key]) else None
    {
      hide LooseShape, Queued, R.AllStorable;
      removed := TrackRemove(key);
    }

    method TrackClear()
      requires Core()
      modifies this`store, this`used, sieve, ac
      ensures Core()
      ensures store == map[] && Queued() == {}
    {
      store := map[];
      sieve.Clear();
      ac.Clear();
      used := 0;
    }

    // ---- Eviction ----

    /** Up to `samples` eligible keys, in the hash map's order: any order. */
    method SampleCandidates(scope: Scope, samples: nat) returns (out: seq<Bytes>)
      ensures |out| <= samples
      ensures forall k :: k in out ==> k in store && Eligible(store, scope, k)
      ensures out == [] <==> samples == 0 || forall k :: k in store ==> !Eligible(store, scope, k)
    {
      out := [];
      var todo := store.Keys;
      while todo != {}
        invariant todo <= store.Keys
        invariant |out| <= samples
        invariant forall k :: k in out ==> k in store && Eligible(store, scope, k)
        invariant out == [] ==> forall k :: k in store.Keys - todo ==> !Eligible(store, scope, k)
        decreases todo
      {
        if |out| >= samples {
          break;
        }
        var k :| k in todo;
        todo := todo - {k};
        if scope == Volatile && store[k].expireAt == None {
          continue;
        }
        out := out + [k];
      }
      assert out != [] ==> out[0] in out;
    }

    /** One victim under the policy. Which sampled candidate is liked least
        (age, frequency, TTL, or a blend) is left open: any of them. */
    method PickVictim() returns (victim: Option<Bytes>)
      requires Core() && cfg.policy != NoEviction
      modifies sieve`queue, sieve`hand, ac`queue
      ensures LooseShape()
      ensures victim == None <==> Evictable(cfg, store, old(Queued())) == {}
      ensures victim.Some? && cfg.policy.SievePolicy? ==>
                SieveQueue.ChoosesPlainly(store, cfg.policy.sieveScope, cfg.policy.ttlAware, clock,
                                          old(SieveQueue.FromHand(sieve.queue, sieve.hand)), victim.value)
      ensures victim.Some? && cfg.policy.ClimbPolicy? ==> ClimbList.Victim(old(ac.queue), store, cfg.policy.climbScope, victim.value)
      ensures victim == None ==> Core() && Evictable(cfg, store, Queued()) == {}
      ensures victim.Some? ==>
                && victim.value in Evictable(cfg, store, old(Queued()))
                && IndexAgrees(kind, store - {victim.value}, Queued(), dropped)
                && Evictable(cfg, store - {victim.value}, Queued() - {victim.value}) ==
                   Evictable(cfg, store, old(Queued())) - {victim.value}
    {
      hide LogReads, R.AllStorable, SieveQueue.ChoosesPlainly, SieveQueue.FromHand, ClimbList.Victim;
      ghost var all := Evictable(cfg, store, Queued());
      match cfg.policy {
        case SievePolicy(scope, ttlAware) =>
          ghost var gone;
          victim, gone := sieve.EvictOne(store, scope, ttlAware, clock);
          WithoutMembers(old(SieveQueue.Keys(sieve.queue)), gone);
          if victim.Some? {
            QueueShrinks(cfg, store, old(Queued()), gone, dropped, victim.value);
          }
          assert Queued() == old(Queued()) - gone;
          assert victim == None ==> all == {};
        case ClimbPolicy(scope) =>
          victim := ac.EvictOne(store, scope);
          if victim.Some? {
            WithoutMembers(old(ac.queue), {victim.value});
            QueueShrinks(cfg, store, old(Queued()), {victim.value}, dropped, victim.value);
            assert Queued() == old(Queued()) - {victim.value};
          }
          assert victim == None ==> all == {};
        case Sampled(scope) =>
          var candidates := SampleCandidates(scope, cfg.samples);
          if candidates == [] {
            victim := None;
            assert all == {};
          } else {
            assert candidates[0] in candidates;
            var k :| k in candidates;
            victim := Some(k);
          }
      }
      assert victim.Some? ==> victim.value in all;
    }

    /** What the policy could evict now. */
    ghost function Candidates(): set<Bytes>
      reads `cfg, `store, `kind, sieve, ac
    {
      Evictable(cfg, store, Queued())
    }

    /** Evicts one key: out of the index, the store and the counter, and into
        the log as a DEL. */
    method EvictStep() returns (victim: Option<Bytes>)
      requires Valid() && cfg.policy != NoEviction
      modifies this`store, this`used, this`log, sieve, ac
      ensures Valid() && old(log) <= log
      ensures victim == None <==> old(Candidates()) == {}
      ensures victim == None ==> store == old(store) && Candidates() == {}
      ensures victim.Some? ==>
                && victim.value in old(Candidates())
                && store == old(store) - {victim.value}
                && Candidates() == old(Candidates()) - {victim.value}
    {
      hide LogReads, Evictable, IndexAgrees, Queued, LooseShape;
      ghost var was := store;
      victim := PickVictim();
      EvictableIsStored(cfg, store, old(Queued()));
      if victim.Some? {
        var _ := TrackRemove(victim.value);
        Log(R.Del(victim.value), was);
      }
    }

    /** A sweep that began at `s0` with evictable keys `all` has evicted `order`;
        `stuck` says nothing evictable is left. */
    ghost predicate InSweep(s0: Store, all: set<Bytes>, order: seq<Bytes>, incoming: nat, stuck: bool)
      reads this, sieve, ac
    {
      && Valid()
      && store == s0 - SetOf(order)
      && Evicting(s0, all, order, incoming, cfg.maxMemory)
      && Candidates() == all - SetOf(order)
      && (stuck ==> SetOf(order) == all)
    }

    method EvictRound(incoming: nat, ghost s0: Store, ghost all: set<Bytes>, ghost order: seq<Bytes>)
      returns (stuck: bool, ghost order': seq<Bytes>)
      requires InSweep(s0, all, order, incoming, false) && !Fits(used, incoming, cfg.maxMemory)
      modifies this`store, this`used, this`log, sieve, ac
      ensures InSweep(s0, all, order', incoming, stuck) && old(log) <= log
      ensures |store| + (if stuck then 0 else 1) == |old(store)|
    {
      hide IndexShape, IndexAgrees, Queued, R.AllStorable, LogReads, Evictable, StillFull;
      order' := order;
      if cfg.policy == NoEviction {
        NothingToEvict(cfg, store, Queued());
        assert all - SetOf(order) == {};
        return true, order;
      }
      var victim := EvictStep();
      if victim == None {
        assert all - SetOf(order) == {};
        return true, order;
      }
      EvictingNext(s0, all, order, incoming, cfg.maxMemory, victim.value);
      LessOneMore(s0, all, order, victim.value);
      return false, order + [victim.value];
    }

    /** The bounded eviction loop. Its bound never cuts it short: it stops only
        because the write fits or because nothing evictable is left. */
    method EvictUntilFits(incoming: nat) returns (ghost order: seq<Bytes>)
      requires Valid()
      modifies this`store, this`used, this`log, sieve, ac
      ensures Valid() && old(log) <= log
      ensures store == old(store) - SetOf(order) && Candidates() == old(Candidates()) - SetOf(order)
      ensures Evicting(old(store), old(Candidates()), order, incoming, cfg.maxMemory)
      ensures !Fits(used, incoming, cfg.maxMemory) ==> SetOf(order) == old(Candidates())
    {
      hide IndexShape, IndexAgrees, Queued, R.AllStorable, LogReads, Evictable, Evicting;
      ghost var s0, all := store, Candidates();
      order := [];
      EvictableIsStored(cfg, store, Queued());
      EvictingStarts(s0, all, incoming, cfg.maxMemory);
      var bound := (if |store| == 0 then 1 else |store|) + 16;
      var i, stuck := 0, false;
      while i < bound && !stuck && !Fits(used, incoming, cfg.maxMemory)
        invariant InSweep(s0, all, order, incoming, stuck) && old(log) <= log
        invariant stuck || |store| + i == |s0|
        decreases !stuck, bound - i
      {
        stuck, order := EvictRound(incoming, s0, all, order);
        i := i + 1;
      }
    }

    /** Makes room for `incoming` more bytes. It succeeds exactly when they would
        fit with every evictable key gone, and every key it evicts goes because
        they did not fit yet. */
    method EnforceMemoryLimit(incoming: nat) returns (ok: bool, ghost order: seq<Bytes>)
      requires Valid()
      modifies this`store, this`used, this`log, sieve, ac
      ensures Valid() && old(log) <= log
      ensures store == old(store) - SetOf(order) && Candidates() == old(Candidates()) - SetOf(order)
      ensures cfg.maxMemory == 0 ==> ok && order == []
      ensures cfg.maxMemory != 0 ==> Enforced(old(store), old(Candidates()), order, incoming, cfg.maxMemory, ok)
    {
      hide IndexShape, IndexAgrees, Queued, R.AllStorable, LogReads, Evictable, Evicting, Enforced;
      if cfg.maxMemory == 0 {
        EvictableIsStored(cfg, store, Queued());
        EvictingStarts(store, Candidates(), incoming, cfg.maxMemory);
        return true, [];
      }
      order := EvictUntilFits(incoming);
      ok := Fits(used, incoming, cfg.maxMemory);
      EvictingEnds(old(store), old(Candidates()), order, incoming, cfg.maxMemory, ok);
    }

    /** Room for writing `key` with a value of the given length. The growth is
        taken before the sweep, which may then evict `key` itself. */
    method EnforceForWrite(key: Bytes, valueLen: nat) returns (ok: bool, ghost order: seq<Bytes>)
      requires Valid()
      modifies this`store, this`used, this`log, sieve, ac
      ensures Valid() && old(log) <= log
      ensures store == old(store) - SetOf(order) && Candidates() == old(Candidates()) - SetOf(order)
      ensures cfg.maxMemory == 0 ==> ok && order == []
      ensures cfg.maxMemory != 0 ==>
                Enforced(old(store), old(Candidates()), order, NetGrowth(old(store), key, valueLen), cfg.maxMemory, ok)
    {
      hide Core, Queued, LogReads, Evictable, Enforced;
      var incoming := |key| + valueLen + PER_ENTRY_OVERHEAD;
      var outgoing := if key in store then EntryBytes(key, store[key]) else 0;
      ok, order := EnforceMemoryLimit(SaturatingSub(incoming, outgoing));
    }

    /** Logs and stores one entry that is live now. */
    method Put(key: Bytes, value: Bytes, keepTtl: Option<int>) returns (previous: Option<Entry>)
      requires Valid() && R.Storable(key, Entry(value, keepTtl))
      requires keepTtl.Some? ==> clock < keepTtl.value
      modifies this`store, this`used, this`log, this`dropped, sieve, ac
      ensures Valid()
      ensures store == old(store)[key := Entry(value, keepTtl)]
      ensures Visible() == old(Visible())[key := Entry(value, keepTtl)]
      ensures dropped == old(dropped) - {key}
      ensures log == if aof then old(log) + Rewritten(key, value, keepTtl) else old(log)
      ensures previous == if key in old(store) then Some(old(store)[key]) else None
    {
      hide IndexShape, IndexAgrees, Queued, LogReads;
      LiveInsert(store, key, Entry(value, keepTtl), clock);
      ghost var was := store;
      Log(R.Set(key, value), was);
      if keepTtl.Some? && clock < keepTtl.value {
        StampApplies(was, key, value, keepTtl.value);
        Log(R.PExpireAt(key, keepTtl.value), was[key := Entry(value, None)]);
      }
      previous := TrackInsert(key, Entry(value, keepTtl));
    }

    /** SET, or with `keepTtl` the rewrite of a live value under its deadline. */
    method Insert(key: Bytes, value: Bytes, keepTtl: Option<int>)
      returns (ok: bool, previous: Option<Bytes>, ghost evicted: set<Bytes>)
      requires Valid() && R.Storable(key, Entry(value, keepTtl))
      requires keepTtl.Some? ==> clock < keepTtl.value
      modifies this`store, this`used, this`log, this`dropped, sieve, ac
      ensures Valid() && old(log) <= log && dropped <= old(dropped)
      ensures evicted <= old(Candidates())
      ensures cfg.maxMemory == 0 ==> ok && evicted == {}
      ensures store == if ok then (old(store) - evicted)[key := Entry(value, keepTtl)] else old(store) - evicted
      ensures Visible() == if ok then (old(Visible()) - evicted)[key := Entry(value, keepTtl)] else old(Visible()) - evicted
      ensures ok ==> previous == Lookup(old(Visible()) - evicted, key)
      ensures cfg.maxMemory != 0 ==> Wrote(old(store), old(Candidates()), key, value, cfg.maxMemory, evicted, used, ok)
    {
      hide IndexShape, IndexAgrees, Queued, R.AllStorable, LogReads, Evictable, Wrote, Enforced, R.Storable;
      ghost var order;
      ok, order := EnforceForWrite(key, |value|);
      evicted, previous := SetOf(order), None;
      LiveRemove(old(store), evicted, clock);
      if cfg.maxMemory != 0 {
        WroteWhat(old(store), old(Candidates()), order, key, Entry(value, keepTtl), cfg.maxMemory, ok);
      }
      if ok {
        var was := Put(key, value, keepTtl);
        previous := if was.Some? && !Expired(was.value, clock) then Some(was.value.data) else None;
      }
    }

    // ---- Commands ----

    /** The reference machine's answer to `op` on what was visible of `s0`.
        Evictions may take other keys away, out of the candidates `all`, and only
        under a cap may a write be refused. */
    ghost predicate Answers(op: Op, s0: Store, all: set<Bytes>, reply: Reply, evicted: set<Bytes>)
      reads `cfg, `store, `clock
    {
      var m := Live(s0, clock);
      && evicted <= all
      && (cfg.maxMemory == 0 || !Writes(op) ==> evicted == {} && reply != Fail(OutOfMemory))
      && (if reply == Fail(OutOfMemory) then Visible() == m - evicted
          else reply == Exec(m, clock, op).1 && Visible() == Exec(m, clock, op).0 - (evicted - Written(op)))
    }

    /** Under a cap: when a command that writes one key is refused, what it may
        evict and where it leaves the counter. All but SET first drop an expired
        entry of that key. */
    ghost predicate Budgeted(op: Op, s0: Store, all: set<Bytes>, reply: Reply, evicted: set<Bytes>)
      reads `cfg, `used, `clock
    {
      var m := Live(s0, clock);
      cfg.maxMemory != 0 && Attempts(op, m, clock) ==>
        var s := if op.Set? then s0 else Purged(s0, op.key, clock);
        Wrote(s, all * s.Keys, op.key, Stored(op, m), cfg.maxMemory, evicted, used, reply != Fail(OutOfMemory))
    }

    /** Takes an expired entry out, which no client can tell. */
    method Purge(key: Bytes)
      requires Valid() && key in store && Expired(store[key], clock)
      modifies this`store, this`used, sieve, ac
      ensures Valid() && Visible() == old(Visible())
      ensures store == old(store) - {key} && Queued() == old(Queued()) - {key}
    {
      hide Core, Queued;
      LiveRemove(store, {key}, clock);
      assert Visible() - {key} == Visible();
      var _ := Remove(key);
    }

    /** The live entry at `key`; an expired one is dropped and logged as a DEL. */
    method ReadState(key: Bytes) returns (e: Option<Entry>)
      requires Valid()
      modifies this`store, this`used, this`log, sieve, ac
      ensures Valid() && Visible() == old(Visible())
      ensures e == if key in Visible() then Some(Visible()[key]) else None
      ensures store == Purged(old(store), key, clock)
      ensures Queued() == if store == old(store) then old(Queued()) else old(Queued()) - {key}
      ensures log == old(log) + if aof then DropLog(old(store), key, clock) else []
    {
      hide IndexShape, IndexAgrees, Queued, LogReads;
      if key in store && Expired(store[key], clock) {
        Purge(key);
        assert R.Apply(store, R.Del(key)) == store;
        Log(R.Del(key), store);
        return None;
      }
      assert log == log + [];
      return if key in store then Some(store[key]) else None;
    }

    /** SET also hands back the live value it replaced, unless the sweep had
        evicted it. */
    method Set(key: Bytes, value: Bytes) returns (reply: Reply, previous: Option<Bytes>, ghost evicted: set<Bytes>)
      requires Valid()
      modifies this`store, this`used, this`log, this`dropped, sieve, ac
      ensures Valid() && old(log) <= log && dropped <= old(dropped)
      ensures Answers(Op.Set(key, value), old(store), old(Candidates()), reply, evicted)
      ensures Budgeted(Op.Set(key, value), old(store), old(Candidates()), reply, evicted)
      ensures reply == Done ==> previous == Lookup(old(Visible()) - evicted, key)
      ensures reply == Done ==> store == (old(store) - evicted)[key := Entry(value, None)]
    {
      hide Core, Queued, LogReads, Evictable, Wrote;
      evicted, previous := {}, None;
      if Invalid(key, value).Some? {
        return Fail(Invalid(key, value).value), None, {};
      }
      var ok;
      ok, previous, evicted := Insert(key, value, None);
      PutLessEvicted(old(Visible()), evicted, key, Entry(value, None));
      EvictableIsStored(cfg, old(store), old(Queued()));
      assert old(Candidates()) * old(store).Keys == old(Candidates());
      reply := if ok then Done else Fail(OutOfMemory);
    }

    method SetNx(key: Bytes, value: Bytes) returns (reply: Reply, ghost evicted: set<Bytes>)
      requires Valid()
      modifies this`store, this`used, this`log, this`dropped, sieve, ac
      ensures Valid() && old(log) <= log && dropped <= old(dropped)
      ensures Answers(Op.SetNx(key, value), old(store), old(Candidates()), reply, evicted)
      ensures Budgeted(Op.SetNx(key, value), old(store), old(Candidates()), reply, evicted)
      ensures cfg.maxMemory != 0 && reply == Flag(true) ==> used <= cfg.maxMemory
    {
      hide Core, Queued, LogReads, Evictable;
      if Invalid(key, value).Some? {
        return Fail(Invalid(key, value).value), {};
      }
      if key in store {
        if !Expired(store[key], clock) {
          return Flag(false), {};
        }
        Purge(key);
      }
      EvictablePurged(cfg, old(store), old(Queued()), key, clock);
      var ok, previous;
      ok, previous, evicted := Insert(key, value, None);
      PutLessEvicted(old(Visible()), evicted, key, Entry(value, None));
      reply := if ok then Flag(true) else Fail(OutOfMemory);
    }

    /** Rewrites the value of `key` under the deadline it has, if any. */
    method Replace(key: Bytes, data: Bytes, current: Option<Entry>) returns (ok: bool, ghost evicted: set<Bytes>)
      requires Valid() && Invalid(key, data) == None
      requires current == if key in Visible() then Some(Visible()[key]) else None
      modifies this`store, this`used, this`log, this`dropped, sieve, ac
      ensures Valid() && old(log) <= log && dropped <= old(dropped)
      ensures evicted <= old(Candidates())
      ensures cfg.maxMemory == 0 ==> ok && evicted == {}
      ensures Visible() == if ok then old(Visible())[key := Entry(data, Deadline(old(Visible()), key))] - (evicted - {key})
                           else old(Visible()) - evicted
      ensures cfg.maxMemory != 0 ==> Wrote(old(store), old(Candidates()), key, data, cfg.maxMemory, evicted, used, ok)
    {
      hide IndexShape, IndexAgrees, Queued, LogReads, Evictable, Wrote;
      var ttl := if current.Some? then current.value.expireAt else None;
      var previous;
      ok, previous, evicted := Insert(key, data, ttl);
      PutLessEvicted(old(Visible()), evicted, key, Entry(data, ttl));
    }

    /** The last step of INCRBY and APPEND, which began at `s0` with candidates
        `all`: store the new value, or be refused. */
    method Update(op: Op, data: Bytes, done: Reply, current: Option<Entry>, ghost s0: Store, ghost all: set<Bytes>)
      returns (reply: Reply, ghost evicted: set<Bytes>)
      requires Valid() && (op.IncrBy? || op.Append?) && Invalid(op.key, data) == None
      requires current == if op.key in Visible() then Some(Visible()[op.key]) else None
      requires Live(s0, clock) == Visible() && store == Purged(s0, op.key, clock) && Candidates() == all * store.Keys
      requires Exec(Visible(), clock, op) == (Visible()[op.key := Entry(data, Deadline(Visible(), op.key))], done)
      requires done.Number? && Stored(op, Visible()) == data
      modifies this`store, this`used, this`log, this`dropped, sieve, ac
      ensures Valid() && old(log) <= log && dropped <= old(dropped)
      ensures Answers(op, s0, all, reply, evicted) && Budgeted(op, s0, all, reply, evicted)
    {
      hide Core, Queued, LogReads, Evictable, Wrote, Exec, Stored;
      var ok;
      ok, evicted := Replace(op.key, data, current);
      reply := if ok then done else Fail(OutOfMemory);
    }

    method IncrBy(key: Bytes, delta: int) returns (reply: Reply, ghost evicted: set<Bytes>)
      requires Valid()
      modifies this`store, this`used, this`log, this`dropped, sieve, ac
      ensures Valid() && old(log) <= log && dropped <= old(dropped)
      ensures Answers(Op.IncrBy(key, delta), old(store), old(Candidates()), reply, evicted)
      ensures Budgeted(Op.IncrBy(key, delta), old(store), old(Candidates()), reply, evicted)
    {
      hide Core, Queued, LogReads, Evictable, Wrote, Parse, Print, Exec, Attempts, Stored;
      IncrExec(Visible(), clock, key, delta);
      if ValidateKey(key).Some? {
        return Fail(ValidateKey(key).value), {};
      }
      var current := ReadState(key);
      EvictablePurged(cfg, old(store), old(Queued()), key, clock);
      var start := if current.Some? then Parse(current.value.data) else Some(0);
      if start == None || !IsI64(start.value + delta) {
        return Fail(NotAnInteger), {};
      }
      var sum := start.value + delta;
      PrintShort(sum);
      reply, evicted := Update(Op.IncrBy(key, delta), Print(sum), Number(sum), current, old(store), old(Candidates()));
    }

    method Append(key: Bytes, suffix: Bytes) returns (reply: Reply, ghost evicted: set<Bytes>)
      requires Valid()
      modifies this`store, this`used, this`log, this`dropped, sieve, ac
      ensures Valid() && old(log) <= log && dropped <= old(dropped)
      ensures Answers(Op.Append(key, suffix), old(store), old(Candidates()), reply, evicted)
      ensures Budgeted(Op.Append(key, suffix), old(store), old(Candidates()), reply, evicted)
    {
      hide Core, Queued, LogReads, Evictable, Wrote;
      if ValidateKey(key).Some? {
        return Fail(ValidateKey(key).value), {};
      }
      var current := ReadState(key);
      EvictablePurged(cfg, old(store), old(Queued()), key, clock);
      var data := if current.Some? then current.value.data + suffix else suffix;
      if ValidateValue(data).Some? {
        return Fail(ValidateValue(data).value), {};
      }
      reply, evicted := Update(Op.Append(key, suffix), data, Number(|data|), current, old(store), old(Candidates()));
    }

    method FlushDb() returns (reply: Reply)
      requires Valid()
      modifies this`store, this`used, this`log, sieve, ac
      ensures Valid()
      ensures Answers(Op.FlushDb, old(store), {}, reply, {})
      ensures store == map[] && used == 0 && Queued() == {}
      ensures log == old(log) + if aof then [R.FlushDb] else []
    {
      hide Queued, IndexShape, IndexAgrees, LogReads;
      ghost var was := store;
      TrackClear();
      Log(R.FlushDb, was);
      return Done;
    }

    /** Changes the deadline of a stored key and nothing else, which leaves the
        index and the log to catch up. */
    method Retime(key: Bytes, expireAt: Option<int>)
      requires key in store && used == TotalBytes(store)
      modifies this`store
      ensures store == old(store)[key := Entry(old(store)[key].data, expireAt)]
      ensures used == TotalBytes(store)
    {
      var e := Entry(store[key].data, expireAt);
      ReplacedBytes(store, key, e);
      store := store[key := e];
    }

    method RemoveLive(key: Bytes)
      requires Valid() && key in store
      modifies this`store, this`used, this`log, sieve, ac
      ensures Valid() && Visible() == old(Visible()) - {key} && old(log) <= log
      ensures store == old(store) - {key}
    {
      hide IndexShape, IndexAgrees, Queued, LogReads;
      ghost var was := store;
      LiveRemove(was, {key}, clock);
      var _ := Remove(key);
      Log(R.Del(key), was);
    }

    method Stamp(key: Bytes, at: int)
      requires Valid() && key in Visible() && clock < at && IsI64(at)
      modifies this`store, this`log, this`dropped, sieve, ac
      ensures Valid() && Visible() == old(Visible())[key := old(Visible())[key].(expireAt := Some(at))]
      ensures store == old(store)[key := old(store)[key].(expireAt := Some(at))]
      ensures old(log) <= log && dropped == old(dropped) - {key}
    {
      hide IndexShape, IndexAgrees, QueuedAfterInsert, LogReads, Queued, TotalBytes;
      ghost var was, e := store, Entry(store[key].data, Some(at));
      AgreesAfterInsert(kind, store, Queued(), dropped, key, e);
      LiveInsert(was, key, e, clock);
      Retime(key, Some(at));
      NotifyInsert(key, true);
      Log(R.PExpireAt(key, at), was);
    }

    method Unstamp(key: Bytes)
      requires Valid() && key in Visible()
      modifies this`store, this`log, this`dropped, sieve, ac
      ensures Valid() && Visible() == old(Visible())[key := old(Visible())[key].(expireAt := None)]
      ensures store == old(store)[key := old(store)[key].(expireAt := None)]
      ensures old(log) <= log && dropped == old(dropped) + {key}
    {
      hide LooseShape, IndexAgrees, Queued, LogReads;
      ghost var was, e := store, Entry(store[key].data, None);
      AgreesAfterPersist(kind, store, Queued(), dropped, key);
      LiveInsert(was, key, e, clock);
      Retime(key, None);
      NotifyRemove(key);
      dropped := dropped + {key};
      Log(R.Persist(key), was);
    }

    /** A deadline already past deletes the key at once. */
    method ExpireAt(key: Bytes, at: int) returns (reply: Reply)
      requires Valid() && IsI64(at)
      modifies this`store, this`used, this`log, this`dropped, sieve, ac
      ensures Valid() && old(log) <= log && dropped <= old(dropped)
      ensures Answers(Op.ExpireAt(key, at), old(store), {}, reply, {})
      ensures store.Keys <= old(store).Keys
    {
      hide Core, Queued, LogReads;
      var current := ReadState(key);
      if current == None {
        return Flag(false);
      }
      if at <= clock {
        RemoveLive(key);
      } else {
        Stamp(key, at);
      }
      return Flag(true);
    }

    /** PERSIST takes the key out of the index whatever the scope. */
    method Persist(key: Bytes) returns (reply: Reply)
      requires Valid()
      modifies this`store, this`used, this`log, this`dropped, sieve, ac
      ensures Valid() && old(log) <= log
      ensures Answers(Op.Persist(key), old(store), {}, reply, {})
      ensures store.Keys <= old(store).Keys
      ensures dropped == if reply == Flag(true) then old(dropped) + {key} else old(dropped)
    {
      hide Core, Queued, LogReads;
      var current := ReadState(key);
      if current == None || current.value.expireAt == None {
        return Flag(false);
      }
      Unstamp(key);
      return Flag(true);
    }

    /** Fast path under the shared lock; only an expired entry is dropped under
        the exclusive one. */
    method Get(key: Bytes) returns (reply: Reply)
      requires Valid()
      modifies this`store, this`used, this`log, sieve, ac
      ensures Valid() && log == old(log) + if aof then DropLog(old(store), key, clock) else []
      ensures Answers(Op.Get(key), old(store), {}, reply, {})
      // A hit is told to the active index.
      ensures reply != Bulk(None) && kind.SieveIndex? ==> sieve.queue == SieveQueue.Marked(old(sieve.queue), key, true)
      ensures reply != Bulk(None) && kind.ClimbIndex? ==> ClimbList.HitOn(old(ac.Value()), key, ac.Value())
    {
      hide IndexShape, IndexAgrees, Queued, R.AllStorable, LogReads, SieveQueue.Marked, ClimbList.HitOn;
      if key !in store {
        return Bulk(None);
      }
      if !Expired(store[key], clock) {
        NotifyAccess(key);
        return Bulk(Some(store[key].data));
      }
      var _ := ReadState(key);
      return Bulk(None);
    }

    method StrLen(key: Bytes) returns (reply: Reply)
      requires Valid()
      modifies this`store, this`used, this`log, sieve, ac
      ensures Valid() && log == old(log) + if aof then DropLog(old(store), key, clock) else []
      ensures Answers(Op.StrLen(key), old(store), {}, reply, {})
    {
      hide Core, Queued, LogReads;
      var current := ReadState(key);
      return Number(if current.Some? then |current.value.data| else 0);
    }

    method Ttl(key: Bytes) returns (reply: Reply)
      requires Valid()
      modifies this`store, this`used, this`log, sieve, ac
      ensures Valid() && log == old(log) + if aof then DropLog(old(store), key, clock) else []
      ensures Answers(Op.Ttl(key), old(store), {}, reply, {})
    {
      hide Core, Queued, LogReads;
      var current := ReadState(key);
      if current == None {
        return TtlIs(Missing);
      }
      return TtlIs(if current.value.expireAt == None then NoExpire else Millis(current.value.expireAt.value - clock));
    }

    /** Takes an expired key out of the store and the counter, not out of the
        index. */
    method Forget(key: Bytes)
      requires Valid() && key in store && Expired(store[key], clock)
      modifies this`store, this`used
      ensures Valid() && Visible() == old(Visible()) && store == old(store) - {key}
    {
      hide IndexShape, Queued;
      LiveRemove(store, {key}, clock);
      assert Visible() - {key} == Visible();
      TotalBytesSplit(store, key);
      ApplyDelta(0 - EntryBytes(key, store[key]));
      store := store - {key};
    }

    /** Unlike every other reader, drops an expired entry without telling the
        index, which is left with a tombstone. */
    method MemoryUsage(key: Bytes) returns (reply: Reply)
      requires Valid()
      modifies this`store, this`used, this`log
      ensures Valid() && log == old(log) + if aof then DropLog(old(store), key, clock) else []
      ensures Answers(Op.MemoryUsage(key), old(store), {}, reply, {})
    {
      hide IndexShape, IndexAgrees, Queued, LogReads, TotalBytes;
      if key in store && Expired(store[key], clock) {
        Forget(key);
        assert R.Apply(store, R.Del(key)) == store;
        Log(R.Del(key), store);
        return Cost(None);
      }
      return Cost(if key in store then Some(EntryBytes(key, store[key])) else None);
    }

    /** Entries past their deadline are not counted, removed or not. */
    method DbSize() returns (reply: Reply)
      requires Valid()
      ensures Answers(Op.DbSize, old(store), {}, reply, {})
    {
      var n, todo := 0, store.Keys;
      ghost var seen: Store := map[];
      while todo != {}
        invariant todo <= store.Keys
        invariant seen.Keys == set k | k in Visible() && k !in todo
        invariant n == |seen.Keys|
        decreases todo
      {
        var k :| k in todo;
        if !Expired(store[k], clock) {
          n := n + 1;
          seen := seen[k := store[k]];
        }
        todo := todo - {k};
      }
      assert seen.Keys == Visible().Keys;
      return Number(n);
    }

    /** Takes every key out of the store, and lists once each those that were live. */
    method RemoveAll(keys: seq<Bytes>) returns (removed: seq<Bytes>)
      requires Core()
      modifies this`store, this`used, sieve, ac
      ensures Core() && store == old(store) - SetOf(keys)
      ensures removed == LiveOnce(keys, old(Visible()))
    {
      hide Core, Queued;
      removed := [];
      ghost var s0 := store;
      assert s0 - SetOf(keys[..0]) == s0;
      for i := 0 to |keys|
        invariant Core() && store == s0 - SetOf(keys[..i])
        invariant removed == LiveOnce(keys[..i], Live(s0, clock))
      {
        var e := Remove(keys[i]);
        assert keys[..i + 1] == keys[..i] + [keys[i]] && keys[..i + 1][..i] == keys[..i];
        SetOfSnoc(keys[..i], keys[i]);
        assert store == s0 - SetOf(keys[..i + 1]);
        if e.Some? && !Expired(e.value, clock) {
          removed := removed + [keys[i]];
        }
      }
      assert keys[..|keys|] == keys;
    }

    /** One DEL record per key, in order. */
    method LogDels(keys: seq<Bytes>, ghost was: Store)
      requires LogReads(was) && R.AllStorable(was) && forall k :: k in keys ==> k in was
      modifies this`log
      ensures LogReads(was - SetOf(keys))
      ensures log == old(log) + if aof then Dels(keys) else []
    {
      hide LogReads;
      assert was - SetOf(keys[..0]) == was;
      assert log == log + [];
      for i := 0 to |keys|
        invariant LogReads(was - SetOf(keys[..i]))
        invariant log == old(log) + if aof then Dels(keys[..i]) else []
      {
        assert keys[i] in keys;
        Log(R.Del(keys[i]), was - SetOf(keys[..i]));
        assert keys[..i + 1] == keys[..i] + [keys[i]];
        SetOfSnoc(keys[..i], keys[i]);
        assert was - SetOf(keys[..i]) - {keys[i]} == was - SetOf(keys[..i + 1]);
        assert Dels(keys[..i + 1]) == Dels(keys[..i]) + [R.Del(keys[i])];
      }
      assert keys[..|keys|] == keys;
    }

    /** The same, read as any store that shows clients what is left. */
    method LogGone(keys: seq<Bytes>, ghost was: Store, ghost left: Store)
      requires LogReads(was) && R.AllStorable(was) && forall k :: k in keys ==> k in was
      requires Live(left, clock) == Live(was - SetOf(keys), clock)
      modifies this`log
      ensures LogReads(left)
      ensures log == old(log) + if aof then Dels(keys) else []
    {
      hide R.AllStorable, R.AllWritable, Live, SetOf, Dels;
      LogDels(keys, was);
    }

    method Del(keys: seq<Bytes>) returns (reply: Reply)
      requires Valid()
      modifies this`store, this`used, this`log, sieve, ac
      ensures Valid()
      ensures Answers(Op.Del(keys), old(store), {}, reply, {})
      ensures log == old(log) + if aof then Dels(LiveOnce(keys, old(Visible()))) else []
    {
      hide Core, Queued, Exec, Named, LiveOnce, Dels, LogReads, Live, SetOf, R.AllStorable, Written;
      ghost var was := store;
      StoredIsStorable();
      var removed := RemoveAll(keys);
      DelAnswers(was, keys, clock);
      LogGone(removed, was, store);
      return Number(|removed|);
    }

    /** Drops whichever of `keys` have expired. */
    method DropExpired(keys: seq<Bytes>)
      requires Valid()
      modifies this`store, this`used, this`log, sieve, ac
      ensures Valid() && Visible() == old(Visible())
      ensures store == old(store) - (SetOf(keys) - Visible().Keys)
      ensures log == old(log) + if aof then Dels(DeadOnce(keys, old(store), clock)) else []
    {
      hide Core, Queued, LogReads;
      ghost var s0, m := store, Visible();
      assert s0 - (SetOf(keys[..0]) - m.Keys) == s0;
      for i := 0 to |keys|
        invariant Valid() && Visible() == m
        invariant store == s0 - (SetOf(keys[..i]) - m.Keys)
        invariant log == old(log) + if aof then Dels(DeadOnce(keys[..i], s0, clock)) else []
      {
        DropNext(s0, m, keys, i);
        DropLogNext(s0, keys, i, clock);
        var _ := ReadState(keys[i]);
      }
      assert keys[..|keys|] == keys;
    }

    /** Two phases: read under the shared lock, then clean up what had expired. */
    method MGet(keys: seq<Bytes>) returns (reply: Reply)
      requires Valid()
      modifies this`store, this`used, this`log, sieve, ac
      ensures Valid() && old(log) <= log
      ensures Answers(Op.MGet(keys), old(store), {}, reply, {})
    {
      hide IndexShape, IndexAgrees, Queued, R.AllStorable, LogReads, SieveQueue.Marked, ClimbList.HitOn;
      var out: seq<Option<Bytes>>, expired: seq<Bytes> := [], [];
      for i := 0 to |keys|
        invariant Valid() && store == old(store) && log == old(log) && |out| == i
        invariant forall j :: 0 <= j < i ==> out[j] == Lookup(Visible(), keys[j])
      {
        if keys[i] in store {
          if !Expired(store[keys[i]], clock) {
            out := out + [Some(store[keys[i]].data)];
            NotifyAccess(keys[i]);
          } else {
            out := out + [None];
            expired := expired + [keys[i]];
          }
        } else {
          out := out + [None];
        }
      }
      assert out == Lookups(keys, Visible());
      DropExpired(expired);
      return Bulks(out);
    }

    method Exists(keys: seq<Bytes>) returns (reply: Reply)
      requires Valid()
      modifies this`store, this`used, this`log, sieve, ac
      ensures Valid() && old(log) <= log
      ensures Answers(Op.Exists(keys), old(store), {}, reply, {})
    {
      hide Core, Queued, LogReads;
      var count, expired: seq<Bytes> := 0, [];
      for i := 0 to |keys|
        invariant count == CountIn(keys[..i], Visible())
        invariant forall k :: k in expired ==> k !in Visible()
      {
        assert keys[..i + 1][..i] == keys[..i];
        if keys[i] in store {
          if !Expired(store[keys[i]], clock) {
            count := count + 1;
          } else {
            expired := expired + [keys[i]];
          }
        }
      }
      assert keys[..|keys|] == keys;
      for i := 0 to |expired|
        invariant Valid() && Visible() == old(Visible()) && old(log) <= log
        invariant count == CountIn(keys, old(Visible()))
      {
        var e := ReadState(expired[i]);
        if e.Some? {
          count := count + 1;
        }
      }
      return Number(count);
    }

    /** Every pair validates before anything changes. */
    method CheckPairs(pairs: seq<(Bytes, Bytes)>) returns (bad: Option<Error>)
      ensures bad == FirstInvalid(pairs)
    {
      assert pairs[0..] == pairs;
      for i := 0 to |pairs|
        invariant FirstInvalid(pairs) == FirstInvalid(pairs[i..])
      {
        bad := Invalid(pairs[i].0, pairs[i].1);
        if bad.Some? {
          return;
        }
        assert pairs[i..][1..] == pairs[i + 1..];
      }
      return None;
    }

    /** Each pair gets its own check; no cumulative bound is kept. A refusal means
        some pair would not fit as a new key; success, that each fits as a
        rewrite of what was there. */
    method EnforceAll(pairs: seq<(Bytes, Bytes)>) returns (ok: bool, ghost evicted: set<Bytes>)
      requires Valid()
      modifies this`store, this`used, this`log, sieve, ac
      ensures Valid() && old(log) <= log
      ensures store == old(store) - evicted && evicted <= old(Candidates())
      ensures cfg.maxMemory == 0 ==> ok && evicted == {}
      ensures cfg.maxMemory != 0 ==> PairsFit(old(store), old(Candidates()), pairs, cfg.maxMemory, ok)
    {
      hide Core, Queued, LogReads, Evictable, StillFull;
      ok, evicted := true, {};
      ghost var s0, all := store, Candidates();
      assert store == store - {};
      for i := 0 to |pairs|
        invariant Valid() && old(log) <= log
        invariant store == s0 - evicted && evicted <= all && Candidates() == all - evicted
        invariant cfg.maxMemory == 0 ==> evicted == {}
        invariant cfg.maxMemory != 0 ==> forall j :: 0 <= j < i ==> WriteFits(s0, all, pairs[j].0, pairs[j].1, cfg.maxMemory)
      {
        ghost var order;
        ok, order := EnforceForWrite(pairs[i].0, |pairs[i].1|);
        PairChecked(s0, all, evicted, pairs[i].0, pairs[i].1, cfg.maxMemory);
        assert s0 - evicted - SetOf(order) == s0 - (evicted + SetOf(order));
        evicted := evicted + SetOf(order);
        if !ok {
          return;
        }
      }
      return true, evicted;
    }

    method LogSets(pairs: seq<(Bytes, Bytes)>, ghost was: Store)
      requires LogReads(was) && FirstInvalid(pairs) == None
      modifies this`log
      ensures LogReads(PutAll(was, pairs)) && old(log) <= log
    {
      hide LogReads;
      for i := 0 to |pairs|
        invariant LogReads(PutAll(was, pairs[..i])) && old(log) <= log
      {
        NoneInvalid(pairs, i);
        Log(R.Set(pairs[i].0, pairs[i].1), PutAll(was, pairs[..i]));
        assert pairs[..i + 1][..i] == pairs[..i];
      }
      assert pairs[..|pairs|] == pairs;
    }

    method InsertAll(pairs: seq<(Bytes, Bytes)>)
      requires Core() && FirstInvalid(pairs) == None
      modifies this`store, this`used, this`dropped, sieve, ac
      ensures Core() && store == PutAll(old(store), pairs) && dropped <= old(dropped)
    {
      hide Core;
      for i := 0 to |pairs|
        invariant Core() && store == PutAll(old(store), pairs[..i]) && dropped <= old(dropped)
      {
        NoneInvalid(pairs, i);
        var _ := TrackInsert(pairs[i].0, Entry(pairs[i].1, None));
        assert pairs[..i + 1][..i] == pairs[..i];
      }
      assert pairs[..|pairs|] == pairs;
    }

    method MSet(pairs: seq<(Bytes, Bytes)>) returns (reply: Reply, ghost evicted: set<Bytes>)
      requires Valid()
      modifies this`store, this`used, this`log, this`dropped, sieve, ac
      ensures Valid() && old(log) <= log && dropped <= old(dropped)
      ensures Answers(Op.MSet(pairs), old(store), old(Candidates()), reply, evicted)
      ensures cfg.maxMemory != 0 && FirstInvalid(pairs) == None ==>
                PairsFit(old(store), old(Candidates()), pairs, cfg.maxMemory, reply == Done)
    {
      hide Core, Queued, LogReads, Evictable, PairsFit;
      var bad := CheckPairs(pairs);
      if bad.Some? {
        return Fail(bad.value), {};
      }
      var ok;
      ok, evicted := EnforceAll(pairs);
      LiveRemove(old(store), evicted, clock);
      if !ok {
        return Fail(OutOfMemory), evicted;
      }
      ghost var was := store;
      LivePutAll(was, pairs, clock);
      PutAllLessEvicted(old(Visible()), evicted, pairs);
      LogSets(pairs, was);
      InsertAll(pairs);
      return Done, evicted;
    }

    // ---- Active expiry ----

    /** The hash map's iteration order: any enumeration of its keys. */
    method Enumerate() returns (order: seq<Bytes>)
      ensures NoDup(order) && forall k :: k in order <==> k in store
    {
      order := [];
      var todo := store.Keys;
      while todo != {}
        invariant todo <= store.Keys
        invariant NoDup(order) && forall k :: k in order <==> k in store.Keys - todo
        decreases todo
      {
        var k :| k in todo;
        assert k !in order;
        order := order + [k];
        todo := todo - {k};
      }
    }

    /** The expired keys among the next `sample` of the rotated order. */
    method Examine(sample: nat, order: seq<Bytes>) returns (examined: nat, victims: seq<Bytes>)
      requires forall k :: k in order ==> k in store
      ensures examined == Min(sample, |order|)
      ensures SetOf(victims) == Sweeper.Victims(order, cursor, sample, store, clock)
      ensures SetOf(victims) - Visible().Keys == SetOf(victims)
    {
      var walk := Sweeper.Rotated(order, cursor);
      Sweeper.RotatedKeeps(order, cursor);
      examined, victims := 0, [];
      while examined < |walk| && examined < sample
        invariant examined <= Min(sample, |walk|)
        invariant forall k :: k in victims <==> k in walk[..examined] && Expired(store[k], clock)
      {
        var k := walk[examined];
        assert walk[..examined + 1] == walk[..examined] + [k];
        examined := examined + 1;
        if Expired(store[k], clock) {
          victims := victims + [k];
        }
      }
    }

    /** One sweeper tick over the iteration order `order`. */
    method SweepExpired(sample: nat, order: seq<Bytes>) returns (examined: nat)
      requires Valid()
      requires NoDup(order) && forall k :: k in order <==> k in store
      modifies this`store, this`used, this`log, this`cursor, sieve, ac
      ensures Valid() && Visible() == old(Visible()) && old(log) <= log
      ensures examined == Min(sample, |order|)
      ensures sample == 0 ==> store == old(store) && cursor == old(cursor)
      ensures sample > 0 ==>
                && store == old(store) - Sweeper.Victims(order, old(cursor), sample, old(store), clock)
                && cursor == Sweeper.NextCursor(order, old(cursor), sample)
    {
      hide Core, Queued, LogReads;
      if sample == 0 {
        return 0;
      }
      var victims;
      examined, victims := Examine(sample, order);
      if order != [] {
        cursor := Sweeper.Wrap(Sweeper.Wrap(cursor, |order|) + examined, |order|);
      }
      DropExpired(victims);
    }

    // ---- Policy switch and runs ----

    /** A new configuration, taken as one step. The index is rebuilt only when
        the kind of index changes, and the other one is emptied. */
    method SetEvictionConfig(newCfg: Config)
      requires Valid()
      modifies this`cfg, this`kind, this`dropped, sieve, ac
      ensures Valid() && cfg == newCfg
      ensures if KindOf(newCfg.policy) == old(kind) then dropped == old(dropped) && Queued() == old(Queued())
              else dropped == {}
    {
      var newKind := KindOf(newCfg.policy);
      if newKind != kind {
        match newKind {
          case SieveIndex(scope, _) =>
            sieve.Rebuild(store, scope);
            ac.Clear();
          case ClimbIndex(scope) =>
            ac.Rebuild(store, scope);
            sieve.Clear();
          case NoIndex =>
            sieve.Clear();
            ac.Clear();
        }
        kind, dropped := newKind, {};
      }
      cfg := newCfg;
    }

    method ExecuteWrite(op: Op) returns (reply: Reply, ghost evicted: set<Bytes>)
      requires Valid() && Writes(op)
      modifies this`store, this`used, this`log, this`dropped, sieve, ac
      ensures Valid() && old(log) <= log && dropped <= old(dropped)
      ensures Answers(op, old(store), old(Candidates()), reply, evicted)
      ensures Budgeted(op, old(store), old(Candidates()), reply, evicted)
    {
      hide Core, Queued, LogReads, Evictable, Wrote, Exec;
      match op {
        case Set(k, v) =>
          var previous;
          reply, previous, evicted := Set(k, v);
        case SetNx(k, v) => reply, evicted := SetNx(k, v);
        case MSet(pairs) => reply, evicted := MSet(pairs);
        case IncrBy(k, delta) => reply, evicted := IncrBy(k, delta);
        case Append(k, suffix) => reply, evicted := Append(k, suffix);
      }
    }

    method ExecuteOther(op: Op) returns (reply: Reply)
      requires Valid() && WellTyped(op) && !Writes(op)
      modifies this`store, this`used, this`log, this`dropped, sieve, ac
      ensures Valid() && old(log) <= log && dropped <= old(dropped) + Unqueued(op, reply)
      ensures Answers(op, old(store), {}, reply, {})
    {
      hide Core, Queued, LogReads, Evictable, Exec;
      match op {
        case Get(k) => reply := Get(k);
        case MGet(keys) => reply := MGet(keys);
        case Exists(keys) => reply := Exists(keys);
        case StrLen(k) => reply := StrLen(k);
        case Del(keys) => reply := Del(keys);
        case FlushDb => reply := FlushDb();
        case ExpireAt(k, at) => reply := ExpireAt(k, at);
        case Persist(k) => reply := Persist(k);
        case Ttl(k) => reply := Ttl(k);
        case MemoryUsage(k) => reply := MemoryUsage(k);
        case DbSize => reply := DbSize();
      }
    }

    method Execute(op: Op) returns (reply: Reply, ghost evicted: set<Bytes>)
      requires Valid() && WellTyped(op)
      modifies this`store, this`used, this`log, this`dropped, sieve, ac
      ensures Valid() && old(log) <= log && dropped <= old(dropped) + Unqueued(op, reply)
      ensures Answers(op, old(store), old(Candidates()), reply, evicted)
      ensures Budgeted(op, old(store), old(Candidates()), reply, evicted)
    {
      hide Core, Queued, LogReads, Evictable, Wrote, Exec;
      if Writes(op) {
        reply, evicted := ExecuteWrite(op);
      } else {
        evicted := {};
        reply := ExecuteOther(op);
      }
    }

    /** The engine between two events. */
    ghost function Now(): Moment
      reads `store, `clock, `log
    {
      Moment(store, clock, log)
    }

    /** Any run of commands, time, sweeps and policy switches, capped or not. The
        joint invariant holds throughout and the log only grows. Without a cap
        the run answers exactly as the reference machine: stale entries, lazy and
        active expiry, the log and the index are invisible. Only a successful
        PERSIST takes a stored key out of an all-keys index. */
    method Run(events: seq<Event>) returns (replies: seq<Reply>, ghost moments: seq<Moment>)
      requires Valid() && forall i :: 0 <= i < |events| ==> Sendable(events[i])
      modifies this, sieve, ac
      ensures Valid() && aof == old(aof) && base == old(base)
      ensures old(cfg).maxMemory == 0 && Uncapped(events) ==>
                Ref(Visible(), clock, replies) == RefRun(Ref(old(Visible()), old(clock), []), events)
      ensures dropped <= old(dropped) + Persisted(events, replies)
      ensures old(dropped) == {} && Persisted(events, replies) == {} && kind != NoIndex && kind.scope == AllKeys ==>
                store.Keys <= Queued()
      ensures moments != [] && moments[0] == old(Now()) && moments[|moments| - 1] == Now()
      ensures aof ==> History(base, moments)
    {
      hide IndexShape, IndexAgrees, Queued, R.AllStorable, RefStep, History;
      replies, moments := [], [Now()];
      ghost var r0 := Ref(Visible(), clock, []);
      if aof {
        HistoryStarts(base, Now());
      }
      for i := 0 to |events|
        invariant Valid() && aof == old(aof) && base == old(base)
        invariant old(cfg).maxMemory == 0 && Uncapped(events) ==>
                    cfg.maxMemory == 0 && Ref(Visible(), clock, replies) == RefRun(r0, events[..i])
        invariant dropped <= old(dropped) + Persisted(events[..i], replies)
        invariant moments != [] && moments[0] == old(Now()) && moments[|moments| - 1] == Now()
        invariant aof ==> History(base, moments)
      {
        assert events[..i + 1][..i] == events[..i];
        replies := Do(events[i], replies);
        if aof {
          HistoryGrows(base, moments, Now());
        }
        moments := moments + [Now()];
      }
      assert events[..|events|] == events;
      if dropped == {} {
        AllQueued(kind, store, Queued());
      }
    }

    method Do(e: Event, before: seq<Reply>) returns (replies: seq<Reply>)
      requires Valid() && Sendable(e)
      modifies this, sieve, ac
      ensures Valid() && aof == old(aof) && base == old(base) && old(log) <= log && old(clock) <= clock
      ensures cfg == if e.Configure? then e.cfg else old(cfg)
      ensures old(cfg).maxMemory == 0 ==>
                Ref(Visible(), clock, replies) == RefStep(Ref(old(Visible()), old(clock), before), e)
      ensures if e.Cmd? then |replies| == |before| + 1 && replies[..|before|] == before else replies == before
      ensures dropped <= old(dropped) + if e.Cmd? then Unqueued(e.op, replies[|before|]) else {}
    {
      hide Core, Queued, LogReads, Budgeted, Exec;
      replies := before;
      match e {
        case Cmd(op) =>
          var reply;
          ghost var evicted;
          reply, evicted := Execute(op);
          assert Exec(old(Visible()), clock, op).0 - {} == Exec(old(Visible()), clock, op).0;
          replies := replies + [reply];
        case Pass(ms) =>
          Tick(clock + ms);
        case SweepTick(sample) =>
          var order := Enumerate();
          var _ := SweepExpired(sample, order);
        case Configure(newCfg) =>
          SetEvictionConfig(newCfg);
      }
    }
  }

  /** The key a successful PERSIST takes out of the index. */
  function Unqueued(op: Op, reply: Reply): set<Bytes> {
    if op.Persist? && reply == Flag(true) then {op.key} else {}
  }

  /** The keys a run's successful PERSISTs named; replies answer the commands in
      order. */
  function Persisted(events: seq<Event>, replies: seq<Reply>): set<Bytes> {
    if events == [] then {}
    else
      var before, e := events[..|events| - 1], events[|events| - 1];
      if !e.Cmd? || replies == [] then Persisted(before, replies)
      else Persisted(before, replies[..|replies| - 1]) + Unqueued(e.op, replies[|replies| - 1])
  }

  /** The store, the clock and the log at one moment of a run. */
  datatype Moment = Moment(store: Store, clock: int, log: seq<R.Record>)

  /** Moments of a session that started from `base`: time and the log only grow,
      and at each the log read as what was visible. */
  ghost predicate History(base: Store, moments: seq<Moment>) {
    && (forall i :: 0 <= i < |moments| ==> Recorded(base, moments[i]))
    && (forall i, j :: 0 <= i < j < |moments| ==> Precedes(moments[i], moments[j]))
  }

  ghost predicate Recorded(base: Store, m: Moment) {
    R.AllWritable(m.log) && Live(R.ApplyAll(base, m.log), m.clock) == Live(m.store, m.clock)
  }

  predicate Precedes(a: Moment, b: Moment) {
    a.clock <= b.clock && a.log <= b.log
  }

  lemma HistoryStarts(base: Store, first: Moment)
    requires Recorded(base, first)
    ensures History(base, [first])
  {
  }

  lemma HistoryGrows(base: Store, moments: seq<Moment>, next: Moment)
    requires History(base, moments) && moments != [] && Recorded(base, next)
    requires Precedes(moments[|moments| - 1], next)
    ensures History(base, moments + [next])
  {
    forall i | 0 <= i < |moments|
      ensures Precedes(moments[i], next)
    {
      assert i < |moments| - 1 ==> Precedes(moments[i], moments[|moments| - 1]);
    }
  }

  /** What the engine's log is worth after a crash: `p` is the log the process
      started from at `started`, `e.log` what it appended since. Replay at any
      later clock never resurrects or alters a key, and restores a live key
      exactly when no lifted deadline dooms it. */
  lemma RestartRestores(e: KvEngine, p: seq<R.Record>, started: int, t: int, k: Bytes)
    requires e.Valid() && e.aof && e.base == R.Replay(p, started)
    requires started <= e.clock <= t
    ensures k in R.Replay(p + e.log, t) <==> k in Live(e.store, t) && !R.Doomed(p + e.log, k, t)
    ensures k in R.Replay(p + e.log, t) ==> R.Replay(p + e.log, t)[k] == e.store[k]
  {
    R.ReplayRestores(p, e.log, e.store, started, e.clock, t, k);
  }

  /** What a policy can evict, by scope: the keys with a deadline, or every key
      but, for the indexed policies, those a PERSIST took out of the index. */
  lemma EvictableByScope(cfg: Config, store: Store, queued: set<Bytes>, dropped: set<Bytes>)
    requires IndexAgrees(KindOf(cfg.policy), store, queued, dropped)
    requires cfg.policy != NoEviction && (cfg.policy.Sampled? ==> cfg.samples >= 1)
    ensures Evictable(cfg, store, queued) ==
            if PolicyScope(cfg.policy) == Volatile then set k | k in store && store[k].expireAt.Some?
            else if cfg.policy.Sampled? then store.Keys
            else store.Keys - dropped
  {
  }

  /** With nothing dropped an all-keys index holds every stored key. */
  lemma AllQueued(kind: IndexKind, store: Store, queued: set<Bytes>)
    requires IndexAgrees(kind, store, queued, {})
    ensures kind != NoIndex && kind.scope == AllKeys ==> store.Keys <= queued
  {
  }

  /** What no sweep can take: everything without a policy or a sample; else the
      keys without a deadline (volatile), those a PERSIST dropped from the index
      (all keys, indexed), or nothing (all keys, sampled). */
  ghost function Kept(cfg: Config, store: Store, dropped: set<Bytes>): Store {
    map k | k in store && Keeps(cfg, store, dropped, k) :: store[k]
  }

  ghost predicate Keeps(cfg: Config, store: Store, dropped: set<Bytes>, k: Bytes)
    requires k in store
  {
    || cfg.policy == NoEviction
    || (cfg.policy.Sampled? && cfg.samples == 0)
    || (if PolicyScope(cfg.policy) == Volatile then store[k].expireAt == None
        else !cfg.policy.Sampled? && k in dropped)
  }

  /** Would the engine make room for `incoming` bytes? */
  ghost predicate MakesRoom(e: KvEngine, incoming: nat)
    reads e, e.sieve, e.ac
  {
    Fits(TotalBytes(e.store - e.Candidates()), incoming, e.cfg.maxMemory)
  }

  /** Under every policy room can be made exactly when the bytes fit beside what
      no sweep can take. */
  lemma RoomBesideKept(e: KvEngine, incoming: nat)
    requires e.Valid()
    ensures MakesRoom(e, incoming) <==> Fits(TotalBytes(Kept(e.cfg, e.store, e.dropped)), incoming, e.cfg.maxMemory)
  {
    hide KvEngine.LogReads, R.AllStorable;
    if e.cfg.policy == NoEviction {
      NothingToEvict(e.cfg, e.store, e.Queued());
    } else if !(e.cfg.policy.Sampled? && e.cfg.samples == 0) {
      EvictableByScope(e.cfg, e.store, e.Queued(), e.dropped);
    }
    assert e.store - e.Candidates() == Kept(e.cfg, e.store, e.dropped);
  }

  /** So under an all-keys policy room is made exactly when the bytes fit alone:
      always if it samples, and if it is indexed while no stored key is one that a
      PERSIST dropped. */
  lemma AllKeysFitsAlone(e: KvEngine, incoming: nat)
    requires e.Valid() && e.cfg.policy != NoEviction && PolicyScope(e.cfg.policy) == AllKeys
    requires if e.cfg.policy.Sampled? then e.cfg.samples >= 1 else e.dropped !! e.store.Keys
    ensures MakesRoom(e, incoming) <==> incoming <= e.cfg.maxMemory
  {
    hide KvEngine.Valid, KvEngine.Candidates, MakesRoom;
    RoomBesideKept(e, incoming);
    assert Kept(e.cfg, e.store, e.dropped) == map[];
  }

  /** That is the only way: "room exactly when it fits alone" holds of all sizes
      if and only if nothing is kept. */
  lemma FitsAloneIffNothingKept(e: KvEngine)
    requires e.Valid()
    ensures (forall incoming: nat :: MakesRoom(e, incoming) <==> incoming <= e.cfg.maxMemory) <==>
            Kept(e.cfg, e.store, e.dropped) == map[]
  {
    hide KvEngine.Core, KvEngine.LogReads, KvEngine.Candidates, MakesRoom, Keeps;
    var kept := Kept(e.cfg, e.store, e.dropped);
    forall incoming: nat
      ensures MakesRoom(e, incoming) <==> Fits(TotalBytes(kept), incoming, e.cfg.maxMemory)
    {
      RoomBesideKept(e, incoming);
    }
    if k :| k in kept {
      TotalBytesSplit(kept, k);
      assert !MakesRoom(e, e.cfg.maxMemory);
    } else {
      assert kept == map[];
    }
  }

  /** Under a volatile policy room is made exactly when the bytes fit beside the
      keys that have no deadline. */
  lemma VolatileFitsBesideTheRest(e: KvEngine, incoming: nat)
    requires e.Valid() && e.cfg.policy != NoEviction && PolicyScope(e.cfg.policy) == Volatile
    requires e.cfg.policy.Sampled? ==> e.cfg.samples >= 1
    ensures var rest := map k | k in e.store && e.store[k].expireAt == None :: e.store[k];
            MakesRoom(e, incoming) <==> Fits(TotalBytes(rest), incoming, e.cfg.maxMemory)
  {
    hide KvEngine.Valid, KvEngine.Candidates, MakesRoom;
    RoomBesideKept(e, incoming);
    assert Kept(e.cfg, e.store, e.dropped) == map k | k in e.store && e.store[k].expireAt == None :: e.store[k];
  }

  /** For a write: it succeeds exactly when it fits beside all that is kept, such
      as the keys a PERSIST dropped. */
  lemma WriteBesideKept(e: KvEngine, key: Bytes, value: Bytes)
    requires e.Valid()
    ensures WriteFits(e.store, e.Candidates() * e.store.Keys, key, value, e.cfg.maxMemory) <==>
            Fits(TotalBytes(Kept(e.cfg, e.store, e.dropped)), NetGrowth(e.store, key, |value|), e.cfg.maxMemory)
  {
    hide KvEngine.Core, KvEngine.LogReads, Evictable;
    EvictableIsStored(e.cfg, e.store, e.Queued());
    assert e.Candidates() * e.store.Keys == e.Candidates();
    RoomBesideKept(e, NetGrowth(e.store, key, |value|));
  }

  /** In particular a key that a PERSIST dropped from an all-keys index cannot be
      evicted, and a write that does not fit beside it is refused. */
  lemma DroppedStays(e: KvEngine, dropped: Bytes, key: Bytes, value: Bytes)
    requires e.Valid() && e.kind != NoIndex && e.kind.scope == AllKeys
    requires dropped in e.store && dropped in e.dropped
    requires !Fits(EntryBytes(dropped, e.store[dropped]), NetGrowth(e.store, key, |value|), e.cfg.maxMemory)
    ensures !WriteFits(e.store, e.Candidates() * e.store.Keys, key, value, e.cfg.maxMemory)
  {
    hide KvEngine.LogReads, R.AllStorable, IndexAgrees, WriteFits, KvEngine.Candidates, KvEngine.Queued;
    WriteBesideKept(e, key, value);
    TotalBytesSplit(Kept(e.cfg, e.store, e.dropped), dropped);
  }

  /** An engine whose one key had a deadline and lost it again. */
  method Persisting(cfg: Config, key: Bytes, value: Bytes) returns (e: KvEngine)
    requires Invalid(key, value) == None && EntryBytes(key, Entry(value, None)) <= cfg.maxMemory
    ensures fresh(e) && fresh(e.sieve) && fresh(e.ac)
    ensures e.Valid() && e.cfg == cfg && e.clock == 0 && key in e.dropped
    ensures e.store == map[key := Entry(value, None)]
  {
    hide KvEngine.Core, KvEngine.Queued, KvEngine.LogReads;
    e := Holding(cfg, key, value);
    assert e.Visible() == map[key := Entry(value, None)];
    var reply := e.ExpireAt(key, 1);
    StampedThenNot(key, value);
    assert e.Visible() == map[key := Entry(value, Some(1))];
    reply := e.Persist(key);
    assert e.Visible() == map[key := Entry(value, None)];
    assert e.store.Keys == e.Visible().Keys;
  }

  /** The reference machine on EXPIREAT 1 and PERSIST at clock 0. */
  lemma StampedThenNot(key: Bytes, value: Bytes)
    ensures var m: Store, stamped: Store := map[key := Entry(value, None)], map[key := Entry(value, Some(1))];
            && Exec(m, 0, Op.ExpireAt(key, 1)) == (stamped, Flag(true))
            && Exec(stamped, 0, Op.Persist(key)) == (m, Flag(true))
            && stamped - ({} - Written(Op.ExpireAt(key, 1))) == stamped && m - ({} - Written(Op.Persist(key))) == m
  {
    var m: Store, stamped: Store := map[key := Entry(value, None)], map[key := Entry(value, Some(1))];
    assert m[key := m[key].(expireAt := Some(1))] == stamped;
    assert stamped[key := stamped[key].(expireAt := None)] == m;
  }

  /** So after a PERSIST an all-keys policy can refuse a write that fits alone:
      200 bytes are held back under a ceiling of 210, and 145 are refused. */
  method PersistRefuses() returns (e: KvEngine, reply: Reply)
    ensures fresh(e) && e.Valid() && e.cfg == Config(210, SievePolicy(AllKeys, false), 5)
    ensures EntryBytes([8], Entry([], None)) <= 210 && reply == Fail(OutOfMemory)
  {
    hide KvEngine.Core, KvEngine.LogReads, KvEngine.Queued, Evictable, WriteFits;
    var key: Bytes, other: Bytes, value: Bytes := [7], [8], seq(55, _ => 0);
    e := Persisting(Config(210, SievePolicy(AllKeys, false), 5), key, value);
    WriteBesideKept(e, other, []);
    assert Kept(e.cfg, e.store, e.dropped) == map[key := Entry(value, None)];
    OneKeyBytes(key, Entry(value, None));
    var previous;
    ghost var gone;
    reply, previous, gone := e.Set(other, []);
  }

  /** An engine that holds one key. */
  method Holding(cfg: Config, key: Bytes, value: Bytes) returns (e: KvEngine)
    requires Invalid(key, value) == None && EntryBytes(key, Entry(value, None)) <= cfg.maxMemory
    ensures fresh(e) && fresh(e.sieve) && fresh(e.ac)
    ensures e.Valid() && e.cfg == cfg && e.clock == 0 && e.dropped == {}
    ensures e.store == map[key := Entry(value, None)] && e.used == EntryBytes(key, Entry(value, None))
  {
    hide KvEngine.IndexShape, IndexAgrees, KvEngine.Queued, R.AllStorable, KvEngine.LogReads, Evictable;
    e := new KvEngine();
    e.SetEvictionConfig(cfg);
    OneKeyBytes(key, Entry(value, None));
    var reply, previous;
    ghost var gone;
    reply, previous, gone := e.Set(key, value);
    assert e.store == map[key := Entry(value, None)];
  }

  /** The ceiling can be exceeded: rewriting the only key evicts that very key,
      and the room was computed as if it stayed. */
  method OvershootHappens() returns (e: KvEngine)
    ensures fresh(e) && e.Valid() && e.cfg.maxMemory == 210 && e.used == 220
  {
    hide KvEngine.IndexShape, IndexAgrees, KvEngine.Queued, R.AllStorable, KvEngine.LogReads;
    var key: Bytes, large: Bytes := [7], seq(75, _ => 0);
    e := Holding(Config(210, Sampled(AllKeys), 5), key, seq(55, _ => 0));
    OneKeyBytes(key, Entry(large, None));
    var reply, previous;
    ghost var gone;
    reply, previous, gone := e.Set(key, large);
    assert e.store == map[key := Entry(large, None)];
  }

  lemma OneKeyBytes(key: Bytes, e: Entry)
    ensures TotalBytes(map[key := e]) == EntryBytes(key, e)
    ensures TotalBytes(map[]) == 0
  {
    var none: Store := map[];
    TotalBytesUpdate(none, key, e);
    assert none - {key} == none && none[key := e] == map[key := e];
  }

  lemma DropLogNext(s: Store, keys: seq<Bytes>, i: nat, now: int)
    requires i < |keys|
    ensures var left := s - (SetOf(keys[..i]) - Live(s, now).Keys);
            Dels(DeadOnce(keys[..i + 1], s, now)) == Dels(DeadOnce(keys[..i], s, now)) + DropLog(left, keys[i], now)
    ensures DeadOnce(keys[..0], s, now) == []
  {
    assert keys[..i + 1][..i] == keys[..i];
    assert keys[..i + 1][i] == keys[i];
  }

  lemma DropNext(s: Store, m: Store, keys: seq<Bytes>, i: nat)
    requires i < |keys|
    ensures var t := s - (SetOf(keys[..i]) - m.Keys);
            s - (SetOf(keys[..i + 1]) - m.Keys) == if keys[i] in t && keys[i] !in m then t - {keys[i]} else t
  {
    assert keys[..i + 1] == keys[..i] + [keys[i]];
    assert SetOf(keys[..i + 1]) == SetOf(keys[..i]) + {keys[i]};
  }

  /** The members of `keys` that are in `m`, each at its first occurrence. */
  function LiveOnce(keys: seq<Bytes>, m: Store): seq<Bytes> {
    if keys == [] then []
    else
      var before, k := keys[..|keys| - 1], keys[|keys| - 1];
      LiveOnce(before, m) + if k in m && k !in before then [k] else []
  }

  lemma {:induction false} LiveOnceHas(keys: seq<Bytes>, m: Store)
    ensures NoDup(LiveOnce(keys, m))
    ensures forall k :: k in LiveOnce(keys, m) <==> k in keys && k in m
  {
    if keys != [] {
      LiveOnceHas(keys[..|keys| - 1], m);
      assert keys == keys[..|keys| - 1] + [keys[|keys| - 1]];
    }
  }

  function Dels(keys: seq<Bytes>): seq<R.Record> {
    seq(|keys|, i requires 0 <= i < |keys| => R.Del(keys[i]))
  }

  /** DEL on a store, as the reference machine has it on the live entries. */
  lemma DelAnswers(s: Store, keys: seq<Bytes>, now: int)
    ensures var m, op := Live(s, now), Op.Del(keys);
            && (forall k :: k in LiveOnce(keys, m) ==> k in s)
            && Live(s - SetOf(keys), now) == Live(s - SetOf(LiveOnce(keys, m)), now)
            && Exec(m, now, op).1 == Number(|LiveOnce(keys, m)|)
            && Exec(m, now, op).0 - ({} - Written(op)) == Live(s - SetOf(keys), now)
  {
    hide LiveOnce, Live, SetOf;
    LiveDels(s, keys, now);
    var m, op := Live(s, now), Op.Del(keys);
    assert Exec(m, now, op) == (m - Named(keys), Number(|Named(keys) * m.Keys|));
    assert {} - Written(op) == {};
    LessNothing(m - Named(keys));
  }

  lemma LessNothing(m: Store)
    ensures m - {} == m
  {
  }

  lemma LiveDels(s: Store, keys: seq<Bytes>, now: int)
    ensures var removed := LiveOnce(keys, Live(s, now));
            && (forall k :: k in removed ==> k in s)
            && Live(s - SetOf(keys), now) == Live(s, now) - SetOf(keys) == Live(s - SetOf(removed), now)
            && SetOf(keys) == Named(keys)
            && |removed| == |Named(keys) * Live(s, now).Keys|
  {
    hide LiveOnce, NoDup;
    var m := Live(s, now);
    var removed := LiveOnce(keys, m);
    LiveOnceHas(keys, m);
    NoDupSize(removed);
    assert SetOf(removed) == Named(keys) * m.Keys;
    LiveRemove(s, SetOf(keys), now);
    LiveRemove(s, SetOf(removed), now);
    assert m - SetOf(removed) == m - SetOf(keys);
  }

  lemma {:induction false} LivePutAll(s: Store, pairs: seq<(Bytes, Bytes)>, now: int)
    ensures Live(PutAll(s, pairs), now) == PutAll(Live(s, now), pairs)
  {
    if pairs != [] {
      var front, last := pairs[..|pairs| - 1], pairs[|pairs| - 1];
      LivePutAll(s, front, now);
      LiveInsert(PutAll(s, front), last.0, Entry(last.1, None), now);
    }
  }

  lemma {:induction false} PutAllLessEvicted(m: Store, evicted: set<Bytes>, pairs: seq<(Bytes, Bytes)>)
    ensures PutAll(m - evicted, pairs) == PutAll(m, pairs) - (evicted - Written(Op.MSet(pairs)))
  {
    if pairs != [] {
      var front, last := pairs[..|pairs| - 1], pairs[|pairs| - 1];
      var written := Written(Op.MSet(front));
      PutAllLessEvicted(m, evicted, front);
      PutLessEvicted(PutAll(m, front), evicted - written, last.0, Entry(last.1, None));
      assert pairs == front + [last];
      assert Written(Op.MSet(pairs)) == written + {last.0};
      assert evicted - written - {last.0} == evicted - (written + {last.0});
    }
  }

  lemma PutLessEvicted(m: Store, evicted: set<Bytes>, key: Bytes, e: Entry)
    ensures (m - evicted)[key := e] == m[key := e] - (evicted - {key})
  {
  }

  /** Would writing `value` at `key` fit with every evictable key gone? */
  ghost predicate WriteFits(s: Store, all: set<Bytes>, key: Bytes, value: Bytes, max: nat) {
    Fits(TotalBytes(s - all), NetGrowth(s, key, |value|), max)
  }

  /** Bytes a write adds, as the engine computes it before sweeping. */
  function NetGrowth(s: Store, key: Bytes, valueLen: nat): nat {
    SaturatingSub(|key| + valueLen + PER_ENTRY_OVERHEAD, if key in s then EntryBytes(key, s[key]) else 0)
  }

  /** Which is what the write would add to the total cost if nothing were
      evicted, or nothing if it would lower it. */
  lemma NetGrowthIsGrowth(s: Store, key: Bytes, e: Entry)
    ensures NetGrowth(s, key, |e.data|) == Max(0, TotalBytes(s[key := e]) - TotalBytes(s))
  {
    ReplacedBytes(s, key, e);
  }

  /** So with nothing evictable a write succeeds exactly when the store fits under
      the ceiling before and after it. */
  lemma UnevictableWriteFits(s: Store, key: Bytes, e: Entry, max: nat)
    ensures WriteFits(s, {}, key, e.data, max) <==> TotalBytes(s) <= max && TotalBytes(s[key := e]) <= max
  {
    NetGrowthIsGrowth(s, key, e);
    assert s - {} == s;
  }

  /** How far a write may exceed the ceiling. */
  ghost function Overshoot(s: Store, evicted: set<Bytes>, key: Bytes, value: Bytes): nat {
    if key in s && key in evicted then Min(EntryBytes(key, s[key]), EntryBytes(key, Entry(value, None))) else 0
  }

  /** Where a successful write leaves the counter: under the ceiling, except
      exactly when the sweep took the very key and its new entry does not fit
      beside what is left. */
  ghost predicate UnderCeiling(s: Store, evicted: set<Bytes>, key: Bytes, value: Bytes, used: nat, max: nat) {
    && used <= max + Overshoot(s, evicted, key, value)
    && (used <= max <==>
        (key in s && key in evicted ==> TotalBytes(s - evicted) + EntryBytes(key, Entry(value, None)) <= max))
  }

  /** What a write of `value` at `key` into `s`, with evictable keys `all`, comes
      to under the ceiling `max`. Only evictable keys go, none if the write fits
      as things are, and it succeeds exactly when it would fit without them. */
  ghost predicate Wrote(s: Store, all: set<Bytes>, key: Bytes, value: Bytes, max: nat,
                        evicted: set<Bytes>, used: nat, ok: bool) {
    && evicted <= all
    && (Fits(TotalBytes(s), NetGrowth(s, key, |value|), max) ==> evicted == {})
    && (ok <==> WriteFits(s, all, key, value, max))
    && (ok ==> UnderCeiling(s, evicted, key, value, used, max))
  }

  lemma WroteWhat(s: Store, all: set<Bytes>, order: seq<Bytes>, key: Bytes, e: Entry, max: nat, ok: bool)
    requires Enforced(s, all, order, NetGrowth(s, key, |e.data|), max, ok)
    ensures ok ==> Wrote(s, all, key, e.data, max, SetOf(order), TotalBytes((s - SetOf(order))[key := e]), true)
    ensures !ok ==> Wrote(s, all, key, e.data, max, SetOf(order), TotalBytes(s - SetOf(order)), false)
  {
    FittingEvictsNone(s, all, order, NetGrowth(s, key, |e.data|), max);
    if ok {
      InsertBytes(s, SetOf(order), key, e, max);
    }
  }

  /** And nothing exceeds it by more than the old or the new entry's own cost. */
  lemma OvershootIsSmall(s: Store, all: set<Bytes>, key: Bytes, value: Bytes, max: nat, evicted: set<Bytes>, used: nat)
    requires Wrote(s, all, key, value, max, evicted, used, true)
    ensures used <= max + |key| + |value| + 144
    ensures key in s ==> used <= max + |key| + |s[key].data| + 144
    ensures key !in s ==> used <= max
  {
  }

  /** The record of dropping an expired entry. */
  function DropLog(s: Store, key: Bytes, now: int): seq<R.Record> {
    if key in s && Expired(s[key], now) then [R.Del(key)] else []
  }

  /** The expired keys among `keys`, each at its first occurrence. */
  function DeadOnce(keys: seq<Bytes>, s: Store, now: int): seq<Bytes> {
    if keys == [] then []
    else
      var before, k := keys[..|keys| - 1], keys[|keys| - 1];
      DeadOnce(before, s, now) + if k in s && Expired(s[k], now) && k !in before then [k] else []
  }

  /** An expired entry of `key` is gone. */
  function Purged(s: Store, key: Bytes, now: int): Store {
    if key in s && Expired(s[key], now) then s - {key} else s
  }

  lemma EvictablePurged(cfg: Config, store: Store, queued: set<Bytes>, key: Bytes, now: int)
    ensures var s := Purged(store, key, now);
            Evictable(cfg, s, if s == store then queued else queued - {key}) == Evictable(cfg, store, queued) * s.Keys
  {
  }

  /** The commands that may have to evict. */
  predicate Writes(op: Op) {
    op.Set? || op.SetNx? || op.MSet? || op.IncrBy? || op.Append?
  }

  /** Does a command that writes one key get as far as writing it? */
  predicate Attempts(op: Op, m: Store, now: int) {
    && (op.Set? || op.SetNx? || op.IncrBy? || op.Append?)
    && !Exec(m, now, op).1.Fail?
    && (op.SetNx? ==> op.key !in m)
  }

  /** The value it writes. */
  function Stored(op: Op, m: Store): Bytes {
    match op
    case Set(_, v) => v
    case SetNx(_, v) => v
    case IncrBy(k, delta) => if Counter(m, k).Some? then Print(Counter(m, k).value + delta) else []
    case Append(k, suffix) => if k in m then m[k].data + suffix else suffix
    case _ => []
  }

  lemma IncrExec(m: Store, now: int, key: Bytes, delta: int)
    ensures var op, c := Op.IncrBy(key, delta), Counter(m, key);
            if ValidateKey(key).Some? then Exec(m, now, op) == (m, Fail(ValidateKey(key).value)) && !Attempts(op, m, now)
            else if c == None || !IsI64(c.value + delta) then
              Exec(m, now, op) == (m, Fail(NotAnInteger)) && !Attempts(op, m, now)
            else
              var data := Print(c.value + delta);
              Exec(m, now, op) == (m[key := Entry(data, Deadline(m, key))], Number(c.value + delta)) && Stored(op, m) == data
  {
    hide Parse, Print;
  }

  /** MSET's checks: success means each pair fits as a rewrite of what was
      there; refusal, that some pair does not fit as a new key. The two differ
      only for stored keys an earlier check may have evicted. */
  ghost predicate PairsFit(s: Store, all: set<Bytes>, pairs: seq<(Bytes, Bytes)>, max: nat, ok: bool) {
    if ok then forall i :: 0 <= i < |pairs| ==> WriteFits(s, all, pairs[i].0, pairs[i].1, max)
    else exists i :: 0 <= i < |pairs| && !FitsAsNew(s, all, pairs[i].0, pairs[i].1, max)
  }

  ghost predicate FitsAsNew(s: Store, all: set<Bytes>, key: Bytes, value: Bytes, max: nat) {
    Fits(TotalBytes(s - all), EntryBytes(key, Entry(value, None)), max)
  }

  lemma PairChecked(s: Store, all: set<Bytes>, evicted: set<Bytes>, key: Bytes, value: Bytes, max: nat)
    requires evicted <= all
    ensures WriteFits(s - evicted, all - evicted, key, value, max) ==> WriteFits(s, all, key, value, max)
    ensures !WriteFits(s - evicted, all - evicted, key, value, max) ==> !FitsAsNew(s, all, key, value, max)
  {
    assert s - evicted - (all - evicted) == s - all;
  }

  /** What a caller can check beforehand: writing a key that is absent, or not
      evictable, or that fits as things are, stays under the ceiling. */
  lemma StaysUnder(s: Store, all: set<Bytes>, key: Bytes, value: Bytes, max: nat, evicted: set<Bytes>, used: nat)
    requires Wrote(s, all, key, value, max, evicted, used, true)
    requires key !in s || key !in all || Fits(TotalBytes(s), NetGrowth(s, key, |value|), max)
    ensures used <= max
  {
  }

  lemma InsertBytes(s: Store, evicted: set<Bytes>, key: Bytes, e: Entry, max: nat)
    requires Fits(TotalBytes(s - evicted), NetGrowth(s, key, |e.data|), max)
    ensures UnderCeiling(s, evicted, key, e.data, TotalBytes((s - evicted)[key := e]), max)
  {
    var t := s - evicted;
    TotalBytesUpdate(t, key, e);
    if key in t {
      TotalBytesSplit(t, key);
    } else {
      assert t - {key} == t;
    }
  }
}
