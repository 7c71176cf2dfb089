/** The five records of the append-only log: what they say, and what the replay
    loader makes of them at a given clock. */
module Records {
  import opened Prelude
  import opened Keyspace
  import opened Decimal

  datatype Record =
    | Set(key: Bytes, value: Bytes)
    | Del(key: Bytes)
    | FlushDb
    | PExpireAt(key: Bytes, at: int)
    | Persist(key: Bytes)

  /** What the engine lets into its log: keys and values that validate, stamps
      that are signed 64-bit integers. */
  predicate Writable(r: Record) {
    && (!r.FlushDb? ==> ValidateKey(r.key) == None)
    && (r.Set? ==> ValidateValue(r.value) == None)
    && (r.PExpireAt? ==> IsI64(r.at))
  }

  predicate AllWritable(rs: seq<Record>) {
    forall i :: 0 <= i < |rs| ==> Writable(rs[i])
  }

  /** The same of an entry and of a keyspace. */
  predicate Storable(k: Bytes, e: Entry) {
    && ValidateKey(k) == None
    && ValidateValue(e.data) == None
    && (e.expireAt.Some? ==> IsI64(e.expireAt.value))
  }

  predicate AllStorable(s: Store) {
    forall k :: k in s ==> Storable(k, s[k])
  }

  /** What a record says, taking PEXPIREAT as "set the deadline". */
  function Apply(m: Store, r: Record): Store {
    match r
    case Set(k, v) => m[k := Entry(v, None)]
    case Del(k) => m - {k}
    case FlushDb => map[]
    case PExpireAt(k, at) => if k in m then m[k := m[k].(expireAt := Some(at))] else m
    case Persist(k) => if k in m then m[k := m[k].(expireAt := None)] else m
  }

  function ApplyAll(m: Store, rs: seq<Record>): Store {
    if rs == [] then m else Apply(ApplyAll(m, rs[..|rs| - 1]), rs[|rs| - 1])
  }

  lemma ApplyAllSnoc(m: Store, rs: seq<Record>, r: Record)
    ensures ApplyAll(m, rs + [r]) == Apply(ApplyAll(m, rs), r)
  {
    assert (rs + [r])[..|rs|] == rs;
  }

  lemma {:induction false} ApplyAllConcat(m: Store, rs: seq<Record>, ts: seq<Record>)
    ensures ApplyAll(m, rs + ts) == ApplyAll(ApplyAll(m, rs), ts)
  {
    if ts == [] {
      assert rs + ts == rs;
    } else {
      assert (rs + ts)[..|rs + ts| - 1] == rs + ts[..|ts| - 1];
      ApplyAllConcat(m, rs, ts[..|ts| - 1]);
    }
  }

  /** The engine writes a TTL record only about a key that is live. */
  predicate Admissible(m: Store, r: Record, now: int) {
    r.PExpireAt? || r.Persist? ==> r.key in m && !Expired(m[r.key], now)
  }

  /** Stores that look alike to clients still do after the same record. */
  lemma ApplyLive(m: Store, n: Store, r: Record, now: int)
    requires Live(m, now) == Live(n, now) && Admissible(m, r, now)
    ensures Live(Apply(m, r), now) == Live(Apply(n, r), now)
  {
    forall k
      ensures k in Live(m, now) <==> k in Live(n, now)
      ensures k in Live(m, now) ==> m[k] == n[k]
    {
      if k in Live(m, now) {
        assert Live(m, now)[k] == Live(n, now)[k];
      }
    }
  }

  /** So a log that shows what `was` shows keeps up with one more record. */
  lemma LogGrows(base: Store, log: seq<Record>, was: Store, r: Record, now: int)
    requires Live(ApplyAll(base, log), now) == Live(was, now) && Admissible(was, r, now)
    ensures Live(ApplyAll(base, log + [r]), now) == Live(Apply(was, r), now)
    ensures AllWritable(log) && Writable(r) ==> AllWritable(log + [r])
  {
    ApplyAllSnoc(base, log, r);
    ApplyLive(was, ApplyAll(base, log), r, now);
  }

  // ---- Replay at a clock ----

  /** One record as the loader applies it: a past PEXPIREAT deletes at once, and
      an entry already expired counts as absent. */
  function ReplayOne(s: Store, r: Record, t: int): Store {
    match r
    case Set(k, v) => s[k := Entry(v, None)]
    case Del(k) => s - {k}
    case FlushDb => map[]
    case PExpireAt(k, at) =>
      if k !in s then s
      else if Expired(s[k], t) || at <= t then s - {k}
      else s[k := s[k].(expireAt := Some(at))]
    case Persist(k) =>
      if k !in s then s
      else if Expired(s[k], t) then s - {k}
      else s[k := s[k].(expireAt := None)]
  }

  function Replay(log: seq<Record>, t: int): Store {
    if log == [] then map[] else ReplayOne(Replay(log[..|log| - 1], t), log[|log| - 1], t)
  }

  /** Since the last SET of `k` the log stamps it with a deadline that has
      passed by `t`. */
  predicate Doomed(log: seq<Record>, k: Bytes, t: int) {
    if log == [] then false
    else
      var r := log[|log| - 1];
      if r.Set? && r.key == k then false
      else if r.PExpireAt? && r.key == k && r.at <= t then true
      else Doomed(log[..|log| - 1], k, t)
  }

  lemma {:induction false} DoomedLater(log: seq<Record>, k: Bytes, t: int, later: int)
    requires t <= later && Doomed(log, k, t)
    ensures Doomed(log, k, later)
  {
    var r := log[|log| - 1];
    if !(r.PExpireAt? && r.key == k && r.at <= t) {
      DoomedLater(log[..|log| - 1], k, t, later);
    }
  }

  /** Replay of any log restores exactly what the log says, except the keys it
      dooms: a stamp in the past deletes even if a later record lifted it. */
  lemma {:induction false} ReplayExact(log: seq<Record>, k: Bytes, t: int)
    ensures k in Replay(log, t) <==> k in ApplyAll(map[], log) && !Doomed(log, k, t)
    ensures k in Replay(log, t) ==> Replay(log, t)[k] == ApplyAll(map[], log)[k] && !Expired(Replay(log, t)[k], t)
  {
    if log != [] {
      ReplayExact(log[..|log| - 1], k, t);
    }
  }

  /** A log kept by a process that started from the replay of `p`. Keys the
      whole log does not doom read the same whether the old part was replayed
      or taken at its word. */
  lemma {:induction false} SessionAgrees(p: seq<Record>, s: seq<Record>, k: Bytes, started: int, t: int)
    requires started <= t && !Doomed(p + s, k, t)
    ensures k in ApplyAll(Replay(p, started), s) <==> k in ApplyAll(map[], p + s)
    ensures k in ApplyAll(map[], p + s) ==> ApplyAll(Replay(p, started), s)[k] == ApplyAll(map[], p + s)[k]
  {
    if s == [] {
      assert p + s == p;
      if Doomed(p, k, started) {
        DoomedLater(p, k, started, t);
      }
      ReplayExact(p, k, started);
    } else {
      var i, r := s[..|s| - 1], s[|s| - 1];
      assert (p + s)[..|p + s| - 1] == p + i;
      if !(r.Set? && r.key == k) {
        SessionAgrees(p, i, k, started, t);
      }
    }
  }

  /** What the engine's log invariant means for a restart: `p` is the log the
      process started from, `s` what it appended, `store` what it holds. Replay
      at any later clock never resurrects or alters a key, and restores a live
      key exactly when the log does not doom it. */
  lemma ReplayRestores(p: seq<Record>, s: seq<Record>, store: Store, started: int, now: int, t: int, k: Bytes)
    requires Live(ApplyAll(Replay(p, started), s), now) == Live(store, now)
    requires started <= now <= t
    ensures k in Replay(p + s, t) <==> k in Live(store, t) && !Doomed(p + s, k, t)
    ensures k in Replay(p + s, t) ==> Replay(p + s, t)[k] == store[k]
  {
    var held := ApplyAll(Replay(p, started), s);
    LiveLater(held, store, now, t);
    ReplayExact(p + s, k, t);
    if !Doomed(p + s, k, t) {
      SessionAgrees(p, s, k, started, t);
      assert k in Live(held, t) <==> k in Live(store, t);
      if k in Live(held, t) {
        assert Live(held, t)[k] == Live(store, t)[k];
      }
    }
  }

  /** The one way to lose a live key: a TTL that is lifted, then a restart after
      the old deadline. */
  lemma ReplayLosesPersisted(k: Bytes, v: Bytes, at: int)
    ensures var log := [Set(k, v), PExpireAt(k, at), Persist(k)];
            && k in Live(ApplyAll(map[], log), at)
            && k !in Replay(log, at)
  {
    var log := [Set(k, v), PExpireAt(k, at), Persist(k)];
    assert log[..2] == [Set(k, v), PExpireAt(k, at)];
    assert log[..2][..1] == [Set(k, v)];
    assert ApplyAll(map[], log[..2][..1])[k] == Entry(v, None);
    assert ApplyAll(map[], log[..2])[k] == Entry(v, Some(at));
    assert Replay(log[..2][..1], at)[k] == Entry(v, None);
    assert k !in Replay(log[..2], at);
  }

  predicate Names(r: Record, k: Bytes) {
    r.FlushDb? || r.key == k
  }

  /** Records that do not name a key change nothing about it. */
  lemma {:induction false} UnnamedIsUntouched(log: seq<Record>, more: seq<Record>, k: Bytes, t: int)
    requires forall i :: 0 <= i < |more| ==> !Names(more[i], k)
    ensures k in Replay(log + more, t) <==> k in Replay(log, t)
    ensures k in Replay(log, t) ==> Replay(log + more, t)[k] == Replay(log, t)[k]
    ensures Doomed(log + more, k, t) == Doomed(log, k, t)
    decreases |more|
  {
    if more == [] {
      assert log + more == log;
    } else {
      assert (log + more)[..|log + more| - 1] == log + more[..|more| - 1];
      assert !Names(more[|more| - 1], k);
      UnnamedIsUntouched(log, more[..|more| - 1], k, t);
    }
  }

  // ---- Re-applying a suffix ----

  /** Some record of `rs` fixes `k` whatever came before. */
  predicate Decides(rs: seq<Record>, k: Bytes) {
    exists i :: 0 <= i < |rs| && (rs[i].FlushDb? || ((rs[i].Set? || rs[i].Del?) && rs[i].key == k))
  }

  /** The deadline `rs` last gave `k`, if it gave any. */
  function LastTtl(rs: seq<Record>, k: Bytes): Option<Option<int>> {
    if rs == [] then None
    else
      var r := rs[|rs| - 1];
      if r.PExpireAt? && r.key == k then Some(Some(r.at))
      else if r.Persist? && r.key == k then Some(None)
      else LastTtl(rs[..|rs| - 1], k)
  }

  lemma {:induction false} DecidedSame(a: Store, b: Store, rs: seq<Record>, k: Bytes)
    requires Decides(rs, k)
    ensures k in ApplyAll(a, rs) <==> k in ApplyAll(b, rs)
    ensures k in ApplyAll(a, rs) ==> ApplyAll(a, rs)[k] == ApplyAll(b, rs)[k]
  {
    var i, r := rs[..|rs| - 1], rs[|rs| - 1];
    if !(r.FlushDb? || ((r.Set? || r.Del?) && r.key == k)) {
      var j :| 0 <= j < |rs| && (rs[j].FlushDb? || ((rs[j].Set? || rs[j].Del?) && rs[j].key == k));
      assert i[j] == rs[j];
      DecidedSame(a, b, i, k);
    }
  }

  lemma {:induction false} UndecidedTtl(a: Store, rs: seq<Record>, k: Bytes)
    requires !Decides(rs, k)
    ensures k in ApplyAll(a, rs) <==> k in a
    ensures k in a ==>
              ApplyAll(a, rs)[k] ==
              (if LastTtl(rs, k) == None then a[k] else a[k].(expireAt := LastTtl(rs, k).value))
  {
    if rs != [] {
      var i, r := rs[..|rs| - 1], rs[|rs| - 1];
      assert !Decides(i, k) by {
        if j :| 0 <= j < |i| && (i[j].FlushDb? || ((i[j].Set? || i[j].Del?) && i[j].key == k)) {
          assert rs[j] == i[j];
        }
      }
      assert !(r.FlushDb? || ((r.Set? || r.Del?) && r.key == k));
      UndecidedTtl(a, i, k);
    }
  }

  /** Re-applying a run of records to its own result, even after the expired
      entries were dropped from it, shows clients nothing new. */
  lemma ReapplyIsIdempotent(a: Store, rs: seq<Record>, now: int)
    ensures Live(ApplyAll(Live(ApplyAll(a, rs), now), rs), now) == Live(ApplyAll(a, rs), now)
  {
    var m := ApplyAll(a, rs);
    var x := Live(m, now);
    var y := ApplyAll(x, rs);
    forall k
      ensures k in Live(y, now) <==> k in Live(m, now)
      ensures k in Live(y, now) ==> y[k] == m[k]
    {
      if Decides(rs, k) {
        DecidedSame(x, a, rs, k);
      } else {
        UndecidedTtl(a, rs, k);
        UndecidedTtl(x, rs, k);
      }
    }
  }
}
