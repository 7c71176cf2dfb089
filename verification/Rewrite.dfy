/** Background log rewrite: a compaction that runs while writers append. */
module Rewrite {
  import opened Prelude
  import opened Keyspace
  import opened Records

  /** One SET per key, plus a PEXPIREAT when the key has a deadline. */
  ghost function CompactOf(order: seq<Bytes>, m: Store): seq<Record>
    requires forall k :: k in order ==> k in m
  {
    if order == [] then []
    else
      var k := order[|order| - 1];
      CompactOf(order[..|order| - 1], m) + OneKey(k, m[k])
  }

  function OneKey(k: Bytes, e: Entry): seq<Record> {
    match e.expireAt
    case None => [Set(k, e.data)]
    case Some(at) => [Set(k, e.data), PExpireAt(k, at)]
  }

  lemma OneKeyReads(rs: seq<Record>, k: Bytes, e: Entry, t: int)
    ensures ApplyAll(map[], rs + OneKey(k, e)) == ApplyAll(map[], rs)[k := e]
    ensures Replay(rs + OneKey(k, e), t) == if Expired(e, t) then Replay(rs, t) - {k} else Replay(rs, t)[k := e]
  {
    var one := rs + [Set(k, e.data)];
    assert one[..|rs|] == rs;
    if e.expireAt.Some? {
      var two := rs + OneKey(k, e);
      assert two[..|rs| + 1] == one;
      assert two[|rs| + 1] == PExpireAt(k, e.expireAt.value);
    }
  }

  ghost function Only(m: Store, order: seq<Bytes>): Store {
    map k | k in m && k in order :: m[k]
  }

  lemma OnlyNext(m: Store, order: seq<Bytes>, k: Bytes, t: int)
    requires k in m && k !in order
    ensures Only(m, order + [k]) == Only(m, order)[k := m[k]]
    ensures Live(Only(m, order)[k := m[k]], t) ==
            if Expired(m[k], t) then Live(Only(m, order), t) - {k} else Live(Only(m, order), t)[k := m[k]]
  {
  }

  /** A compact log reads back as the keys it lists. No key is doomed by it, so
      replay at any clock restores all that is still live. */
  lemma {:induction false} CompactReads(order: seq<Bytes>, m: Store, t: int)
    requires NoDup(order) && forall k :: k in order ==> k in m
    ensures ApplyAll(map[], CompactOf(order, m)) == Only(m, order)
    ensures Replay(CompactOf(order, m), t) == Live(Only(m, order), t)
  {
    if order != [] {
      var n := |order| - 1;
      var front, k := order[..n], order[n];
      CompactReads(front, m, t);
      OneKeyReads(CompactOf(front, m), k, m[k], t);
      OnlyNext(m, front, k, t);
      assert order == front + [k];
    }
  }

  /** What the engine stores, the rewrite can write. */
  lemma {:induction false} CompactIsWritable(order: seq<Bytes>, m: Store)
    requires (forall k :: k in order ==> k in m) && AllStorable(m)
    ensures AllWritable(CompactOf(order, m))
  {
    if order != [] {
      CompactIsWritable(order[..|order| - 1], m);
    }
  }

  /** Snapshot and serialisation. The hash map yields its keys in any order. */
  method Compact(store: Store, now: int) returns (out: seq<Record>, ghost order: seq<Bytes>)
    ensures NoDup(order) && forall k :: k in order <==> k in Live(store, now)
    ensures out == CompactOf(order, store)
    ensures ApplyAll(map[], out) == Live(store, now)
    ensures forall t :: now <= t ==> Replay(out, t) == Live(store, t)
    ensures AllStorable(store) ==> AllWritable(out)
  {
    out, order := [], [];
    var todo := store.Keys;
    while todo != {}
      invariant todo <= store.Keys
      invariant NoDup(order)
      invariant forall k :: k in order <==> k in store.Keys - todo && !Expired(store[k], now)
      invariant out == CompactOf(order, store)
      decreases todo
    {
      var k :| k in todo;
      assert k !in order;
      todo := todo - {k};
      if !Expired(store[k], now) {
        out := out + OneKey(k, store[k]);
        assert (order + [k])[..|order|] == order;
        order := order + [k];
      }
    }
    forall t | now <= t
      ensures Replay(out, t) == Live(store, t)
    {
      CompactReads(order, store, t);
      assert Live(Only(store, order), t) == Live(store, t);
    }
    CompactReads(order, store, now);
    assert Only(store, order) == Live(store, now);
    if AllStorable(store) {
      CompactIsWritable(order, store);
    }
  }

  datatype Worker =
    | Idle
    | Claimed                                // `rewriting` is set, no snapshot yet
    | Snapped(temp: seq<Record>, seen: nat)  // snapshot taken with `seen` delta records, serialised to the temp file
    | Checked(temp: seq<Record>, seen: nat)  // finish_rewrite saw the flag still set
    | Renamed(temp: seq<Record>, seen: nat)  // the temp file now has the log's name

  /** `handle` is what was written through the open handle, `path` what the
      log's name refers to; they part between the rename and the swap. The file
      may open with records from before the process started, whose effect is
      `base`. `busy` says a command is between its appends and its release of
      the store lock. */
  datatype State = State(
    now: int,
    store: Store,
    busy: bool,
    base: Store,
    handle: seq<Record>,
    path: seq<Record>,
    rewriting: bool,
    delta: seq<Record>,
    worker: Worker)

  datatype Event =
    | Tick(later: int)
    | Append(records: seq<Record>, overflow: bool)
    | Release(left: Store)
    | Claim
    | Snapshot(temp: seq<Record>)
    | Check
    | Rename
    | Swap

  predicate AdmissibleAll(m: Store, rs: seq<Record>, now: int) {
    rs == [] || (AdmissibleAll(m, rs[..|rs| - 1], now) && Admissible(ApplyAll(m, rs[..|rs| - 1]), rs[|rs| - 1], now))
  }

  /** Which events may happen. A command appends under the store's write lock,
      record by record, so a claim or a swap may fall between two of its
      appends, but a snapshot, which needs the read lock, may not. An overflow
      of the delta buffer after the worker's last check of the flag, and a claim
      before the previous worker is gone, are outside this model. */
  ghost predicate Enabled(s: State, e: Event) {
    match e
    case Tick(later) => s.now <= later
    case Append(rs, overflow) =>
      AdmissibleAll(s.store, rs, s.now) && (overflow ==> s.rewriting && !s.worker.Checked? && !s.worker.Renamed?)
    case Release(left) => Live(left, s.now) == Live(s.store, s.now)
    case Claim => !s.rewriting && s.worker == Idle
    case Snapshot(temp) => s.worker == Claimed && !s.busy && ApplyAll(map[], temp) == Live(s.store, s.now)
    case Check => s.worker.Snapped?
    case Rename => s.worker.Checked?
    case Swap => s.worker.Renamed?
  }

  function Step(s: State, e: Event): State {
    match e
    case Tick(later) => s.(now := later)
    case Append(rs, overflow) =>
      var s' := s.(store := ApplyAll(s.store, rs),
                   busy := true,
                   handle := s.handle + rs,
                   path := if s.worker.Renamed? then s.path else s.handle + rs);
      if !s.rewriting then s'
      else if overflow then s'.(rewriting := false, delta := [])
      else s'.(delta := s.delta + rs)
    case Release(left) => s.(store := left, busy := false)
    case Claim => s.(rewriting := true, worker := Claimed)
    case Snapshot(temp) => s.(worker := Snapped(temp, |s.delta|))
    case Check =>
      if s.worker.Snapped? && s.rewriting then s.(worker := Checked(s.worker.temp, s.worker.seen)) else s.(worker := Idle)
    case Rename =>
      if s.worker.Checked? then s.(path := s.worker.temp, worker := Renamed(s.worker.temp, s.worker.seen)) else s
    case Swap =>
      if s.worker.Renamed? then
        s.(base := map[],
           handle := s.worker.temp + s.delta,
           path := s.worker.temp + s.delta,
           rewriting := false,
           delta := [],
           worker := Idle)
      else s
  }

  ghost predicate Init(s: State) {
    s.store == s.base && !s.busy && s.handle == s.path == s.delta == [] && !s.rewriting && s.worker == Idle
  }

  /** What the handle's file reads back as. */
  function FileReads(s: State): Store {
    ApplyAll(s.base, s.handle)
  }

  ghost predicate Inv(s: State) {
    // The file being written always reads back as the live store.
    && Live(FileReads(s), s.now) == Live(s.store, s.now)
    && (!s.rewriting ==> s.delta == [])
    && (s.worker == Idle ==> !s.rewriting)
    && (s.worker.Checked? || s.worker.Renamed? ==> s.rewriting)
    // Before the snapshot the delta is a suffix of the file.
    && (s.worker == Claimed ==>
          |s.delta| <= |s.handle| && s.handle[|s.handle| - |s.delta|..] == s.delta)
    // From the snapshot on, snapshot plus delta reads back as the live store too.
    && ((s.worker.Snapped? || s.worker.Checked? || s.worker.Renamed?) && s.rewriting ==>
          && Live(ApplyAll(map[], s.worker.temp + s.delta), s.now) == Live(s.store, s.now)
          && s.worker.seen <= |s.delta|
          && Live(ApplyAll(map[], s.worker.temp + s.delta[s.worker.seen..]), s.now) == Live(s.store, s.now))
    && (if s.worker.Renamed? then s.path == s.worker.temp else s.path == s.handle)
  }

  lemma {:induction false} ApplyAllLive(m: Store, n: Store, rs: seq<Record>, now: int)
    requires Live(m, now) == Live(n, now) && AdmissibleAll(m, rs, now)
    ensures Live(ApplyAll(m, rs), now) == Live(ApplyAll(n, rs), now)
  {
    if rs != [] {
      ApplyAllLive(m, n, rs[..|rs| - 1], now);
      ApplyLive(ApplyAll(m, rs[..|rs| - 1]), ApplyAll(n, rs[..|rs| - 1]), rs[|rs| - 1], now);
    }
  }

  lemma AppendKeepsReading(start: Store, file: seq<Record>, store: Store, rs: seq<Record>, now: int)
    requires Live(ApplyAll(start, file), now) == Live(store, now) && AdmissibleAll(store, rs, now)
    ensures Live(ApplyAll(start, file + rs), now) == Live(ApplyAll(store, rs), now)
  {
    ApplyAllConcat(start, file, rs);
    ApplyAllLive(store, ApplyAll(start, file), rs, now);
  }

  lemma AppendKeepsTemp(temp: seq<Record>, delta: seq<Record>, seen: nat, store: Store, rs: seq<Record>, now: int)
    requires seen <= |delta| && AdmissibleAll(store, rs, now)
    requires Live(ApplyAll(map[], temp + delta[seen..]), now) == Live(store, now)
    ensures Live(ApplyAll(map[], temp + (delta + rs)[seen..]), now) == Live(ApplyAll(store, rs), now)
  {
    AppendKeepsReading(map[], temp + delta[seen..], store, rs, now);
    assert temp + delta[seen..] + rs == temp + (delta + rs)[seen..];
  }

  lemma AppendKeepsInv(s: State, rs: seq<Record>, overflow: bool)
    requires Inv(s) && Enabled(s, Append(rs, overflow))
    ensures Inv(Step(s, Append(rs, overflow)))
  {
    var s' := Step(s, Append(rs, overflow));
    AppendKeepsReading(s.base, s.handle, s.store, rs, s.now);
    if s.rewriting && !overflow {
      if s.worker == Claimed {
        assert s'.handle[|s'.handle| - |s'.delta|..] == s.handle[|s.handle| - |s.delta|..] + rs;
      } else {
        assert s.delta[0..] == s.delta && s'.delta[0..] == s'.delta;
        AppendKeepsTemp(s.worker.temp, s.delta, 0, s.store, rs, s.now);
        AppendKeepsTemp(s.worker.temp, s.delta, s.worker.seen, s.store, rs, s.now);
      }
    }
  }

  /** The writes between claim and snapshot are in both parts; re-applying them
      to their own result changes nothing. */
  lemma SnapshotKeepsInv(s: State, temp: seq<Record>)
    requires Inv(s) && Enabled(s, Snapshot(temp))
    ensures Inv(Step(s, Snapshot(temp)))
  {
    var before := s.handle[..|s.handle| - |s.delta|];
    assert s.handle == before + s.delta;
    ApplyAllConcat(s.base, before, s.delta);
    ReapplyIsIdempotent(ApplyAll(s.base, before), s.delta, s.now);
    ApplyAllConcat(map[], temp, s.delta);
    assert temp + s.delta[|s.delta|..] == temp;
    LiveTwice(s.store, s.now, s.now);
  }

  lemma TickKeepsInv(s: State, later: int)
    requires Inv(s) && s.now <= later
    ensures Inv(Step(s, Tick(later)))
  {
    LiveLater(FileReads(s), s.store, s.now, later);
    if (s.worker.Snapped? || s.worker.Checked? || s.worker.Renamed?) && s.rewriting {
      LiveLater(ApplyAll(map[], s.worker.temp + s.delta), s.store, s.now, later);
      LiveLater(ApplyAll(map[], s.worker.temp + s.delta[s.worker.seen..]), s.store, s.now, later);
    }
  }

  lemma StepKeepsInv(s: State, e: Event)
    requires Inv(s) && Enabled(s, e)
    ensures Inv(Step(s, e))
  {
    match e {
      case Tick(later) => TickKeepsInv(s, later);
      case Append(rs, overflow) => AppendKeepsInv(s, rs, overflow);
      case Snapshot(temp) => SnapshotKeepsInv(s, temp);
      case _ =>
    }
  }

  /** `states` is a run driven by `events`. */
  ghost predicate IsRun(states: seq<State>, events: seq<Event>) {
    && |states| == |events| + 1
    && Init(states[0])
    && forall i :: 0 <= i < |events| ==> Enabled(states[i], events[i]) && states[i + 1] == Step(states[i], events[i])
  }

  /** In every state of every run the file being written reads back as the live
      store, whatever rewrites came and went; and while a rewrite is past its
      snapshot, snapshot plus delta does too. */
  lemma {:induction false} RewriteIsInvisible(states: seq<State>, events: seq<Event>, i: nat)
    requires IsRun(states, events) && i < |states|
    ensures Live(FileReads(states[i]), states[i].now) == Live(states[i].store, states[i].now)
    ensures var w := states[i].worker;
            (w.Snapped? || w.Checked? || w.Renamed?) && states[i].rewriting ==>
              Live(ApplyAll(map[], w.temp + states[i].delta), states[i].now) == Live(states[i].store, states[i].now)
    ensures Inv(states[i])
  {
    if i == 0 {
      assert FileReads(states[0]) == states[0].store;
    } else {
      RewriteIsInvisible(states, events, i - 1);
      assert states[i - 1 + 1] == Step(states[i - 1], events[i - 1]);
      StepKeepsInv(states[i - 1], events[i - 1]);
    }
  }

  /** Right after a swap the file alone, read from nothing, is the live store, and
      the loader restores from it, at any later clock, exactly the live keys that
      it does not doom. */
  lemma SwapLeavesWholeFile(states: seq<State>, events: seq<Event>, i: nat, t: int, k: Bytes)
    requires IsRun(states, events) && i < |events| && events[i] == Swap && states[i + 1].now <= t
    ensures var s := states[i + 1];
            && s.path == s.handle && Live(ApplyAll(map[], s.path), s.now) == Live(s.store, s.now)
            && (k in Replay(s.path, t) <==> k in Live(s.store, t) && !Doomed(s.path, k, t))
            && (k in Replay(s.path, t) ==> Replay(s.path, t)[k] == s.store[k])
  {
    RewriteIsInvisible(states, events, i + 1);
    assert Enabled(states[i], events[i]);
    ReplayOfWhole(states[i + 1].path, states[i + 1].store, states[i + 1].now, t, k);
  }

  /** A log that reads as the store from nothing is worth this after a restart. */
  lemma ReplayOfWhole(log: seq<Record>, store: Store, now: int, t: int, k: Bytes)
    requires Live(ApplyAll(map[], log), now) == Live(store, now) && now <= t
    ensures k in Replay(log, t) <==> k in Live(store, t) && !Doomed(log, k, t)
    ensures k in Replay(log, t) ==> Replay(log, t)[k] == store[k]
  {
    assert [] + log == log;
    ReplayRestores([], log, store, now, now, t, k);
  }

  /** Between rename and swap the file under the log's name is the snapshot
      alone: what a crash then loses is exactly what was appended since the
      snapshot. */
  lemma RenameWindow(states: seq<State>, events: seq<Event>, i: nat)
    requires IsRun(states, events) && i < |states| && states[i].worker.Renamed?
    ensures var s := states[i];
            && s.worker.seen <= |s.delta|
            && Live(ApplyAll(ApplyAll(map[], s.path), s.delta[s.worker.seen..]), s.now) == Live(s.store, s.now)
  {
    RewriteIsInvisible(states, events, i);
    ApplyAllConcat(map[], states[i].path, states[i].delta[states[i].worker.seen..]);
  }

  /** The file under the log's name is whole except in that window, and in it as
      long as nothing was appended since the snapshot. */
  lemma NamedFileIsWhole(states: seq<State>, events: seq<Event>, i: nat)
    requires IsRun(states, events) && i < |states|
    ensures var s := states[i];
            && (!s.worker.Renamed? ==> Live(ApplyAll(s.base, s.path), s.now) == Live(s.store, s.now))
            && (s.worker.Renamed? && s.worker.seen == |s.delta| ==>
                  Live(ApplyAll(map[], s.path), s.now) == Live(s.store, s.now))
  {
    RewriteIsInvisible(states, events, i);
    var s := states[i];
    if s.worker.Renamed? && s.worker.seen == |s.delta| {
      RenameWindow(states, events, i);
      assert s.delta[s.worker.seen..] == [];
    }
  }

  /** What the loader makes of the named file in the window: every key that no
      append since the snapshot names comes back as it is, unless doomed. */
  lemma RenameWindowRestores(states: seq<State>, events: seq<Event>, i: nat, t: int, k: Bytes)
    requires IsRun(states, events) && i < |states| && states[i].worker.Renamed? && states[i].now <= t
    requires states[i].worker.seen <= |states[i].delta|
    requires forall j :: states[i].worker.seen <= j < |states[i].delta| ==> !Names(states[i].delta[j], k)
    ensures var s := states[i];
            && (k in Replay(s.path, t) <==> k in Live(s.store, t) && !Doomed(s.path, k, t))
            && (k in Replay(s.path, t) ==> Replay(s.path, t)[k] == s.store[k])
  {
    hide Inv, IsRun;
    var s := states[i];
    var lost := s.delta[s.worker.seen..];
    RenameWindow(states, events, i);
    ApplyAllConcat(map[], s.path, lost);
    ReplayOfWhole(s.path + lost, s.store, s.now, t, k);
    UnnamedIsUntouched(s.path, lost, k, t);
  }

  /** Such a loss does happen: a SET that lands in the window. */
  lemma RenameWindowLoses(k: Bytes, v: Bytes) returns (states: seq<State>, events: seq<Event>)
    ensures IsRun(states, events)
    ensures var s := states[|states| - 1];
            s.worker.Renamed? && k in Live(s.store, s.now) && k !in ApplyAll(map[], s.path)
  {
    var s0 := State(0, map[], false, map[], [], [], false, [], Idle);
    events := [Claim, Snapshot([]), Check, Rename, Append([Set(k, v)], false)];
    var s1 := Step(s0, events[0]);
    var s2 := Step(s1, events[1]);
    var s3 := Step(s2, events[2]);
    var s4 := Step(s3, events[3]);
    var s5 := Step(s4, events[4]);
    states := [s0, s1, s2, s3, s4, s5];
    assert [Set(k, v)][..0] == [];
    assert Admissible(s4.store, Set(k, v), s4.now) && AdmissibleAll(s4.store, [], s4.now);
    assert AdmissibleAll(s4.store, [Set(k, v)], s4.now);
    assert s5.store == map[k := Entry(v, None)];
  }
}
