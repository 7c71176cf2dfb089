/** The sweeper at work on the engine: several ticks in a row on a keyspace that
    nothing else touches, in an iteration order that removals do not disturb. */
module ActiveExpiry {
  import opened Prelude
  import opened Keyspace
  import opened Sweeper
  import Engine

  /** The engine holds just the keys of `order`, with the entries of `m`. */
  ghost predicate Holds(e: Engine.KvEngine, m: Store, order: seq<Bytes>)
    reads e, e.sieve, e.ac
  {
    && e.Valid() && NoDup(order)
    && (forall k :: k in order <==> k in e.store)
    && (forall k :: k in e.store ==> k in m && e.store[k] == m[k])
  }

  lemma SameVictims(order: seq<Bytes>, cursor: nat, sample: nat, s: Store, m: Store, now: int)
    requires forall k :: k in order ==> k in s && k in m && s[k] == m[k]
    ensures Victims(order, cursor, sample, s, now) == Victims(order, cursor, sample, m, now)
  {
    RotatedKeeps(order, cursor);
  }

  /** One tick, at `now`. */
  method TickOnce(e: Engine.KvEngine, sample: nat, order: seq<Bytes>, now: int, ghost m: Store)
    returns (left: seq<Bytes>)
    requires Holds(e, m, order) && sample >= 1 && e.clock <= now
    modifies e`store, e`used, e`log, e`cursor, e`clock, e.sieve, e.ac
    ensures Holds(e, m, left) && e.clock == now
    ensures Sweep(left, e.cursor) == Tick(Sweep(order, old(e.cursor)), sample, m, now)
    ensures e.Visible() == Live(old(e.Visible()), now)
  {
    hide Engine.KvEngine.Core, Engine.KvEngine.LogReads, Victims, NextCursor;
    e.Tick(now);
    SameVictims(order, e.cursor, sample, e.store, m, now);
    ghost var gone := Victims(order, e.cursor, sample, m, now);
    WithoutNoDup(order, gone);
    WithoutMembers(order, gone);
    var _ := e.SweepExpired(sample, order);
    var dead := set k | k in order && k !in e.store;
    WithoutSame(order, dead, gone);
    left := Without(order, dead);
  }

  /** The ticks at `nows` do what the cursor specification says. */
  method SweepTicks(e: Engine.KvEngine, sample: nat, order: seq<Bytes>, nows: seq<int>, ghost m: Store)
    returns (left: seq<Bytes>)
    requires Holds(e, m, order) && sample >= 1 && Rising(nows) && (nows != [] ==> e.clock <= nows[0])
    modifies e`store, e`used, e`log, e`cursor, e`clock, e.sieve, e.ac
    ensures Holds(e, m, left) && e.clock == if nows == [] then old(e.clock) else nows[|nows| - 1]
    ensures Sweep(left, e.cursor) == Ticks(Sweep(order, old(e.cursor)), sample, m, nows)
  {
    hide Holds, Tick;
    left := order;
    ghost var s0 := Sweep(order, e.cursor);
    assert nows[0..] == nows;
    for i := 0 to |nows|
      invariant Holds(e, m, left)
      invariant e.clock == if i == 0 then old(e.clock) else nows[i - 1]
      invariant Ticks(Sweep(left, e.cursor), sample, m, nows[i..]) == Ticks(s0, sample, m, nows)
    {
      TicksStep(Sweep(left, e.cursor), sample, m, nows[i..]);
      assert nows[i..][1..] == nows[i + 1..];
      left := TickOnce(e, sample, left, nows[i], m);
    }
  }

  lemma NextWindow(windows: seq<seq<int>>, sample: nat, n: nat, i: nat)
    requires Windows(windows, sample, n) && i < |windows|
    ensures windows[i] != [] && Rising(windows[i])
    ensures i > 0 ==> windows[i - 1] != [] && windows[i - 1][|windows[i - 1]| - 1] <= windows[i][0]
  {
    if i > 0 {
      assert Follows(windows[i - 1], windows[i]);
    }
  }

  /** Windows of ticks, each long enough to walk the keyspace. With as many
      windows as keys that are past their deadline by the end, no key that was
      past it at the first tick is left; and no key goes that is not. */
  method SweepWindows(e: Engine.KvEngine, sample: nat, order: seq<Bytes>, windows: seq<seq<int>>)
    returns (left: seq<Bytes>)
    requires Holds(e, e.store, order) && sample >= 1
    requires windows != [] && Windows(windows, sample, |order|) && windows[0] != [] && e.clock <= windows[0][0]
    modifies e`store, e`used, e`log, e`cursor, e`clock, e.sieve, e.ac
    ensures Holds(e, old(e.store), left)
    ensures windows[|windows| - 1] != [] && |Dead(Sweep(order, old(e.cursor)), old(e.store), LastTick(windows))| <= |windows| ==>
              forall k :: k in e.store ==> !Expired(e.store[k], windows[0][0])
    ensures forall k :: k in old(e.store) && k !in e.store ==>
              windows[|windows| - 1] != [] && Expired(old(e.store)[k], LastTick(windows))
  {
    hide Ticks, Windows;
    left := order;
    ghost var s0, m := Sweep(order, e.cursor), e.store;
    assert windows[0..] == windows;
    NextWindow(windows, sample, |order|, 0);
    for i := 0 to |windows|
      invariant Holds(e, m, left)
      invariant if i == 0 then e.clock <= windows[0][0] else windows[i - 1] != [] && e.clock == windows[i - 1][|windows[i - 1]| - 1]
      invariant Rounds(Sweep(left, e.cursor), sample, m, windows[i..]) == Rounds(s0, sample, m, windows)
    {
      NextWindow(windows, sample, |order|, i);
      assert windows[i..][0] == windows[i] && windows[i..][1..] == windows[i + 1..];
      left := SweepTicks(e, sample, left, windows[i], m);
    }
    Drained(s0, Sweep(left, e.cursor), sample, m, windows);
    assert forall k :: k in e.store ==> k in left && (Expired(e.store[k], windows[0][0]) <==> DeadAt(m, k, windows[0][0]));
  }

  lemma Drained(s0: Sweep, s: Sweep, sample: nat, m: Store, windows: seq<seq<int>>)
    requires NoDup(s0.order) && sample >= 1 && windows != [] && Windows(windows, sample, |s0.order|)
    requires s == Rounds(s0, sample, m, windows)
    ensures windows[0] != [] && windows[|windows| - 1] != []
    ensures |Dead(s0, m, LastTick(windows))| <= |windows| ==>
              forall k :: k in s.order ==> !DeadAt(m, k, windows[0][0])
    ensures forall k :: k in s0.order && k !in s.order ==> DeadAt(m, k, LastTick(windows))
  {
    LaterWindows(windows, sample, |s0.order|);
    RoundsRemoveDead(s0, sample, m, windows, |s0.order|);
    if |Dead(s0, m, LastTick(windows))| <= |windows| {
      SweeperDrains(s0, sample, m, windows, |s0.order|);
      assert forall k :: k in s.order && DeadAt(m, k, windows[0][0]) ==> k in Dead(s, m, windows[0][0]);
    }
  }

  lemma {:induction false} RoundsRemoveDead(s: Sweep, sample: nat, m: Store, windows: seq<seq<int>>, n: nat)
    requires NoDup(s.order) && windows != [] && Windows(windows, sample, n)
    ensures windows[|windows| - 1] != []
    ensures forall k :: k in s.order && k !in Rounds(s, sample, m, windows).order ==> DeadAt(m, k, LastTick(windows))
    decreases |windows|
  {
    hide Ticks;
    LaterWindows(windows, sample, n);
    var w := windows[0];
    TicksRemoveDead(s, sample, m, w);
    if |windows| > 1 {
      RoundsRemoveDead(Ticks(s, sample, m, w), sample, m, windows[1..], n);
    }
  }
}
