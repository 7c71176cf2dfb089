/** Active expiry: a rotating cursor over the hash map's iteration order. */
module Sweeper {
  import opened Prelude
  import opened Keyspace

  /** `c % n`, by repeated subtraction. */
  function Wrap(c: nat, n: nat): (r: nat)
    requires n > 0
    ensures r < n
    decreases c
  {
    if c < n then c else Wrap(c - n, n)
  }

  lemma {:induction false} WrapIsMod(c: nat, n: nat)
    requires n > 0
    ensures Wrap(c, n) == c % n
    decreases c
  {
    if c >= n {
      WrapIsMod(c - n, n);
      assert c % n == (c - n) % n by {
        SubtractMod(c, n);
      }
    }
  }

  lemma SubtractMod(c: nat, n: nat)
    requires n > 0 && c >= n
    ensures c % n == (c - n) % n
  {
    QuotientIsUnique(n, c / n, c % n, (c - n) / n + 1, (c - n) % n);
  }

  /** The order a tick walks the keys in. */
  function Rotated(order: seq<Bytes>, cursor: nat): seq<Bytes> {
    if order == [] then []
    else
      var start := Wrap(cursor, |order|);
      order[start..] + order[..start]
  }

  /** The keys one tick examines. */
  function Window(order: seq<Bytes>, cursor: nat, sample: nat): seq<Bytes> {
    Rotated(order, cursor)[..Min(sample, |order|)]
  }

  function NextCursor(order: seq<Bytes>, cursor: nat, sample: nat): nat {
    if order == [] then cursor
    else Wrap(Wrap(cursor, |order|) + Min(sample, |order|), |order|)
  }

  function Victims(order: seq<Bytes>, cursor: nat, sample: nat, m: Store, now: int): set<Bytes> {
    set k | k in Window(order, cursor, sample) && k in m && Expired(m[k], now)
  }

  /** A tick looks at `sample` consecutive keys of the iteration order, wrapping
      around, or at all of them once if there are fewer. */
  lemma WindowIs(order: seq<Bytes>, cursor: nat, sample: nat)
    ensures |Window(order, cursor, sample)| == Min(sample, |order|)
    ensures forall i :: 0 <= i < Min(sample, |order|) ==> Window(order, cursor, sample)[i] == order[(cursor + i) % |order|]
  {
    if order != [] {
      var n := |order|;
      var start := Wrap(cursor, n);
      WrapIsMod(cursor, n);
      forall i | 0 <= i < Min(sample, n)
        ensures Window(order, cursor, sample)[i] == order[(cursor + i) % n]
      {
        WrapPlus(cursor, i, n);
      }
    }
  }

  lemma WrapPlus(c: nat, i: nat, n: nat)
    requires i < n
    ensures (c + i) % n == if c % n + i < n then c % n + i else c % n + i - n
  {
    var r := if c % n + i < n then c % n + i else c % n + i - n;
    var q := if c % n + i < n then c / n else c / n + 1;
    assert q * n == c / n * n + if c % n + i < n then 0 else n;
    QuotientIsUnique(n, (c + i) / n, (c + i) % n, q, r);
  }

  /** So it removes at most `sample` keys. */
  lemma VictimsAreFew(order: seq<Bytes>, cursor: nat, sample: nat, m: Store, now: int)
    ensures |Victims(order, cursor, sample, m, now)| <= Min(sample, |order|)
  {
    var w := Window(order, cursor, sample);
    WindowIs(order, cursor, sample);
    SeqSetSize(w);
    SubsetSize(Victims(order, cursor, sample, m, now), SetOf(w));
  }

  lemma FewGo(order: seq<Bytes>, cursor: nat, sample: nat, m: Store, now: int)
    ensures |m| - |m - Victims(order, cursor, sample, m, now)| <= Min(sample, |order|)
  {
    var gone := Victims(order, cursor, sample, m, now);
    VictimsAreFew(order, cursor, sample, m, now);
    var left := m - gone;
    assert left.Keys == m.Keys - gone && gone <= m.Keys;
    assert |m.Keys - gone| == |m.Keys| - |gone|;
    assert |left| == |left.Keys| && |m| == |m.Keys|;
  }

  lemma {:induction false} SeqSetSize<T>(s: seq<T>)
    ensures |SetOf(s)| <= |s|
  {
    if s != [] {
      SeqSetSize(s[1..]);
      assert SetOf(s) == {s[0]} + SetOf(s[1..]);
    }
  }

  /** Keys left, in an iteration order that removals do not disturb. */
  datatype Sweep = Sweep(order: seq<Bytes>, cursor: nat)

  function Tick(s: Sweep, sample: nat, m: Store, now: int): Sweep {
    Sweep(Without(s.order, Victims(s.order, s.cursor, sample, m, now)), NextCursor(s.order, s.cursor, sample))
  }

  function Ticks(s: Sweep, sample: nat, m: Store, nows: seq<int>): Sweep
    decreases |nows|
  {
    if nows == [] then s else Ticks(Tick(s, sample, m, nows[0]), sample, m, nows[1..])
  }

  predicate Rising(nows: seq<int>) {
    forall i, j :: 0 <= i < j < |nows| ==> nows[i] <= nows[j]
  }

  predicate DeadAt(m: Store, k: Bytes, now: int) {
    k in m && Expired(m[k], now)
  }

  /** A tick only removes, and only keys past their deadline. */
  lemma TickRemovesDead(s: Sweep, sample: nat, m: Store, now: int)
    requires NoDup(s.order)
    ensures NoDup(Tick(s, sample, m, now).order)
    ensures forall k :: k in Tick(s, sample, m, now).order ==> k in s.order
    ensures forall k :: k in s.order && k !in Tick(s, sample, m, now).order ==> DeadAt(m, k, now)
  {
    var gone := Victims(s.order, s.cursor, sample, m, now);
    WithoutNoDup(s.order, gone);
    WithoutMembers(s.order, gone);
  }

  lemma {:induction false} TicksRemoveDead(s: Sweep, sample: nat, m: Store, nows: seq<int>)
    requires NoDup(s.order) && Rising(nows) && nows != []
    ensures NoDup(Ticks(s, sample, m, nows).order)
    ensures forall k :: k in Ticks(s, sample, m, nows).order ==> k in s.order
    ensures forall k :: k in s.order && k !in Ticks(s, sample, m, nows).order ==> DeadAt(m, k, nows[|nows| - 1])
    decreases |nows|
  {
    var s' := Tick(s, sample, m, nows[0]);
    TickRemovesDead(s, sample, m, nows[0]);
    if |nows| > 1 {
      assert Rising(nows[1..]);
      TicksRemoveDead(s', sample, m, nows[1..]);
      assert nows[1..][|nows| - 2] == nows[|nows| - 1];
    } else {
      assert nows[1..] == [];
    }
  }

  lemma RotateAt(order: seq<Bytes>, start: nat, next: nat, w: nat)
    requires start < |order| && w <= |order|
    requires next == if start + w < |order| then start + w else start + w - |order|
    ensures order[next..] + order[..next] == (order[start..] + order[..start])[w..] + (order[start..] + order[..start])[..w]
  {
  }

  /** Advancing the cursor rotates the walk by the keys examined. */
  lemma NextRotates(order: seq<Bytes>, cursor: nat, sample: nat)
    requires order != []
    ensures |Rotated(order, cursor)| == |order|
    ensures var r, w := Rotated(order, cursor), Min(sample, |order|);
            Rotated(order, NextCursor(order, cursor, sample)) == r[w..] + r[..w]
  {
    var start, w := Wrap(cursor, |order|), Min(sample, |order|);
    var next := NextCursor(order, cursor, sample);
    if start + w >= |order| {
      assert Wrap(start + w - |order|, |order|) == start + w - |order|;
    }
    assert next == if start + w < |order| then start + w else start + w - |order|;
    assert Wrap(next, |order|) == next;
    RotateAt(order, start, next, w);
  }

  lemma RotatedKeeps(order: seq<Bytes>, cursor: nat)
    ensures |Rotated(order, cursor)| == |order|
    ensures forall x :: x in Rotated(order, cursor) <==> x in order
  {
    if order != [] {
      var start := Wrap(cursor, |order|);
      assert order == order[..start] + order[start..];
    }
  }

  lemma RotatedHas(order: seq<Bytes>, cursor: nat, x: Bytes) returns (p: nat)
    requires x in order
    ensures |Rotated(order, cursor)| == |order|
    ensures p < |order| && Rotated(order, cursor)[p] == x
  {
    var i :| 0 <= i < |order| && order[i] == x;
    var start := Wrap(cursor, |order|);
    p := if i >= start then i - start else i + |order| - start;
  }

  /** How many keys `ticks` ticks of `step` keys walk over: their product,
      written without one. */
  function Walked(ticks: nat, step: nat): nat {
    if ticks == 0 then 0 else Walked(ticks - 1, step) + step
  }

  lemma WalkedLess(ticks: nat, step: nat, p: nat)
    requires step <= p < Walked(ticks, step)
    ensures ticks > 1 && p - step < Walked(ticks - 1, step)
  {
  }

  lemma {:induction false} WalkedIsProduct(ticks: nat, step: nat)
    ensures Walked(ticks, step) == ticks * step
  {
    if ticks != 0 {
      WalkedIsProduct(ticks - 1, step);
      assert ticks * step == (ticks - 1) * step + step;
    }
  }

  /** A dead key in the window goes. */
  lemma WindowGoes(s: Sweep, sample: nat, m: Store, now: int, p: nat)
    requires p < Min(sample, |s.order|) && DeadAt(m, Rotated(s.order, s.cursor)[p], now)
    ensures Rotated(s.order, s.cursor)[p] !in Tick(s, sample, m, now).order
    ensures Rotated(s.order, s.cursor)[p] in s.order
  {
    var gone := Victims(s.order, s.cursor, sample, m, now);
    WithoutMembers(s.order, gone);
    assert Window(s.order, s.cursor, sample)[p] in gone;
  }

  /** The walk will reach a dead key after passing `p` others. */
  predicate Waiting(s: Sweep, m: Store, now: int, p: nat) {
    p < |s.order| && p < |Rotated(s.order, s.cursor)| && DeadAt(m, Rotated(s.order, s.cursor)[p], now)
  }

  lemma WaitingLater(s: Sweep, m: Store, now: int, later: int, p: nat)
    requires Waiting(s, m, now, p) && now <= later
    ensures Waiting(s, m, later, p)
  {
  }

  /** A tick either removes a key or brings the dead key at `p` closer. */
  lemma TickApproaches(s: Sweep, sample: nat, m: Store, now: int, p: nat)
    requires Waiting(s, m, now, p)
    ensures var s' := Tick(s, sample, m, now);
            || |s'.order| < |s.order|
            || (&& s'.order == s.order
                && Min(sample, |s.order|) <= p
                && Waiting(s', m, now, p - Min(sample, |s.order|)))
  {
    var gone := Victims(s.order, s.cursor, sample, m, now);
    WithoutLength(s.order, gone);
    if |Without(s.order, gone)| == |s.order| {
      WithoutFull(s.order, gone);
      if p < Min(sample, |s.order|) {
        WindowGoes(s, sample, m, now, p);
      }
      NextRotates(s.order, s.cursor, sample);
    }
  }

  lemma TicksStep(s: Sweep, sample: nat, m: Store, nows: seq<int>)
    requires nows != []
    ensures Ticks(s, sample, m, nows) == Ticks(Tick(s, sample, m, nows[0]), sample, m, nows[1..])
  {
  }

  /** Some key goes before the cursor has walked past the dead key at `p`. */
  lemma {:induction false} SomeKeyGoes(s: Sweep, sample: nat, m: Store, nows: seq<int>, p: nat)
    requires Rising(nows) && nows != [] && Waiting(s, m, nows[0], p)
    requires p < Walked(|nows|, Min(sample, |s.order|))
    ensures |Ticks(s, sample, m, nows).order| < |s.order|
    decreases |nows|
  {
    hide Tick, Ticks, Waiting, Walked;
    var s', w := Tick(s, sample, m, nows[0]), Min(sample, |s.order|);
    TickApproaches(s, sample, m, nows[0], p);
    TicksStep(s, sample, m, nows);
    if |s'.order| < |s.order| {
      TicksShrink(s', sample, m, nows[1..]);
    } else {
      WalkedLess(|nows|, w, p);
      WaitingLater(s', m, nows[0], nows[1], p - w);
      SomeKeyGoes(s', sample, m, nows[1..], p - w);
    }
  }

  lemma {:induction false} WithoutFull(s: seq<Bytes>, gone: set<Bytes>)
    requires |Without(s, gone)| == |s|
    ensures Without(s, gone) == s
  {
    if s != [] {
      WithoutLength(s[1..], gone);
      WithoutFull(s[1..], gone);
    }
  }

  lemma {:induction false} TicksShrink(s: Sweep, sample: nat, m: Store, nows: seq<int>)
    ensures |Ticks(s, sample, m, nows).order| <= |s.order|
    decreases |nows|
  {
    if nows != [] {
      WithoutLength(s.order, Victims(s.order, s.cursor, sample, m, nows[0]));
      TicksShrink(Tick(s, sample, m, nows[0]), sample, m, nows[1..]);
    }
  }

  /** Enough consecutive ticks to walk the whole keyspace remove at least one
      key if any was past its deadline when they began. */
  lemma WindowMakesProgress(s: Sweep, sample: nat, m: Store, nows: seq<int>, x: Bytes)
    requires NoDup(s.order) && sample >= 1 && Rising(nows) && nows != []
    requires x in s.order && DeadAt(m, x, nows[0])
    requires |s.order| <= |nows| * sample
    ensures |Ticks(s, sample, m, nows).order| < |s.order|
  {
    var p := RotatedHas(s.order, s.cursor, x);
    WalkedIsProduct(|nows|, Min(sample, |s.order|));
    MultipleIsFar(|nows|, |s.order|);
    SomeKeyGoes(s, sample, m, nows, p);
  }

  ghost function Dead(s: Sweep, m: Store, now: int): set<Bytes> {
    set k | k in s.order && DeadAt(m, k, now)
  }

  predicate Follows(a: seq<int>, b: seq<int>) {
    a != [] && b != [] && a[|a| - 1] <= b[0]
  }

  /** Ticks grouped into windows, each long enough to walk all of `n` keys. */
  predicate Windows(windows: seq<seq<int>>, sample: nat, n: nat) {
    && (forall i :: 0 <= i < |windows| ==> windows[i] != [] && Rising(windows[i]))
    && (forall i, j :: 0 <= i < j < |windows| ==> Follows(windows[i], windows[j]))
    && (forall i :: 0 <= i < |windows| ==> n <= |windows[i]| * sample)
  }

  function Rounds(s: Sweep, sample: nat, m: Store, windows: seq<seq<int>>): Sweep
    decreases |windows|
  {
    if windows == [] then s else Rounds(Ticks(s, sample, m, windows[0]), sample, m, windows[1..])
  }

  function LastTick(windows: seq<seq<int>>): int
    requires windows != [] && windows[|windows| - 1] != []
  {
    var w := windows[|windows| - 1];
    w[|w| - 1]
  }

  /** A window takes at least one key that is dead by the end, if one was dead
      when it began. */
  lemma WindowTakesOne(s: Sweep, sample: nat, m: Store, w: seq<int>, x: Bytes, end: int)
    requires NoDup(s.order) && sample >= 1 && Rising(w) && w != [] && w[|w| - 1] <= end
    requires |s.order| <= |w| * sample && x in Dead(s, m, w[0])
    ensures var s' := Ticks(s, sample, m, w);
            NoDup(s'.order) && |s'.order| < |s.order| && |Dead(s', m, end)| < |Dead(s, m, end)|
  {
    WindowMakesProgress(s, sample, m, w, x);
    TicksRemoveDead(s, sample, m, w);
    DeadShrinks(s, Ticks(s, sample, m, w), m, w[|w| - 1], end);
  }

  lemma {:induction false} RoundsOnlyRemove(s: Sweep, sample: nat, m: Store, windows: seq<seq<int>>, now: int)
    requires NoDup(s.order) && forall i :: 0 <= i < |windows| ==> windows[i] != [] && Rising(windows[i])
    ensures Dead(Rounds(s, sample, m, windows), m, now) <= Dead(s, m, now)
    decreases |windows|
  {
    if windows != [] {
      TicksRemoveDead(s, sample, m, windows[0]);
      RoundsOnlyRemove(Ticks(s, sample, m, windows[0]), sample, m, windows[1..], now);
    }
  }

  lemma LaterWindows(windows: seq<seq<int>>, sample: nat, n: nat)
    requires windows != [] && Windows(windows, sample, n)
    ensures windows[0] != [] && windows[|windows| - 1] != []
    ensures windows[0][|windows[0]| - 1] <= LastTick(windows)
    ensures |windows| > 1 ==>
              && Windows(windows[1..], sample, n)
              && windows[0][0] <= windows[1][0]
              && windows[1..][|windows| - 2] != [] && LastTick(windows[1..]) == LastTick(windows)
  {
    var last := |windows| - 1;
    if last > 0 {
      assert Follows(windows[0], windows[last]) && Follows(windows[0], windows[1]);
    }
  }

  lemma DeadEarlier(s: Sweep, m: Store, now: int, later: int)
    requires now <= later
    ensures Dead(s, m, now) <= Dead(s, m, later)
  {
  }

  /** With as many windows as keys past their deadline by the end, every key
      that was past it at the start is gone. */
  lemma {:induction false} SweeperDrains(s: Sweep, sample: nat, m: Store, windows: seq<seq<int>>, n: nat)
    requires NoDup(s.order) && sample >= 1 && |s.order| <= n
    requires windows != [] && Windows(windows, sample, n)
    requires |Dead(s, m, LastTick(windows))| <= |windows|
    ensures Dead(Rounds(s, sample, m, windows), m, windows[0][0]) == {}
    decreases |windows|
  {
    hide Ticks, DeadAt, Follows;
    LaterWindows(windows, sample, n);
    var w, rest, end := windows[0], windows[1..], LastTick(windows);
    var s' := Ticks(s, sample, m, w);
    if x :| x in Dead(s, m, w[0]) {
      WindowTakesOne(s, sample, m, w, x, end);
      DeadEarlier(s', m, w[0], end);
      if rest != [] {
        SweeperDrains(s', sample, m, rest, n);
        DeadEarlier(Rounds(s', sample, m, rest), m, w[0], rest[0][0]);
      }
    } else {
      RoundsOnlyRemove(s, sample, m, windows, w[0]);
    }
  }

  lemma DeadShrinks(s: Sweep, s': Sweep, m: Store, now: int, end: int)
    requires NoDup(s.order) && NoDup(s'.order) && |s'.order| < |s.order| && now <= end
    requires forall k :: k in s'.order ==> k in s.order
    requires forall k :: k in s.order && k !in s'.order ==> DeadAt(m, k, now)
    ensures |Dead(s', m, end)| < |Dead(s, m, end)|
  {
    NoDupSize(s.order);
    NoDupSize(s'.order);
    if SetOf(s.order) <= SetOf(s'.order) {
      SubsetSize(SetOf(s.order), SetOf(s'.order));
    }
    var k :| k in s.order && k !in s'.order;
    assert k in Dead(s, m, end) && k !in Dead(s', m, end);
    SubsetSize(Dead(s', m, end), Dead(s, m, end) - {k});
  }

  lemma {:induction false} SubsetSize<T>(a: set<T>, b: set<T>)
    requires a <= b
    ensures |a| <= |b|
  {
    if x :| x in a {
      SubsetSize(a - {x}, b - {x});
    }
  }
}
