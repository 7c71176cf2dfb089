/** The `appendfsync always` barrier: any number of threads append batches and
    wait until an fsync that started later has covered them. */
module GroupCommit {
  import opened Prelude

  type Thread = nat

  /** Where a thread is. `called` is the number of batches published when it
      entered `sync_if_needed`. */
  datatype Pc =
    | Ready
    | Flushing                                              // in write_bytes: flushed, not yet published
    | Called(called: nat)
    | Loaded(called: nat, target: nat)                      // first load of `seq`
    | Waiting(called: nat, target: nat)                     // queued for the gate
    | Gated(called: nat, target: nat)                       // holds the gate
    | Covering(called: nat, target: nat, covered: nat)      // second load of `seq`
    | Syncing(called: nat, target: nat, covered: nat, upTo: nat)  // fsync under way
    | Landed(called: nat, target: nat, covered: nat)        // fsync done, `synced` not yet raised
    | Returned(called: nat, ok: bool)

  /** Batches are counted in file order: `written` are in the file, the first
      `durable` of them are covered by a completed fsync. */
  datatype State = State(
    written: nat,
    seq_: nat,
    synced: nat,
    durable: nat,
    inner: Option<Thread>,
    gate: Option<Thread>,
    pcs: map<Thread, Pc>)

  predicate HoldsGate(pc: Pc) {
    pc.Gated? || pc.Covering? || pc.Syncing? || pc.Landed?
  }

  datatype Act = Write | Publish | Call | LoadTarget | TestSynced | Lock | LoadCovered | TestCovered | EndFsync | FailFsync | Raise | Leave

  /** May thread `t` perform `a` next? A lock is taken only when free. */
  predicate Enabled(s: State, t: Thread, a: Act) {
    t in s.pcs &&
    var pc := s.pcs[t];
    match a
    case Write => pc == Ready && s.inner == None
    case Publish => pc == Flushing
    case Call => pc == Ready
    case LoadTarget => pc.Called?
    case TestSynced => pc.Loaded?
    case Lock => pc.Waiting? && s.gate == None
    case LoadCovered => pc.Gated?
    case TestCovered => pc.Covering?
    case EndFsync => pc.Syncing?
    case FailFsync => pc.Syncing?
    case Raise => pc.Landed?
    case Leave => pc.Returned?
  }

  function Step(s: State, t: Thread, a: Act): State
    requires Enabled(s, t, a)
  {
    var pc := s.pcs[t];
    match a
    case Write => s.(written := s.written + 1, inner := Some(t), pcs := s.pcs[t := Flushing])
    case Publish => s.(seq_ := s.seq_ + 1, inner := None, pcs := s.pcs[t := Ready])
    case Call => s.(pcs := s.pcs[t := Called(s.seq_)])
    case LoadTarget => s.(pcs := s.pcs[t := Loaded(pc.called, s.seq_)])
    case TestSynced =>
      s.(pcs := s.pcs[t := if s.synced >= pc.target then Returned(pc.called, true) else Waiting(pc.called, pc.target)])
    case Lock => s.(gate := Some(t), pcs := s.pcs[t := Gated(pc.called, pc.target)])
    case LoadCovered => s.(pcs := s.pcs[t := Covering(pc.called, pc.target, s.seq_)])
    case TestCovered =>
      if s.synced >= pc.covered then s.(gate := None, pcs := s.pcs[t := Returned(pc.called, true)])
      else s.(pcs := s.pcs[t := Syncing(pc.called, pc.target, pc.covered, s.written)])
    case EndFsync =>
      s.(durable := Max(s.durable, pc.upTo), pcs := s.pcs[t := Landed(pc.called, pc.target, pc.covered)])
    case FailFsync => s.(gate := None, pcs := s.pcs[t := Returned(pc.called, false)])
    case Raise =>
      s.(synced := Max(s.synced, pc.covered), gate := None, pcs := s.pcs[t := Returned(pc.called, true)])
    case Leave => s.(pcs := s.pcs[t := Ready])
  }

  ghost predicate Init(s: State) {
    && s.written == s.seq_ == s.synced == s.durable == 0
    && s.inner == s.gate == None
    && forall t :: t in s.pcs ==> s.pcs[t] == Ready
  }

  predicate PcOk(s: State, pc: Pc) {
    match pc
    case Ready => true
    case Flushing => s.seq_ < s.written
    case Called(c) => c <= s.seq_
    case Loaded(c, target) => c <= target <= s.seq_
    case Waiting(c, target) => c <= target <= s.seq_
    case Gated(c, target) => c <= target <= s.seq_
    case Covering(c, target, covered) => c <= target <= covered <= s.seq_
    case Syncing(c, target, covered, upTo) => c <= target <= covered <= upTo <= s.written && s.synced < covered
    case Landed(c, target, covered) => c <= target <= covered <= s.durable && s.synced < covered
    case Returned(c, ok) => ok ==> c <= s.durable
  }

  ghost predicate Inv(s: State) {
    && s.seq_ <= s.written
    && s.synced <= s.durable <= s.written
    && (s.inner == None ==> s.seq_ == s.written)
    && (s.inner.Some? ==> s.seq_ + 1 == s.written)
    && (forall t :: t in s.pcs ==> PcOk(s, s.pcs[t]))
    && (forall t :: t in s.pcs && s.pcs[t].Flushing? ==> s.inner == Some(t))
    && (forall t :: t in s.pcs && HoldsGate(s.pcs[t]) ==> s.gate == Some(t))
    && (s.inner.Some? ==> s.inner.value in s.pcs && s.pcs[s.inner.value].Flushing?)
    && (s.gate.Some? ==> s.gate.value in s.pcs && HoldsGate(s.pcs[s.gate.value]))
  }

  /** Counters only grow, so what holds at one place of the code keeps holding. */
  lemma PcStaysOk(s: State, s': State, pc: Pc)
    requires PcOk(s, pc)
    requires s.seq_ <= s'.seq_ && s.written <= s'.written && s.durable <= s'.durable
    requires pc.Flushing? ==> s'.seq_ < s'.written
    requires pc.Syncing? || pc.Landed? ==> s'.synced == s.synced
    ensures PcOk(s', pc)
  {
  }

  lemma OwnStep(s: State, t: Thread, a: Act)
    requires Inv(s) && Enabled(s, t, a)
    ensures var s' := Step(s, t, a);
            && PcOk(s', s'.pcs[t])
            && s.seq_ <= s'.seq_ <= s'.written && s.written <= s'.written
            && s.synced <= s'.synced <= s'.durable <= s'.written && s.durable <= s'.durable
            && (s'.inner == None ==> s'.seq_ == s'.written)
            && (s'.inner.Some? ==> s'.seq_ + 1 == s'.written)
  {
    assert PcOk(s, s.pcs[t]);
  }

  lemma StepKeepsInv(s: State, t: Thread, a: Act)
    requires Inv(s) && Enabled(s, t, a)
    ensures Inv(Step(s, t, a))
    ensures s.synced <= Step(s, t, a).synced && s.durable <= Step(s, t, a).durable && s.seq_ <= Step(s, t, a).seq_
  {
    hide PcOk;
    var s' := Step(s, t, a);
    OwnStep(s, t, a);
    forall u | u in s'.pcs && u != t
      ensures PcOk(s', s'.pcs[u])
      ensures s'.pcs[u].Flushing? ==> s'.inner == Some(u)
      ensures HoldsGate(s'.pcs[u]) ==> s'.gate == Some(u)
    {
      assert s'.pcs[u] == s.pcs[u] && PcOk(s, s.pcs[u]);
      assert a == Publish ==> s.inner == Some(t);
      assert HoldsGate(s.pcs[t]) ==> s.gate == Some(t);
      PcStaysOk(s, s', s.pcs[u]);
    }
    assert s'.pcs[t].Flushing? ==> s'.inner == Some(t);
    assert HoldsGate(s'.pcs[t]) ==> s'.gate == Some(t);
  }

  ghost predicate IsRun(states: seq<State>, steps: seq<(Thread, Act)>) {
    && |states| == |steps| + 1
    && Init(states[0])
    && forall i :: 0 <= i < |steps| ==>
         Enabled(states[i], steps[i].0, steps[i].1) && states[i + 1] == Step(states[i], steps[i].0, steps[i].1)
  }

  lemma {:induction false} RunKeepsInv(states: seq<State>, steps: seq<(Thread, Act)>, i: nat)
    requires IsRun(states, steps) && i < |states|
    ensures Inv(states[i])
  {
    if i > 0 {
      RunKeepsInv(states, steps, i - 1);
      assert states[i - 1 + 1] == Step(states[i - 1], steps[i - 1].0, steps[i - 1].1);
      StepKeepsInv(states[i - 1], steps[i - 1].0, steps[i - 1].1);
    }
  }

  /** `synced` never moves back and never runs ahead of the disk. */
  lemma {:induction false} SyncedIsMonotone(states: seq<State>, steps: seq<(Thread, Act)>, i: nat, j: nat)
    requires IsRun(states, steps) && i <= j < |states|
    ensures states[i].synced <= states[j].synced <= states[j].durable
    ensures states[i].durable <= states[j].durable && states[i].seq_ <= states[j].seq_
  {
    hide Step, Enabled, PcOk;
    RunKeepsInv(states, steps, j);
    if i < j {
      SyncedIsMonotone(states, steps, i, j - 1);
      RunKeepsInv(states, steps, j - 1);
      assert states[j - 1 + 1] == Step(states[j - 1], steps[j - 1].0, steps[j - 1].1);
      StepKeepsInv(states[j - 1], steps[j - 1].0, steps[j - 1].1);
    }
  }

  /** A thread's most recent call before state `j` was at state `i`. */
  ghost predicate InCallSince(states: seq<State>, steps: seq<(Thread, Act)>, t: Thread, i: nat, j: nat) {
    && i < j <= |steps| && j < |states|
    && steps[i] == (t, Call)
    && forall m :: i < m < j ==> steps[m] != (t, Call)
  }

  predicate InBarrier(pc: Pc) {
    !pc.Ready? && !pc.Flushing?
  }

  lemma {:induction false} CalledIsPublished(states: seq<State>, steps: seq<(Thread, Act)>, t: Thread, i: nat, j: nat)
    requires IsRun(states, steps) && InCallSince(states, steps, t, i, j)
    requires t in states[j].pcs && InBarrier(states[j].pcs[t])
    ensures states[j].pcs[t].called == states[i].seq_
    decreases j
  {
    var m := j - 1;
    assert Enabled(states[m], steps[m].0, steps[m].1) && states[m + 1] == Step(states[m], steps[m].0, steps[m].1);
    if m > i {
      assert steps[m] != (t, Call);
      assert InCallSince(states, steps, t, i, m);
      CalledIsPublished(states, steps, t, i, m);
    }
  }

  /** When the barrier returns Ok, by an fsync of its own or on either skip
      path, every batch published before the call is on disk, and stays so. */
  lemma BarrierIsDurable(states: seq<State>, steps: seq<(Thread, Act)>, t: Thread, i: nat, j: nat, later: nat)
    requires IsRun(states, steps) && InCallSince(states, steps, t, i, j)
    requires t in states[j].pcs && states[j].pcs[t].Returned? && states[j].pcs[t].ok
    requires j <= later < |states|
    ensures states[i].seq_ <= states[j].durable <= states[later].durable
  {
    CalledIsPublished(states, steps, t, i, j);
    RunKeepsInv(states, steps, j);
    assert PcOk(states[j], states[j].pcs[t]);
    SyncedIsMonotone(states, steps, j, later);
  }

  /** The barrier fails exactly when its own fsync did: neither a completed fsync
      nor a skip is ever reported as an error. */
  lemma {:induction false} ErrIffFsyncFailed(states: seq<State>, steps: seq<(Thread, Act)>, t: Thread, i: nat, j: nat)
    requires IsRun(states, steps) && InCallSince(states, steps, t, i, j)
    requires t in states[j].pcs && InBarrier(states[j].pcs[t])
    ensures states[j].pcs[t].Returned? && !states[j].pcs[t].ok <==> exists m :: i < m < j && steps[m] == (t, FailFsync)
    decreases j
  {
    var m := j - 1;
    assert Enabled(states[m], steps[m].0, steps[m].1) && states[m + 1] == Step(states[m], steps[m].0, steps[m].1);
    if m > i {
      assert steps[m] != (t, Call);
      assert InCallSince(states, steps, t, i, m);
      ErrIffFsyncFailed(states, steps, t, i, m);
    }
  }

  /** `base` batches are, or are about to be, marked as synced by this thread. */
  predicate WillMark(s: State, pc: Pc, base: nat) {
    match pc
    case Gated(_, _) => base <= s.seq_
    case Covering(_, _, covered) => base <= covered
    case Syncing(_, _, covered, _) => base <= covered
    case Landed(_, _, covered) => base <= covered
    case Returned(_, ok) => ok ==> base <= s.synced
    case _ => false
  }

  lemma {:induction false} MarksSinceGate(states: seq<State>, steps: seq<(Thread, Act)>, t: Thread, i: nat, l: nat, j: nat)
    requires IsRun(states, steps) && InCallSince(states, steps, t, i, j) && i < l < j && steps[l] == (t, Lock)
    requires t in states[j].pcs && InBarrier(states[j].pcs[t])
    ensures WillMark(states[j], states[j].pcs[t], states[l].seq_)
    decreases j
  {
    var m := j - 1;
    assert Enabled(states[m], steps[m].0, steps[m].1) && states[m + 1] == Step(states[m], steps[m].0, steps[m].1);
    SyncedIsMonotone(states, steps, m, j);
    if m > l {
      assert steps[m] != (t, Call);
      assert InCallSince(states, steps, t, i, m);
      MarksSinceGate(states, steps, t, i, l, m);
    }
  }

  /** One barrier serves all that queued behind it: when a caller that took the
      gate returns Ok, every batch published by the time it took the gate is
      marked as synced, so a thread waiting for one of those makes no fsync. */
  lemma BarrierServesTheQueue(states: seq<State>, steps: seq<(Thread, Act)>, t: Thread, i: nat, l: nat, j: nat)
    requires IsRun(states, steps) && InCallSince(states, steps, t, i, j) && i < l < j && steps[l] == (t, Lock)
    requires t in states[j].pcs && states[j].pcs[t].Returned? && states[j].pcs[t].ok
    ensures states[l].seq_ <= states[j].synced
  {
    MarksSinceGate(states, steps, t, i, l, j);
  }

  /** No fsync is made in vain: while one is under way some published batch it
      will cover is not yet known to be on disk. */
  lemma NoNeedlessFsync(states: seq<State>, steps: seq<(Thread, Act)>, i: nat, t: Thread)
    requires IsRun(states, steps) && i < |states| && t in states[i].pcs && states[i].pcs[t].Syncing?
    ensures states[i].synced < states[i].pcs[t].covered <= states[i].seq_
  {
    RunKeepsInv(states, steps, i);
    CoveredIsPublished(states, steps, i, t);
  }

  lemma {:induction false} CoveredIsPublished(states: seq<State>, steps: seq<(Thread, Act)>, i: nat, t: Thread)
    requires IsRun(states, steps) && i < |states| && t in states[i].pcs && states[i].pcs[t].Syncing?
    ensures states[i].pcs[t].covered <= states[i].seq_
  {
    var m := i - 1;
    assert Enabled(states[m], steps[m].0, steps[m].1) && states[m + 1] == Step(states[m], steps[m].0, steps[m].1);
    RunKeepsInv(states, steps, m);
    assert PcOk(states[m], states[m].pcs[t]);
    if states[m].pcs[t].Syncing? {
      CoveredIsPublished(states, steps, m, t);
    }
  }

  /** Nobody waits for nothing: if a thread is in the middle of something, it or
      the thread holding the gate can go on without any new work arriving. */
  lemma NeverStuck(states: seq<State>, steps: seq<(Thread, Act)>, i: nat, t: Thread) returns (u: Thread, a: Act)
    requires IsRun(states, steps) && i < |states| && t in states[i].pcs && states[i].pcs[t] != Ready
    ensures Enabled(states[i], u, a) && a != Write && a != Call && (u == t || states[i].gate == Some(u))
  {
    RunKeepsInv(states, steps, i);
    var s := states[i];
    u := if s.pcs[t].Waiting? && s.gate.Some? then s.gate.value else t;
    match s.pcs[u]
    case Flushing => a := Publish;
    case Called(_) => a := LoadTarget;
    case Loaded(_, _) => a := TestSynced;
    case Waiting(_, _) => a := Lock;
    case Gated(_, _) => a := LoadCovered;
    case Covering(_, _, _) => a := TestCovered;
    case Syncing(_, _, _, _) => a := EndFsync;
    case Landed(_, _, _) => a := Raise;
    case Returned(_, _) => a := Leave;
  }

  /** A thread that calls alone, with no fsync failing, gets through: its batch is
      on disk and the answer is Ok, after one fsync of its own or none. */
  lemma SoloCall(s: State, t: Thread) returns (end: State)
    requires Inv(s) && t in s.pcs && s.pcs[t] == Ready && s.gate == None && s.inner == None
    ensures t in end.pcs && end.pcs[t] == Returned(s.seq_, true) && s.seq_ <= end.synced <= end.durable && Inv(end)
    ensures s.seq_ <= s.synced ==> end.durable == s.durable
  {
    hide PcOk;
    var called := Do(s, t, Call);
    var loaded := Do(called, t, LoadTarget);
    end := Do(loaded, t, TestSynced);
    if s.synced < s.seq_ {
      end := Do(end, t, Lock);
      end := Do(end, t, LoadCovered);
      end := Do(end, t, TestCovered);
      end := Do(end, t, EndFsync);
      end := Do(end, t, Raise);
    }
  }

  lemma Do(s: State, t: Thread, a: Act) returns (s': State)
    requires Inv(s) && Enabled(s, t, a)
    ensures s' == Step(s, t, a) && Inv(s')
  {
    StepKeepsInv(s, t, a);
    s' := Step(s, t, a);
  }

  /** At most one fsync is under way at a time. */
  lemma OneFsyncAtATime(states: seq<State>, steps: seq<(Thread, Act)>, i: nat, t: Thread, u: Thread)
    requires IsRun(states, steps) && i < |states|
    requires t in states[i].pcs && u in states[i].pcs && states[i].pcs[t].Syncing? && states[i].pcs[u].Syncing?
    ensures t == u
  {
    RunKeepsInv(states, steps, i);
    assert HoldsGate(states[i].pcs[t]) && HoldsGate(states[i].pcs[u]);
  }
}
