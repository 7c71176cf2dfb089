/** The reference machine: a map whose keys vanish at their deadline, and
    nothing else. No stale entries, no sweeper, no log, no index. */
module LiveMap {
  import opened Prelude
  import opened Keyspace
  import opened Decimal

  datatype Op =
    | Set(key: Bytes, value: Bytes)
    | SetNx(key: Bytes, value: Bytes)
    | MSet(pairs: seq<(Bytes, Bytes)>)
    | IncrBy(key: Bytes, delta: int)
    | Append(key: Bytes, suffix: Bytes)
    | Get(key: Bytes)
    | MGet(keys: seq<Bytes>)
    | Exists(keys: seq<Bytes>)
    | StrLen(key: Bytes)
    | Del(keys: seq<Bytes>)
    | FlushDb
    | ExpireAt(key: Bytes, at: int)
    | Persist(key: Bytes)
    | Ttl(key: Bytes)
    | MemoryUsage(key: Bytes)
    | DbSize

  datatype TtlStatus = Missing | NoExpire | Millis(ms: int)

  datatype Reply =
    | Done
    | Flag(yes: bool)
    | Number(n: int)
    | Bulk(data: Option<Bytes>)
    | Bulks(all: seq<Option<Bytes>>)
    | TtlIs(status: TtlStatus)
    | Cost(bytes: Option<nat>)
    | Fail(error: Error)

  function Lookup(m: Store, k: Bytes): Option<Bytes> {
    if k in m then Some(m[k].data) else None
  }

  function Named(keys: seq<Bytes>): set<Bytes> {
    set k | k in keys
  }

  lemma NamedHas(keys: seq<Bytes>, k: Bytes)
    ensures k in Named(keys) <==> k in keys
    ensures Named([k]) == {k}
  {
  }

  /** How many of `keys` are in `m`, repeats counted. */
  function CountIn(keys: seq<Bytes>, m: Store): nat {
    if keys == [] then 0
    else CountIn(keys[..|keys| - 1], m) + if keys[|keys| - 1] in m then 1 else 0
  }

  function Lookups(keys: seq<Bytes>, m: Store): seq<Option<Bytes>> {
    seq(|keys|, i requires 0 <= i < |keys| => Lookup(m, keys[i]))
  }

  function PutAll(m: Store, pairs: seq<(Bytes, Bytes)>): Store {
    if pairs == [] then m
    else PutAll(m, pairs[..|pairs| - 1])[pairs[|pairs| - 1].0 := Entry(pairs[|pairs| - 1].1, None)]
  }

  function Invalid(key: Bytes, value: Bytes): Option<Error> {
    if ValidateKey(key).Some? then ValidateKey(key) else ValidateValue(value)
  }

  /** The error of the first pair that does not validate. */
  function FirstInvalid(pairs: seq<(Bytes, Bytes)>): (r: Option<Error>)
    ensures r != Some(OutOfMemory)
  {
    if pairs == [] then None
    else if Invalid(pairs[0].0, pairs[0].1).Some? then Invalid(pairs[0].0, pairs[0].1)
    else FirstInvalid(pairs[1..])
  }

  lemma {:induction false} NoneInvalid(pairs: seq<(Bytes, Bytes)>, i: nat)
    requires FirstInvalid(pairs) == None && i < |pairs|
    ensures ValidateKey(pairs[i].0) == None && ValidateValue(pairs[i].1) == None
  {
    if i > 0 {
      NoneInvalid(pairs[1..], i - 1);
    }
  }

  /** The value INCRBY starts from: 0 for a missing key. */
  function Counter(m: Store, k: Bytes): Option<int> {
    if k in m then Parse(m[k].data) else Some(0)
  }

  function Deadline(m: Store, k: Bytes): Option<int> {
    if k in m then m[k].expireAt else None
  }

  /** One command on the live entries `m` at `now`. */
  function Exec(m: Store, now: int, op: Op): (Store, Reply) {
    match op
    case Set(k, v) =>
      if Invalid(k, v).Some? then (m, Fail(Invalid(k, v).value))
      else (m[k := Entry(v, None)], Done)
    case SetNx(k, v) =>
      if Invalid(k, v).Some? then (m, Fail(Invalid(k, v).value))
      else if k in m then (m, Flag(false))
      else (m[k := Entry(v, None)], Flag(true))
    case MSet(pairs) =>
      if FirstInvalid(pairs).Some? then (m, Fail(FirstInvalid(pairs).value))
      else (PutAll(m, pairs), Done)
    case IncrBy(k, delta) =>
      if ValidateKey(k).Some? then (m, Fail(ValidateKey(k).value))
      else if Counter(m, k) == None || !IsI64(Counter(m, k).value + delta) then (m, Fail(NotAnInteger))
      else
        var n := Counter(m, k).value + delta;
        (m[k := Entry(Print(n), Deadline(m, k))], Number(n))
    case Append(k, suffix) =>
      var data := if k in m then m[k].data + suffix else suffix;
      if ValidateKey(k).Some? then (m, Fail(ValidateKey(k).value))
      else if ValidateValue(data).Some? then (m, Fail(ValidateValue(data).value))
      else (m[k := Entry(data, Deadline(m, k))], Number(|data|))
    case Get(k) => (m, Bulk(Lookup(m, k)))
    case MGet(keys) => (m, Bulks(Lookups(keys, m)))
    case Exists(keys) => (m, Number(CountIn(keys, m)))
    case StrLen(k) => (m, Number(if k in m then |m[k].data| else 0))
    case Del(keys) => (m - Named(keys), Number(|Named(keys) * m.Keys|))
    case FlushDb => (map[], Done)
    case ExpireAt(k, at) =>
      if k !in m then (m, Flag(false))
      else if at <= now then (m - {k}, Flag(true))
      else (m[k := m[k].(expireAt := Some(at))], Flag(true))
    case Persist(k) =>
      if k in m && m[k].expireAt.Some? then (m[k := m[k].(expireAt := None)], Flag(true))
      else (m, Flag(false))
    case Ttl(k) =>
      (m, TtlIs(if k !in m then Missing
                else if m[k].expireAt == None then NoExpire
                else Millis(m[k].expireAt.value - now)))
    case MemoryUsage(k) => (m, Cost(if k in m then Some(EntryBytes(k, m[k])) else None))
    case DbSize => (m, Number(|m|))
  }

  /** Deadlines are signed 64-bit integers. */
  predicate WellTyped(op: Op) {
    op.ExpireAt? ==> IsI64(op.at)
  }

  /** The keys a command writes. */
  function Written(op: Op): set<Bytes> {
    match op
    case Set(k, _) => {k}
    case SetNx(k, _) => {k}
    case MSet(pairs) => set p | p in pairs :: p.0
    case IncrBy(k, _) => {k}
    case Append(k, _) => {k}
    case _ => {}
  }

  /** A run: commands, time passing, active sweeps and policy changes. */
  datatype Event =
    | Cmd(op: Op)
    | Pass(ms: nat)
    | SweepTick(sample: nat)
    | Configure(cfg: Config)

  /** Events whose numbers fit the code's types. */
  predicate Sendable(e: Event) {
    e.Cmd? ==> WellTyped(e.op)
  }

  /** A run that never sets a memory cap. */
  predicate Uncapped(events: seq<Event>) {
    forall i :: 0 <= i < |events| && events[i].Configure? ==> events[i].cfg.maxMemory == 0
  }

  datatype Ref = Ref(live: Store, now: int, replies: seq<Reply>)

  /** What the reference machine does. Sweeps and policies mean nothing to it;
      time makes keys vanish. */
  function RefStep(r: Ref, e: Event): Ref {
    match e
    case Cmd(op) => var (m, reply) := Exec(r.live, r.now, op); r.(live := m, replies := r.replies + [reply])
    case Pass(ms) => r.(live := Live(r.live, r.now + ms), now := r.now + ms)
    case SweepTick(_) => r
    case Configure(_) => r
  }

  function RefRun(r: Ref, events: seq<Event>): Ref {
    if events == [] then r else RefStep(RefRun(r, events[..|events| - 1]), events[|events| - 1])
  }
}
