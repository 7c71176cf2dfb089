/** The stored entry, its expiry and its byte cost, and the policy tables. */
module Keyspace {
  import opened Prelude

  const KEY_MAX_BYTES: nat := 64 * 1024
  const VALUE_MAX_BYTES: nat := 16 * 1024 * 1024
  const PER_ENTRY_OVERHEAD: nat := 144

  /** A value and its deadline, on the model's single millisecond clock. */
  datatype Entry = Entry(data: Bytes, expireAt: Option<int>)

  type Store = map<Bytes, Entry>

  predicate Expired(e: Entry, now: int) {
    e.expireAt.Some? && e.expireAt.value <= now
  }

  /** What a client may see of `s` at `now`. */
  function Live(s: Store, now: int): Store {
    map k | k in s && !Expired(s[k], now) :: s[k]
  }

  /** Agreement on the live entries lasts: time only takes entries away. */
  lemma LiveLater(s: Store, t: Store, now: int, later: int)
    requires Live(s, now) == Live(t, now)
    requires now <= later
    ensures Live(s, later) == Live(t, later)
  {
    forall k
      ensures k in Live(s, later) <==> k in Live(t, later)
      ensures k in Live(s, later) ==> s[k] == t[k]
    {
      assert k in Live(s, now) <==> k in Live(t, now);
      if k in Live(s, now) {
        assert Live(s, now)[k] == Live(t, now)[k];
      }
    }
  }

  lemma LiveTwice(s: Store, now: int, later: int)
    requires now <= later
    ensures Live(Live(s, now), later) == Live(s, later)
  {
  }

  function EntryBytes(key: Bytes, e: Entry): nat {
    |key| + |e.data| + PER_ENTRY_OVERHEAD
  }

  /** The byte cost of a whole store. */
  ghost function TotalBytes(s: Store): nat
    decreases |s|
  {
    if s == map[] then 0
    else
      var k :| k in s;
      EntryBytes(k, s[k]) + TotalBytes(s - {k})
  }

  lemma {:induction false} TotalBytesSplit(s: Store, k: Bytes)
    requires k in s
    ensures TotalBytes(s) == EntryBytes(k, s[k]) + TotalBytes(s - {k})
    decreases |s|
  {
    var p :| p in s && TotalBytes(s) == EntryBytes(p, s[p]) + TotalBytes(s - {p});
    if p != k {
      TotalBytesSplit(s - {p}, k);
      TotalBytesSplit(s - {k}, p);
      assert s - {p} - {k} == s - {k} - {p};
    }
  }

  lemma TotalBytesUpdate(s: Store, k: Bytes, e: Entry)
    ensures TotalBytes(s[k := e]) == EntryBytes(k, e) + TotalBytes(s - {k})
  {
    TotalBytesSplit(s[k := e], k);
    assert s[k := e] - {k} == s - {k};
  }

  lemma {:induction false} TotalBytesMonotone(s: Store, gone: set<Bytes>)
    ensures TotalBytes(s - gone) <= TotalBytes(s)
    decreases |gone|
  {
    if g :| g in gone {
      TotalBytesMonotone(s, gone - {g});
      var rest := s - (gone - {g});
      assert rest - {g} == s - gone;
      if g in rest {
        TotalBytesSplit(rest, g);
      } else {
        assert rest - {g} == rest;
      }
    } else {
      assert s - gone == s;
    }
  }

  datatype Error =
    | EmptyKey
    | KeyTooLong
    | ValueTooLarge
    | OutOfMemory
    | NotAnInteger

  function ValidateKey(key: Bytes): Option<Error> {
    if |key| == 0 then Some(EmptyKey)
    else if |key| > KEY_MAX_BYTES then Some(KeyTooLong)
    else None
  }

  function ValidateValue(value: Bytes): Option<Error> {
    if |value| > VALUE_MAX_BYTES then Some(ValueTooLarge) else None
  }

  datatype Scope = AllKeys | Volatile

  /** The policies that sample candidates differ only in which sampled key
      they like least, so they share a constructor. */
  datatype Policy =
    | NoEviction
    | Sampled(sampledScope: Scope)
    | SievePolicy(sieveScope: Scope, ttlAware: bool)
    | ClimbPolicy(climbScope: Scope)

  function PolicyScope(p: Policy): Scope {
    match p
    case NoEviction => AllKeys
    case Sampled(s) => s
    case SievePolicy(s, _) => s
    case ClimbPolicy(s) => s
  }

  /** Which stateful index a policy needs; `NoEviction` and the sampled
      policies need none. */
  datatype IndexKind = NoIndex | SieveIndex(scope: Scope, ttlAware: bool) | ClimbIndex(scope: Scope)

  function KindOf(p: Policy): IndexKind {
    match p
    case NoEviction => NoIndex
    case Sampled(_) => NoIndex
    case SievePolicy(s, t) => SieveIndex(s, t)
    case ClimbPolicy(s) => ClimbIndex(s)
  }

  /** Two policies share an index, and a switch between them keeps it, exactly when
      neither has one or they are the same. */
  lemma KindTells(p: Policy, q: Policy)
    ensures KindOf(p) == KindOf(q) <==>
            p == q || ((p.NoEviction? || p.Sampled?) && (q.NoEviction? || q.Sampled?))
  {
  }

  datatype Config = Config(maxMemory: nat, policy: Policy, samples: nat)

  /** May `k` be evicted under `scope`? */
  predicate Eligible(s: Store, scope: Scope, k: Bytes) {
    k in s && (scope == Volatile ==> s[k].expireAt.Some?)
  }
}
