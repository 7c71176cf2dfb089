/** What the commands promise each other, on the reference machine that the
    engine answers as: one command's effect read through another's reply. */
module ReplyLaws {
  import opened Prelude
  import opened Keyspace
  import opened Decimal
  import opened LiveMap

  function After(m: Store, now: int, op: Op): Store {
    Exec(m, now, op).0
  }

  function Answer(m: Store, now: int, op: Op): Reply {
    Exec(m, now, op).1
  }

  /** The keys a command names; FLUSHDB means them all. */
  predicate Names(op: Op, k: Bytes) {
    match op
    case MSet(pairs) => exists i :: 0 <= i < |pairs| && pairs[i].0 == k
    case MGet(keys) => k in keys
    case Exists(keys) => k in keys
    case Del(keys) => k in keys
    case FlushDb => true
    case DbSize => false
    case _ => op.key == k
  }

  lemma {:induction false} PutAllElsewhere(m: Store, pairs: seq<(Bytes, Bytes)>, k: Bytes)
    requires forall i :: 0 <= i < |pairs| ==> pairs[i].0 != k
    ensures k in PutAll(m, pairs) <==> k in m
    ensures k in m ==> PutAll(m, pairs)[k] == m[k]
  {
    if pairs != [] {
      PutAllElsewhere(m, pairs[..|pairs| - 1], k);
    }
  }

  /** A command changes nothing about keys it does not name. */
  lemma OthersUntouched(m: Store, now: int, op: Op, k: Bytes)
    requires !Names(op, k)
    ensures Answer(After(m, now, op), now, Get(k)) == Answer(m, now, Get(k))
    ensures Answer(After(m, now, op), now, Ttl(k)) == Answer(m, now, Ttl(k))
  {
    hide Named;
    if op.Del? {
      NamedHas(op.keys, k);
    }
    if op.MSet? {
      assert forall i :: 0 <= i < |op.pairs| ==> op.pairs[i].0 != k;
      PutAllElsewhere(m, op.pairs, k);
    }
  }

  /** Reading changes nothing, and a refused command changes nothing. */
  lemma ReadersAndRefusals(m: Store, now: int, op: Op)
    requires Answer(m, now, op).Fail? || op.Get? || op.MGet? || op.Exists? || op.StrLen? || op.Ttl? || op.MemoryUsage? || op.DbSize?
    ensures After(m, now, op) == m
  {
  }

  // ---- Writing and reading back ----

  /** SET takes keys of 1 to 65536 bytes and values of up to 16 MiB. What it
      wrote is what GET, STRLEN, TTL and MEMORY USAGE then report. */
  lemma SetReadsBack(m: Store, now: int, k: Bytes, v: Bytes)
    ensures Answer(m, now, Op.Set(k, v)) == Done <==> 1 <= |k| <= 65536 && |v| <= 16777216
    ensures Answer(m, now, Op.Set(k, v)) != Done ==> Answer(m, now, Op.Set(k, v)).Fail?
    ensures Answer(m, now, Op.Set(k, v)) == Done ==>
              var m' := After(m, now, Op.Set(k, v));
              && Answer(m', now, Get(k)) == Bulk(Some(v))
              && Answer(m', now, StrLen(k)) == Number(|v|)
              && Answer(m', now, Ttl(k)) == TtlIs(NoExpire)
              && Answer(m', now, MemoryUsage(k)) == Cost(Some(|k| + |v| + 144))
  {
  }

  /** SETNX is SET where GET finds nothing, and nothing where it finds something. */
  lemma SetNxIsSetIfMissing(m: Store, now: int, k: Bytes, v: Bytes)
    requires Answer(m, now, Op.Set(k, v)) == Done
    ensures Answer(m, now, Op.SetNx(k, v)) == Flag(Answer(m, now, Get(k)) == Bulk(None))
    ensures After(m, now, Op.SetNx(k, v)) == if Answer(m, now, Get(k)) == Bulk(None) then After(m, now, Op.Set(k, v)) else m
  {
  }

  lemma {:induction false} FirstInvalidIs(pairs: seq<(Bytes, Bytes)>)
    ensures FirstInvalid(pairs) == None <==> forall i :: 0 <= i < |pairs| ==> Invalid(pairs[i].0, pairs[i].1) == None
  {
    if pairs != [] {
      FirstInvalidIs(pairs[1..]);
      assert forall i :: 1 <= i < |pairs| ==> pairs[i] == pairs[1..][i - 1];
    }
  }

  /** MSET is its SETs in order, and is refused exactly when one of them is. */
  lemma MSetIsSets(m: Store, now: int, pairs: seq<(Bytes, Bytes)>)
    ensures Answer(m, now, MSet(pairs)) == Done <==>
            forall i :: 0 <= i < |pairs| ==> Answer(m, now, Op.Set(pairs[i].0, pairs[i].1)) == Done
    ensures Answer(m, now, MSet(pairs)) == Done && pairs != [] ==>
              var front, last := pairs[..|pairs| - 1], pairs[|pairs| - 1];
              && Answer(m, now, MSet(front)) == Done
              && After(m, now, MSet(pairs)) == After(After(m, now, MSet(front)), now, Op.Set(last.0, last.1))
    ensures After(m, now, MSet([])) == m
  {
    FirstInvalidIs(pairs);
    if pairs != [] {
      FirstInvalidIs(pairs[..|pairs| - 1]);
    }
  }

  /** INCRBY starts from 0 on a missing key and from the number otherwise; it
      fails exactly on a value that is no number and on overflow, and GET then
      shows the sum in decimal. */
  lemma IncrAdds(m: Store, now: int, k: Bytes, d: int, n: int)
    requires 1 <= |k| <= 65536 && IsI64(n) && (if k in m then m[k].data == Print(n) else n == 0)
    ensures IsI64(n + d) ==>
              var m' := After(m, now, IncrBy(k, d));
              && Answer(m, now, IncrBy(k, d)) == Number(n + d)
              && Answer(m', now, Get(k)) == Bulk(Some(Print(n + d)))
    ensures !IsI64(n + d) ==> Answer(m, now, IncrBy(k, d)) == Fail(NotAnInteger)
  {
    PrintParse(n);
  }

  lemma IncrRefusesText(m: Store, now: int, k: Bytes, d: int)
    requires 1 <= |k| <= 65536 && k in m && Parse(m[k].data) == None
    ensures Answer(m, now, IncrBy(k, d)) == Fail(NotAnInteger)
  {
  }

  /** APPEND puts the suffix behind what GET showed; its reply and STRLEN agree
      on the sum of the lengths. It fails exactly when that exceeds 16 MiB. */
  lemma AppendJoins(m: Store, now: int, k: Bytes, x: Bytes)
    requires 1 <= |k| <= 65536
    ensures var was := if k in m then m[k].data else [];
            var m' := After(m, now, Append(k, x));
            && (|was| + |x| <= 16777216 ==>
                  && Answer(m, now, Append(k, x)) == Number(|was| + |x|)
                  && Answer(m', now, StrLen(k)) == Number(|was| + |x|)
                  && Answer(m', now, Get(k)) == Bulk(Some(was + x)))
            && (|was| + |x| > 16777216 ==> Answer(m, now, Append(k, x)) == Fail(ValueTooLarge))
  {
    assert [] + x == x;
  }

  /** Updates in place keep the deadline: what TTL answered before it answers
      after, and a key they create has none. */
  lemma UpdatesKeepTtl(m: Store, now: int, op: Op)
    requires (op.IncrBy? || op.Append?) && !Answer(m, now, op).Fail?
    ensures var m' := After(m, now, op);
            && op.key in m'
            && m'[op.key].expireAt == (if op.key in m then m[op.key].expireAt else None)
            && Answer(m', now, Ttl(op.key)) ==
               if op.key in m then Answer(m, now, Ttl(op.key)) else TtlIs(NoExpire)
  {
  }

  // ---- Several keys at once ----

  /** MGET is GET, key by key. */
  lemma MGetIsGets(m: Store, now: int, keys: seq<Bytes>)
    ensures Answer(m, now, MGet(keys)).Bulks? && |Answer(m, now, MGet(keys)).all| == |keys|
    ensures forall i :: 0 <= i < |keys| ==> Bulk(Answer(m, now, MGet(keys)).all[i]) == Answer(m, now, Get(keys[i]))
  {
  }

  /** EXISTS counts the keys GET would find, each as often as it is named. */
  lemma ExistsCounts(m: Store, now: int, keys: seq<Bytes>, k: Bytes)
    ensures Answer(m, now, Exists([])) == Number(0)
    ensures Answer(m, now, Exists(keys)).Number?
    ensures Answer(m, now, Exists(keys + [k])) ==
            Number(Answer(m, now, Exists(keys)).n + if Answer(m, now, Get(k)) == Bulk(None) then 0 else 1)
  {
    assert (keys + [k])[..|keys|] == keys;
  }

  /** DEL leaves GET nothing. */
  lemma DelRemoves(m: Store, now: int, keys: seq<Bytes>, k: Bytes)
    requires k in keys
    ensures Answer(After(m, now, Del(keys)), now, Get(k)) == Bulk(None)
  {
  }

  /** It answers how many keys DBSIZE has lost. */
  lemma DelCounts(m: Store, now: int, keys: seq<Bytes>)
    ensures Answer(m, now, Del(keys)).Number? && Answer(m, now, DbSize).Number?
    ensures Answer(After(m, now, Del(keys)), now, DbSize) ==
            Number(Answer(m, now, DbSize).n - Answer(m, now, Del(keys)).n)
  {
    hide Named;
    LessThese(m, Named(keys), Named(keys) * m.Keys);
  }

  lemma LessThese(m: Store, named: set<Bytes>, gone: set<Bytes>)
    requires gone == named * m.Keys
    ensures |m - named| == |m| - |gone|
  {
    var left := m - named;
    assert left.Keys == m.Keys - gone;
    assert |m.Keys - gone| == |m.Keys| - |gone|;
    assert |left| == |left.Keys| && |m| == |m.Keys|;
  }

  lemma FlushEmpties(m: Store, now: int, k: Bytes)
    ensures Answer(After(m, now, Op.FlushDb), now, DbSize) == Number(0)
    ensures Answer(After(m, now, Op.FlushDb), now, Get(k)) == Bulk(None)
  {
  }

  /** DBSIZE grows by one exactly when a SET creates its key. */
  lemma DbSizeCounts(m: Store, now: int, k: Bytes, v: Bytes)
    requires Answer(m, now, Op.Set(k, v)) == Done
    ensures Answer(m, now, DbSize).Number?
    ensures Answer(After(m, now, Op.Set(k, v)), now, DbSize) ==
            Number(Answer(m, now, DbSize).n + if Answer(m, now, Get(k)) == Bulk(None) then 1 else 0)
  {
    PutSize(m, k, Entry(v, None));
  }

  lemma PutSize(m: Store, k: Bytes, e: Entry)
    ensures |m[k := e]| == |m| + if k in m then 0 else 1
  {
    assert m[k := e].Keys == m.Keys + {k};
    assert |m[k := e]| == |m[k := e].Keys| && |m| == |m.Keys|;
  }

  // ---- Deadlines ----

  /** A future EXPIREAT shows in TTL and nowhere else; a past one deletes; on a
      missing key it does nothing. */
  lemma ExpireAtStamps(m: Store, now: int, k: Bytes, at: int)
    ensures var m' := After(m, now, ExpireAt(k, at));
            && Answer(m, now, ExpireAt(k, at)) == Flag(Answer(m, now, Get(k)) != Bulk(None))
            && (k in m && now < at ==>
                  && Answer(m', now, Ttl(k)) == TtlIs(Millis(at - now))
                  && Answer(m', now, Get(k)) == Answer(m, now, Get(k)))
            && (k in m && at <= now ==> Answer(m', now, Get(k)) == Bulk(None) && Answer(m', now, Ttl(k)) == TtlIs(Missing))
            && (k !in m ==> m' == m)
  {
  }

  /** PERSIST succeeds exactly where TTL shows a time, and takes it away. */
  lemma PersistUnstamps(m: Store, now: int, k: Bytes)
    ensures var m' := After(m, now, Persist(k));
            && (Answer(m, now, Persist(k)) == Flag(true) <==>
                Answer(m, now, Ttl(k)) != TtlIs(Missing) && Answer(m, now, Ttl(k)) != TtlIs(NoExpire))
            && (Answer(m, now, Persist(k)) == Flag(true) ==> Answer(m', now, Ttl(k)) == TtlIs(NoExpire))
            && (Answer(m, now, Persist(k)) != Flag(true) ==> Answer(m, now, Persist(k)) == Flag(false) && m' == m)
            && Answer(m', now, Get(k)) == Answer(m, now, Get(k))
  {
  }

  /** Time alone: a key stays, with its TTL counting down, until the very
      millisecond of its deadline, and is then gone; a key without one stays. */
  lemma TimePasses(r: Ref, ms: nat, k: Bytes)
    requires k in r.live
    ensures var later := RefStep(r, Pass(ms));
            && later.now == r.now + ms && later.replies == r.replies
            && (match r.live[k].expireAt
                case None =>
                  && Answer(later.live, later.now, Get(k)) == Bulk(Some(r.live[k].data))
                  && Answer(later.live, later.now, Ttl(k)) == TtlIs(NoExpire)
                case Some(at) =>
                  if r.now + ms < at then
                    && Answer(later.live, later.now, Get(k)) == Bulk(Some(r.live[k].data))
                    && Answer(later.live, later.now, Ttl(k)) == TtlIs(Millis(at - (r.now + ms)))
                  else Answer(later.live, later.now, Get(k)) == Bulk(None))
  {
  }

  /** Missing keys stay missing, sweeps and policies mean nothing, and a command
      adds its reply. */
  lemma StepsOtherwise(r: Ref, e: Event, k: Bytes)
    ensures e.Pass? && k !in r.live ==> k !in RefStep(r, e).live
    ensures e.SweepTick? || e.Configure? ==> RefStep(r, e) == r
    ensures e.Cmd? ==>
              && RefStep(r, e).now == r.now
              && RefStep(r, e).replies == r.replies + [Answer(r.live, r.now, e.op)]
              && RefStep(r, e).live == After(r.live, r.now, e.op)
  {
  }
}
