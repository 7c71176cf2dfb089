/** From records to bytes and back: the log file, a crash that cuts it short,
    and the loader that reads it into an engine. */
module Recovery {
  import opened Prelude
  import opened Keyspace
  import opened Decimal
  import opened Records
  import Resp
  import Commands
  import LiveMap
  import Engine

  function VerbFor(r: Record): Commands.Verb {
    match r
    case Set(_, _) => Commands.SET
    case Del(_) => Commands.DEL
    case FlushDb => Commands.FLUSHDB
    case PExpireAt(_, _) => Commands.PEXPIREAT
    case Persist(_) => Commands.PERSIST
  }

  function Operands(r: Record): seq<Bytes> {
    match r
    case Set(k, v) => [k, v]
    case Del(k) => [k]
    case FlushDb => []
    case PExpireAt(k, at) => [k, Print(at)]
    case Persist(k) => [k]
  }

  /** The parts a record is written with. */
  function PartsOf(r: Record): seq<Bytes> {
    [Commands.Name(VerbFor(r))] + Operands(r)
  }

  function BytesOf(r: Record): Bytes {
    Resp.Encode(PartsOf(r))
  }

  /** A file of records, each written by `enc`. */
  function FileOf(rs: seq<Record>, enc: Record -> Bytes): Bytes {
    if rs == [] then [] else enc(rs[0]) + FileOf(rs[1..], enc)
  }

  datatype Decoded = Apply(record: Record) | Unknown | Arity

  /** `apply_record`'s reading of the parts, before it touches the engine. */
  function Decode(parts: seq<Bytes>): Decoded {
    if parts == [] then Arity else DecodeVerb(Commands.VerbOf(parts[0]), parts[1..])
  }

  function DecodeVerb(verb: Option<Commands.Verb>, args: seq<Bytes>): Decoded {
    match verb
    case Some(SET) => if |args| != 2 then Arity else Apply(Set(args[0], args[1]))
    case Some(DEL) => if |args| != 1 then Arity else Apply(Del(args[0]))
    case Some(FLUSHDB) => if |args| != 0 then Arity else Apply(FlushDb)
    case Some(PEXPIREAT) =>
      if |args| != 2 || Parse(args[1]) == None then Arity else Apply(PExpireAt(args[0], Parse(args[1]).value))
    case Some(PERSIST) => if |args| != 1 then Arity else Apply(Persist(args[0]))
    case _ => Unknown
  }

  lemma DecodeOperands(r: Record)
    requires Writable(r)
    ensures DecodeVerb(Some(VerbFor(r)), Operands(r)) == Apply(r)
  {
    if r.PExpireAt? {
      PrintParse(r.at);
      StampDecodes(r.key, Print(r.at), r.at);
    }
  }

  lemma StampDecodes(k: Bytes, text: Bytes, at: int)
    requires Parse(text) == Some(at)
    ensures DecodeVerb(Some(Commands.PEXPIREAT), [k, text]) == Apply(PExpireAt(k, at))
  {
  }

  lemma DecodeParts(r: Record)
    requires Writable(r)
    ensures Decode(PartsOf(r)) == Apply(r)
  {
    Commands.VerbOfName(VerbFor(r));
    DecodeOperands(r);
    assert PartsOf(r)[1..] == Operands(r);
  }

  /** The command `apply_record` issues. */
  function OpOf(r: Record): LiveMap.Op {
    match r
    case Set(k, v) => LiveMap.Set(k, v)
    case Del(k) => LiveMap.Del([k])
    case FlushDb => LiveMap.FlushDb
    case PExpireAt(k, at) => LiveMap.ExpireAt(k, at)
    case Persist(k) => LiveMap.Persist(k)
  }

  lemma DecodedIsTyped(parts: seq<Bytes>)
    requires Decode(parts).Apply?
    ensures LiveMap.WellTyped(OpOf(Decode(parts).record))
  {
    if Decode(parts).record.PExpireAt? {
      ParseInRange(parts[1..][1]);
    }
  }

  /** And only from such parts: the name in any case, the operands to the letter,
      a stamp in any text that parses to it, and no more and no fewer parts. */
  lemma DecodedWasWritten(parts: seq<Bytes>)
    requires Decode(parts).Apply?
    ensures var r := Decode(parts).record;
            && |parts| == |PartsOf(r)|
            && Commands.UpperAll(parts[0]) == Commands.Name(VerbFor(r))
            && forall i :: 1 <= i < |parts| ==>
                 parts[i] == PartsOf(r)[i] || (r.PExpireAt? && i == 2 && Parse(parts[2]) == Some(r.at))
  {
    hide Parse, Print, Commands.Name, Commands.UpperAll;
    var r := Decode(parts).record;
    assert parts[1..] == Operands(r) || r.PExpireAt?;
    assert forall i :: 1 <= i < |parts| ==> parts[i] == parts[1..][i - 1];
  }

  /** A first part that names none of the five is skipped, whatever follows. */
  lemma OthersAreSkipped(parts: seq<Bytes>)
    requires parts != []
    requires Commands.VerbOf(parts[0]) != Some(Commands.SET) && Commands.VerbOf(parts[0]) != Some(Commands.DEL)
    requires Commands.VerbOf(parts[0]) != Some(Commands.FLUSHDB) && Commands.VerbOf(parts[0]) != Some(Commands.PEXPIREAT)
    requires Commands.VerbOf(parts[0]) != Some(Commands.PERSIST)
    ensures Decode(parts) == Unknown
  {
  }

  /** The texts of the five records. */
  lemma RecordTexts(k: Bytes, v: Bytes, at: int)
    ensures PartsOf(Set(k, v)) == [Ascii("SET"), k, v]
    ensures PartsOf(Del(k)) == [Ascii("DEL"), k] && PartsOf(FlushDb) == [Ascii("FLUSHDB")]
    ensures PartsOf(PExpireAt(k, at)) == [Ascii("PEXPIREAT"), k, Print(at)]
    ensures PartsOf(Persist(k)) == [Ascii("PERSIST"), k]
  {
    hide Print, Ascii, Commands.Name;
    Commands.NamesSpelled(Commands.SET);
    Commands.NamesSpelled(Commands.DEL);
    Commands.NamesSpelled(Commands.FLUSHDB);
    Commands.NamesSpelled(Commands.PEXPIREAT);
    Commands.NamesSpelled(Commands.PERSIST);
  }

  lemma PartsReadable(r: Record)
    requires Writable(r)
    ensures Resp.Readable(Resp.Replay, PartsOf(r))
  {
    if r.PExpireAt? {
      PrintShort(r.at);
    }
  }

  datatype End = Clean | Torn | Corrupt | Refused

  /** What the loader gets out of a file: the records it applies, how many it
      skips, how far the whole records reach, and why it stopped. */
  datatype Loaded = Loaded(records: seq<Record>, skipped: nat, used: nat, end: End)

  /** `set` validates, so a record it would refuse fails the whole replay. */
  predicate Refuses(r: Record) {
    r.Set? && LiveMap.Invalid(r.key, r.value).Some?
  }

  datatype Next = Stop(end: End) | Take(record: Record, used: nat) | Skip(used: nat)

  /** The next whole record in `s`, if there is one. */
  function Peek(s: Bytes): Next {
    match Resp.ReadArray(Resp.Replay, s)
    case Need => Stop(if s == [] then Clean else Torn)
    case Bad(_) => Stop(Corrupt)
    case Got(parts, used) =>
      if Decode(parts).Apply? then Take(Decode(parts).record, used) else Skip(used)
  }

  /** What any such reader owes the loop: progress, and stamps that fit. */
  ghost predicate SoundAt(peek: Bytes -> Next, s: Bytes) {
    && (!peek(s).Stop? ==> 0 < peek(s).used <= |s|)
    && (peek(s).Take? ==> LiveMap.WellTyped(OpOf(peek(s).record)))
  }

  ghost predicate Sound(peek: Bytes -> Next) {
    forall s :: SoundAt(peek, s)
  }

  lemma PeekIsSound()
    ensures Sound(Peek)
  {
    forall s
      ensures SoundAt(Peek, s)
    {
      match Resp.ReadArray(Resp.Replay, s)
      case Got(parts, used) =>
        Resp.ArrayUses(Resp.Replay, s);
        if Decode(parts).Apply? {
          DecodedIsTyped(parts);
        }
      case _ =>
    }
  }

  function Load(s: Bytes, peek: Bytes -> Next): Loaded
    decreases |s|
  {
    match peek(s)
    case Stop(end) => Loaded([], 0, 0, end)
    case Take(r, used) =>
      if Refuses(r) || !(0 < used <= |s|) then Loaded([], 0, 0, Refused)
      else Onto([r], 0, used, Load(s[used..], peek))
    case Skip(used) =>
      if !(0 < used <= |s|) then Loaded([], 0, 0, Refused)
      else Onto([], 1, used, Load(s[used..], peek))
  }

  function Onto(records: seq<Record>, skipped: nat, used: nat, l: Loaded): Loaded {
    Loaded(records + l.records, skipped + l.skipped, used + l.used, l.end)
  }

  /** The reader gives every writable record back, whatever follows it, and
      knows a cut one for torn. */
  ghost predicate ReadsRecord(peek: Bytes -> Next, enc: Record -> Bytes, r: Record, rest: Bytes) {
    enc(r) != [] && peek(enc(r) + rest) == Take(r, |enc(r)|)
  }

  ghost predicate SeesCut(peek: Bytes -> Next, enc: Record -> Bytes, r: Record, m: nat) {
    m < |enc(r)| ==> peek(enc(r)[..m]) == Stop(if m == 0 then Clean else Torn)
  }

  ghost predicate ReadsLog(peek: Bytes -> Next, enc: Record -> Bytes) {
    && peek([]) == Stop(Clean)
    && (forall r, rest :: Writable(r) ==> ReadsRecord(peek, enc, r, rest))
    && (forall r, m :: Writable(r) ==> SeesCut(peek, enc, r, m))
  }

  lemma PeekReadsLog()
    ensures ReadsLog(Peek, BytesOf)
  {
    forall r, rest | Writable(r)
      ensures ReadsRecord(Peek, BytesOf, r, rest)
    {
      PartsReadable(r);
      DecodeParts(r);
      Resp.EncodeReads(Resp.Replay, PartsOf(r), rest);
    }
    forall r, m: nat | Writable(r)
      ensures SeesCut(Peek, BytesOf, r, m)
    {
      if m < |BytesOf(r)| {
        PartsReadable(r);
        Resp.PrefixIsIncomplete(Resp.Replay, PartsOf(r), m);
      }
    }
  }

  lemma LoadsFirst(r: Record, rest: Bytes, peek: Bytes -> Next, enc: Record -> Bytes)
    requires ReadsLog(peek, enc) && Writable(r)
    ensures Load(enc(r) + rest, peek) == Onto([r], 0, |enc(r)|, Load(rest, peek))
  {
    assert ReadsRecord(peek, enc, r, rest);
    assert (enc(r) + rest)[|enc(r)|..] == rest;
  }

  /** What loading `rs` cut after `cut` bytes means: the first `n` records, which
      are the wholly contained ones, load in order; the tail is torn exactly when
      the cut is inside a record; and `used` is the last record boundary. */
  ghost predicate Recovers(rs: seq<Record>, cut: nat, l: Loaded, n: nat, enc: Record -> Bytes) {
    && n <= |rs|
    && |FileOf(rs[..n], enc)| <= cut
    && (n < |rs| ==> cut < |FileOf(rs[..n + 1], enc)|)
    && l == Loaded(rs[..n], 0, |FileOf(rs[..n], enc)|, if cut == |FileOf(rs[..n], enc)| then Clean else Torn)
  }

  lemma RecoversNothing(peek: Bytes -> Next, enc: Record -> Bytes)
    requires ReadsLog(peek, enc)
    ensures Recovers([], 0, Load(FileOf([], enc)[..0], peek), 0, enc)
  {
  }

  lemma RecoversNone(rs: seq<Record>, cut: nat, peek: Bytes -> Next, enc: Record -> Bytes)
    requires ReadsLog(peek, enc) && rs != [] && Writable(rs[0]) && cut < |enc(rs[0])|
    ensures cut <= |FileOf(rs, enc)| && Recovers(rs, cut, Load(FileOf(rs, enc)[..cut], peek), 0, enc)
  {
    assert FileOf(rs, enc)[..cut] == enc(rs[0])[..cut];
    assert SeesCut(peek, enc, rs[0], cut);
    FileOfTake(rs, 1, enc);
    assert FileOf(rs[1..][..0], enc) == [];
  }

  lemma RecoversMore(rs: seq<Record>, cut: nat, l: Loaded, n: nat, enc: Record -> Bytes)
    requires rs != [] && Recovers(rs[1..], cut, l, n, enc)
    ensures Recovers(rs, |enc(rs[0])| + cut, Onto([rs[0]], 0, |enc(rs[0])|, l), n + 1, enc)
  {
    FileOfTake(rs, n + 1, enc);
    if n + 1 < |rs| {
      FileOfTake(rs, n + 2, enc);
    }
    assert [rs[0]] + rs[1..][..n] == rs[..n + 1];
  }

  lemma RecoversNext(rs: seq<Record>, rest: nat, peek: Bytes -> Next, enc: Record -> Bytes, n: nat)
    requires ReadsLog(peek, enc) && rs != [] && Writable(rs[0]) && rest <= |FileOf(rs[1..], enc)|
    requires Recovers(rs[1..], rest, Load(FileOf(rs[1..], enc)[..rest], peek), n, enc)
    ensures var cut := |enc(rs[0])| + rest;
            cut <= |FileOf(rs, enc)| && Recovers(rs, cut, Load(FileOf(rs, enc)[..cut], peek), n + 1, enc)
  {
    var tail := FileOf(rs[1..], enc)[..rest];
    LoadsFirst(rs[0], tail, peek, enc);
    RecoversMore(rs, rest, Load(tail, peek), n, enc);
    assert FileOf(rs, enc)[..|enc(rs[0])| + rest] == enc(rs[0]) + tail;
  }

  /** Crash recovery on bytes, for a log cut anywhere. */
  lemma {:induction false} CutLogLoads(rs: seq<Record>, cut: nat, peek: Bytes -> Next, enc: Record -> Bytes) returns (n: nat)
    requires ReadsLog(peek, enc) && AllWritable(rs) && cut <= |FileOf(rs, enc)|
    ensures Recovers(rs, cut, Load(FileOf(rs, enc)[..cut], peek), n, enc)
    decreases |rs|
  {
    if rs == [] {
      n := 0;
      RecoversNothing(peek, enc);
    } else if cut < |enc(rs[0])| {
      n := 0;
      RecoversNone(rs, cut, peek, enc);
    } else {
      var rest := cut - |enc(rs[0])|;
      assert AllWritable(rs[1..]);
      n := CutLogLoads(rs[1..], rest, peek, enc);
      RecoversNext(rs, rest, peek, enc, n);
      n := n + 1;
    }
  }

  lemma FileOfTake(rs: seq<Record>, n: nat, enc: Record -> Bytes)
    requires 0 < n <= |rs|
    ensures FileOf(rs[..n], enc) == enc(rs[0]) + FileOf(rs[1..][..n - 1], enc)
  {
    assert rs[..n][1..] == rs[1..][..n - 1];
  }

  lemma {:induction false} FileOfPrefix(rs: seq<Record>, n: nat, enc: Record -> Bytes)
    requires n <= |rs|
    ensures FileOf(rs[..n], enc) <= FileOf(rs, enc)
  {
    if n > 0 {
      FileOfTake(rs, n, enc);
      FileOfPrefix(rs[1..], n - 1, enc);
    }
  }

  lemma WholeLogLoads(rs: seq<Record>, peek: Bytes -> Next, enc: Record -> Bytes)
    requires ReadsLog(peek, enc) && AllWritable(rs)
    ensures Load(FileOf(rs, enc), peek) == Loaded(rs, 0, |FileOf(rs, enc)|, Clean)
  {
    var file := FileOf(rs, enc);
    var n := CutLogLoads(rs, |file|, peek, enc);
    assert file[..|file|] == file;
    if n < |rs| {
      FileOfPrefix(rs, n + 1, enc);
    }
    assert rs[..|rs|] == rs;
  }

  /** A second replay of the truncated file is clean and loads the same. */
  lemma SecondReplayIsClean(rs: seq<Record>, cut: nat, peek: Bytes -> Next, enc: Record -> Bytes)
    requires ReadsLog(peek, enc) && AllWritable(rs) && cut <= |FileOf(rs, enc)|
    ensures var first := Load(FileOf(rs, enc)[..cut], peek);
            && first.used <= cut
            && Load(FileOf(rs, enc)[..first.used], peek) == first.(end := Clean)
  {
    var n := CutLogLoads(rs, cut, peek, enc);
    WholeLogLoads(rs[..n], peek, enc);
    FileOfPrefix(rs, n, enc);
    assert FileOf(rs, enc)[..|FileOf(rs[..n], enc)|] == FileOf(rs[..n], enc);
  }

  lemma DelReplays(m: Store, k: Bytes, t: int)
    ensures LiveMap.Exec(m, t, LiveMap.Del([k])).0 == ReplayOne(m, Del(k), t)
    ensures !LiveMap.Exec(m, t, LiveMap.Del([k])).1.Fail?
  {
    hide LiveMap.Named;
    LiveMap.NamedHas([], k);
  }

  lemma TtlReplays(m: Store, r: Record, t: int)
    requires (r.PExpireAt? || r.Persist?) && forall k :: k in m ==> !Expired(m[k], t)
    ensures LiveMap.Exec(m, t, OpOf(r)).0 == ReplayOne(m, r, t)
    ensures !LiveMap.Exec(m, t, OpOf(r)).1.Fail?
  {
    if r.Persist? && r.key in m && m[r.key].expireAt == None {
      assert m[r.key := m[r.key]] == m;
    }
  }

  /** On live entries the command does what replaying the record does. */
  lemma OpReplays(m: Store, r: Record, t: int)
    requires forall k :: k in m ==> !Expired(m[k], t)
    ensures LiveMap.Exec(m, t, OpOf(r)).1.Fail? <==> Refuses(r)
    ensures LiveMap.Exec(m, t, OpOf(r)).0 == if Refuses(r) then m else ReplayOne(m, r, t)
  {
    match r
    case Del(k) => DelReplays(m, k, t);
    case PExpireAt(_, _) => TtlReplays(m, r, t);
    case Persist(_) => TtlReplays(m, r, t);
    case _ =>
  }

  /** Both for the reader replay has. */
  lemma CrashRecovery(rs: seq<Record>, cut: nat) returns (n: nat)
    requires AllWritable(rs) && cut <= |FileOf(rs, BytesOf)|
    ensures var first := Load(FileOf(rs, BytesOf)[..cut], Peek);
            && Recovers(rs, cut, first, n, BytesOf)
            && first.used <= cut
            && Load(FileOf(rs, BytesOf)[..first.used], Peek) == first.(end := Clean)
  {
    PeekReadsLog();
    n := CutLogLoads(rs, cut, Peek, BytesOf);
    SecondReplayIsClean(rs, cut, Peek, BytesOf);
  }

  lemma ReplaySnoc(rs: seq<Record>, r: Record, t: int)
    ensures Replay(rs + [r], t) == ReplayOne(Replay(rs, t), r, t)
  {
    assert (rs + [r])[..|rs|] == rs;
  }

  /** The engine shows what the records replayed so far say. */
  ghost predicate Shows(e: Engine.KvEngine, records: seq<Record>)
    reads e, e.sieve, e.ac
  {
    e.Valid() && e.cfg.maxMemory == 0 && e.Visible() == Replay(records, e.clock)
  }

  /** One record into the engine. */
  method ApplyRecord(e: Engine.KvEngine, r: Record, ghost records: seq<Record>) returns (ok: bool)
    requires Shows(e, records) && LiveMap.WellTyped(OpOf(r))
    modifies e`store, e`used, e`log, e`dropped, e.sieve, e.ac
    ensures ok <==> !Refuses(r)
    ensures Shows(e, if ok then records + [r] else records)
  {
    hide Engine.KvEngine.Core, Engine.KvEngine.LogReads, Engine.KvEngine.Queued, Replay, Engine.KvEngine.Budgeted;
    ghost var m := e.Visible();
    OpReplays(m, r, e.clock);
    ReplaySnoc(records, r, e.clock);
    var reply;
    ghost var evicted;
    reply, evicted := e.Execute(OpOf(r));
    assert LiveMap.Exec(m, e.clock, OpOf(r)).0 - {} == LiveMap.Exec(m, e.clock, OpOf(r)).0;
    ok := !reply.Fail?;
  }

  /** Part way through `file`: what was found so far, then the rest. */
  ghost predicate Standing(file: Bytes, peek: Bytes -> Next, records: seq<Record>, skipped: nat, pos: nat) {
    pos <= |file| && Load(file, peek) == Onto(records, skipped, pos, Load(file[pos..], peek))
  }

  lemma StandingStarts(file: Bytes, peek: Bytes -> Next)
    ensures Standing(file, peek, [], 0, 0)
  {
    assert file[0..] == file;
    var l := Load(file, peek);
    assert [] + l.records == l.records;
  }

  lemma StandingNext(file: Bytes, peek: Bytes -> Next, records: seq<Record>, skipped: nat, pos: nat)
    requires Standing(file, peek, records, skipped, pos) && SoundAt(peek, file[pos..])
    ensures match peek(file[pos..])
            case Stop(end) => Load(file, peek) == Loaded(records, skipped, pos, end)
            case Take(r, used) =>
              if Refuses(r) then Load(file, peek) == Loaded(records, skipped, pos, Refused)
              else Standing(file, peek, records + [r], skipped, pos + used)
            case Skip(used) => Standing(file, peek, records, skipped + 1, pos + used)
  {
    var rest := file[pos..];
    match peek(rest)
    case Stop(end) =>
      OntoEnd(records, skipped, pos, end);
    case Take(r, used) =>
      if Refuses(r) {
        OntoEnd(records, skipped, pos, Refused);
      } else {
        OntoOnto(records, skipped, pos, [r], 0, used, Load(rest[used..], peek));
        assert rest[used..] == file[pos + used..];
      }
    case Skip(used) =>
      OntoOnto(records, skipped, pos, [], 1, used, Load(rest[used..], peek));
      assert rest[used..] == file[pos + used..];
      assert records + [] == records;
  }

  lemma OntoEnd(records: seq<Record>, skipped: nat, pos: nat, end: End)
    ensures Onto(records, skipped, pos, Loaded([], 0, 0, end)) == Loaded(records, skipped, pos, end)
  {
    assert records + [] == records;
  }

  lemma OntoOnto(rs: seq<Record>, skipped: nat, pos: nat, more: seq<Record>, m: nat, used: nat, l: Loaded)
    ensures Onto(rs, skipped, pos, Onto(more, m, used, l)) == Onto(rs + more, skipped + m, pos + used, l)
  {
    assert rs + (more + l.records) == rs + more + l.records;
  }

  /** One turn of the replay loop. `stop` says why it was the last. */
  method ReplayTurn(e: Engine.KvEngine, file: Bytes, peek: Bytes -> Next,
                    applied: nat, skipped: nat, pos: nat, ghost records: seq<Record>)
    returns (stop: Option<End>, applied': nat, skipped': nat, pos': nat, ghost records': seq<Record>)
    requires Sound(peek) && Shows(e, records) && applied == |records| && Standing(file, peek, records, skipped, pos)
    modifies e`store, e`used, e`log, e`dropped, e.sieve, e.ac
    ensures Shows(e, records') && applied' == |records'|
    ensures match stop
            case None => Standing(file, peek, records', skipped', pos') && pos < pos'
            case Some(end) => Load(file, peek) == Loaded(records', skipped', pos', end) && pos' <= |file|
  {
    hide Shows, Load, Refuses;
    assert SoundAt(peek, file[pos..]);
    StandingNext(file, peek, records, skipped, pos);
    stop, applied', skipped', pos', records' := None, applied, skipped, pos, records;
    match peek(file[pos..]) {
      case Stop(end) =>
        stop := Some(end);
      case Skip(used) =>
        skipped', pos' := skipped + 1, pos + used;
      case Take(r, used) =>
        var ok := ApplyRecord(e, r, records);
        if ok {
          records' := records + [r];
          applied', pos' := applied + 1, pos + used;
        } else {
          stop := Some(Refused);
        }
    }
  }

  /** Replaying `file` into an empty engine: the records `Load` finds, in order,
      and the file cut back to its last whole record if the tail was torn. */
  method ReplayFile(e: Engine.KvEngine, file: Bytes, peek: Bytes -> Next)
    returns (applied: nat, skipped: nat, end: End, kept: Bytes)
    requires Sound(peek) && e.Valid() && e.store == map[] && e.cfg.maxMemory == 0
    modifies e`store, e`used, e`log, e`dropped, e.sieve, e.ac
    ensures var l := Load(file, peek);
            && Shows(e, l.records)
            && (applied, skipped, end) == (|l.records|, l.skipped, l.end)
            && l.used <= |file| && kept == if end == Torn then file[..l.used] else file
  {
    hide Load, Engine.KvEngine.Core;
    var pos: nat, stop: Option<End> := 0, None;
    ghost var records: seq<Record> := [];
    applied, skipped := 0, 0;
    StandingStarts(file, peek);
    while stop == None
      invariant Shows(e, records) && applied == |records| && pos <= |file|
      invariant match stop
                case None => Standing(file, peek, records, skipped, pos)
                case Some(why) => Load(file, peek) == Loaded(records, skipped, pos, why)
      decreases stop == None, |file| - pos
    {
      stop, applied, skipped, pos, records := ReplayTurn(e, file, peek, applied, skipped, pos, records);
    }
    end := stop.value;
    kept := if end == Torn then file[..pos] else file;
  }

  /** A start: replay into a new engine at `now`, then attach the writer. What
      the session starts from is the replay of the records found. */
  method Start(file: Bytes, now: nat) returns (e: Engine.KvEngine, end: End, kept: Bytes)
    ensures fresh(e) && fresh(e.sieve) && fresh(e.ac) && e.Valid() && e.clock == now
    ensures var l := Load(file, Peek);
            && end == l.end
            && e.Visible() == Replay(l.records, now)
            && (end != Refused ==> e.aof && e.log == [] && e.base == Replay(l.records, now))
            && l.used <= |file| && kept == if end == Torn then file[..l.used] else file
  {
    e := new Engine.KvEngine();
    e.Tick(now);
    PeekIsSound();
    var applied, skipped;
    applied, skipped, end, kept := ReplayFile(e, file, Peek);
    if end != Refused {
      e.AttachAof();
    }
  }

  /** From the running engine to the disk and back: the file holding its log
      loads cleanly, and what the loader shows at a later clock is what the
      engine would have shown, but for the keys a lifted deadline dooms. */
  lemma RestartFromDisk(e: Engine.KvEngine, p: seq<Record>, started: int, t: int, k: Bytes)
    requires e.Valid() && e.aof && e.base == Replay(p, started) && AllWritable(p)
    requires started <= e.clock <= t
    ensures var l := Load(FileOf(p + e.log, BytesOf), Peek);
            && l.end == Clean && l.skipped == 0
            && (k in Replay(l.records, t) <==> k in Live(e.store, t) && !Doomed(p + e.log, k, t))
            && (k in Replay(l.records, t) ==> Replay(l.records, t)[k] == e.store[k])
  {
    PeekReadsLog();
    WholeLogLoads(p + e.log, Peek, BytesOf);
    Engine.RestartRestores(e, p, started, t, k);
  }

  /** The last of `moments` whose log had at most `size` records. */
  lemma LastMomentWithin(base: Store, moments: seq<Engine.Moment>, size: nat) returns (i: nat)
    requires moments != [] && moments[0].log == [] && Engine.History(base, moments)
    ensures i < |moments| && |moments[i].log| <= size
    ensures i + 1 < |moments| ==> size < |moments[i + 1].log|
  {
    hide Engine.History;
    i := 0;
    while i + 1 < |moments| && |moments[i + 1].log| <= size
      invariant i < |moments| && |moments[i].log| <= size
    {
      i := i + 1;
    }
  }

  /** A cut of the file after the part the session started from keeps that part
      whole. */
  lemma CutKeepsStart(p: seq<Record>, log: seq<Record>, cut: nat) returns (n: nat)
    requires AllWritable(p) && AllWritable(log)
    requires |FileOf(p, BytesOf)| <= cut <= |FileOf(p + log, BytesOf)|
    ensures |p| <= n <= |p + log|
    ensures Load(FileOf(p + log, BytesOf)[..cut], Peek).records == p + log[..n - |p|]
  {
    hide Peek, BytesOf, Load;
    n := CrashRecovery(p + log, cut);
    if n < |p| {
      assert (p + log)[..n + 1] == p[..n + 1];
      FileOfPrefix(p, n + 1, BytesOf);
    }
    assert (p + log)[..n] == p + log[..n - |p|];
  }

  lemma KeptOfMoment(p: seq<Record>, started: int, m: Engine.Moment, part: seq<Record>, t: int, k: Bytes)
    requires Engine.Recorded(Replay(p, started), m) && started <= m.clock <= t && m.log <= part
    requires forall j :: |m.log| <= j < |part| ==> !Names(part[j], k)
    ensures k in Replay(p + part, t) <==> k in Live(m.store, t) && !Doomed(p + part, k, t)
    ensures k in Replay(p + part, t) ==> Replay(p + part, t)[k] == m.store[k]
  {
    var more := part[|m.log|..];
    assert p + part == p + m.log + more;
    UnnamedIsUntouched(p + m.log, more, k, t);
    ReplayRestores(p, m.log, m.store, started, m.clock, t, k);
  }

  /** A crash that cuts the file of a run, anywhere after what the session
      started from, loads the log of an earlier moment of the run and at most a
      part of the next event's records. Every key that part does not name is
      restored as it was at that moment, unless a lifted deadline dooms it. */
  lemma CrashDuringRun(p: seq<Record>, started: int, moments: seq<Engine.Moment>, cut: nat, t: int, k: Bytes)
    returns (i: nat)
    requires AllWritable(p) && moments != [] && moments[0].log == [] && started <= moments[0].clock
    requires Engine.History(Replay(p, started), moments) && moments[|moments| - 1].clock <= t
    requires |FileOf(p, BytesOf)| <= cut <= |FileOf(p + moments[|moments| - 1].log, BytesOf)|
    ensures i < |moments|
    ensures var found := Load(FileOf(p + moments[|moments| - 1].log, BytesOf)[..cut], Peek).records;
            && p + moments[i].log <= found
            && (i + 1 < |moments| ==> found < p + moments[i + 1].log)
            && ((forall j :: |p + moments[i].log| <= j < |found| ==> !Names(found[j], k)) ==>
                  && (k in Replay(found, t) <==> k in Live(moments[i].store, t) && !Doomed(found, k, t))
                  && (k in Replay(found, t) ==> Replay(found, t)[k] == moments[i].store[k]))
  {
    hide Peek, BytesOf, Load, Replay, Doomed;
    var last := moments[|moments| - 1];
    assert Engine.Recorded(Replay(p, started), last);
    var n := CutKeepsStart(p, last.log, cut);
    var part := last.log[..n - |p|];
    i := LastMomentWithin(Replay(p, started), moments, |part|);
    assert Engine.Recorded(Replay(p, started), moments[i]);
    assert i < |moments| - 1 ==> Engine.Precedes(moments[i], last);
    assert i + 1 < |moments| - 1 ==> Engine.Precedes(moments[i + 1], last);
    assert i > 0 ==> Engine.Precedes(moments[0], moments[i]);
    assert moments[i].log <= part;
    if forall j :: |p + moments[i].log| <= j < |p + part| ==> !Names((p + part)[j], k) {
      forall j | |moments[i].log| <= j < |part|
        ensures !Names(part[j], k)
      {
        assert (p + part)[|p| + j] == part[j];
      }
      KeptOfMoment(p, started, moments[i], part, t, k);
    }
  }

  // ---- A whole session ----

  /** What a reader of any file, ours or not, owes its laws: whole records are
      read the same when bytes follow or are cut off behind them. */
  ghost predicate SteadyAt(peek: Bytes -> Next, s: Bytes, ext: Bytes) {
    !peek(s).Stop? ==> peek(s + ext) == peek(s)
  }

  ghost predicate CutAt(peek: Bytes -> Next, s: Bytes, m: nat) {
    !peek(s).Stop? && peek(s).used <= m <= |s| ==> peek(s[..m]) == peek(s)
  }

  /** Only an empty rest is a clean end. */
  ghost predicate EndsEmpty(peek: Bytes -> Next, s: Bytes) {
    peek(s) == Stop(Clean) ==> s == []
  }

  ghost predicate Steady(peek: Bytes -> Next) {
    && peek([]) == Stop(Clean)
    && (forall s, ext :: SteadyAt(peek, s, ext))
    && (forall s, m :: CutAt(peek, s, m))
    && (forall s :: EndsEmpty(peek, s))
  }

  lemma PeekIsSteady()
    ensures Steady(Peek)
  {
    Resp.ArrayLawful(Resp.Replay);
    forall s, ext
      ensures SteadyAt(Peek, s, ext)
    {
      assert Resp.StableAt(Resp.Array(Resp.Replay), s, ext);
    }
    forall s, m: nat
      ensures CutAt(Peek, s, m)
    {
      assert Resp.CutAt(Resp.Array(Resp.Replay), s, m);
    }
    assert forall s :: EndsEmpty(Peek, s);
  }

  /** Whatever a file holds, cutting it back to its whole records leaves a file
      that loads the same and cleanly. */
  lemma {:induction false} CutBackIsClean(s: Bytes, peek: Bytes -> Next)
    requires Steady(peek) && Sound(peek)
    ensures Load(s, peek).used <= |s|
    ensures Load(s[..Load(s, peek).used], peek) == Load(s, peek).(end := Clean)
    decreases |s|
  {
    var next := peek(s);
    assert SoundAt(peek, s);
    if next.Stop? || (next.Take? && Refuses(next.record)) {
      assert s[..0] == [];
    } else {
      var rest := s[next.used..];
      CutBackIsClean(rest, peek);
      var m := next.used + Load(rest, peek).used;
      assert CutAt(peek, s, m);
      assert s[..m][next.used..] == rest[..m - next.used];
    }
  }

  /** What is appended to a clean file loads after what was there. */
  lemma {:induction false} AppendedLoads(s: Bytes, more: Bytes, peek: Bytes -> Next)
    requires Steady(peek) && Sound(peek) && Load(s, peek).end == Clean && Load(s, peek).used == |s|
    ensures var l := Load(s, peek);
            Load(s + more, peek) == Onto(l.records, l.skipped, l.used, Load(more, peek))
    decreases |s|
  {
    var next := peek(s);
    assert SoundAt(peek, s);
    if next.Stop? {
      assert s + more == more;
      assert [] + Load(more, peek).records == Load(more, peek).records;
    } else {
      var rest := s[next.used..];
      assert SteadyAt(peek, s, more);
      assert (s + more)[next.used..] == rest + more;
      AppendedLoads(rest, more, peek);
      OntoOnto(if next.Take? then [next.record] else [], if next.Take? then 0 else 1, next.used,
               Load(rest, peek).records, Load(rest, peek).skipped, Load(rest, peek).used, Load(more, peek));
    }
  }

  /** The file a start leaves behind: any file whose replay was not given up is
      clean afterwards and holds the records that were found. */
  lemma KeptIsClean(file: Bytes, kept: Bytes)
    requires var l := Load(file, Peek);
             (l.end == Clean || l.end == Torn) && l.used <= |file| && kept == if l.end == Torn then file[..l.used] else file
    ensures Load(kept, Peek) == Load(file, Peek).(end := Clean) && Load(kept, Peek).used == |kept|
  {
    hide Peek;
    PeekIsSound();
    PeekIsSteady();
    CutBackIsClean(file, Peek);
    if Load(file, Peek).end == Clean {
      CleanIsUsedUp(file, Peek);
    }
  }

  lemma {:induction false} CleanIsUsedUp(s: Bytes, peek: Bytes -> Next)
    requires Sound(peek) && Steady(peek) && Load(s, peek).end == Clean
    ensures Load(s, peek).used == |s|
    decreases |s|
  {
    var next := peek(s);
    assert SoundAt(peek, s) && EndsEmpty(peek, s);
    if !next.Stop? {
      CleanIsUsedUp(s[next.used..], peek);
    }
  }

  /** A clean file after a session that appended `log`. */
  lemma SessionFile(kept: Bytes, log: seq<Record>)
    requires Load(kept, Peek).end == Clean && AllWritable(log)
    ensures var l := Load(kept + FileOf(log, BytesOf), Peek);
            l.end == Clean && l.records == Load(kept, Peek).records + log
  {
    hide Peek, BytesOf;
    PeekIsSound();
    PeekIsSteady();
    PeekReadsLog();
    CleanIsUsedUp(kept, Peek);
    WholeLogLoads(log, Peek, BytesOf);
    AppendedLoads(kept, FileOf(log, BytesOf), Peek);
  }

  /** A whole session: start from any file whose replay is not given up, run
      anything, and start again `wait` later from what is then on disk. The second
      start shows exactly the keys that are live and not doomed, unaltered. */
  method Session(file: Bytes, now: nat, events: seq<LiveMap.Event>, wait: nat)
    returns (e: Engine.KvEngine, end: End, replies: seq<LiveMap.Reply>, disk: Bytes, later: Engine.KvEngine)
    requires forall i :: 0 <= i < |events| ==> LiveMap.Sendable(events[i])
    ensures fresh(e) && fresh(later) && e.Valid() && later.Valid()
    ensures end == Load(file, Peek).end
    ensures end == Clean || end == Torn ==>
              && later.clock == e.clock + wait
              && forall k ::
                   && (k in later.Visible() <==>
                       k in Live(e.store, later.clock) && !Doomed(Load(file, Peek).records + e.log, k, later.clock))
                   && (k in later.Visible() ==> later.Visible()[k] == e.store[k])
  {
    hide Peek, Load, Replay, Doomed, Engine.KvEngine.Core, FileOf;
    var kept, end', kept';
    ghost var moments;
    e, end, kept := Start(file, now);
    replies, moments := e.Run(events);
    ghost var p := Load(file, Peek).records;
    disk := kept + FileOf(e.log, BytesOf);
    if end == Clean || end == Torn {
      KeptIsClean(file, kept);
      SessionFile(kept, e.log);
      assert |moments| > 1 ==> Engine.Precedes(moments[0], moments[|moments| - 1]);
    }
    later, end', kept' := Start(disk, if e.clock + wait >= 0 then e.clock + wait else 0);
    if end == Clean || end == Torn {
      forall k
        ensures k in later.Visible() <==> k in Live(e.store, later.clock) && !Doomed(p + e.log, k, later.clock)
        ensures k in later.Visible() ==> later.Visible()[k] == e.store[k]
      {
        Engine.RestartRestores(e, p, now, later.clock, k);
      }
    }
  }
}
