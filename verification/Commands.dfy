/** From the parts of a request to a command and back. */
module Commands {
  import opened Prelude
  import opened Decimal

  datatype Command =
    | Set(key: Bytes, value: Bytes)
    | SetNx(key: Bytes, value: Bytes)
    | MSet(pairs: seq<(Bytes, Bytes)>)
    | MGet(keys: seq<Bytes>)
    | IncrBy(key: Bytes, delta: int)
    | IncrByFloat(key: Bytes, text: Bytes)
    | Get(key: Bytes)
    | Del(keys: seq<Bytes>)
    | Exists(keys: seq<Bytes>)
    | Ping(msg: Option<Bytes>)
    | Append(key: Bytes, value: Bytes)
    | StrLen(key: Bytes)
    | DbSize
    | FlushDb
    | Expire(key: Bytes, seconds: int)
    | PExpire(key: Bytes, millis: int)
    | PExpireAt(key: Bytes, absEpochMs: int)
    | Persist(key: Bytes)
    | Ttl(key: Bytes)
    | PTtl(key: Bytes)
    | MemoryUsage(key: Bytes)
    | Info(section: Option<Bytes>)
    | Config(sub: Bytes, args: seq<Bytes>)
    | Auth(password: Bytes)
    | SlowLog(sub: Bytes, args: seq<Bytes>)
    | RewriteAof
    | Monitor
    | Hello(version: Option<nat>)

  datatype CommandError =
    | WrongArity(cmd: Verb)
    | UnknownCommand(name: Bytes)
    | UnknownSubcommand(cmd: Verb, sub: Bytes)
    | NotAnInteger
    | NotAFloat
    | NoProto

  datatype Verb =
    | SET | SETNX | MSET | MGET | INCR | DECR | INCRBY | DECRBY | INCRBYFLOAT | GET | DEL | EXISTS | PING | APPEND
    | STRLEN | DBSIZE | FLUSHDB | EXPIRE | PEXPIRE | PEXPIREAT | PERSIST | TTL | PTTL | MEMORY | INFO | CONFIG | AUTH
    | SLOWLOG | BGREWRITEAOF | MONITOR | HELLO

  // Names are spelled in ASCII.
  const USAGE: Bytes := [85, 83, 65, 71, 69]
  const LEN: Bytes := [76, 69, 78]
  const RESET: Bytes := [82, 69, 83, 69, 84]

  function Name(v: Verb): Bytes {
    match v
    case SET => [83, 69, 84]
    case SETNX => [83, 69, 84, 78, 88]
    case MSET => [77, 83, 69, 84]
    case MGET => [77, 71, 69, 84]
    case INCR => [73, 78, 67, 82]
    case DECR => [68, 69, 67, 82]
    case INCRBY => [73, 78, 67, 82, 66, 89]
    case DECRBY => [68, 69, 67, 82, 66, 89]
    case INCRBYFLOAT => [73, 78, 67, 82, 66, 89, 70, 76, 79, 65, 84]
    case GET => [71, 69, 84]
    case DEL => [68, 69, 76]
    case EXISTS => [69, 88, 73, 83, 84, 83]
    case PING => [80, 73, 78, 71]
    case APPEND => [65, 80, 80, 69, 78, 68]
    case STRLEN => [83, 84, 82, 76, 69, 78]
    case DBSIZE => [68, 66, 83, 73, 90, 69]
    case FLUSHDB => [70, 76, 85, 83, 72, 68, 66]
    case EXPIRE => [69, 88, 80, 73, 82, 69]
    case PEXPIRE => [80, 69, 88, 80, 73, 82, 69]
    case PEXPIREAT => [80, 69, 88, 80, 73, 82, 69, 65, 84]
    case PERSIST => [80, 69, 82, 83, 73, 83, 84]
    case TTL => [84, 84, 76]
    case PTTL => [80, 84, 84, 76]
    case MEMORY => [77, 69, 77, 79, 82, 89]
    case INFO => [73, 78, 70, 79]
    case CONFIG => [67, 79, 78, 70, 73, 71]
    case AUTH => [65, 85, 84, 72]
    case SLOWLOG => [83, 76, 79, 87, 76, 79, 71]
    case BGREWRITEAOF => [66, 71, 82, 69, 87, 82, 73, 84, 69, 65, 79, 70]
    case MONITOR => [77, 79, 78, 73, 84, 79, 82]
    case HELLO => [72, 69, 76, 76, 79]
  }

  function Upper(b: byte): byte {
    if 97 <= b <= 122 then b - 32 else b
  }

  function UpperAll(s: Bytes): Bytes {
    seq(|s|, i requires 0 <= i < |s| => Upper(s[i]))
  }

  lemma ShortNamesDistinct(v: Verb, u: Verb)
    requires Name(v) == Name(u) && |Name(v)| <= 5
    ensures v == u
  {
    match |Name(v)|
    case 3 =>
    case 4 =>
    case _ =>
  }

  lemma MiddleNamesDistinct(v: Verb, u: Verb)
    requires Name(v) == Name(u) && |Name(v)| == 6
    ensures v == u
  {
  }

  lemma LongNamesDistinct(v: Verb, u: Verb)
    requires Name(v) == Name(u) && |Name(v)| > 6
    ensures v == u
  {
  }

  lemma NamesDistinct(v: Verb, u: Verb)
    requires Name(v) == Name(u)
    ensures v == u
  {
    hide Name;
    if |Name(v)| <= 5 {
      ShortNamesDistinct(v, u);
    } else if |Name(v)| == 6 {
      MiddleNamesDistinct(v, u);
    } else {
      LongNamesDistinct(v, u);
    }
  }

  lemma NamesInjective()
    ensures forall v, u :: Name(v) == Name(u) ==> v == u
  {
    forall v: Verb, u: Verb | Name(v) == Name(u)
      ensures v == u
    {
      NamesDistinct(v, u);
    }
  }

  lemma NamesUpper(v: Verb)
    ensures UpperAll(Name(v)) == Name(v)
  {
    hide Upper;
    forall i | 0 <= i < |Name(v)|
      ensures Upper(Name(v)[i]) == Name(v)[i]
    {
      NameIsCapital(v, i);
      UpperOfCapital(Name(v)[i]);
    }
  }

  lemma NameIsCapital(v: Verb, i: nat)
    requires i < |Name(v)|
    ensures 65 <= Name(v)[i] <= 90
  {
  }

  lemma UpperOfCapital(b: byte)
    requires 65 <= b <= 90
    ensures Upper(b) == b
  {
  }

  /** The verb a name spells, in any case of its letters. */
  function VerbOf(name: Bytes): (r: Option<Verb>)
    ensures r.Some? <==> exists v :: Name(v) == UpperAll(name)
    ensures r.Some? ==> Name(r.value) == UpperAll(name)
  {
    if exists v :: Name(v) == UpperAll(name) then
      NamesInjective();
      var v :| Name(v) == UpperAll(name);
      Some(v)
    else None
  }

  lemma VerbOfName(v: Verb)
    ensures VerbOf(Name(v)) == Some(v)
  {
    NamesUpper(v);
    NamesDistinct(VerbOf(Name(v)).value, v);
  }

  function Pairs(args: seq<Bytes>): seq<(Bytes, Bytes)> {
    if |args| < 2 then [] else [(args[0], args[1])] + Pairs(args[2..])
  }

  function Unpaired(pairs: seq<(Bytes, Bytes)>): seq<Bytes> {
    if pairs == [] then [] else [pairs[0].0, pairs[0].1] + Unpaired(pairs[1..])
  }

  lemma {:induction false} PairsUnpaired(pairs: seq<(Bytes, Bytes)>)
    ensures |Unpaired(pairs)| == 2 * |pairs|
    ensures Pairs(Unpaired(pairs)) == pairs
  {
    if pairs != [] {
      PairsUnpaired(pairs[1..]);
      assert Unpaired(pairs)[2..] == Unpaired(pairs[1..]);
    }
  }

  lemma {:induction false} PairsSize(args: seq<Bytes>)
    requires |args| % 2 == 0
    ensures 2 * |Pairs(args)| == |args|
  {
    if |args| >= 2 {
      PairsSize(args[2..]);
    }
  }

  type Built = Result<Command, CommandError>

  /** One string argument. */
  function One(v: Verb, args: seq<Bytes>, make: Bytes -> Command): Built {
    if |args| == 1 then Ok(make(args[0])) else Err(WrongArity(v))
  }

  function Two(v: Verb, args: seq<Bytes>, make: (Bytes, Bytes) -> Command): Built {
    if |args| == 2 then Ok(make(args[0], args[1])) else Err(WrongArity(v))
  }

  /** A key and a signed 64-bit integer in decimal text. */
  function Int(v: Verb, args: seq<Bytes>, make: (Bytes, int) -> Command): Built {
    if |args| != 2 then Err(WrongArity(v))
    else
      match Parse(args[1])
      case None => Err(NotAnInteger)
      case Some(n) => Ok(make(args[0], n))
  }

  function Some1(v: Verb, args: seq<Bytes>, make: seq<Bytes> -> Command): Built {
    if args == [] then Err(WrongArity(v)) else Ok(make(args))
  }

  function NoArgs(v: Verb, args: seq<Bytes>, c: Command): Built {
    if args == [] then Ok(c) else Err(WrongArity(v))
  }

  function Maybe(v: Verb, args: seq<Bytes>, make: Option<Bytes> -> Command): Built {
    if args == [] then Ok(make(None))
    else if |args| == 1 then Ok(make(Some(args[0])))
    else Err(WrongArity(v))
  }

  function BuildDecrBy(args: seq<Bytes>): Built {
    if |args| != 2 then Err(WrongArity(DECRBY))
    else
      match Parse(args[1])
      case None => Err(NotAnInteger)
      case Some(n) => if n == I64_MIN then Err(NotAnInteger) else Ok(IncrBy(args[0], -n))
  }

  function BuildMemory(args: seq<Bytes>): Built {
    if |args| < 2 then Err(WrongArity(MEMORY))
    else if UpperAll(args[0]) != USAGE then Err(UnknownSubcommand(MEMORY, args[0]))
    else Ok(MemoryUsage(args[1]))
  }

  function BuildConfig(args: seq<Bytes>): Built {
    if args == [] then Err(WrongArity(CONFIG))
    else if UpperAll(args[0]) == Name(GET) then
      if |args| == 2 then Ok(Config(Name(GET), args[1..])) else Err(WrongArity(CONFIG))
    else if UpperAll(args[0]) == Name(SET) then
      if |args| == 3 then Ok(Config(Name(SET), args[1..])) else Err(WrongArity(CONFIG))
    else Err(UnknownSubcommand(CONFIG, args[0]))
  }

  function BuildSlowLog(args: seq<Bytes>): Built {
    if args == [] then Err(WrongArity(SLOWLOG))
    else if UpperAll(args[0]) == Name(GET) then
      if |args| <= 2 then Ok(SlowLog(Name(GET), args[1..])) else Err(WrongArity(SLOWLOG))
    else if UpperAll(args[0]) == LEN then
      if |args| == 1 then Ok(SlowLog(LEN, [])) else Err(WrongArity(SLOWLOG))
    else if UpperAll(args[0]) == RESET then
      if |args| == 1 then Ok(SlowLog(RESET, [])) else Err(WrongArity(SLOWLOG))
    else Err(UnknownSubcommand(SLOWLOG, args[0]))
  }

  function BuildHello(args: seq<Bytes>): Built {
    if args == [] then Ok(Hello(None))
    else if |args| > 1 then Err(WrongArity(HELLO))
    else if args[0] == PrintNat(2) then Ok(Hello(Some(2)))
    else if args[0] == PrintNat(3) then Ok(Hello(Some(3)))
    else Err(NoProto)
  }

  /** `build_command`. Which texts are floating-point numbers is a parameter. */
  function Build(parts: seq<Bytes>, isFloat: Bytes -> bool): Built
    requires parts != []
  {
    match VerbOf(parts[0])
    case None => Err(UnknownCommand(parts[0]))
    case Some(v) => BuildVerb(v, parts[1..], isFloat)
  }

  function BuildVerb(v: Verb, args: seq<Bytes>, isFloat: Bytes -> bool): Built {
    match v
    case SET => Two(v, args, (k, x) => Command.Set(k, x))
    case SETNX => Two(v, args, (k, x) => SetNx(k, x))
    case MSET => if args == [] || |args| % 2 != 0 then Err(WrongArity(v)) else Ok(MSet(Pairs(args)))
    case MGET => Some1(v, args, ks => MGet(ks))
    case INCR => One(v, args, k => IncrBy(k, 1))
    case DECR => One(v, args, k => IncrBy(k, -1))
    case INCRBY => Int(v, args, (k, n) => IncrBy(k, n))
    case DECRBY => BuildDecrBy(args)
    case INCRBYFLOAT =>
      if |args| != 2 then Err(WrongArity(v))
      else if isFloat(args[1]) then Ok(IncrByFloat(args[0], args[1]))
      else Err(NotAFloat)
    case GET => One(v, args, k => Get(k))
    case DEL => Some1(v, args, ks => Del(ks))
    case EXISTS => Some1(v, args, ks => Exists(ks))
    case PING => Maybe(v, args, m => Ping(m))
    case APPEND => Two(v, args, (k, x) => Append(k, x))
    case STRLEN => One(v, args, k => StrLen(k))
    case DBSIZE => NoArgs(v, args, DbSize)
    case FLUSHDB => NoArgs(v, args, FlushDb)
    case EXPIRE => Int(v, args, (k, n) => Expire(k, n))
    case PEXPIRE => Int(v, args, (k, n) => PExpire(k, n))
    case PEXPIREAT => Int(v, args, (k, n) => PExpireAt(k, n))
    case PERSIST => One(v, args, k => Persist(k))
    case TTL => One(v, args, k => Ttl(k))
    case PTTL => One(v, args, k => PTtl(k))
    case MEMORY => BuildMemory(args)
    case INFO => Maybe(v, args, s => Info(s))
    case CONFIG => BuildConfig(args)
    case AUTH => One(v, args, p => Auth(p))
    case SLOWLOG => BuildSlowLog(args)
    case BGREWRITEAOF => NoArgs(v, args, RewriteAof)
    case MONITOR => NoArgs(v, args, Monitor)
    case HELLO => BuildHello(args)
  }

  /** The verb and arguments `args()` prints a command with. */
  function Printed(c: Command): (Verb, seq<Bytes>)
    requires !c.IncrByFloat?
  {
    match c
    case Set(k, v) => (SET, [k, v])
    case SetNx(k, v) => (SETNX, [k, v])
    case MSet(pairs) => (MSET, Unpaired(pairs))
    case MGet(keys) => (MGET, keys)
    case IncrBy(k, n) => (INCRBY, [k, Print(n)])
    case Get(k) => (GET, [k])
    case Del(keys) => (DEL, keys)
    case Exists(keys) => (EXISTS, keys)
    case Ping(msg) => (PING, if msg == None then [] else [msg.value])
    case Append(k, v) => (APPEND, [k, v])
    case StrLen(k) => (STRLEN, [k])
    case DbSize => (DBSIZE, [])
    case FlushDb => (FLUSHDB, [])
    case Expire(k, n) => (EXPIRE, [k, Print(n)])
    case PExpire(k, n) => (PEXPIRE, [k, Print(n)])
    case PExpireAt(k, n) => (PEXPIREAT, [k, Print(n)])
    case Persist(k) => (PERSIST, [k])
    case Ttl(k) => (TTL, [k])
    case PTtl(k) => (PTTL, [k])
    case MemoryUsage(k) => (MEMORY, [USAGE, k])
    case Info(section) => (INFO, if section == None then [] else [section.value])
    case Config(sub, args) => (CONFIG, [sub] + args)
    case Auth(password) => (AUTH, [password])
    case SlowLog(sub, args) => (SLOWLOG, [sub] + args)
    case RewriteAof => (BGREWRITEAOF, [])
    case Monitor => (MONITOR, [])
    case Hello(version) => (HELLO, if version == None then [] else [PrintNat(version.value)])
  }

  function Args(c: Command): seq<Bytes>
    requires !c.IncrByFloat?
  {
    [Name(Printed(c).0)] + Printed(c).1
  }

  /** What `Build` can return: numbers in range, lists not empty, subcommands
      spelled in capitals with the right arguments. */
  predicate Canonical(c: Command) {
    match c
    case MSet(pairs) => pairs != []
    case MGet(keys) => keys != []
    case Del(keys) => keys != []
    case Exists(keys) => keys != []
    case IncrBy(_, n) => IsI64(n)
    case Expire(_, n) => IsI64(n)
    case PExpire(_, n) => IsI64(n)
    case PExpireAt(_, n) => IsI64(n)
    case Config(sub, args) => (sub == Name(GET) && |args| == 1) || (sub == Name(SET) && |args| == 2)
    case SlowLog(sub, args) =>
      (sub == Name(GET) && |args| <= 1) || ((sub == LEN || sub == RESET) && args == [])
    case Hello(version) => version == None || version == Some(2) || version == Some(3)
    case _ => true
  }

  lemma BuiltIsCanonical(v: Verb, args: seq<Bytes>, isFloat: Bytes -> bool)
    requires BuildVerb(v, args, isFloat).Ok?
    ensures Canonical(BuildVerb(v, args, isFloat).value)
  {
    if |args| == 2 {
      ParseInRange(args[1]);
    }
    if v == MSET {
      PairsSize(args);
    }
  }

  lemma SubcommandNames()
    ensures UpperAll(Name(GET)) == Name(GET) && UpperAll(Name(SET)) == Name(SET) && Name(GET) != Name(SET)
    ensures UpperAll(USAGE) == USAGE
    ensures UpperAll(LEN) == LEN != Name(GET)
    ensures UpperAll(RESET) == RESET != Name(GET) && RESET != LEN
  {
    assert Name(GET)[0] != Name(SET)[0] && LEN[0] != Name(GET)[0];
    assert |RESET| != |LEN|;
  }

  lemma ContainerRebuilds(c: Command, isFloat: Bytes -> bool)
    requires Canonical(c) && Container(c)
    ensures BuildVerb(Printed(c).0, Printed(c).1, isFloat) == Ok(c)
  {
    SubcommandNames();
    if c.Config? || c.SlowLog? {
      assert ([c.sub] + c.args)[1..] == c.args;
    }
  }

  lemma NumberBuilds(k: Bytes, text: Bytes, n: int, isFloat: Bytes -> bool)
    requires Parse(text) == Some(n)
    ensures BuildVerb(INCRBY, [k, text], isFloat) == Ok(IncrBy(k, n))
    ensures BuildVerb(EXPIRE, [k, text], isFloat) == Ok(Expire(k, n))
    ensures BuildVerb(PEXPIRE, [k, text], isFloat) == Ok(PExpire(k, n))
    ensures BuildVerb(PEXPIREAT, [k, text], isFloat) == Ok(PExpireAt(k, n))
  {
  }

  lemma NumberRebuilds(k: Bytes, n: int, isFloat: Bytes -> bool)
    requires IsI64(n)
    ensures BuildVerb(INCRBY, [k, Print(n)], isFloat) == Ok(IncrBy(k, n))
    ensures BuildVerb(EXPIRE, [k, Print(n)], isFloat) == Ok(Expire(k, n))
    ensures BuildVerb(PEXPIRE, [k, Print(n)], isFloat) == Ok(PExpire(k, n))
    ensures BuildVerb(PEXPIREAT, [k, Print(n)], isFloat) == Ok(PExpireAt(k, n))
  {
    PrintParse(n);
    NumberBuilds(k, Print(n), n, isFloat);
  }

  lemma PlainRebuilds(c: Command, isFloat: Bytes -> bool)
    requires Canonical(c) && !c.IncrByFloat? && !c.MSet? && !Numeric(c) && !Container(c)
    ensures BuildVerb(Printed(c).0, Printed(c).1, isFloat) == Ok(c)
  {
  }

  predicate Numeric(c: Command) {
    c.IncrBy? || c.Expire? || c.PExpire? || c.PExpireAt?
  }

  predicate Container(c: Command) {
    c.MemoryUsage? || c.Config? || c.SlowLog?
  }

  lemma CanonicalRebuilds(c: Command, isFloat: Bytes -> bool)
    requires Canonical(c) && !c.IncrByFloat?
    ensures BuildVerb(Printed(c).0, Printed(c).1, isFloat) == Ok(c)
  {
    match c {
      case IncrBy(k, n) => NumberRebuilds(k, n, isFloat);
      case Expire(k, n) => NumberRebuilds(k, n, isFloat);
      case PExpire(k, n) => NumberRebuilds(k, n, isFloat);
      case PExpireAt(k, n) => NumberRebuilds(k, n, isFloat);
      case MSet(pairs) => PairsUnpaired(pairs);
      case MemoryUsage(_) => ContainerRebuilds(c, isFloat);
      case Config(_, _) => ContainerRebuilds(c, isFloat);
      case SlowLog(_, _) => ContainerRebuilds(c, isFloat);
      case _ => PlainRebuilds(c, isFloat);
    }
  }

  /** Printer and parser undo each other: whatever `build_command` returned,
      other than INCRBYFLOAT, is built again from its own argument vector. */
  lemma PrintedRebuilds(parts: seq<Bytes>, isFloat: Bytes -> bool)
    requires parts != [] && Build(parts, isFloat).Ok? && !Build(parts, isFloat).value.IncrByFloat?
    ensures Build(Args(Build(parts, isFloat).value), isFloat) == Build(parts, isFloat)
  {
    var c := Build(parts, isFloat).value;
    BuiltIsCanonical(VerbOf(parts[0]).value, parts[1..], isFloat);
    CanonicalRebuilds(c, isFloat);
    VerbOfName(Printed(c).0);
    assert Args(c)[1..] == Printed(c).1;
  }

  // ---- What requests mean ----

  /** Names as text. */
  function Text(v: Verb): string {
    match v
    case SET => "SET"
    case SETNX => "SETNX"
    case MSET => "MSET"
    case MGET => "MGET"
    case INCR => "INCR"
    case DECR => "DECR"
    case INCRBY => "INCRBY"
    case DECRBY => "DECRBY"
    case INCRBYFLOAT => "INCRBYFLOAT"
    case GET => "GET"
    case DEL => "DEL"
    case EXISTS => "EXISTS"
    case PING => "PING"
    case APPEND => "APPEND"
    case STRLEN => "STRLEN"
    case DBSIZE => "DBSIZE"
    case FLUSHDB => "FLUSHDB"
    case EXPIRE => "EXPIRE"
    case PEXPIRE => "PEXPIRE"
    case PEXPIREAT => "PEXPIREAT"
    case PERSIST => "PERSIST"
    case TTL => "TTL"
    case PTTL => "PTTL"
    case MEMORY => "MEMORY"
    case INFO => "INFO"
    case CONFIG => "CONFIG"
    case AUTH => "AUTH"
    case SLOWLOG => "SLOWLOG"
    case BGREWRITEAOF => "BGREWRITEAOF"
    case MONITOR => "MONITOR"
    case HELLO => "HELLO"
  }

  lemma ShortNamesSpelled(v: Verb)
    requires |Text(v)| <= 4
    ensures Name(v) == Ascii(Text(v))
  {
  }

  lemma MiddleNamesSpelled(v: Verb)
    requires 5 <= |Text(v)| <= 6
    ensures Name(v) == Ascii(Text(v))
  {
  }

  lemma LongNamesSpelled(v: Verb)
    requires |Text(v)| > 6
    ensures Name(v) == Ascii(Text(v))
  {
  }

  lemma NamesSpelled(v: Verb)
    ensures Name(v) == Ascii(Text(v))
  {
    hide Name, Text;
    if |Text(v)| <= 4 {
      ShortNamesSpelled(v);
    } else if |Text(v)| <= 6 {
      MiddleNamesSpelled(v);
    } else {
      LongNamesSpelled(v);
    }
  }

  /** The letters a to z are capitalised, every other byte stays. */
  lemma UpperIs(s: Bytes, i: nat)
    requires i < |s|
    ensures |UpperAll(s)| == |s|
    ensures 'a' as int <= s[i] <= 'z' as int ==> UpperAll(s)[i] == s[i] - 'a' as int + 'A' as int
    ensures !('a' as int <= s[i] <= 'z' as int) ==> UpperAll(s)[i] == s[i]
  {
  }

  /** A request is told by its capitalised name alone; any other name is unknown. */
  lemma RequestIsNamed(name: Bytes, args: seq<Bytes>, v: Verb, isFloat: Bytes -> bool)
    ensures UpperAll(name) == Ascii(Text(v)) ==> Build([name] + args, isFloat) == BuildVerb(v, args, isFloat)
    ensures (forall u :: UpperAll(name) != Name(u)) ==> Build([name] + args, isFloat) == Err(UnknownCommand(name))
  {
    NamesSpelled(v);
    assert ([name] + args)[1..] == args;
    if UpperAll(name) == Name(v) {
      NamesDistinct(VerbOf(name).value, v);
    }
  }

  /** A request in capitals. */
  function Ask(text: string, args: seq<Bytes>, isFloat: Bytes -> bool): Built {
    Build([Ascii(text)] + args, isFloat)
  }

  lemma AskIs(v: Verb, args: seq<Bytes>, isFloat: Bytes -> bool)
    ensures Ask(Text(v), args, isFloat) == BuildVerb(v, args, isFloat)
  {
    NamesSpelled(v);
    NamesUpper(v);
    RequestIsNamed(Ascii(Text(v)), args, v, isFloat);
  }

  lemma RequestsWithAValue(k: Bytes, x: Bytes, isFloat: Bytes -> bool)
    ensures Ask("SET", [k, x], isFloat) == Ok(Command.Set(k, x))
    ensures Ask("SETNX", [k, x], isFloat) == Ok(SetNx(k, x))
    ensures Ask("APPEND", [k, x], isFloat) == Ok(Append(k, x))
    ensures Ask("INCRBYFLOAT", [k, x], isFloat) == if isFloat(x) then Ok(IncrByFloat(k, x)) else Err(NotAFloat)
  {
    hide Ask, Build, VerbOf, Ascii, Name;
    AskIs(SET, [k, x], isFloat);
    AskIs(SETNX, [k, x], isFloat);
    AskIs(APPEND, [k, x], isFloat);
    AskIs(INCRBYFLOAT, [k, x], isFloat);
  }

  lemma RequestsWithAKey(k: Bytes, isFloat: Bytes -> bool)
    ensures Ask("GET", [k], isFloat) == Ok(Get(k))
    ensures Ask("STRLEN", [k], isFloat) == Ok(StrLen(k))
    ensures Ask("PERSIST", [k], isFloat) == Ok(Persist(k))
    ensures Ask("TTL", [k], isFloat) == Ok(Ttl(k))
    ensures Ask("PTTL", [k], isFloat) == Ok(PTtl(k))
    ensures Ask("INCR", [k], isFloat) == Ok(IncrBy(k, 1))
    ensures Ask("DECR", [k], isFloat) == Ok(IncrBy(k, -1))
    ensures Ask("AUTH", [k], isFloat) == Ok(Auth(k))
  {
    hide Ask, Build, VerbOf, Ascii, Name;
    AskIs(GET, [k], isFloat);
    AskIs(STRLEN, [k], isFloat);
    AskIs(PERSIST, [k], isFloat);
    AskIs(TTL, [k], isFloat);
    AskIs(PTTL, [k], isFloat);
    AskIs(INCR, [k], isFloat);
    AskIs(DECR, [k], isFloat);
    AskIs(AUTH, [k], isFloat);
  }

  /** Numbers in decimal; DECRBY is INCRBY negated, but for the one number whose
      negation does not fit. */
  lemma RequestsWithANumber(k: Bytes, n: int, isFloat: Bytes -> bool)
    requires IsI64(n)
    ensures Ask("INCRBY", [k, Print(n)], isFloat) == Ok(IncrBy(k, n))
    ensures Ask("DECRBY", [k, Print(n)], isFloat) == if IsI64(-n) then Ok(IncrBy(k, -n)) else Err(NotAnInteger)
    ensures Ask("EXPIRE", [k, Print(n)], isFloat) == Ok(Expire(k, n))
    ensures Ask("PEXPIRE", [k, Print(n)], isFloat) == Ok(PExpire(k, n))
    ensures Ask("PEXPIREAT", [k, Print(n)], isFloat) == Ok(PExpireAt(k, n))
  {
    hide Ask, Build, VerbOf, Ascii, Name, Parse, Print;
    PrintParse(n);
    AskIs(INCRBY, [k, Print(n)], isFloat);
    AskIs(DECRBY, [k, Print(n)], isFloat);
    AskIs(EXPIRE, [k, Print(n)], isFloat);
    AskIs(PEXPIRE, [k, Print(n)], isFloat);
    AskIs(PEXPIREAT, [k, Print(n)], isFloat);
  }

  lemma RequestsWithNoNumber(k: Bytes, text: Bytes, isFloat: Bytes -> bool)
    requires Parse(text) == None
    ensures Ask("INCRBY", [k, text], isFloat) == Err(NotAnInteger)
    ensures Ask("DECRBY", [k, text], isFloat) == Err(NotAnInteger)
    ensures Ask("EXPIRE", [k, text], isFloat) == Err(NotAnInteger)
    ensures Ask("PEXPIRE", [k, text], isFloat) == Err(NotAnInteger)
    ensures Ask("PEXPIREAT", [k, text], isFloat) == Err(NotAnInteger)
  {
    hide Ask, Build, VerbOf, Ascii, Name, Parse, Print;
    AskIs(INCRBY, [k, text], isFloat);
    AskIs(DECRBY, [k, text], isFloat);
    AskIs(EXPIRE, [k, text], isFloat);
    AskIs(PEXPIRE, [k, text], isFloat);
    AskIs(PEXPIREAT, [k, text], isFloat);
  }

  lemma RequestsWithKeys(keys: seq<Bytes>, pairs: seq<(Bytes, Bytes)>, isFloat: Bytes -> bool)
    requires keys != [] && pairs != []
    ensures Ask("MGET", keys, isFloat) == Ok(MGet(keys))
    ensures Ask("DEL", keys, isFloat) == Ok(Del(keys))
    ensures Ask("EXISTS", keys, isFloat) == Ok(Exists(keys))
    ensures Ask("MSET", Unpaired(pairs), isFloat) == Ok(MSet(pairs))
  {
    hide Ask, Build, VerbOf, Ascii, Name;
    PairsUnpaired(pairs);
    AskIs(MGET, keys, isFloat);
    AskIs(DEL, keys, isFloat);
    AskIs(EXISTS, keys, isFloat);
    AskIs(MSET, Unpaired(pairs), isFloat);
  }

  lemma RequestsAlone(isFloat: Bytes -> bool)
    ensures Ask("DBSIZE", [], isFloat) == Ok(DbSize) && Ask("FLUSHDB", [], isFloat) == Ok(FlushDb)
    ensures Ask("BGREWRITEAOF", [], isFloat) == Ok(RewriteAof) && Ask("MONITOR", [], isFloat) == Ok(Monitor)
  {
    hide Ask, Build, VerbOf, Ascii, Name;
    AskIs(DBSIZE, [], isFloat);
    AskIs(FLUSHDB, [], isFloat);
    AskIs(BGREWRITEAOF, [], isFloat);
    AskIs(MONITOR, [], isFloat);
  }

  lemma RequestsWithAnOption(x: Bytes, isFloat: Bytes -> bool)
    ensures Ask("PING", [], isFloat) == Ok(Ping(None)) && Ask("PING", [x], isFloat) == Ok(Ping(Some(x)))
    ensures Ask("INFO", [], isFloat) == Ok(Info(None)) && Ask("INFO", [x], isFloat) == Ok(Info(Some(x)))
    ensures Ask("HELLO", [], isFloat) == Ok(Hello(None))
  {
    hide Ask, Build, VerbOf, Ascii, Name;
    AskIs(PING, [], isFloat);
    AskIs(PING, [x], isFloat);
    AskIs(INFO, [], isFloat);
    AskIs(INFO, [x], isFloat);
    AskIs(HELLO, [], isFloat);
  }

  /** Subcommands, in any case of their letters. */
  lemma RequestsWithASubcommand(k: Bytes, x: Bytes, isFloat: Bytes -> bool)
    ensures BuildVerb(MEMORY, [Ascii("USAGE"), k], isFloat) == Ok(MemoryUsage(k))
    ensures BuildVerb(CONFIG, [Ascii("GET"), k], isFloat) == Ok(Config(Ascii("GET"), [k]))
    ensures BuildVerb(CONFIG, [Ascii("SET"), k, x], isFloat) == Ok(Config(Ascii("SET"), [k, x]))
    ensures BuildVerb(SLOWLOG, [Ascii("GET"), k], isFloat) == Ok(SlowLog(Ascii("GET"), [k]))
    ensures BuildVerb(SLOWLOG, [Ascii("LEN")], isFloat) == Ok(SlowLog(Ascii("LEN"), []))
    ensures BuildVerb(SLOWLOG, [Ascii("RESET")], isFloat) == Ok(SlowLog(Ascii("RESET"), []))
  {
    hide BuildVerb, Printed, Name, UpperAll, Ascii;
    SubcommandNames();
    SubcommandTexts();
    ContainerRebuilds(MemoryUsage(k), isFloat);
    ContainerRebuilds(Config(Name(GET), [k]), isFloat);
    ContainerRebuilds(Config(Name(SET), [k, x]), isFloat);
    ContainerRebuilds(SlowLog(Name(GET), [k]), isFloat);
    ContainerRebuilds(SlowLog(LEN, []), isFloat);
    ContainerRebuilds(SlowLog(RESET, []), isFloat);
    PrintedContainers(k, x);
  }

  lemma SubcommandTexts()
    ensures USAGE == Ascii("USAGE") && LEN == Ascii("LEN") && RESET == Ascii("RESET")
    ensures Name(GET) == Ascii("GET") && Name(SET) == Ascii("SET")
  {
  }

  lemma PrintedContainers(k: Bytes, x: Bytes)
    ensures Printed(Config(Name(GET), [k])) == (CONFIG, [Name(GET), k])
    ensures Printed(Config(Name(SET), [k, x])) == (CONFIG, [Name(SET), k, x])
    ensures Printed(SlowLog(Name(GET), [k])) == (SLOWLOG, [Name(GET), k])
    ensures Printed(SlowLog(LEN, [])) == (SLOWLOG, [LEN]) && Printed(SlowLog(RESET, [])) == (SLOWLOG, [RESET])
    ensures Printed(MemoryUsage(k)) == (MEMORY, [USAGE, k])
  {
    hide Name;
    assert [Name(GET)] + [k] == [Name(GET), k] && [Name(SET)] + [k, x] == [Name(SET), k, x];
    assert [LEN] + [] == [LEN] && [RESET] + [] == [RESET];
  }

  /** HELLO knows the protocol versions 2 and 3. */
  lemma HelloIs(text: Bytes, isFloat: Bytes -> bool)
    ensures BuildVerb(HELLO, [text], isFloat) ==
            if text == Ascii("2") then Ok(Hello(Some(2)))
            else if text == Ascii("3") then Ok(Hello(Some(3)))
            else Err(NoProto)
  {
    assert PrintNat(2) == Ascii("2") && PrintNat(3) == Ascii("3");
  }

  /** How many arguments each command takes. */
  predicate Allowed(v: Verb, n: nat) {
    match v
    case DBSIZE => n == 0
    case FLUSHDB => n == 0
    case BGREWRITEAOF => n == 0
    case MONITOR => n == 0
    case PING => n <= 1
    case INFO => n <= 1
    case HELLO => n <= 1
    case SET => n == 2
    case SETNX => n == 2
    case APPEND => n == 2
    case INCRBY => n == 2
    case DECRBY => n == 2
    case INCRBYFLOAT => n == 2
    case EXPIRE => n == 2
    case PEXPIRE => n == 2
    case PEXPIREAT => n == 2
    case MSET => n > 0 && n % 2 == 0
    case MGET => n > 0
    case DEL => n > 0
    case EXISTS => n > 0
    case MEMORY => n >= 2
    case CONFIG => n == 2 || n == 3
    case SLOWLOG => n == 1 || n == 2
    case _ => n == 1
  }

  /** With any other number the arity is the error, and with such a number it is
      not, except that a subcommand of CONFIG or SLOWLOG may want another one. */
  lemma ArityIs(v: Verb, args: seq<Bytes>, isFloat: Bytes -> bool)
    ensures !Allowed(v, |args|) && v != CONFIG && v != SLOWLOG ==> BuildVerb(v, args, isFloat) == Err(WrongArity(v))
    ensures !Allowed(v, |args|) ==> BuildVerb(v, args, isFloat).Err?
    ensures Allowed(v, |args|) && v != CONFIG && v != SLOWLOG ==> BuildVerb(v, args, isFloat) != Err(WrongArity(v))
  {
    hide Parse, PrintNat;
  }

  /** The MSET branch's loop. */
  method PairUp(args: seq<Bytes>) returns (pairs: seq<(Bytes, Bytes)>)
    requires |args| % 2 == 0
    ensures pairs == Pairs(args)
  {
    pairs := [];
    var i := 0;
    assert args[0..] == args;
    while i < |args|
      invariant 0 <= i <= |args| && i % 2 == 0
      invariant Pairs(args) == pairs + Pairs(args[i..])
    {
      assert args[i..][2..] == args[i + 2..];
      pairs := pairs + [(args[i], args[i + 1])];
      i := i + 2;
    }
  }

  lemma {:induction false} UnpairedSnoc(pairs: seq<(Bytes, Bytes)>, p: (Bytes, Bytes))
    ensures Unpaired(pairs + [p]) == Unpaired(pairs) + [p.0, p.1]
  {
    if pairs == [] {
      assert [p][1..] == [];
    } else {
      assert (pairs + [p])[1..] == pairs[1..] + [p];
      UnpairedSnoc(pairs[1..], p);
    }
  }

  /** The MSET branch of the printer. */
  method Unpair(pairs: seq<(Bytes, Bytes)>) returns (args: seq<Bytes>)
    ensures args == Unpaired(pairs) && Pairs(args) == pairs
  {
    args := [];
    for i := 0 to |pairs|
      invariant args == Unpaired(pairs[..i])
    {
      UnpairedSnoc(pairs[..i], pairs[i]);
      assert pairs[..i + 1] == pairs[..i] + [pairs[i]];
      args := args + [pairs[i].0] + [pairs[i].1];
    }
    assert pairs[..|pairs|] == pairs;
    PairsUnpaired(pairs);
  }
}
