/** RESP2 arrays of bulk strings (sections "Arrays" and "Bulk strings" of the
    Redis serialization protocol specification): the encoder, the incremental
    wire reader and the streaming reader of log replay. Both readers are given
    here on the bytes still unread; the count they return is the bytes used. */
module Resp {
  import opened Prelude
  import opened Decimal

  const CR: byte := 13
  const LF: byte := 10
  const STAR: byte := 42
  const DOLLAR: byte := 36
  const MAX_ARRAY_ELEMENTS: int := 1_048_576
  const MAX_BULK_LEN: int := 536_870_912

  // ---- Encoder ----

  function Line(marker: byte, n: nat): Bytes {
    [marker] + PrintNat(n) + [CR, LF]
  }

  function EncodeBulk(part: Bytes): Bytes {
    Line(DOLLAR, |part|) + part + [CR, LF]
  }

  function EncodeBulks(parts: seq<Bytes>): Bytes {
    if parts == [] then [] else EncodeBulk(parts[0]) + EncodeBulks(parts[1..])
  }

  function Encode(parts: seq<Bytes>): Bytes {
    Line(STAR, |parts|) + EncodeBulks(parts)
  }

  lemma {:induction false} EncodeBulksSnoc(parts: seq<Bytes>, part: Bytes)
    ensures EncodeBulks(parts + [part]) == EncodeBulks(parts) + EncodeBulk(part)
  {
    if parts == [] {
      assert [part][1..] == [];
    } else {
      assert (parts + [part])[1..] == parts[1..] + [part];
      EncodeBulksSnoc(parts[1..], part);
    }
  }

  method EncodeCommand(parts: seq<Bytes>) returns (buf: Bytes)
    ensures buf == Encode(parts)
  {
    hide PrintNat;
    buf := [STAR] + PrintNat(|parts|) + [CR, LF];
    for i := 0 to |parts|
      invariant buf == Line(STAR, |parts|) + EncodeBulks(parts[..i])
    {
      ghost var before := buf;
      buf := buf + [DOLLAR] + PrintNat(|parts[i]|) + [CR, LF];
      buf := buf + parts[i] + [CR, LF];
      assert buf == before + EncodeBulk(parts[i]);
      assert parts[..i + 1] == parts[..i] + [parts[i]];
      EncodeBulksSnoc(parts[..i], parts[i]);
    }
    assert parts[..|parts|] == parts;
  }

  // ---- Readers ----

  /** The wire parser and the replay loader each have a reader of their own.
      They differ in how a number ends, and in the caps only the wire has. */
  datatype Reader = Wire | Replay

  datatype ProtocolError =
    | WrongMarker(want: byte, got: byte)
    | BadInteger(text: Bytes)
    | LoneCr
    | ArrayTooShort(count: int)
    | ArrayTooLarge(count: int)
    | NullBulk
    | BulkTooLarge(len: int)
    | BulkNotTerminated

  /** `Need` is the wire parser's "incomplete" and replay's "unexpected end". */
  datatype Read<+T> = Need | Bad(error: ProtocolError) | Got(value: T, used: nat)

  /** Index of the first CRLF. */
  function FindCrlf(s: Bytes): (r: Option<nat>)
    ensures r.Some? ==> r.value + 2 <= |s|
  {
    if |s| < 2 then None
    else if s[0] == CR && s[1] == LF then Some(0)
    else
      match FindCrlf(s[1..])
      case None => None
      case Some(i) => Some(i + 1)
  }

  function FindCr(s: Bytes): (r: Option<nat>)
    ensures r.Some? ==> r.value < |s|
  {
    if s == [] then None
    else if s[0] == CR then Some(0)
    else
      match FindCr(s[1..])
      case None => None
      case Some(i) => Some(i + 1)
  }

  /** Where the number's text ends. On the wire that is the first CRLF; replay
      stops at the first CR and insists on LF after it. */
  function LineEnd(w: Reader, s: Bytes): (r: Read<()>)
    ensures r.Got? ==> 2 <= r.used <= |s|
  {
    match w
    case Wire => if FindCrlf(s) == None then Need else Got((), FindCrlf(s).value + 2)
    case Replay =>
      if FindCr(s) == None || FindCr(s).value + 1 >= |s| then Need
      else if s[FindCr(s).value + 1] != LF then Bad(LoneCr)
      else Got((), FindCr(s).value + 2)
  }

  function ReadInteger(w: Reader, s: Bytes): (r: Read<int>)
    ensures r.Got? ==> 2 <= r.used <= |s|
  {
    match LineEnd(w, s)
    case Need => Need
    case Bad(e) => Bad(e)
    case Got(_, used) =>
      match Parse(s[..used - 2])
      case None => Bad(BadInteger(s[..used - 2]))
      case Some(v) => Got(v, used)
  }

  /** Readers are put together from smaller ones, each a function of the bytes
      still unread. */
  type Parser<!T> = Bytes -> Read<T>

  /** `marker`, then a number line. */
  function Numbered(w: Reader, marker: byte): Parser<int> {
    (s: Bytes) =>
      if s == [] then Need
      else if s[0] != marker then Bad(WrongMarker(marker, s[0]))
      else Plus(1, ReadInteger(w, s[1..]))
  }

  function Fail<T>(e: ProtocolError): Parser<T> {
    (s: Bytes) => Bad(e)
  }

  /** A payload of known length and its CRLF. */
  function Payload(len: nat): Parser<Bytes> {
    (s: Bytes) =>
      if |s| < len + 2 then Need
      else if s[len] != CR || s[len + 1] != LF then Bad(BulkNotTerminated)
      else Got(s[..len], len + 2)
  }

  function Plus<T>(used: nat, r: Read<T>): Read<T> {
    if r.Got? then r.(used := used + r.used) else r
  }

  function Then<A, B>(f: Parser<A>, g: A -> Parser<B>): Parser<B> {
    (s: Bytes) =>
      match f(s)
      case Need => Need
      case Bad(e) => Bad(e)
      case Got(v, used) => if used <= |s| then Plus(used, g(v)(s[used..])) else Need
  }

  /** What follows a bulk's length line. */
  function Body(w: Reader, len: int): Parser<Bytes> {
    if len < 0 then Fail(NullBulk)
    else if w == Wire && len > MAX_BULK_LEN then Fail(BulkTooLarge(len))
    else Payload(len)
  }

  function Bulk(w: Reader): Parser<Bytes> {
    Then(Numbered(w, DOLLAR), len => Body(w, len))
  }

  function Many(f: Parser<Bytes>, count: nat): Parser<seq<Bytes>> {
    (s: Bytes) => ManyFrom(f, count, s)
  }

  function ManyFrom(f: Parser<Bytes>, count: nat, s: Bytes): Read<seq<Bytes>> {
    if count == 0 then Got([], 0)
    else
      match f(s)
      case Need => Need
      case Bad(e) => Bad(e)
      case Got(part, used) =>
        if used > |s| then Need
        else Cons(used, part, ManyFrom(f, count - 1, s[used..]))
  }

  function Cons(used: nat, part: Bytes, r: Read<seq<Bytes>>): Read<seq<Bytes>> {
    match r
    case Need => Need
    case Bad(e) => Bad(e)
    case Got(parts, more) => Got([part] + parts, used + more)
  }

  /** What follows an array's count line. The wire wants at least one element. */
  function Elements(w: Reader, count: int): Parser<seq<Bytes>> {
    if count < (if w == Wire then 1 else 0) then Fail(ArrayTooShort(count))
    else if w == Wire && count > MAX_ARRAY_ELEMENTS then Fail(ArrayTooLarge(count))
    else Many(Bulk(w), count)
  }

  /** One whole array, before it is looked at as a command or a record. */
  function Array(w: Reader): Parser<seq<Bytes>> {
    Then(Numbered(w, STAR), count => Elements(w, count))
  }

  function ReadArray(w: Reader, s: Bytes): Read<seq<Bytes>> {
    Array(w)(s)
  }

  // ---- The laws of an incremental reader ----

  /** What is used is there to be used. */
  ghost predicate SoundAt<T>(f: Parser<T>, s: Bytes) {
    f(s).Got? ==> f(s).used <= |s|
  }

  /** More bytes never change an answer that was given. */
  ghost predicate StableAt<T>(f: Parser<T>, s: Bytes, ext: Bytes) {
    f(s) != Need ==> f(s + ext) == f(s)
  }

  /** A cut before the end of what was used is incomplete, never an error, and
      bytes past that end do not matter. */
  ghost predicate CutAt<T>(f: Parser<T>, s: Bytes, m: nat) {
    f(s).Got? && m <= |s| ==> f(s[..m]) == if f(s).used <= m then f(s) else Need
  }

  ghost predicate Lawful<T(!new)>(f: Parser<T>) {
    && (forall s :: SoundAt(f, s))
    && (forall s, ext :: StableAt(f, s, ext))
    && (forall s, m :: CutAt(f, s, m))
  }

  lemma {:induction false} FindCrlfExtends(s: Bytes, ext: Bytes)
    requires FindCrlf(s).Some?
    ensures FindCrlf(s + ext) == FindCrlf(s)
  {
    if !(s[0] == CR && s[1] == LF) {
      assert (s + ext)[1..] == s[1..] + ext;
      FindCrlfExtends(s[1..], ext);
    }
  }

  lemma {:induction false} FindCrExtends(s: Bytes, ext: Bytes)
    requires FindCr(s).Some?
    ensures FindCr(s + ext) == FindCr(s)
  {
    if s[0] != CR {
      assert (s + ext)[1..] == s[1..] + ext;
      FindCrExtends(s[1..], ext);
    }
  }

  lemma {:induction false} FindCrlfCut(s: Bytes, m: nat)
    requires FindCrlf(s).Some? && m <= |s|
    ensures FindCrlf(s[..m]) == if FindCrlf(s).value + 2 <= m then FindCrlf(s) else None
  {
    if m >= 2 && !(s[0] == CR && s[1] == LF) {
      assert s[..m][1..] == s[1..][..m - 1];
      FindCrlfCut(s[1..], m - 1);
    }
  }

  lemma {:induction false} FindCrCut(s: Bytes, m: nat)
    requires FindCr(s).Some? && m <= |s|
    ensures FindCr(s[..m]) == if FindCr(s).value < m then FindCr(s) else None
  {
    if m > 0 && s[0] != CR {
      assert s[..m][1..] == s[1..][..m - 1];
      FindCrCut(s[1..], m - 1);
    }
  }

  lemma IntegerStable(w: Reader, s: Bytes, ext: Bytes)
    requires ReadInteger(w, s) != Need
    ensures ReadInteger(w, s + ext) == ReadInteger(w, s)
  {
    if w == Wire {
      FindCrlfExtends(s, ext);
    } else {
      FindCrExtends(s, ext);
    }
    if LineEnd(w, s).Got? {
      var i := LineEnd(w, s).used - 2;
      assert (s + ext)[..i] == s[..i];
    }
  }

  lemma IntegerCut(w: Reader, s: Bytes, m: nat)
    requires ReadInteger(w, s).Got? && m <= |s|
    ensures ReadInteger(w, s[..m]) == if ReadInteger(w, s).used <= m then ReadInteger(w, s) else Need
  {
    if w == Wire {
      FindCrlfCut(s, m);
    } else {
      FindCrCut(s, m);
    }
    var i := LineEnd(w, s).used - 2;
    if i + 2 <= m {
      assert s[..m][..i] == s[..i];
    }
  }

  lemma NumberedStable(w: Reader, marker: byte, s: Bytes, ext: Bytes)
    ensures StableAt(Numbered(w, marker), s, ext)
  {
    if s != [] && s[0] == marker && ReadInteger(w, s[1..]) != Need {
      assert (s + ext)[1..] == s[1..] + ext;
      IntegerStable(w, s[1..], ext);
    }
  }

  lemma NumberedCut(w: Reader, marker: byte, s: Bytes, m: nat)
    ensures CutAt(Numbered(w, marker), s, m)
  {
    if Numbered(w, marker)(s).Got? && 0 < m <= |s| {
      assert s[..m][1..] == s[1..][..m - 1];
      IntegerCut(w, s[1..], m - 1);
    }
  }

  lemma NumberedLawful(w: Reader, marker: byte)
    ensures Lawful(Numbered(w, marker))
  {
    forall s, ext
      ensures StableAt(Numbered(w, marker), s, ext)
    {
      NumberedStable(w, marker, s, ext);
    }
    forall s, m: nat
      ensures CutAt(Numbered(w, marker), s, m)
    {
      NumberedCut(w, marker, s, m);
    }
  }

  lemma PayloadLawful(len: nat)
    ensures Lawful(Payload(len))
  {
    var f := Payload(len);
    forall s, ext
      ensures StableAt(f, s, ext)
    {
      if f(s) != Need {
        assert (s + ext)[..len] == s[..len];
      }
    }
    forall s, m: nat
      ensures CutAt(f, s, m)
    {
      if f(s).Got? && len + 2 <= m <= |s| {
        assert s[..m][..len] == s[..len];
      }
    }
  }

  lemma ThenLawful<A(!new), B(!new)>(f: Parser<A>, g: A -> Parser<B>)
    requires Lawful(f) && forall v :: Lawful(g(v))
    ensures Lawful(Then(f, g))
  {
    var h := Then(f, g);
    forall s
      ensures SoundAt(h, s)
    {
      assert SoundAt(f, s);
      if f(s).Got? {
        assert Lawful(g(f(s).value)) && SoundAt(g(f(s).value), s[f(s).used..]);
      }
    }
    forall s, ext
      ensures StableAt(h, s, ext)
    {
      assert StableAt(f, s, ext) && SoundAt(f, s);
      if f(s).Got? {
        var used := f(s).used;
        assert (s + ext)[used..] == s[used..] + ext;
        assert Lawful(g(f(s).value)) && StableAt(g(f(s).value), s[used..], ext);
      }
    }
    forall s, m: nat
      ensures CutAt(h, s, m)
    {
      assert CutAt(f, s, m) && SoundAt(f, s);
      if f(s).Got? && f(s).used <= m <= |s| {
        var used := f(s).used;
        assert s[..m][used..] == s[used..][..m - used];
        assert Lawful(g(f(s).value)) && CutAt(g(f(s).value), s[used..], m - used);
      }
    }
  }

  lemma {:induction false} ManyStable(f: Parser<Bytes>, count: nat, s: Bytes, ext: Bytes)
    requires Lawful(f)
    ensures SoundAt(Many(f, count), s) && StableAt(Many(f, count), s, ext)
    decreases count
  {
    if count > 0 {
      assert SoundAt(f, s) && StableAt(f, s, ext);
      if f(s).Got? {
        var used := f(s).used;
        assert (s + ext)[used..] == s[used..] + ext;
        ManyStable(f, count - 1, s[used..], ext);
      }
    }
  }

  lemma {:induction false} ManyCut(f: Parser<Bytes>, count: nat, s: Bytes, m: nat)
    requires Lawful(f)
    ensures CutAt(Many(f, count), s, m)
    decreases count
  {
    if count > 0 && Many(f, count)(s).Got? && m <= |s| {
      assert SoundAt(f, s) && CutAt(f, s, m);
      var used := f(s).used;
      if used <= m {
        assert s[..m][used..] == s[used..][..m - used];
        ManyCut(f, count - 1, s[used..], m - used);
      }
    }
  }

  lemma ManyLawful(f: Parser<Bytes>, count: nat)
    requires Lawful(f)
    ensures Lawful(Many(f, count))
  {
    forall s, ext: Bytes
      ensures SoundAt(Many(f, count), s) && StableAt(Many(f, count), s, ext)
    {
      ManyStable(f, count, s, ext);
    }
    forall s, m: nat
      ensures CutAt(Many(f, count), s, m)
    {
      ManyCut(f, count, s, m);
    }
    forall s
      ensures SoundAt(Many(f, count), s)
    {
      ManyStable(f, count, s, []);
    }
  }

  lemma BulkLawful(w: Reader)
    ensures Lawful(Bulk(w))
  {
    NumberedLawful(w, DOLLAR);
    forall len: int
      ensures Lawful(Body(w, len))
    {
      if len >= 0 {
        PayloadLawful(len);
      }
    }
    ThenLawful(Numbered(w, DOLLAR), len => Body(w, len));
  }

  /** Incremental reading is stable and cuts are incomplete, in both readers. */
  lemma ArrayLawful(w: Reader)
    ensures Lawful(Array(w))
  {
    NumberedLawful(w, STAR);
    BulkLawful(w);
    forall count: int
      ensures Lawful(Elements(w, count))
    {
      if count >= 0 {
        ManyLawful(Bulk(w), count);
      }
    }
    ThenLawful(Numbered(w, STAR), count => Elements(w, count));
  }

  // ---- The readers on what the encoder writes ----

  lemma {:induction false} FindBreak(text: Bytes, rest: Bytes)
    requires CR !in text
    ensures FindCrlf(text + [CR, LF] + rest) == Some(|text|)
    ensures FindCr(text + [CR, LF] + rest) == Some(|text|)
  {
    var s := text + [CR, LF] + rest;
    if text != [] {
      assert s[1..] == text[1..] + [CR, LF] + rest;
      assert s[0] == text[0];
      FindBreak(text[1..], rest);
    }
  }

  lemma IntReads(w: Reader, n: int, rest: Bytes)
    requires IsI64(n)
    ensures ReadInteger(w, Print(n) + [CR, LF] + rest) == Got(n, |Print(n)| + 2)
  {
    var text := Print(n);
    var t := text + [CR, LF] + rest;
    PrintParse(n);
    FindBreak(text, rest);
    assert t[|text| + 1] == LF;
    assert LineEnd(w, t) == Got((), |text| + 2);
    assert t[..|text|] == text;
  }

  lemma LineReads(w: Reader, marker: byte, n: nat, rest: Bytes)
    requires n <= I64_MAX
    ensures Numbered(w, marker)(Line(marker, n) + rest) == Got(n, |Line(marker, n)|)
    ensures (Line(marker, n) + rest)[|Line(marker, n)|..] == rest
  {
    IntReads(w, n, rest);
    assert (Line(marker, n) + rest)[1..] == PrintNat(n) + [CR, LF] + rest;
  }

  predicate FitsBulk(w: Reader, len: nat) {
    len <= if w == Wire then MAX_BULK_LEN else I64_MAX
  }

  /** What the readers' caps allow; replay has none but the number's width. */
  predicate Readable(w: Reader, parts: seq<Bytes>) {
    && (if w == Wire then 1 <= |parts| <= MAX_ARRAY_ELEMENTS else |parts| <= I64_MAX)
    && forall i :: 0 <= i < |parts| ==> FitsBulk(w, |parts[i]|)
  }

  lemma BulkReads(w: Reader, part: Bytes, rest: Bytes)
    requires FitsBulk(w, |part|)
    ensures Bulk(w)(EncodeBulk(part) + rest) == Got(part, |EncodeBulk(part)|)
  {
    var tail := part + [CR, LF] + rest;
    assert EncodeBulk(part) + rest == Line(DOLLAR, |part|) + tail;
    LineReads(w, DOLLAR, |part|, tail);
    assert tail[..|part|] == part;
    assert Body(w, |part|)(tail) == Got(part, |part| + 2);
  }

  ghost predicate ReadsBack(f: Parser<Bytes>, part: Bytes, tail: Bytes) {
    f(EncodeBulk(part) + tail) == Got(part, |EncodeBulk(part)|)
  }

  lemma ManyReadsOne(f: Parser<Bytes>, count: nat, part: Bytes, tail: Bytes)
    requires count > 0 && ReadsBack(f, part, tail)
    ensures ManyFrom(f, count, EncodeBulk(part) + tail) ==
            Cons(|EncodeBulk(part)|, part, ManyFrom(f, count - 1, tail))
  {
    assert (EncodeBulk(part) + tail)[|EncodeBulk(part)|..] == tail;
  }

  lemma {:induction false} ManyReads(f: Parser<Bytes>, parts: seq<Bytes>, rest: Bytes)
    requires forall part, tail :: part in parts ==> ReadsBack(f, part, tail)
    ensures ManyFrom(f, |parts|, EncodeBulks(parts) + rest) == Got(parts, |EncodeBulks(parts)|)
    decreases |parts|
  {
    if parts != [] {
      var tail := EncodeBulks(parts[1..]) + rest;
      assert EncodeBulks(parts) + rest == EncodeBulk(parts[0]) + tail;
      ManyReadsOne(f, |parts|, parts[0], tail);
      ManyReads(f, parts[1..], rest);
      assert parts == [parts[0]] + parts[1..];
    }
  }

  lemma BulksRead(w: Reader, parts: seq<Bytes>, rest: Bytes)
    requires forall i :: 0 <= i < |parts| ==> FitsBulk(w, |parts[i]|)
    ensures Many(Bulk(w), |parts|)(EncodeBulks(parts) + rest) == Got(parts, |EncodeBulks(parts)|)
  {
    forall part, tail | part in parts
      ensures ReadsBack(Bulk(w), part, tail)
    {
      BulkReads(w, part, tail);
    }
    ManyReads(Bulk(w), parts, rest);
  }

  /** An encoded command followed by any bytes reads back as its parts, ending
      at the same place, in both readers. */
  lemma EncodeReads(w: Reader, parts: seq<Bytes>, rest: Bytes)
    requires Readable(w, parts)
    ensures ReadArray(w, Encode(parts) + rest) == Got(parts, |Encode(parts)|)
  {
    hide Numbered, Bulk, EncodeBulks, Line, ManyFrom;
    var tail := EncodeBulks(parts) + rest;
    assert Encode(parts) + rest == Line(STAR, |parts|) + tail;
    LineReads(w, STAR, |parts|, tail);
    BulksRead(w, parts, rest);
    assert Elements(w, |parts|) == Many(Bulk(w), |parts|);
  }

  /** Every proper prefix of an encoded command is incomplete to both. */
  lemma PrefixIsIncomplete(w: Reader, parts: seq<Bytes>, m: nat)
    requires Readable(w, parts) && m < |Encode(parts)|
    ensures ReadArray(w, Encode(parts)[..m]) == Need
  {
    EncodeReads(w, parts, []);
    assert Encode(parts) + [] == Encode(parts);
    ArrayLawful(w);
    assert CutAt(Array(w), Encode(parts), m);
  }

  /** A whole array uses something, and no more than there is. */
  lemma ArrayUses(w: Reader, s: Bytes)
    requires ReadArray(w, s).Got?
    ensures 0 < ReadArray(w, s).used <= |s|
  {
    ArrayLawful(w);
    assert SoundAt(Array(w), s);
    assert Numbered(w, STAR)(s).used > 0;
  }

  // ---- What is refused ----

  lemma NumberReads(w: Reader, marker: byte, n: int, rest: Bytes)
    requires IsI64(n)
    ensures var s := [marker] + Print(n) + [CR, LF] + rest;
            && Numbered(w, marker)(s) == Got(n, |Print(n)| + 3)
            && s[|Print(n)| + 3..] == rest
  {
    var s := [marker] + Print(n) + [CR, LF] + rest;
    IntReads(w, n, rest);
    assert s[1..] == Print(n) + [CR, LF] + rest;
  }

  /** On the wire an array has 1 to 1048576 elements; replay takes any count from
      0 on. Whatever follows, a count outside that is an error. */
  lemma CountRefused(w: Reader, n: int, rest: Bytes)
    requires IsI64(n) && (if w == Wire then n < 1 || 1048576 < n else n < 0)
    ensures ReadArray(w, [STAR] + Print(n) + [CR, LF] + rest) == Bad(if n < 1 then ArrayTooShort(n) else ArrayTooLarge(n))
  {
    NumberReads(w, STAR, n, rest);
  }

  /** A bulk string has no negative length and, on the wire, at most 512 MiB. */
  lemma LengthRefused(w: Reader, n: int, rest: Bytes)
    requires IsI64(n) && (n < 0 || (w == Wire && 536870912 < n))
    ensures Bulk(w)([DOLLAR] + Print(n) + [CR, LF] + rest) == Bad(if n < 0 then NullBulk else BulkTooLarge(n))
  {
    NumberReads(w, DOLLAR, n, rest);
  }

  /** Its payload ends in CR LF. */
  lemma TerminatorRequired(w: Reader, part: Bytes, a: byte, b: byte, rest: Bytes)
    requires FitsBulk(w, |part|) && (a != CR || b != LF)
    ensures Bulk(w)(Line(DOLLAR, |part|) + (part + [a, b] + rest)) == Bad(BulkNotTerminated)
  {
    LineReads(w, DOLLAR, |part|, part + [a, b] + rest);
  }

  /** Anything but an array is refused at its first byte. */
  lemma MarkerRequired(w: Reader, s: Bytes)
    requires s != [] && s[0] != 42
    ensures ReadArray(w, s) == Bad(WrongMarker(42, s[0]))
  {
  }

  /** The bytes of a request. */
  lemma EncodeExample()
    ensures Encode([Ascii("PING")]) == Ascii("*1\r\n$4\r\nPING\r\n")
  {
    var parts: seq<Bytes> := [Ascii("PING")];
    assert parts[1..] == [];
    assert EncodeBulks(parts) == EncodeBulk(Ascii("PING")) + [];
  }

  // ---- The loops ----

  /** Parts already read, in front of what reading the rest gives. */
  function Prepend(parts: seq<Bytes>, used: nat, r: Read<seq<Bytes>>): Read<seq<Bytes>> {
    match r
    case Need => Need
    case Bad(e) => Bad(e)
    case Got(more, n) => Got(parts + more, used + n)
  }

  lemma PrependNext(f: Parser<Bytes>, count: nat, s: Bytes, parts: seq<Bytes>, used: nat)
    requires count > 0 && f(s).Got? && f(s).used <= |s|
    ensures Prepend(parts, used, ManyFrom(f, count, s)) ==
            Prepend(parts + [f(s).value], used + f(s).used, ManyFrom(f, count - 1, s[f(s).used..]))
  {
    var rest := ManyFrom(f, count - 1, s[f(s).used..]);
    if rest.Got? {
      assert parts + ([f(s).value] + rest.value) == parts + [f(s).value] + rest.value;
    }
  }

  /** The cursor loop over `count` bulk strings, whatever reads one of them. */
  method ReadParts(f: Parser<Bytes>, buf: Bytes, from: nat, count: nat) returns (r: Read<seq<Bytes>>)
    requires from <= |buf| && forall s :: SoundAt(f, s)
    ensures r == Prepend([], from, ManyFrom(f, count, buf[from..]))
  {
    var cursor, parts: seq<Bytes> := from, [];
    for i := 0 to count
      invariant from <= cursor <= |buf|
      invariant Prepend([], from, ManyFrom(f, count, buf[from..])) ==
                Prepend(parts, cursor, ManyFrom(f, count - i, buf[cursor..]))
    {
      assert SoundAt(f, buf[cursor..]);
      match f(buf[cursor..]) {
        case Need => return Need;
        case Bad(e) => return Bad(e);
        case Got(part, used) =>
          PrependNext(f, count - i, buf[cursor..], parts, cursor);
          assert buf[cursor..][used..] == buf[cursor + used..];
          parts := parts + [part];
          cursor := cursor + used;
      }
    }
    assert parts + [] == parts;
    return Got(parts, cursor);
  }

  lemma PlusIsPrepend(used: nat, r: Read<seq<Bytes>>)
    ensures Plus(used, r) == Prepend([], used, r)
  {
    if r.Got? {
      assert [] + r.value == r.value;
    }
  }

  lemma ArrayUnfolds(w: Reader, buf: Bytes)
    ensures ReadArray(w, buf) ==
            match Numbered(w, STAR)(buf)
            case Need => Need
            case Bad(e) => Bad(e)
            case Got(count, next) =>
              if count < (if w == Wire then 1 else 0) then Bad(ArrayTooShort(count))
              else if w == Wire && count > MAX_ARRAY_ELEMENTS then Bad(ArrayTooLarge(count))
              else if next <= |buf| then Prepend([], next, ManyFrom(Bulk(w), count, buf[next..]))
              else Need
  {
    NumberedLawful(w, STAR);
    assert SoundAt(Numbered(w, STAR), buf);
    var head := Numbered(w, STAR)(buf);
    if head.Got? && head.value >= 0 {
      PlusIsPrepend(head.used, ManyFrom(Bulk(w), head.value, buf[head.used..]));
    }
  }

  lemma {:induction false} FindCrIs(s: Bytes, i: nat)
    requires i <= |s| && forall j :: 0 <= j < i ==> s[j] != CR
    ensures i == |s| ==> FindCr(s) == None
    ensures i < |s| && s[i] == CR ==> FindCr(s) == Some(i)
  {
    if i > 0 {
      FindCrIs(s[1..], i - 1);
    }
  }

  /** Replay's `read_integer`: byte by byte up to CR, then LF, then the number. */
  method ReadIntegerBytes(s: Bytes) returns (r: Read<int>)
    ensures r == ReadInteger(Replay, s)
  {
    var i, number: Bytes := 0, [];
    while i < |s| && s[i] != CR
      invariant i <= |s| && number == s[..i]
      invariant forall j :: 0 <= j < i ==> s[j] != CR
    {
      number := number + [s[i]];
      i := i + 1;
    }
    FindCrIs(s, i);
    if i + 1 >= |s| {
      return Need;
    }
    if s[i + 1] != LF {
      return Bad(LoneCr);
    }
    var v := Parse(number);
    return if v == None then Bad(BadInteger(number)) else Got(v.value, i + 2);
  }

  /** Replay's `read_record`: the count line, then one bulk string at a time. */
  method ReadRecord(s: Bytes) returns (r: Read<seq<Bytes>>)
    ensures r == ReadArray(Replay, s)
  {
    ArrayUnfolds(Replay, s);
    if s == [] {
      return Need;
    }
    if s[0] != STAR {
      return Bad(WrongMarker(STAR, s[0]));
    }
    var head := ReadIntegerBytes(s[1..]);
    match head {
      case Need => return Need;
      case Bad(e) => return Bad(e);
      case Got(count, used) =>
        if count < 0 {
          return Bad(ArrayTooShort(count));
        }
        BulkLawful(Replay);
        r := ReadParts(Bulk(Replay), s, 1 + used, count);
    }
  }
}
