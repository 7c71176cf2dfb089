/** One client connection: bytes arrive in arbitrary pieces, frames are parsed
    and drained as they complete. */
module Connection {
  import opened Prelude
  import opened Resp
  import opened Commands

  const READ_BUF_MAX: nat := 16 * 1024 * 1024 + 1024 * 1024

  datatype Frame =
    | Complete(command: Command, used: nat)
    | Invalid(error: CommandError, used: nat)
    | Incomplete
    | Broken(cause: ProtocolError)

  lemma {:induction false} ManyCounts(f: Parser<Bytes>, count: nat, s: Bytes)
    requires ManyFrom(f, count, s).Got?
    ensures |ManyFrom(f, count, s).value| == count
    decreases count
  {
    if count > 0 {
      ManyCounts(f, count - 1, s[f(s).used..]);
    }
  }

  /** The wire reader never returns an empty array, and always uses something. */
  lemma WireArrayShape(s: Bytes)
    requires ReadArray(Wire, s).Got?
    ensures ReadArray(Wire, s).value != [] && 0 < ReadArray(Wire, s).used <= |s|
  {
    ArrayUses(Wire, s);
    var n := Numbered(Wire, STAR)(s);
    ManyCounts(Bulk(Wire), n.value, s[n.used..]);
  }

  function FrameOfParts(parts: seq<Bytes>, used: nat, isFloat: Bytes -> bool): Frame
    requires parts != []
  {
    match Build(parts, isFloat)
    case Ok(c) => Complete(c, used)
    case Err(e) => Invalid(e, used)
  }

  /** What `parse_frame` says of a buffer. */
  function FrameOf(buf: Bytes, isFloat: Bytes -> bool): (r: Frame)
    ensures r.Complete? || r.Invalid? ==> 0 < r.used <= |buf|
  {
    match ReadArray(Wire, buf)
    case Need => Incomplete
    case Bad(e) => Broken(e)
    case Got(parts, used) =>
      WireArrayShape(buf);
      FrameOfParts(parts, used, isFloat)
  }

  /** `parse_frame`: the count line, the cursor loop, then the command. */
  method ParseFrame(buf: Bytes, isFloat: Bytes -> bool) returns (r: Frame)
    ensures r == FrameOf(buf, isFloat)
  {
    ArrayUnfolds(Wire, buf);
    var head := Numbered(Wire, STAR)(buf);
    if head == Need {
      return Incomplete;
    }
    if head.Bad? {
      return Broken(head.error);
    }
    if head.value < 1 {
      return Broken(ArrayTooShort(head.value));
    }
    if head.value > MAX_ARRAY_ELEMENTS {
      return Broken(ArrayTooLarge(head.value));
    }
    NumberedLawful(Wire, STAR);
    assert SoundAt(Numbered(Wire, STAR), buf);
    BulkLawful(Wire);
    var parts := ReadParts(Bulk(Wire), buf, head.used, head.value);
    if parts == Need {
      return Incomplete;
    }
    if parts.Bad? {
      return Broken(parts.error);
    }
    WireArrayShape(buf);
    return FrameOfParts(parts.value, parts.used, isFloat);
  }

  // ---- Draining ----

  /** How frames are told from a buffer; `FrameOf` is the one that matters. */
  type FrameReader = Bytes -> Frame

  function Frames(isFloat: Bytes -> bool): FrameReader {
    (s: Bytes) => FrameOf(s, isFloat)
  }

  /** Whole frames use something. */
  ghost predicate UsesAt(parse: FrameReader, s: Bytes) {
    parse(s).Complete? || parse(s).Invalid? ==> 0 < parse(s).used <= |s|
  }

  /** More bytes change nothing but "incomplete". */
  ghost predicate FrameStableAt(parse: FrameReader, s: Bytes, ext: Bytes) {
    parse(s) != Incomplete ==> parse(s + ext) == parse(s)
  }

  ghost predicate Incremental(parse: FrameReader) {
    && parse([]) == Incomplete
    && (forall s :: UsesAt(parse, s))
    && (forall s, ext :: FrameStableAt(parse, s, ext))
  }

  /** Incremental parsing is stable: complete, invalid and error results do not
      change when bytes are appended, and whole frames use at least one byte. */
  lemma ParsingIsIncremental(isFloat: Bytes -> bool)
    ensures Incremental(Frames(isFloat))
  {
    ArrayLawful(Wire);
    forall s, ext
      ensures FrameStableAt(Frames(isFloat), s, ext)
    {
      assert StableAt(Array(Wire), s, ext);
    }
  }

  datatype Event = Ran(command: Command) | Rejected(error: CommandError) | Dropped(cause: ProtocolError)

  /** Events so far, bytes left over, and whether the connection left the loop:
      on a protocol error it is closed, on MONITOR it becomes a stream. */
  datatype Drained = Drained(events: seq<Event>, rest: Bytes, ended: bool)

  function Drain(s: Bytes, parse: FrameReader): Drained
    decreases |s|
  {
    match parse(s)
    case Incomplete => Drained([], s, false)
    case Broken(e) => Drained([Dropped(e)], s, true)
    case Invalid(e, used) =>
      if !(0 < used <= |s|) then Drained([], s, false)
      else After([Rejected(e)], Drain(s[used..], parse))
    case Complete(c, used) =>
      if !(0 < used <= |s|) then Drained([], s, false)
      else if c.Monitor? then Drained([Ran(c)], s[used..], true)
      else After([Ran(c)], Drain(s[used..], parse))
  }

  function After(events: seq<Event>, d: Drained): Drained {
    d.(events := events + d.events)
  }

  lemma AfterAfter(a: seq<Event>, b: seq<Event>, d: Drained)
    ensures After(a, After(b, d)) == After(a + b, d)
  {
    assert a + (b + d.events) == a + b + d.events;
  }

  /** Draining early and going on with what was left over is draining it all. */
  lemma {:induction false} DrainInPieces(a: Bytes, b: Bytes, parse: FrameReader)
    requires Incremental(parse)
    ensures var d := Drain(a, parse);
            if d.ended then Drain(a + b, parse).events == d.events && Drain(a + b, parse).ended
            else Drain(a + b, parse) == After(d.events, Drain(d.rest + b, parse))
    decreases |a|
  {
    var frame := parse(a);
    if frame == Incomplete {
      assert After([], Drain(a + b, parse)) == Drain(a + b, parse);
    } else {
      assert UsesAt(parse, a) && FrameStableAt(parse, a, b);
      if frame.Complete? || frame.Invalid? {
        assert (a + b)[frame.used..] == a[frame.used..] + b;
        DrainInPieces(a[frame.used..], b, parse);
        var d := Drain(a[frame.used..], parse);
        var first := if frame.Complete? then [Ran(frame.command)] else [Rejected(frame.error)];
        AfterAfter(first, d.events, Drain(d.rest + b, parse));
      }
    }
  }

  /** One turn of the drain loop at `start`. */
  lemma DrainNext(inbuf: Bytes, start: nat, events: seq<Event>, parse: FrameReader)
    requires start <= |inbuf| && UsesAt(parse, inbuf[start..])
    requires Drain(inbuf, parse) == After(events, Drain(inbuf[start..], parse))
    ensures match parse(inbuf[start..])
            case Incomplete => Drain(inbuf, parse) == Drained(events, inbuf[start..], false)
            case Broken(e) => Drain(inbuf, parse) == Drained(events + [Dropped(e)], inbuf[start..], true)
            case Invalid(e, used) =>
              && start < start + used <= |inbuf|
              && Drain(inbuf, parse) == After(events + [Rejected(e)], Drain(inbuf[start + used..], parse))
            case Complete(c, used) =>
              && start < start + used <= |inbuf|
              && Drain(inbuf, parse) ==
                 if c.Monitor? then Drained(events + [Ran(c)], inbuf[start + used..], true)
                 else After(events + [Ran(c)], Drain(inbuf[start + used..], parse))
  {
    var frame := parse(inbuf[start..]);
    assert events + [] == events;
    if frame.Complete? || frame.Invalid? {
      var rest := inbuf[start..][frame.used..];
      assert rest == inbuf[start + frame.used..];
      AfterAfter(events, if frame.Complete? then [Ran(frame.command)] else [Rejected(frame.error)], Drain(rest, parse));
    }
  }

  /** Where the drain loop stands: still going from `start`, or stopped. */
  ghost predicate Standing(inbuf: Bytes, parse: FrameReader, events: seq<Event>, start: nat, waiting: bool, ended: bool) {
    && start <= |inbuf|
    && Drain(inbuf, parse) ==
       if waiting || ended then Drained(events, inbuf[start..], ended) else After(events, Drain(inbuf[start..], parse))
  }

  method DrainTurn(inbuf: Bytes, parse: FrameReader, events: seq<Event>, start: nat)
    returns (events': seq<Event>, start': nat, waiting: bool, ended: bool)
    requires Incremental(parse) && Standing(inbuf, parse, events, start, false, false)
    ensures Standing(inbuf, parse, events', start', waiting, ended)
    ensures waiting || ended || start < start'
  {
    assert UsesAt(parse, inbuf[start..]);
    DrainNext(inbuf, start, events, parse);
    match parse(inbuf[start..]) {
      case Incomplete => return events, start, true, false;
      case Broken(e) => return events + [Dropped(e)], start, false, true;
      case Invalid(e, used) => return events + [Rejected(e)], start + used, false, false;
      case Complete(c, used) => return events + [Ran(c)], start + used, false, c.Monitor?;
    }
  }

  /** The inner loop: advance `start` past every whole frame in the buffer. */
  method DrainBuffer(inbuf: Bytes, parse: FrameReader) returns (events: seq<Event>, start: nat, ended: bool)
    requires Incremental(parse)
    ensures start <= |inbuf|
    ensures Drain(inbuf, parse) == Drained(events, inbuf[start..], ended)
  {
    events, start, ended := [], 0, false;
    assert inbuf[0..] == inbuf;
    assert After([], Drain(inbuf, parse)) == Drain(inbuf, parse);
    var waiting := false;
    while !waiting && !ended
      invariant Standing(inbuf, parse, events, start, waiting, ended)
      decreases !waiting && !ended, |inbuf| - start
    {
      events, start, waiting, ended := DrainTurn(inbuf, parse, events, start);
    }
  }

  function Joined(chunks: seq<Bytes>): Bytes {
    if chunks == [] then [] else Joined(chunks[..|chunks| - 1]) + chunks[|chunks| - 1]
  }

  /** What the first `k` reads amount to. */
  ghost function Upto(chunks: seq<Bytes>, k: nat, parse: FrameReader): Drained
    requires k <= |chunks|
  {
    Drain(Joined(chunks[..k]), parse)
  }

  ghost predicate Overfull(chunks: seq<Bytes>, k: nat, parse: FrameReader)
    requires k <= |chunks|
  {
    !Upto(chunks, k, parse).ended && |Upto(chunks, k, parse).rest| > READ_BUF_MAX
  }

  datatype Status = Open | Ended | TooLarge

  lemma UptoNext(chunks: seq<Bytes>, k: nat, parse: FrameReader)
    requires Incremental(parse) && k < |chunks|
    ensures var d := Upto(chunks, k, parse);
            if d.ended then Upto(chunks, k + 1, parse).events == d.events && Upto(chunks, k + 1, parse).ended
            else Upto(chunks, k + 1, parse) == After(d.events, Drain(d.rest + chunks[k], parse))
  {
    assert chunks[..k + 1][..k] == chunks[..k];
    DrainInPieces(Joined(chunks[..k]), chunks[k], parse);
  }

  lemma {:induction false} EndedStays(chunks: seq<Bytes>, k: nat, j: nat, parse: FrameReader)
    requires Incremental(parse) && k <= j <= |chunks| && Upto(chunks, k, parse).ended
    ensures Upto(chunks, j, parse).events == Upto(chunks, k, parse).events && Upto(chunks, j, parse).ended
    decreases j
  {
    if k < j {
      EndedStays(chunks, k, j - 1, parse);
      UptoNext(chunks, j - 1, parse);
    }
  }

  ghost predicate NeverOverfull(chunks: seq<Bytes>, j: nat, parse: FrameReader)
    requires j <= |chunks|
  {
    forall k :: 0 <= k <= j ==> !Overfull(chunks, k, parse)
  }

  /** What a finished connection means: the whole stream was drained, unless an
      unread tail outgrew the buffer, and then a first part of it was. */
  ghost predicate Served(chunks: seq<Bytes>, parse: FrameReader, events: seq<Event>, status: Status) {
    var all := Drain(Joined(chunks), parse);
    && (status == TooLarge <==> !NeverOverfull(chunks, |chunks|, parse))
    && (if status == TooLarge then events <= all.events
        else events == all.events && (status == Ended <==> all.ended))
  }

  lemma ServedToTheEnd(chunks: seq<Bytes>, parse: FrameReader, k: nat)
    requires Incremental(parse) && k <= |chunks| && NeverOverfull(chunks, k, parse)
    requires k == |chunks| || Upto(chunks, k, parse).ended
    ensures var d := Upto(chunks, k, parse);
            Served(chunks, parse, d.events, if d.ended then Ended else Open)
  {
    assert chunks[..|chunks|] == chunks;
    if Upto(chunks, k, parse).ended {
      EndedStays(chunks, k, |chunks|, parse);
      forall j | k <= j <= |chunks|
        ensures !Overfull(chunks, j, parse)
      {
        EndedStays(chunks, k, j, parse);
      }
    }
  }

  lemma {:induction false} EventsGrow(chunks: seq<Bytes>, k: nat, j: nat, parse: FrameReader)
    requires Incremental(parse) && k <= j <= |chunks|
    ensures Upto(chunks, k, parse).events <= Upto(chunks, j, parse).events
    decreases j
  {
    if k < j {
      EventsGrow(chunks, k, j - 1, parse);
      UptoNext(chunks, j - 1, parse);
    }
  }

  /** The connection loop over the reads `chunks`. Unless the unread tail once
      outgrew the buffer, what happens depends on the bytes alone and not on how
      they were split. */
  method Serve(chunks: seq<Bytes>, parse: FrameReader) returns (events: seq<Event>, status: Status)
    requires Incremental(parse)
    ensures Served(chunks, parse, events, status)
  {
    events := [];
    var inbuf: Bytes := [];
    assert chunks[..0] == [];
    for i := 0 to |chunks|
      invariant Upto(chunks, i, parse) == Drained(events, inbuf, false)
      invariant NeverOverfull(chunks, i, parse)
    {
      inbuf := inbuf + chunks[i];
      var more, start, ended := DrainBuffer(inbuf, parse);
      UptoNext(chunks, i, parse);
      events := events + more;
      if ended {
        assert NeverOverfull(chunks, i + 1, parse);
        ServedToTheEnd(chunks, parse, i + 1);
        return events, Ended;
      }
      inbuf := inbuf[start..];
      if |inbuf| > READ_BUF_MAX {
        assert Overfull(chunks, i + 1, parse);
        EventsGrow(chunks, i + 1, |chunks|, parse);
        assert chunks[..|chunks|] == chunks;
        return events, TooLarge;
      }
    }
    ServedToTheEnd(chunks, parse, |chunks|);
    return events, Open;
  }

  /** Two ways of splitting the same bytes. If neither overfills the buffer the
      same things happen and the connection ends the same way; if one does, what
      happened before it was refused is how the other began. */
  lemma SplittingIsInvisible(chunks: seq<Bytes>, others: seq<Bytes>, parse: FrameReader,
                             events: seq<Event>, status: Status, events': seq<Event>, status': Status)
    requires Joined(chunks) == Joined(others)
    requires Served(chunks, parse, events, status) && Served(others, parse, events', status')
    ensures status != TooLarge && status' != TooLarge ==> events == events' && status == status'
    ensures status == TooLarge && status' != TooLarge ==> events <= events'
    ensures events <= events' || events' <= events
  {
  }

  /** A connection is refused exactly when, with its requests so far drained, more
      than 17 MiB wait. */
  lemma RefusedIs(chunks: seq<Bytes>, parse: FrameReader, events: seq<Event>, status: Status)
    requires Served(chunks, parse, events, status)
    ensures status == TooLarge <==>
            exists k :: 0 <= k <= |chunks| && !Upto(chunks, k, parse).ended && |Upto(chunks, k, parse).rest| > 17825792
  {
    hide Drain, Joined, Upto;
    if status == TooLarge {
      var k :| 0 <= k <= |chunks| && Overfull(chunks, k, parse);
      assert !Upto(chunks, k, parse).ended && |Upto(chunks, k, parse).rest| > 17825792;
    } else {
      forall k | 0 <= k <= |chunks|
        ensures Upto(chunks, k, parse).ended || |Upto(chunks, k, parse).rest| <= 17825792
      {
        assert !Overfull(chunks, k, parse);
      }
    }
  }

  // ---- Requests and events ----

  /** The frame of a request, whatever bytes follow it. */
  lemma RequestFrame(parts: seq<Bytes>, rest: Bytes, isFloat: Bytes -> bool)
    requires Readable(Wire, parts)
    ensures FrameOf(Encode(parts) + rest, isFloat) ==
            match Build(parts, isFloat)
            case Ok(c) => Complete(c, |Encode(parts)|)
            case Err(e) => Invalid(e, |Encode(parts)|)
  {
    hide Build, Encode, ReadArray;
    EncodeReads(Wire, parts, rest);
  }

  /** What the server does with a request. */
  function EventOf(parts: seq<Bytes>, isFloat: Bytes -> bool): Event
    requires parts != []
  {
    match Build(parts, isFloat)
    case Ok(c) => Ran(c)
    case Err(e) => Rejected(e)
  }

  predicate Requests(requests: seq<seq<Bytes>>) {
    forall i :: 0 <= i < |requests| ==> Readable(Wire, requests[i])
  }

  function Sent(requests: seq<seq<Bytes>>): Bytes {
    if requests == [] then [] else Encode(requests[0]) + Sent(requests[1..])
  }

  function EventsOf(requests: seq<seq<Bytes>>, isFloat: Bytes -> bool): seq<Event>
    requires Requests(requests)
  {
    seq(|requests|, i requires 0 <= i < |requests| => EventOf(requests[i], isFloat))
  }

  lemma DrainsOne(parts: seq<Bytes>, rest: Bytes, isFloat: Bytes -> bool)
    requires Readable(Wire, parts) && EventOf(parts, isFloat) != Ran(Monitor)
    ensures Drain(Encode(parts) + rest, Frames(isFloat)) ==
            After([EventOf(parts, isFloat)], Drain(rest, Frames(isFloat)))
  {
    hide Build, Encode, FrameOf;
    RequestFrame(parts, rest, isFloat);
    EncodeNotEmpty(parts);
    assert (Encode(parts) + rest)[|Encode(parts)|..] == rest;
  }

  lemma EncodeNotEmpty(parts: seq<Bytes>)
    ensures 0 < |Encode(parts)|
  {
  }

  /** Every request gets its one event, in order, with nothing left over; what
      follows them is drained as it would be alone. */
  lemma {:induction false} RequestsAreServed(requests: seq<seq<Bytes>>, rest: Bytes, isFloat: Bytes -> bool)
    requires Requests(requests)
    requires forall i :: 0 <= i < |requests| ==> EventOf(requests[i], isFloat) != Ran(Monitor)
    ensures Drain(Sent(requests) + rest, Frames(isFloat)) ==
            After(EventsOf(requests, isFloat), Drain(rest, Frames(isFloat)))
    ensures Drain(Sent(requests), Frames(isFloat)) == Drained(EventsOf(requests, isFloat), [], false)
    decreases |requests|
  {
    hide Build, Encode, FrameOf, Drain, EventOf;
    NothingDrains(isFloat);
    if requests == [] {
      assert Sent(requests) + rest == rest && [] + Drain(rest, Frames(isFloat)).events == Drain(rest, Frames(isFloat)).events;
      assert EventsOf(requests, isFloat) == [];
    } else {
      var first, more := requests[0], requests[1..];
      assert Requests(more);
      RequestsAreServed(more, rest, isFloat);
      DrainsOne(first, Sent(more) + rest, isFloat);
      DrainsOne(first, Sent(more), isFloat);
      assert Sent(requests) + rest == Encode(first) + (Sent(more) + rest);
      assert EventsOf(requests, isFloat) == [EventOf(first, isFloat)] + EventsOf(more, isFloat);
      AfterAfter([EventOf(first, isFloat)], EventsOf(more, isFloat), Drain(rest, Frames(isFloat)));
    }
  }

  lemma NothingDrains(isFloat: Bytes -> bool)
    ensures Drain([], Frames(isFloat)) == Drained([], [], false)
  {
    ParsingIsIncremental(isFloat);
  }

  /** MONITOR ends the request loop: what follows is not run. */
  lemma MonitorEnds(parts: seq<Bytes>, rest: Bytes, isFloat: Bytes -> bool)
    requires Readable(Wire, parts) && Build(parts, isFloat) == Ok(Monitor)
    ensures Drain(Encode(parts) + rest, Frames(isFloat)) == Drained([Ran(Monitor)], rest, true)
  {
    hide Build, Encode, FrameOf;
    RequestFrame(parts, rest, isFloat);
    EncodeNotEmpty(parts);
    assert (Encode(parts) + rest)[|Encode(parts)|..] == rest;
  }

  /** A protocol error drops the connection after the requests before it. */
  lemma BrokenEnds(s: Bytes, isFloat: Bytes -> bool)
    requires ReadArray(Wire, s).Bad?
    ensures Drain(s, Frames(isFloat)) == Drained([Dropped(ReadArray(Wire, s).error)], s, true)
  {
    hide ReadArray;
  }

  /** So however a client's requests are split into reads, unless a tail outgrew
      the buffer each is answered once and in order, and the connection stays open. */
  lemma EveryRequestIsAnswered(requests: seq<seq<Bytes>>, chunks: seq<Bytes>, isFloat: Bytes -> bool,
                               events: seq<Event>, status: Status)
    requires Requests(requests) && Joined(chunks) == Sent(requests)
    requires forall i :: 0 <= i < |requests| ==> EventOf(requests[i], isFloat) != Ran(Monitor)
    requires Served(chunks, Frames(isFloat), events, status) && status != TooLarge
    ensures status == Open && events == EventsOf(requests, isFloat)
  {
    hide EventOf, Drain, NeverOverfull, Sent, Joined;
    RequestsAreServed(requests, [], isFloat);
  }
}
