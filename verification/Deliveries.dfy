/**
 Which payloads the request handlers get over the whole life of a connection. As long as the stream goes on, a
 payload is handed over when it is complete; but what has arrived of the last one is handed over as well when the
 connection ends, and nothing tells the handler that it is not all.
 */
module Deliveries {
  import opened Bytes
  import opened Machine
  import opened Reading
  import opened Connection

  /** A call of a request handler: the length that was announced, and the payload. */
  datatype Delivery = Delivery(announced: pos, body: seq<byte>)

  predicate Whole(d: Delivery)
  {
    |d.body| == d.announced
  }

  /** The call that one more byte leads to. */
  function DeliveredBy<A>(m: Machine<A>, b: byte): seq<Delivery>
  {
    if m.Body? && |m.body| < MAX_PAYLOAD_LENGTH && m.total <= |m.body| + 1 then [Delivery(m.total, m.body + [b])]
    else []
  }

  function Delivered<A>(h: Handlers<A>, m: Machine<A>, bytes: seq<byte>): seq<Delivery>
    decreases |bytes|
  {
    if bytes == [] then [] else DeliveredBy(m, bytes[0]) + Delivered(h, Step(h, m, bytes[0]), bytes[1..])
  }

  /** The call for a request of which nothing but the announcement has arrived. */
  function OfOutcome<A>(outcome: Outcome<A>): seq<Delivery>
  {
    if outcome.Post? then [Delivery(outcome.length, [])] else []
  }

  /** The call at the end of the stream, if there is one. */
  function AtEnd<A>(h: Handlers<A>, m: Machine<A>): seq<Delivery>
  {
    match m
    case Closed(app, _, rest) => if rest == HEADERS then OfOutcome(h.onCut(app)) else []
    case Lines(app, headers, line) =>
      var text := FirstLine(line);
      if text == [] then if headers then OfOutcome(h.onCut(app)) else []
      else
        var outcome := h.onLine(app, headers, MakeLine(text, text != line));
        var (app', phase) := Parsed(outcome, headers);
        if phase == HEADERS then OfOutcome(h.onCut(app')) else OfOutcome(outcome)
    case Body(_, total, body) => [Delivery(total, body)]
    case Socket(_, _) => []
  }

  /** The call when the connection is destroyed, if there is one. */
  function AtDestruction<A>(m: Machine<A>): seq<Delivery>
  {
    if m.Body? then [Delivery(m.total, m.body)] else []
  }

  /** Payload that is being collected is not complete. */
  predicate Collecting<A>(m: Machine<A>)
  {
    m.Body? ==> |m.body| < m.total
  }

  /** Until the connection ends, only whole payloads are handed over. */
  lemma {:induction false} WholeSoFar<A>(h: Handlers<A>, m: Machine<A>, bytes: seq<byte>)
    requires Collecting(m)
    ensures Collecting(Run(h, m, bytes)) && forall d :: d in Delivered(h, m, bytes) ==> Whole(d)
    decreases |bytes|
  {
    if bytes != [] {
      WholeSoFar(h, Step(h, m, bytes[0]), bytes[1..]);
    }
  }

  /** What is handed over at the end is never whole; and it is so exactly if the end comes within a payload, or within
      what announces one. */
  lemma ShortAtEnd<A>(h: Handlers<A>, m: Machine<A>)
    requires Collecting(m)
    ensures |AtEnd(h, m)| <= 1 && (forall d :: d in AtEnd(h, m) ==> |d.body| < d.announced)
    ensures m.Body? ==> AtEnd(h, m) == AtDestruction(m) == [Delivery(m.total, m.body)]
    ensures !m.Body? ==> AtDestruction(m) == [] && forall d :: d in AtEnd(h, m) ==> d.body == []
  {
  }

  // ---- These are the calls ----

  function MapOutcome<A, B>(outcome: Outcome<A>, f: A -> B): Outcome<B>
  {
    match outcome
    case Continue(app, headers) => Continue(f(app), headers)
    case Post(app, length) => Post(f(app), length)
    case Upgrade(app, expecting) => Upgrade(f(app), expecting)
    case Reject(app) => Reject(f(app))
    case Close(app) => Close(f(app))
  }

  /** An application together with a record of the payloads its handlers were called with. */
  type Recorded<A> = (A, seq<seq<byte>>)

  function Recording<A>(h: Handlers<A>): Handlers<Recorded<A>>
  {
    Handlers(
      (r: Recorded<A>, headers, line) => MapOutcome(h.onLine(r.0, headers, line), app => (app, r.1)),
      (r: Recorded<A>, body) => ((h.onBody(r.0, body).0, r.1 + [body]), h.onBody(r.0, body).1),
      (r: Recorded<A>) => MapOutcome(h.onCut(r.0), app => (app, r.1)),
      (r: Recorded<A>) => (h.onClose(r.0), r.1),
      (r: Recorded<A>) => (h.badRequest(r.0), r.1),
      (r: Recorded<A>) => (h.headerTooBig(r.0), r.1))
  }

  function With<A>(m: Machine<A>, log: seq<seq<byte>>): Machine<Recorded<A>>
  {
    match m
    case Closed(app, frames, rest) => Closed((app, log), frames, rest)
    case Lines(app, headers, line) => Lines((app, log), headers, line)
    case Body(app, total, body) => Body((app, log), total, body)
    case Socket(app, stream) => Socket((app, log), stream)
  }

  function Bodies(ds: seq<Delivery>): seq<seq<byte>>
  {
    if ds == [] then [] else [ds[0].body] + Bodies(ds[1..])
  }

  lemma {:induction false} BodiesConcat(a: seq<Delivery>, b: seq<Delivery>)
    ensures Bodies(a + b) == Bodies(a) + Bodies(b)
  {
    if a == [] {
      assert a + b == b;
    } else {
      assert (a + b)[1..] == a[1..] + b;
      BodiesConcat(a[1..], b);
    }
  }

  lemma NoBodies()
    ensures Bodies([]) == []
  {
  }

  lemma OneBody(d: Delivery)
    ensures Bodies([d]) == [d.body]
  {
    assert [d][1..] == [];
  }

  lemma StepRecorded<A>(h: Handlers<A>, m: Machine<A>, log: seq<seq<byte>>, b: byte)
    ensures Step(Recording(h), With(m, log), b) == With(Step(h, m, b), log + Bodies(DeliveredBy(m, b)))
  {
    assert log + [] == log;
    if m.Body? {
      OneBody(Delivery(m.total, m.body + [b]));
    }
  }

  /** The record of a run. */
  lemma {:induction false} RunRecorded<A>(h: Handlers<A>, m: Machine<A>, log: seq<seq<byte>>, bytes: seq<byte>)
    ensures Run(Recording(h), With(m, log), bytes) == With(Run(h, m, bytes), log + Bodies(Delivered(h, m, bytes)))
    decreases |bytes|
  {
    hide Recording, With, Step, DeliveredBy, Bodies;
    if bytes == [] {
      NoBodies();
      assert log + [] == log;
    } else {
      var now := DeliveredBy(m, bytes[0]);
      var later := Delivered(h, Step(h, m, bytes[0]), bytes[1..]);
      StepRecorded(h, m, log, bytes[0]);
      RunRecorded(h, Step(h, m, bytes[0]), log + Bodies(now), bytes[1..]);
      BodiesConcat(now, later);
      assert log + Bodies(now) + Bodies(later) == log + (Bodies(now) + Bodies(later));
    }
  }

  lemma OfOutcomeBodies<A>(outcome: Outcome<A>)
    ensures Bodies(OfOutcome(outcome)) == if outcome.Post? then [[]] else []
  {
    if outcome.Post? {
      OneBody(Delivery(outcome.length, []));
    }
  }

  lemma WindUpRecorded<A>(h: Handlers<A>, app: A, log: seq<seq<byte>>, phase: Phase, body: seq<byte>)
    ensures WindUp(Recording(h), (app, log), phase, body)
         == (WindUp(h, app, phase, body),
             log + (if phase == HEADERS then Bodies(OfOutcome(h.onCut(app)))
                    else if phase == PAYLOAD then [body] else []))
  {
    assert log + [] == log;
    OfOutcomeBodies(h.onCut(app));
  }

  /** The record of an end. */
  lemma EndRecorded<A>(h: Handlers<A>, m: Machine<A>, log: seq<seq<byte>>)
    ensures Eof(Recording(h), With(m, log)) == With(Eof(h, m), log + Bodies(AtEnd(h, m)))
    ensures Destroyed(Recording(h), With(m, log)) == With(Destroyed(h, m), log + Bodies(AtDestruction(m)))
  {
    hide WindUp, FirstLine, MakeLine;
    assert log + [] == log;
    match m
    case Closed(app, _, rest) =>
      WindUpRecorded(h, app, log, rest, []);
    case Lines(app, headers, line) =>
      var text := FirstLine(line);
      if text == [] {
        WindUpRecorded(h, app, log, if headers then HEADERS else COMMAND, []);
      } else {
        var outcome := h.onLine(app, headers, MakeLine(text, text != line));
        var (app', phase) := Parsed(outcome, headers);
        WindUpRecorded(h, app', log, phase, []);
        OfOutcomeBodies(outcome);
      }
    case Body(app, total, body) =>
      WindUpRecorded(h, app, log, PAYLOAD, body);
      OneBody(Delivery(total, body));
    case Socket(app, stream) =>
      WindUpRecorded(h, app, log, WEBSOCKET, []);
  }

  // ---- The whole life of a connection ----

  /** The calls that a read leads to, if it is looked at. */
  function OfRead<A>(h: Handlers<A>, r: Reader<A>, buf: seq<byte>): seq<Delivery>
  {
    Delivered(h, r.machine, (r.saved + buf)[..StopAt(h, r.machine, r.saved + buf)])
  }

  /** The calls that the reads lead to, up to one that exceeds the limit. */
  function Payloads<A>(h: Handlers<A>, r: Reader<A>, pieces: seq<seq<byte>>): seq<Delivery>
    decreases |pieces|
  {
    if pieces == [] || r.machine.Closed? || TooLong(r, pieces[0]) then []
    else OfRead(h, r, pieces[0]) + Payloads(h, ReadOnce(h, r, pieces[0]), pieces[1..])
  }

  /** The connection in front of a read that exceeds the limit, or behind all the reads. */
  function LastReader<A>(h: Handlers<A>, r: Reader<A>, pieces: seq<seq<byte>>): Reader<A>
    decreases |pieces|
  {
    if pieces == [] || r.machine.Closed? || TooLong(r, pieces[0]) then r
    else LastReader(h, ReadOnce(h, r, pieces[0]), pieces[1..])
  }

  /** Whether one of the reads exceeds the limit. */
  predicate Exceeds<A>(h: Handlers<A>, r: Reader<A>, pieces: seq<seq<byte>>)
    decreases |pieces|
  {
    pieces != [] && !r.machine.Closed?
    && (TooLong(r, pieces[0]) || Exceeds(h, ReadOnce(h, r, pieces[0]), pieces[1..]))
  }

  /** The stream ends, or the connection is destroyed because its time is over. */
  datatype Ending = StreamEnds | Timeout

  /** The state at the end, before anything is wound up. */
  function Last<A>(h: Handlers<A>, r: Reader<A>, pieces: seq<seq<byte>>): Machine<A>
  {
    var last := AsMachine(LastReader(h, r, pieces));
    if Exceeds(h, r, pieces) then TooBig(h, last) else last
  }

  /** The calls at the end. A read that exceeds the limit is an end as well. */
  function Final<A>(h: Handlers<A>, r: Reader<A>, pieces: seq<seq<byte>>, ending: Ending): seq<Delivery>
  {
    var last := Last(h, r, pieces);
    if ending == StreamEnds || Exceeds(h, r, pieces) then AtEnd(h, last) else AtDestruction(last)
  }

  lemma {:induction false} DeliveredConcat<A>(h: Handlers<A>, m: Machine<A>, a: seq<byte>, b: seq<byte>)
    ensures Delivered(h, m, a + b) == Delivered(h, m, a) + Delivered(h, Run(h, m, a), b)
    decreases |a|
  {
    hide DeliveredBy, Step;
    if a == [] {
      assert a + b == b;
    } else {
      var m1 := Step(h, m, a[0]);
      assert (a + b)[1..] == a[1..] + b;
      DeliveredConcat(h, m1, a[1..], b);
      assert DeliveredBy(m, a[0]) + (Delivered(h, m1, a[1..]) + Delivered(h, Run(h, m1, a[1..]), b))
          == DeliveredBy(m, a[0]) + Delivered(h, m1, a[1..]) + Delivered(h, Run(h, m1, a[1..]), b);
    }
  }

  /** However the bytes are cut: the payloads that have been handed over, and those in what is put off, are the
      payloads of the request stream. */
  lemma {:induction false} PayloadsOfStream<A>(h: Handlers<A>, r: Reader<A>, pieces: seq<seq<byte>>)
    requires Proper(r) && Smooth(h, r, pieces)
    ensures var last := LastReader(h, r, pieces);
            Payloads(h, r, pieces) + Delivered(h, last.machine, last.saved)
            == Delivered(h, r.machine, r.saved + Flatten(pieces))
    decreases |pieces|
  {
    hide Run, Delivered, ReadOnce, Confused, OfRead, StopAt;
    if pieces == [] {
      assert r.saved + [] == r.saved;
      assert [] + Delivered(h, r.machine, r.saved) == Delivered(h, r.machine, r.saved);
    } else if r.machine.Closed? {
      NoneWhenClosed(h, r.machine, r.saved);
      NoneWhenClosed(h, r.machine, r.saved + Flatten(pieces));
    } else {
      var r1 := ReadOnce(h, r, pieces[0]);
      var rest := Flatten(pieces[1..]);
      var last := LastReader(h, r, pieces);
      ReadWhole(h, r, pieces[0]);
      PayloadsOfStream(h, r1, pieces[1..]);
      ReadDelivers(h, r, pieces[0], rest);
      assert OfRead(h, r, pieces[0]) + (Payloads(h, r1, pieces[1..]) + Delivered(h, last.machine, last.saved))
          == OfRead(h, r, pieces[0]) + Payloads(h, r1, pieces[1..]) + Delivered(h, last.machine, last.saved);
      assert r.saved + (pieces[0] + rest) == r.saved + pieces[0] + rest;
    }
  }

  lemma {:induction false} NoneWhenClosed<A>(h: Handlers<A>, m: Machine<A>, bytes: seq<byte>)
    requires m.Closed?
    ensures Delivered(h, m, bytes) == []
    decreases |bytes|
  {
    if bytes != [] {
      NoneWhenClosed(h, m, bytes[1..]);
    }
  }

  lemma ReadDelivers<A>(h: Handlers<A>, r: Reader<A>, buf: seq<byte>, rest: seq<byte>)
    requires !TooLong(r, buf) && !Confused(h, r.machine, r.saved, buf)
    ensures var r1 := ReadOnce(h, r, buf);
            Delivered(h, r.machine, r.saved + buf + rest)
            == OfRead(h, r, buf) + Delivered(h, r1.machine, r1.saved + rest)
  {
    hide Run, Delivered, StopAt, Confused, Finishes;
    var input := r.saved + buf;
    var n := StopAt(h, r.machine, input);
    assert input + rest == input[..n] + (input[n..] + rest);
    DeliveredConcat(h, r.machine, input[..n], input[n..] + rest);
  }

  // ---- The record of a connection ----

  function WithLog<A>(r: Reader<A>, log: seq<seq<byte>>): Reader<Recorded<A>>
  {
    Reader(With(r.machine, log), r.saved, r.length)
  }

  lemma {:induction false} FinishRecorded<A>(h: Handlers<A>, m: Machine<A>, log: seq<seq<byte>>, bytes: seq<byte>)
    ensures Finishes(Recording(h), With(m, log), bytes) <==> Finishes(h, m, bytes)
    ensures LineBytes(Recording(h), With(m, log), bytes) == LineBytes(h, m, bytes)
    decreases |bytes|
  {
    hide Recording;
    if bytes != [] {
      StepRecorded(h, m, log, bytes[0]);
      FinishRecorded(h, Step(h, m, bytes[0]), log + Bodies(DeliveredBy(m, bytes[0])), bytes[1..]);
    }
  }

  lemma {:induction false} StopRecorded<A>(h: Handlers<A>, m: Machine<A>, log: seq<seq<byte>>, input: seq<byte>)
    ensures StopAt(Recording(h), With(m, log), input) == StopAt(h, m, input)
    decreases |input|
  {
    hide Recording, Run, Step, StopAt, Delivered, DeliveredBy, Bodies, FirstOf;
    if input == [] {
      StopNowhere(h, m);
      StopNowhere(Recording(h), With(m, log));
    } else if m.Lines? {
      var i := StopInLines(h, m, input);
      var _ := StopInLines(Recording(h), With(m, log), input);
      if 0 <= i {
        RunRecorded(h, m, log, input[..i + 1]);
        StopRecorded(h, Run(h, m, input[..i + 1]), log + Bodies(Delivered(h, m, input[..i + 1])), input[i + 1..]);
      }
    } else {
      var m1 := Step(h, m, input[0]);
      StopElsewhere(h, m, input);
      StopElsewhere(Recording(h), With(m, log), input);
      StepRecorded(h, m, log, input[0]);
      StopRecorded(h, m1, log + Bodies(DeliveredBy(m, input[0])), input[1..]);
    }
  }

  /** The record of a read. */
  lemma ReadRecorded<A>(h: Handlers<A>, r: Reader<A>, log: seq<seq<byte>>, buf: seq<byte>)
    ensures var calls := if TooLong(r, buf) then AtEnd(h, TooBig(h, AsMachine(r))) else OfRead(h, r, buf);
            ReadOnce(Recording(h), WithLog(r, log), buf) == WithLog(ReadOnce(h, r, buf), log + Bodies(calls))
  {
    hide Recording, Run, StopAt, LineBytes, Finishes, Delivered, Eof, AtEnd, TooBig, Bodies;
    if TooLong(r, buf) {
      TooBigRecorded(h, AsMachine(r), log);
      EndRecorded(h, TooBig(h, AsMachine(r)), log);
    } else {
      var input := r.saved + buf;
      var taken := input[..StopAt(h, r.machine, input)];
      StopRecorded(h, r.machine, log, input);
      RunRecorded(h, r.machine, log, taken);
      FinishRecorded(h, r.machine, log, taken);
    }
  }

  lemma TooBigRecorded<A>(h: Handlers<A>, m: Machine<A>, log: seq<seq<byte>>)
    ensures TooBig(Recording(h), With(m, log)) == With(TooBig(h, m), log)
  {
  }

  lemma {:induction false} ReadsRecorded<A>(h: Handlers<A>, r: Reader<A>, log: seq<seq<byte>>, pieces: seq<seq<byte>>)
    ensures var calls := Payloads(h, r, pieces) + if Exceeds(h, r, pieces) then AtEnd(h, Last(h, r, pieces)) else [];
            ReadAll(Recording(h), WithLog(r, log), pieces) == WithLog(ReadAll(h, r, pieces), log + Bodies(calls))
    ensures ReadAll(h, r, pieces) == if Exceeds(h, r, pieces) then Reader(Eof(h, Last(h, r, pieces)), [], 0)
                                     else LastReader(h, r, pieces)
    decreases |pieces|
  {
    hide Recording, ReadOnce, OfRead, Eof, AtEnd, TooBig, Bodies;
    if pieces == [] || r.machine.Closed? {
      NoBodies();
      assert Payloads(h, r, pieces) + [] == [] && log + [] == log;
    } else {
      var buf, r1 := pieces[0], ReadOnce(h, r, pieces[0]);
      ReadRecorded(h, r, log, buf);
      if TooLong(r, buf) {
        TooLongEnds(h, r, buf);
        TooLongIs(h, r, buf);
        assert [] + AtEnd(h, Last(h, r, pieces)) == AtEnd(h, Last(h, r, pieces));
        ClosedForGood(h, r1, pieces[1..], 0);
      } else {
        var later := Payloads(h, r1, pieces[1..])
                     + if Exceeds(h, r1, pieces[1..]) then AtEnd(h, Last(h, r1, pieces[1..])) else [];
        ReadsRecorded(h, r1, log + Bodies(OfRead(h, r, buf)), pieces[1..]);
        BodiesConcat(OfRead(h, r, buf), later);
        assert log + Bodies(OfRead(h, r, buf)) + Bodies(later) == log + (Bodies(OfRead(h, r, buf)) + Bodies(later));
        SamePayloads(h, r, pieces, later);
      }
    }
  }

  lemma SamePayloads<A>(h: Handlers<A>, r: Reader<A>, pieces: seq<seq<byte>>, later: seq<Delivery>)
    requires pieces != [] && !r.machine.Closed? && !TooLong(r, pieces[0])
    requires var r1 := ReadOnce(h, r, pieces[0]);
             later == Payloads(h, r1, pieces[1..])
                      + if Exceeds(h, r1, pieces[1..]) then AtEnd(h, Last(h, r1, pieces[1..])) else []
    ensures OfRead(h, r, pieces[0]) + later
         == Payloads(h, r, pieces) + if Exceeds(h, r, pieces) then AtEnd(h, Last(h, r, pieces)) else []
  {
    hide OfRead, ReadOnce, AtEnd, TooBig;
  }

  /** What becomes of a connection after its reads. */
  function Ended<A>(h: Handlers<A>, m: Machine<A>, ending: Ending): Machine<A>
  {
    Destroyed(h, if ending == StreamEnds then Eof(h, m) else m)
  }

  /** An end after a read that exceeded the limit: everything has been wound up before. */
  lemma EndsOnce<A>(h: Handlers<A>, last: Machine<A>, log: seq<seq<byte>>, ending: Ending)
    ensures var all := log + Bodies(AtEnd(h, last));
            Eof(h, last).Closed? && Ended(Recording(h), With(Eof(h, last), all), ending).app.1 == all
  {
    hide Recording, AtEnd, Bodies, Eof, Destroyed;
    EndRecorded(h, last, log);
    OnceOnly(h, last);
    OnceOnly(Recording(h), With(last, log));
  }

  lemma Ends<A>(h: Handlers<A>, last: Machine<A>, log: seq<seq<byte>>, ending: Ending)
    ensures Ended(Recording(h), With(last, log), ending).app.1
         == log + Bodies(if ending == StreamEnds then AtEnd(h, last) else AtDestruction(last))
  {
    hide Recording, AtEnd, AtDestruction, Bodies, Eof, Destroyed;
    EndRecorded(h, last, log);
    OnceOnly(Recording(h), With(last, log));
  }

  /** What has been wound up is not wound up again. */
  lemma OnceOnly<A>(h: Handlers<A>, m: Machine<A>)
    ensures Eof(h, m).Closed? && Destroyed(h, Eof(h, m)) == Eof(h, m) == Eof(h, Eof(h, m))
  {
  }

  lemma MachineRecorded<A>(r: Reader<A>, log: seq<seq<byte>>)
    ensures AsMachine(WithLog(r, log)) == With(AsMachine(r), log)
    ensures r.machine.Closed? ==> AsMachine(r) == r.machine
  {
  }

  lemma LifeRecorded<A>(h: Handlers<A>, r: Reader<A>, pieces: seq<seq<byte>>, ending: Ending)
    ensures var last := AsMachine(ReadAll(Recording(h), WithLog(r, []), pieces));
            Ended(Recording(h), last, ending).app.1 == Bodies(Payloads(h, r, pieces) + Final(h, r, pieces, ending))
  {
    hide Recording, Payloads, AtEnd, AtDestruction, Bodies, Eof, ReadAll, Exceeds, LastReader, TooBig, Ended, With;
    var sofar, last := Payloads(h, r, pieces), Last(h, r, pieces);
    ReadsRecorded(h, r, [], pieces);
    BodiesConcat(sofar, Final(h, r, pieces, ending));
    if Exceeds(h, r, pieces) {
      MachineRecorded(Reader(Eof(h, last), [], 0), Bodies(sofar) + Bodies(AtEnd(h, last)));
      assert [] + (Bodies(sofar) + Bodies(AtEnd(h, last))) == Bodies(sofar) + Bodies(AtEnd(h, last));
      EndsOnce(h, last, Bodies(sofar), ending);
    } else {
      assert sofar + [] == sofar && [] + Bodies(sofar) == Bodies(sofar);
      MachineRecorded(LastReader(h, r, pieces), Bodies(sofar));
      Ends(h, last, Bodies(sofar), ending);
    }
  }

  lemma {:induction false} LifeIsWhole<A>(h: Handlers<A>, r: Reader<A>, pieces: seq<seq<byte>>)
    requires Collecting(r.machine)
    ensures forall d :: d in Payloads(h, r, pieces) ==> Whole(d)
    ensures Collecting(Last(h, r, pieces))
    decreases |pieces|
  {
    hide Run, StopAt, Delivered, Whole;
    if pieces != [] && !r.machine.Closed? && !TooLong(r, pieces[0]) {
      var input := r.saved + pieces[0];
      WholeSoFar(h, r.machine, input[..StopAt(h, r.machine, input)]);
      LifeIsWhole(h, ReadOnce(h, r, pieces[0]), pieces[1..]);
    }
  }

  /** Over the whole life of a connection, and however its bytes are cut into reads, the request handlers are called
      once for every payload that is read, in order. All of them are whole but the last, which is short exactly if
      the end comes before it is complete: then its handler gets what has arrived. */
  method Serve<A>(handlers: Handlers<A>, app: A, pieces: seq<seq<byte>>, ending: Ending)
    returns (c: HttpConnection<Recorded<A>>, ghost whole: seq<Delivery>, ghost short: seq<Delivery>)
    requires [] !in pieces
    ensures c.Valid() && c.closed && c.app.1 == Bodies(whole + short)
    ensures var r := Reader(Lines(app, false, []), [], 0);
            && whole == Payloads(handlers, r, pieces) && short == Final(handlers, r, pieces, ending)
            && (Smooth(handlers, r, pieces) ==>
                  var last := LastReader(handlers, r, pieces);
                  whole + Delivered(handlers, last.machine, last.saved)
                  == Delivered(handlers, Lines(app, false, []), Flatten(pieces)))
    ensures (forall d :: d in whole ==> Whole(d)) && |short| <= 1 && (forall d :: d in short ==> !Whole(d))
    ensures var last := Last(handlers, Reader(Lines(app, false, []), [], 0), pieces);
            if last.Body? then short == [Delivery(last.total, last.body)] else forall d :: d in short ==> d.body == []
  {
    hide *;
    whole := Payloads(handlers, Reader(Lines(app, false, []), [], 0), pieces);
    short := Final(handlers, Reader(Lines(app, false, []), [], 0), pieces, ending);
    LifeOfCalls(handlers, app, pieces, ending);
    c := Lived(handlers, app, pieces, ending);
  }

  lemma LifeOfCalls<A>(h: Handlers<A>, app: A, pieces: seq<seq<byte>>, ending: Ending)
    ensures var r := Reader(Lines(app, false, []), [], 0);
            var last, short := Last(h, r, pieces), Final(h, r, pieces, ending);
            && (forall d :: d in Payloads(h, r, pieces) ==> Whole(d))
            && |short| <= 1 && (forall d :: d in short ==> !Whole(d))
            && (if last.Body? then short == [Delivery(last.total, last.body)]
                else forall d :: d in short ==> d.body == [])
            && (Smooth(h, r, pieces) ==>
                  var end := LastReader(h, r, pieces);
                  Payloads(h, r, pieces) + Delivered(h, end.machine, end.saved)
                  == Delivered(h, Lines(app, false, []), Flatten(pieces)))
  {
    hide Run, ReadOnce, AtEnd, Delivered, Smooth, Payloads, LastReader, Exceeds, Last;
    var r := Reader(Lines(app, false, []), [], 0);
    LifeIsWhole(h, r, pieces);
    ShortAtEnd(h, Last(h, r, pieces));
    if Smooth(h, r, pieces) {
      PayloadsOfStream(h, r, pieces);
      assert [] + Flatten(pieces) == Flatten(pieces);
    }
  }

  /** A connection from its beginning to its end, with handlers that record what they are called with. */
  method Lived<A>(handlers: Handlers<A>, app: A, pieces: seq<seq<byte>>, ending: Ending)
    returns (c: HttpConnection<Recorded<A>>)
    requires [] !in pieces
    ensures c.Valid() && c.closed
    ensures var r := Reader(Lines(app, false, []), [], 0);
            c.app.1 == Bodies(Payloads(handlers, r, pieces) + Final(handlers, r, pieces, ending))
  {
    hide Recording, Payloads, Final, ReadAll, Eof, Destroyed, Bodies;
    LifeRecorded(handlers, Reader(Lines(app, false, []), [], 0), pieces, ending);
    c := Served(Recording(handlers), (app, []), pieces);
    if ending == StreamEnds {
      if c.closed {
        c.HandleClosed();
      } else {
        c.HandleEnd();
      }
    }
    c.Destroy();
  }
}
