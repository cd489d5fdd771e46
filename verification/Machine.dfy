/**
 What the bytes arriving on one HTTP connection mean, independently of how they are cut into reads:
 an automaton that takes one byte at a time. It knows about lines, about the payload of a request with
 a known length, and about WebSocket streams. The parsers of command and header lines and the
 request handlers are parameters.
 */
module Machine {
  import opened Bytes
  import WebSocket

  const LF: byte := 10
  const MAX_HEADER_LENGTH: nat := 65536
  const MAX_PAYLOAD_LENGTH: nat := 65536

  type pos = n: nat | 0 < n witness 1

  predicate IsColon(b: byte) { b == 58 }
  predicate IsBlank(b: byte) { b == 32 || b == 9 }
  predicate IsNewline(b: byte) { b == LF }

  /** The index of the first byte with a property, or -1. */
  function FirstOf(text: seq<byte>, p: byte -> bool): (i: int)
    ensures -1 <= i < |text|
    ensures 0 <= i ==> p(text[i])
    ensures forall k :: 0 <= k < (if i < 0 then |text| else i) ==> !p(text[k])
  {
    if text == [] then -1
    else if p(text[0]) then 0
    else
      var i := FirstOf(text[1..], p);
      assert forall k :: 1 <= k < |text| ==> text[k] == text[1..][k - 1];
      if i < 0 then -1 else i + 1
  }

  /** The index of the last byte with a property, or -1. */
  function LastOf(text: seq<byte>, p: byte -> bool): (i: int)
    ensures -1 <= i < |text|
    ensures 0 <= i ==> p(text[i])
    ensures forall k :: i < k < |text| ==> !p(text[k])
  {
    if text == [] then -1
    else if p(text[|text| - 1]) then |text| - 1
    else LastOf(text[..|text| - 1], p)
  }

  /** What the parsers are told about a line: its text and the positions of the first colon, the first
      blank and, if there are at least two, the last blank (-1 where there is none); and whether a
      newline ended it. */
  datatype Line = Line(text: seq<byte>, colon: int, firstSpace: int, lastSpace: int, terminated: bool)

  function MakeLine(text: seq<byte>, terminated: bool): Line
  {
    var first, last := FirstOf(text, IsBlank), LastOf(text, IsBlank);
    Line(text, FirstOf(text, IsColon), first, if first == last then -1 else last, terminated)
  }

  /** The result of parsing a line (and of running the request's handler, if the line ended the headers). */
  datatype Outcome<A> =
    | Continue(app: A, headers: bool)
    | Post(app: A, length: pos)
    | Upgrade(app: A, expecting: int)
    | Reject(app: A)
    | Close(app: A)

  datatype Phase = COMMAND | HEADERS | PAYLOAD | DISCARD_PAYLOAD | WEBSOCKET

  /** What there may be to wind up when a connection has been closed: nothing, unless that was within the headers
      of a request or in a WebSocket stream. */
  type Rest = p: Phase | p == COMMAND || p == HEADERS || p == WEBSOCKET witness COMMAND

  function Remains(phase: Phase): Rest
  {
    if phase == HEADERS || phase == WEBSOCKET then phase else COMMAND
  }

  /** Everything the connection calls. A is the state of the application. */
  datatype Handlers<!A> = Handlers(
    onLine: (A, bool, Line) -> Outcome<A>,        // httpParseCommand and httpParseHeaders
    onBody: (A, seq<byte>) -> (A, bool),          // request handler; does it close the connection?
    onCut: A -> Outcome<A>,                       // httpHandleCommand, when the stream ends within the headers
    onClose: A -> A,                              // WebSocket handler, at the end of the connection
    badRequest: A -> A,                           // 400, payload too long
    headerTooBig: A -> A)                         // 413

  datatype Machine<A> =
    | Closed(app: A, frames: seq<WebSocket.Frame>, rest: Rest)
    | Lines(app: A, headers: bool, line: seq<byte>)
    | Body(app: A, total: pos, body: seq<byte>)
    | Socket(app: A, stream: WebSocket.Stream)

  function AfterOutcome<A>(outcome: Outcome<A>, headers: bool): Machine<A>
  {
    match outcome
    case Continue(app, headers) => Lines(app, headers, [])
    case Post(app, length) => Body(app, length, [])
    case Upgrade(app, e) => Socket(app, WebSocket.Stream(WebSocket.Idle(e), []))
    case Reject(app) => Closed(app, [], if headers then HEADERS else COMMAND)
    case Close(app) => Closed(app, [], COMMAND)
  }

  /** Empty lines are skipped. */
  function AfterLine<A>(h: Handlers<A>, app: A, headers: bool, line: seq<byte>): Machine<A>
  {
    if line == [] then Lines(app, headers, [])
    else AfterOutcome(h.onLine(app, headers, MakeLine(line, true)), headers)
  }

  /** The payload has grown to `body`. */
  function AfterPayload<A>(h: Handlers<A>, app: A, total: pos, body: seq<byte>): Machine<A>
  {
    if MAX_PAYLOAD_LENGTH < |body| then Closed(h.badRequest(app), [], COMMAND)
    else if total <= |body| then
      var (app', close) := h.onBody(app, body);
      if close then Closed(app', [], COMMAND) else Lines(app', false, [])
    else Body(app, total, body)
  }

  function AfterSocket<A>(app: A, stream: WebSocket.Stream): Machine<A>
  {
    if stream.dec.Failed? then Closed(app, stream.frames, WEBSOCKET) else Socket(app, stream)
  }

  function Step<A>(h: Handlers<A>, m: Machine<A>, b: byte): Machine<A>
  {
    match m
    case Closed(_, _, _) => m
    case Lines(app, headers, line) =>
      if b == LF then AfterLine(h, app, headers, line) else Lines(app, headers, line + [b])
    case Body(app, total, body) => AfterPayload(h, app, total, body + [b])
    case Socket(app, stream) => AfterSocket(app, WebSocket.Step(stream, b))
  }

  /** The state after a byte string. */
  function Run<A>(h: Handlers<A>, m: Machine<A>, bytes: seq<byte>): Machine<A>
    decreases |bytes|
  {
    if bytes == [] then m else Run(h, Step(h, m, bytes[0]), bytes[1..])
  }

  /** The application's state and the phase after a line has been parsed. */
  function Parsed<A>(outcome: Outcome<A>, headers: bool): (A, Phase)
  {
    match outcome
    case Continue(app, more) => (app, if more then HEADERS else COMMAND)
    case Post(app, _) => (app, PAYLOAD)
    case Upgrade(app, _) => (app, WEBSOCKET)
    case Reject(app) => (app, if headers then HEADERS else COMMAND)
    case Close(app) => (app, COMMAND)
  }

  /** httpFinishCommand: the handler of an unfinished request gets the payload that has arrived, as if it were
      all; a WebSocket handler is told. */
  function Finished<A>(h: Handlers<A>, app: A, phase: Phase, body: seq<byte>): A
  {
    match phase
    case PAYLOAD => h.onBody(app, body).0
    case WEBSOCKET => h.onClose(app)
    case _ => app
  }

  /** What is done for a request at the end of the stream. Within its headers it is handled as far as they go. */
  function WindUp<A>(h: Handlers<A>, app: A, phase: Phase, body: seq<byte>): A
  {
    if phase == HEADERS then
      var (app', phase') := Parsed(h.onCut(app), true);
      Finished(h, app', phase', [])
    else Finished(h, app, phase, body)
  }

  function FirstLine(text: seq<byte>): seq<byte>
  {
    var i := FirstOf(text, IsNewline);
    if i < 0 then text else text[..i]
  }

  /** The state once the stream has ended, or reading has been given up. An unfinished line is parsed as if it
      were complete; of saved text with newlines only the first line is parsed. For a connection that has been
      closed before, this happens the next time it is looked at. */
  function Eof<A>(h: Handlers<A>, m: Machine<A>): Machine<A>
  {
    match m
    case Closed(app, frames, rest) => Closed(WindUp(h, app, rest, []), frames, COMMAND)
    case Lines(app, headers, line) =>
      var text := FirstLine(line);
      var (app', phase) := if text == [] then (app, if headers then HEADERS else COMMAND)
                           else Parsed(h.onLine(app, headers, MakeLine(text, text != line)), headers);
      Closed(WindUp(h, app', phase, []), [], COMMAND)
    case Body(app, _, body) => Closed(WindUp(h, app, PAYLOAD, body), [], COMMAND)
    case Socket(app, stream) => Closed(WindUp(h, app, WEBSOCKET, []), stream.frames, COMMAND)
  }

  /** The state when the connection is destroyed, after its end or because its time is over. */
  function Destroyed<A>(h: Handlers<A>, m: Machine<A>): Machine<A>
  {
    match m
    case Closed(app, frames, rest) => Closed(Finished(h, app, rest, []), frames, COMMAND)
    case Lines(app, _, _) => Closed(app, [], COMMAND)
    case Body(app, _, body) => Closed(Finished(h, app, PAYLOAD, body), [], COMMAND)
    case Socket(app, stream) => Closed(Finished(h, app, WEBSOCKET, []), stream.frames, COMMAND)
  }

  /** The answer to a request whose header is too long. */
  function TooBig<A>(h: Handlers<A>, m: Machine<A>): Machine<A>
  {
    m.(app := h.headerTooBig(m.app))
  }

  /** The automaton is a left fold over the bytes: cutting the input changes nothing. */
  lemma {:induction false} RunConcat<A>(h: Handlers<A>, m: Machine<A>, a: seq<byte>, b: seq<byte>)
    ensures Run(h, m, a + b) == Run(h, Run(h, m, a), b)
    decreases |a|
  {
    if a == [] {
      assert a + b == b;
    } else {
      assert (a + b)[1..] == a[1..] + b;
      RunConcat(h, Step(h, m, a[0]), a[1..], b);
    }
  }

  lemma {:induction false} RunClosed<A>(h: Handlers<A>, m: Machine<A>, bytes: seq<byte>)
    requires m.Closed?
    ensures Run(h, m, bytes) == m
    decreases |bytes|
  {
    if bytes != [] {
      RunClosed(h, m, bytes[1..]);
    }
  }

  /** Bytes without a newline only lengthen the unfinished line. */
  lemma {:induction false} RunNoNewline<A>(h: Handlers<A>, m: Machine<A>, bytes: seq<byte>)
    requires m.Lines? && LF !in bytes
    ensures Run(h, m, bytes) == m.(line := m.line + bytes)
    decreases |bytes|
  {
    if bytes == [] {
      assert m.line + bytes == m.line;
    } else {
      assert bytes[0] in bytes;
      assert forall b :: b in bytes[1..] ==> b in bytes;
      RunNoNewline(h, Step(h, m, bytes[0]), bytes[1..]);
      assert m.line + [bytes[0]] + bytes[1..] == m.line + bytes;
    }
  }

  /** A complete line reaches the parser once, whole. */
  lemma RunLine<A>(h: Handlers<A>, m: Machine<A>, bytes: seq<byte>)
    requires m.Lines? && LF !in bytes
    ensures Run(h, m, bytes + [LF]) == AfterLine(h, m.app, m.headers, m.line + bytes)
  {
    RunConcat(h, m, bytes, [LF]);
    RunNoNewline(h, m, bytes);
    var m1 := m.(line := m.line + bytes);
    assert [LF][1..] == [];
    assert Run(h, m1, [LF]) == Run(h, Step(h, m1, LF), []);
  }

  /** Payload that does not go beyond the announced length is collected the same way in one piece. */
  lemma {:induction false} RunBody<A>(h: Handlers<A>, m: Machine<A>, bytes: seq<byte>)
    requires m.Body? && |m.body| <= MAX_PAYLOAD_LENGTH
    requires 0 < |bytes| <= m.total - |m.body|
    ensures Run(h, m, bytes) == AfterPayload(h, m.app, m.total, m.body + bytes)
    decreases |bytes|
  {
    var m1 := Step(h, m, bytes[0]);
    assert Run(h, m, bytes) == Run(h, m1, bytes[1..]);
    assert m.body + [bytes[0]] + bytes[1..] == m.body + bytes;
    if |bytes| == 1 {
      assert bytes[1..] == [];
      assert m.body + [bytes[0]] == m.body + bytes;
    } else if m1.Closed? {
      RunClosed(h, m1, bytes[1..]);
    } else {
      RunBody(h, m1, bytes[1..]);
    }
  }

  /** Once upgraded, a connection follows the WebSocket decoder until that fails. */
  lemma {:induction false} RunSocket<A>(h: Handlers<A>, m: Machine<A>, bytes: seq<byte>)
    requires m.Socket? && !m.stream.dec.Failed?
    ensures Run(h, m, bytes) == AfterSocket(m.app, WebSocket.Run(m.stream, bytes))
    decreases |bytes|
  {
    if bytes != [] {
      var s1 := WebSocket.Step(m.stream, bytes[0]);
      if s1.dec.Failed? {
        WebSocket.RunFailed(s1, bytes[1..]);
        RunClosed(h, Step(h, m, bytes[0]), bytes[1..]);
      } else {
        RunSocket(h, Step(h, m, bytes[0]), bytes[1..]);
      }
    }
  }

  /** No line follows the payload of a request within the same read. The loop over a read ends with the
      payload; what is behind it is saved as if it were the beginning of a line. */
  predicate NoLineBehind<A>(h: Handlers<A>, m: Machine<A>, bytes: seq<byte>)
    decreases |bytes|
  {
    bytes == [] ||
    (var m1 := Step(h, m, bytes[0]);
     (m.Body? && m1.Lines? ==> LF !in bytes[1..]) && NoLineBehind(h, m1, bytes[1..]))
  }

  /** Without a newline, or without a payload, there is nothing to respect. */
  lemma {:induction false} NothingBehind<A>(h: Handlers<A>, m: Machine<A>, bytes: seq<byte>)
    requires m.Closed? || m.Socket? || (m.Lines? && LF !in bytes)
    ensures NoLineBehind(h, m, bytes)
    decreases |bytes|
  {
    if bytes != [] {
      assert bytes[0] in bytes && forall b :: b in bytes[1..] ==> b in bytes;
      NothingBehind(h, Step(h, m, bytes[0]), bytes[1..]);
    }
  }

  /** A beginning of a line does not matter. */
  lemma {:induction false} BehindText<A>(h: Handlers<A>, m: Machine<A>, text: seq<byte>, bytes: seq<byte>)
    requires m.Lines? && LF !in text
    ensures NoLineBehind(h, m, text + bytes) <==> NoLineBehind(h, m.(line := m.line + text), bytes)
    decreases |text|
  {
    if text == [] {
      assert m.line + text == m.line && text + bytes == bytes;
    } else {
      var m1 := Step(h, m, text[0]);
      assert text[0] in text && (forall b :: b in text[1..] ==> b in text);
      assert m.line + text == m1.line + text[1..];
      assert (text + bytes)[1..] == text[1..] + bytes;
      BehindText(h, m1, text[1..], bytes);
    }
  }

  lemma BehindLine<A>(h: Handlers<A>, m: Machine<A>, text: seq<byte>, bytes: seq<byte>)
    requires m.Lines? && LF !in text
    ensures NoLineBehind(h, m, text + [LF] + bytes) <==> NoLineBehind(h, Run(h, m, text + [LF]), bytes)
  {
    var m1 := m.(line := m.line + text);
    assert text + [LF] + bytes == text + ([LF] + bytes);
    BehindText(h, m, text, [LF] + bytes);
    RunLine(h, m, text);
    assert ([LF] + bytes)[1..] == bytes;
    assert Step(h, m1, LF) == Run(h, m, text + [LF]);
  }

  /** Behind a payload that is complete, or that closes the connection. */
  lemma {:induction false} BehindPayload<A>(h: Handlers<A>, m: Machine<A>, body: seq<byte>, bytes: seq<byte>)
    requires m.Body? && |m.body| <= MAX_PAYLOAD_LENGTH && 0 < |body| <= m.total - |m.body|
    requires |body| == m.total - |m.body| || bytes == []
    ensures NoLineBehind(h, m, body + bytes) <==> (Run(h, m, body).Lines? ==> LF !in bytes)
    decreases |body|
  {
    var m1 := Step(h, m, body[0]);
    assert (body + bytes)[1..] == body[1..] + bytes;
    if |body| == 1 {
      assert body[1..] == [] && [] + bytes == bytes;
      assert Run(h, m1, []) == m1;
      BehindLast(h, m1, bytes);
    } else if m1.Closed? {
      RunClosed(h, m1, body[1..]);
      NothingBehind(h, m1, body[1..] + bytes);
    } else {
      BehindPayload(h, m1, body[1..], bytes);
    }
  }

  lemma BehindLast<A>(h: Handlers<A>, m: Machine<A>, bytes: seq<byte>)
    requires m.Closed? || (m.Lines? && m.line == []) || bytes == []
    ensures (m.Lines? ==> LF !in bytes) && NoLineBehind(h, m, bytes) <==> (m.Lines? ==> LF !in bytes)
  {
    if m.Closed? || (m.Lines? && LF !in bytes) {
      NothingBehind(h, m, bytes);
    }
  }

  /** In the automaton an unfinished line never holds a newline. */
  lemma {:induction false} LineHoldsNoNewline<A>(h: Handlers<A>, m: Machine<A>, bytes: seq<byte>)
    requires m.Lines? ==> LF !in m.line
    ensures Run(h, m, bytes).Lines? ==> LF !in Run(h, m, bytes).line
    decreases |bytes|
  {
    if bytes != [] {
      LineHoldsNoNewline(h, Step(h, m, bytes[0]), bytes[1..]);
    }
  }

  /** Taking bytes for the beginning of a line is right exactly if there is no newline among them. */
  lemma SavedRight<A>(h: Handlers<A>, m: Machine<A>, bytes: seq<byte>)
    requires m.Lines? && LF !in m.line
    ensures Run(h, m, bytes) == m.(line := m.line + bytes) <==> LF !in bytes
  {
    LineHoldsNoNewline(h, m, bytes);
    if LF !in bytes {
      RunNoNewline(h, m, bytes);
    } else {
      assert LF in m.line + bytes;
    }
  }

  // ---- The limit on the length of a request ----

  /** Whether a request is finished by these bytes: the connection goes back to waiting for a command. */
  predicate Finishes<A>(h: Handlers<A>, m: Machine<A>, bytes: seq<byte>)
    decreases |bytes|
  {
    bytes != [] &&
    (var m1 := Step(h, m, bytes[0]);
     ((m.Body? || (m.Lines? && m.headers)) && m1.Lines? && !m1.headers) || Finishes(h, m1, bytes[1..]))
  }

  lemma {:induction false} FinishesConcat<A>(h: Handlers<A>, m: Machine<A>, a: seq<byte>, b: seq<byte>)
    ensures Finishes(h, m, a + b) <==> Finishes(h, m, a) || Finishes(h, Run(h, m, a), b)
    decreases |a|
  {
    if a == [] {
      assert a + b == b;
    } else {
      assert (a + b)[1..] == a[1..] + b;
      FinishesConcat(h, Step(h, m, a[0]), a[1..], b);
    }
  }

  lemma {:induction false} FinishesNothing<A>(h: Handlers<A>, m: Machine<A>, bytes: seq<byte>)
    requires m.Closed? || m.Socket? || (m.Lines? && LF !in bytes)
    ensures !Finishes(h, m, bytes)
    decreases |bytes|
  {
    if bytes != [] {
      assert bytes[0] in bytes && forall b :: b in bytes[1..] ==> b in bytes;
      FinishesNothing(h, Step(h, m, bytes[0]), bytes[1..]);
    }
  }

  lemma FinishesLine<A>(h: Handlers<A>, m: Machine<A>, text: seq<byte>)
    requires m.Lines? && LF !in text
    ensures var m1 := Run(h, m, text + [LF]);
            Finishes(h, m, text + [LF]) <==> m.headers && m1.Lines? && !m1.headers
  {
    FinishesConcat(h, m, text, [LF]);
    FinishesNothing(h, m, text);
    RunNoNewline(h, m, text);
    RunLine(h, m, text);
    var m1 := m.(line := m.line + text);
    assert [LF][1..] == [];
    assert Finishes(h, m1, [LF]) <==> m.headers && Step(h, m1, LF).Lines? && !Step(h, m1, LF).headers;
  }

  lemma {:induction false} FinishesBody<A>(h: Handlers<A>, m: Machine<A>, body: seq<byte>)
    requires m.Body? && |m.body| <= MAX_PAYLOAD_LENGTH && 0 < |body| <= m.total - |m.body|
    ensures Finishes(h, m, body) <==> Run(h, m, body).Lines?
    decreases |body|
  {
    var m1 := Step(h, m, body[0]);
    if |body| == 1 {
      assert body[1..] == [] && Run(h, m1, []) == m1;
    } else if m1.Closed? {
      RunClosed(h, m1, body[1..]);
      FinishesNothing(h, m1, body[1..]);
    } else {
      FinishesBody(h, m1, body[1..]);
    }
  }

  /** What `headerLength` is after a read: it counts whole reads, and starts again with a finished request. */
  function Counted<A>(h: Handlers<A>, m: Machine<A>, len: nat, bytes: seq<byte>): nat
  {
    if Finishes(h, m, bytes) then 0 else len + |bytes|
  }

  /** Where a connection ends up. A read that exceeds the limit is answered without being looked at. */
  function Answered<A>(h: Handlers<A>, m: Machine<A>, len: nat, pieces: seq<seq<byte>>): Machine<A>
    decreases |pieces|
  {
    if pieces == [] || m.Closed? then m
    else if MAX_HEADER_LENGTH < len + |pieces[0]| then Eof(h, TooBig(h, m))
    else Answered(h, Run(h, m, pieces[0]), Counted(h, m, len, pieces[0]), pieces[1..])
  }

  /** Whether one of the reads exceeds the limit. */
  predicate Overflows<A>(h: Handlers<A>, m: Machine<A>, len: nat, pieces: seq<seq<byte>>)
    decreases |pieces|
  {
    pieces != [] && !m.Closed? &&
    (MAX_HEADER_LENGTH < len + |pieces[0]|
     || Overflows(h, Run(h, m, pieces[0]), Counted(h, m, len, pieces[0]), pieces[1..]))
  }

  /** No read that is looked at has a line behind a payload. */
  predicate Polite<A>(h: Handlers<A>, m: Machine<A>, len: nat, pieces: seq<seq<byte>>)
    decreases |pieces|
  {
    pieces == [] || m.Closed? || MAX_HEADER_LENGTH < len + |pieces[0]|
    || (NoLineBehind(h, m, pieces[0]) && Polite(h, Run(h, m, pieces[0]), Counted(h, m, len, pieces[0]), pieces[1..]))
  }

  /** Within the limit, only the bytes matter. */
  lemma {:induction false} AnsweredIsRun<A>(h: Handlers<A>, m: Machine<A>, len: nat, pieces: seq<seq<byte>>)
    requires !Overflows(h, m, len, pieces)
    ensures Answered(h, m, len, pieces) == Run(h, m, Flatten(pieces))
    decreases |pieces|
  {
    if pieces == [] {
    } else if m.Closed? {
      RunClosed(h, m, Flatten(pieces));
    } else {
      RunConcat(h, m, pieces[0], Flatten(pieces[1..]));
      AnsweredIsRun(h, Run(h, m, pieces[0]), Counted(h, m, len, pieces[0]), pieces[1..]);
    }
  }

  /** 64 KiB in all never exceed the limit. */
  lemma {:induction false} FewBytesFit<A>(h: Handlers<A>, m: Machine<A>, len: nat, pieces: seq<seq<byte>>)
    requires len + |Flatten(pieces)| <= MAX_HEADER_LENGTH
    ensures !Overflows(h, m, len, pieces)
    decreases |pieces|
  {
    if pieces != [] {
      FewBytesFit(h, Run(h, m, pieces[0]), Counted(h, m, len, pieces[0]), pieces[1..]);
    }
  }

  /** The bytes that are looked at: reading stops with a closed connection, or with a read that exceeds the limit. */
  function Looked<A>(h: Handlers<A>, m: Machine<A>, len: nat, pieces: seq<seq<byte>>): seq<byte>
    decreases |pieces|
  {
    if pieces == [] || m.Closed? || MAX_HEADER_LENGTH < len + |pieces[0]| then []
    else pieces[0] + Looked(h, Run(h, m, pieces[0]), Counted(h, m, len, pieces[0]), pieces[1..])
  }

  /** Where a connection ends up depends on these bytes, and on whether there is such a read. */
  lemma {:induction false} LookedAt<A>(h: Handlers<A>, m: Machine<A>, len: nat, pieces: seq<seq<byte>>)
    ensures Looked(h, m, len, pieces) <= Flatten(pieces)
    ensures var m1 := Run(h, m, Looked(h, m, len, pieces));
            Answered(h, m, len, pieces) == if Overflows(h, m, len, pieces) then Eof(h, TooBig(h, m1)) else m1
    decreases |pieces|
  {
    if pieces != [] && !m.Closed? && len + |pieces[0]| <= MAX_HEADER_LENGTH {
      var m1, len1 := Run(h, m, pieces[0]), Counted(h, m, len, pieces[0]);
      LookedAt(h, m1, len1, pieces[1..]);
      RunConcat(h, m, pieces[0], Looked(h, m1, len1, pieces[1..]));
    }
  }
}
