/**
 The input half of an HTTP connection as the server runs it: every read is a buffer of arbitrary size, what a read
 leaves behind is kept in `partial` and addressed by negative offsets, payload is handed to a collector in pieces, and
 WebSocket data is decoded piecewise. The loop over a read is proved to do what `Reading` says, step by step with the
 automaton of `Machine`.
 */
module Connection {
  import opened Bytes
  import opened Machine
  import opened Reading
  import WS = WebSocket

  /** The `websocketType` field: WS_UNDEFINED (0x1000), WS_START_OF_FRAME (0x100), WS_END_OF_FRAME
      (0x200) and the type byte. */
  datatype WsType = WsType(undefined: bool, start: bool, end: bool, code: byte)

  const WS_UNDEFINED := WsType(true, false, false, 0)

  /** What the two fields `websocketType` and `expecting` stand for. */
  function DecoderOf(t: WsType, expecting: int): WS.Decoder
  {
    if t.undefined then
      if t.code == 0 || expecting < 0 then WS.Idle(expecting) else WS.Length(t.code, expecting)
    else if t.code < 0x80 then WS.Text(t.code, t.start, expecting)
    else if 0 < expecting then WS.Binary(t.code, expecting, t.start)
    else WS.Finished(t.code, t.start)
  }

  predicate ValidType(t: WsType, expecting: int)
  {
    && !t.end
    && (t.undefined ==> if t.code == 0 then !t.start else 0x80 <= t.code && t.start)
    && (0x80 <= t.code ==> 0 <= expecting < 0x8000_0000)
  }

  /** The fields determine the decoder state and are determined by it. */
  lemma DecoderOfInjective(t: WsType, e: int, t': WsType, e': int)
    requires ValidType(t, e) && ValidType(t', e') && DecoderOf(t, e) == DecoderOf(t', e')
    ensures t == t' && e == e'
  {
  }

  /** The bytes not consumed yet: from `offset` on, where negative offsets lie in `partial`. */
  function Unread(partial: seq<byte>, buf: seq<byte>, offset: int): seq<byte>
    requires -|partial| <= offset <= |buf|
  {
    if offset < 0 then partial[|partial| + offset..] + buf else buf[offset..]
  }

  class HttpConnection<A> {
    const handlers: Handlers<A>
    var app: A                    // everything the parsers and handlers keep
    var state: Phase
    var closed: bool
    var headerLength: nat
    var partial: seq<byte>
    var expecting: int
    var contentLength: nat        // the Content-Length header as the payload collector reads it
    var payload: seq<byte>        // struct PayLoad
    var websocketType: WsType
    var frames: seq<WS.Frame>     // what the WebSocket handler has assembled from its frames

    constructor (handlers: Handlers<A>, app: A)
      ensures Valid() && !closed && headerLength == 0 && this.handlers == handlers
      ensures Abs() == Lines(app, false, []) && View() == Reader(Lines(app, false, []), [], 0)
    {
      this.handlers, this.app := handlers, app;
      state, closed, headerLength, partial := COMMAND, false, 0, [];
      expecting, contentLength, payload := 0, 0, [];
      websocketType, frames := WS_UNDEFINED, [];
    }

    ghost predicate LineMode()
      reads this
    {
      state == COMMAND || state == HEADERS
    }

    /** What holds whatever is still unread. */
    ghost predicate Consistent()
      reads this
    {
      && (closed ==> state != PAYLOAD)
      && (closed || (state != WEBSOCKET ==> websocketType == WS_UNDEFINED && frames == []))
      && (closed ||
          match state
          case COMMAND => expecting == 0
          case HEADERS => expecting == 0
          case PAYLOAD =>
            0 < expecting == contentLength - |payload| && |payload| <= MAX_PAYLOAD_LENGTH
          case DISCARD_PAYLOAD => false
          case WEBSOCKET =>
            && ValidType(websocketType, expecting)
            && WS.Opened(WS.Stream(DecoderOf(websocketType, expecting), frames)))
    }

    /** Bytes are put off in line mode only. */
    ghost predicate Valid()
      reads this
    {
      Consistent() && (closed || !LineMode() ==> partial == [])
    }

    /** The state of the automaton if `pending` is the beginning of an unfinished line. */
    ghost function Now(pending: seq<byte>): Machine<A>
      reads this
      requires Consistent()
    {
      if closed then Closed(app, frames, Remains(state))
      else
        match state
        case COMMAND => Lines(app, false, pending)
        case HEADERS => Lines(app, true, pending)
        case PAYLOAD => Body(app, contentLength, payload)
        case DISCARD_PAYLOAD => Closed(app, [], COMMAND)  // not while the connection is open
        case WEBSOCKET => Socket(app, WS.Stream(DecoderOf(websocketType, expecting), frames))
    }

    /** The state of the automaton if the connection had not been marked closed. */
    ghost function Unclosed(): Machine<A>
      reads this
    {
      match state
      case COMMAND => Lines(app, false, partial)
      case HEADERS => Lines(app, true, partial)
      case PAYLOAD => Body(app, if 0 < contentLength then contentLength else 1, payload)
      case DISCARD_PAYLOAD => Closed(app, [], COMMAND)
      case WEBSOCKET => Socket(app, WS.Stream(DecoderOf(websocketType, expecting), frames))
    }

    ghost function Abs(): Machine<A>
      reads this
      requires Consistent()
    {
      Now(partial)
    }

    /** The connection as a reader; the length of the request no longer matters when it is closed. */
    ghost function View(): Reader<A>
      reads this
      requires Consistent()
    {
      Reader(Now([]), partial, if closed then 0 else headerLength)
    }

    /** httpGetChar without the advance of the offset. */
    function GetChar(buf: seq<byte>, offset: int): (ch: int)
      reads this
      requires -|partial| <= offset <= |buf|
      ensures ch == if offset < |buf| then Unread(partial, buf, offset)[0] else -1
    {
      if offset < 0 then partial[|partial| + offset]
      else if offset < |buf| then buf[offset]
      else -1
    }

    /** The scan for the end of a line: where it is, and where the colon and the blanks are. */
    method ScanLine(buf: seq<byte>, offset: int)
      returns (text: seq<byte>, colon: int, firstSpace: int, lastSpace: int, fullLine: bool)
      requires -|partial| <= offset <= |buf|
      ensures LF !in text
      ensures var unread := Unread(partial, buf, offset);
              if fullLine then text + [LF] <= unread else text == unread && LF !in unread
      ensures Line(text, colon, firstSpace, lastSpace, fullLine) == MakeLine(text, fullLine)
    {
      hide Positions, MakeLine, Unread, Scanned;
      text, colon, firstSpace, lastSpace, fullLine := [], -1, -1, -1, true;
      ghost var unread := Unread(partial, buf, offset);
      var i := offset;
      NothingScanned(unread);
      while true
        invariant offset <= i <= |buf| && |text| == i - offset
        invariant Scanned(unread, text, Unread(partial, buf, i))
        invariant Positions(text, colon, firstSpace, lastSpace)
        decreases |buf| - i
      {
        var ch := GetChar(buf, i);
        UnreadNext(partial, buf, i);
        if ch == -1 {
          fullLine := false;
          break;
        }
        var b: byte := ch;
        ScannedNext(unread, text, Unread(partial, buf, i));
        if b == LF {
          break;
        }
        PositionsExtend(text, b, colon, firstSpace, lastSpace);
        if IsColon(b) {
          if colon < 0 {
            colon := |text|;
          }
        } else if IsBlank(b) {
          if firstSpace < 0 {
            firstSpace := |text|;
          } else {
            lastSpace := |text|;
          }
        }
        text, i := text + [b], i + 1;
      }
      ScannedAll(unread, text, Unread(partial, buf, i));
      PositionsUnique(text, colon, firstSpace, lastSpace, fullLine);
    }

    // ---- WebSocket data ----

    ghost function Stream(): WS.Stream
      reads this
    {
      WS.Stream(DecoderOf(websocketType, expecting), frames)
    }

    ghost predicate ValidSocket()
      reads this
    {
      state == WEBSOCKET && !closed && ValidType(websocketType, expecting) && WS.Opened(Stream())
    }

    /** A byte that belongs to the header of a frame: its type or a digit of its length. The result is
        the local variable `ch` of the caller, which must not look like a terminator in binary mode. */
    method HeaderByte(b: byte) returns (ok: bool, ch: byte)
      requires ValidSocket() && websocketType.undefined
      modifies `websocketType, `expecting
      ensures var s := WS.Step(old(Stream()), b);
              ok == !s.dec.Failed? && (ok ==> ValidSocket() && Stream() == s)
      ensures ok && !websocketType.undefined && 0x80 <= websocketType.code ==> ch != 0xFF
      ensures old(websocketType.code) == 0 ==> ok && (websocketType.undefined || websocketType.code < 0x80)
    {
      ch := b;
      if websocketType.code != 0 {
        if 0xFF_FFFF < expecting {
          return false, ch;
        }
        expecting := 128 * expecting + b % 128;
        if b < 0x80 {
          websocketType := websocketType.(undefined := false);
          ch := 0;
        }
      } else {
        websocketType := WsType(false, true, false, b);
        if 0x80 <= b {
          websocketType := websocketType.(undefined := true);
          expecting := 0;
        }
      }
      ok := true;
    }

    /** The common tail of binary and text mode: hands over at most `expecting` bytes. */
    method HandleBuffered(data: seq<byte>, ch: byte) returns (len: nat)
      requires 0 <= expecting && !websocketType.end
      requires ch == 0xFF ==> expecting < |data|
      modifies `websocketType, `expecting, `frames
      ensures var n := if old(expecting) <= |data| then old(expecting) else |data|;
              var end := old(expecting) <= |data|;
              && len == (if ch == 0xFF then n + 1 else n)
              && expecting == old(expecting) - len
              && websocketType == (if ch == 0xFF then WS_UNDEFINED
                                   else old(websocketType).(start := false))
              && frames == if n == 0 then old(frames)
                             else WS.Deliver(old(frames), WS.Call(old(websocketType).code,
                                                                    old(websocketType).start, end, data[..n]))
    {
      len := |data|;
      if expecting <= len {
        len := expecting;
        websocketType := websocketType.(end := true);
      }
      if len != 0 {
        var call := WS.Call(websocketType.code, websocketType.start, websocketType.end, data[..len]);
        frames := WS.Deliver(frames, call);
      }
      if ch == 0xFF {
        len := len + 1;
        websocketType := WS_UNDEFINED;
      }
      expecting := expecting - len;
      websocketType := websocketType.(start := false, end := false);
    }

    /** Binary data up to the announced length. */
    method BinaryData(data: seq<byte>, ch: byte) returns (len: nat)
      requires ValidSocket() && Stream().dec.Binary? && data != [] && ch != 0xFF
      modifies `websocketType, `expecting, `frames
      ensures 0 < len <= |data| && ValidSocket() && Stream() == WS.Run(old(Stream()), data[..len])
    {
      ghost var s := Stream();
      len := HandleBuffered(data, ch);
      WS.RunBinary(s, data[..len]);
      WS.RunOpened(s, data[..len]);
    }

    /** Text up to the next 0xFF or the end of the buffer. */
    method TextData(data: seq<byte>) returns (len: nat, ch: byte)
      requires ValidSocket() && Stream().dec.Text? && data != []
      modifies `websocketType, `expecting, `frames
      ensures websocketType.undefined || websocketType.code < 0x80
      ensures 0 < len <= |data| && ValidSocket() && Stream() == WS.Run(old(Stream()), data[..len])
    {
      hide WS.Run, WS.Step;
      ghost var s := Stream();
      var i;
      i, ch := FindTerminator(data);
      expecting := if ch == 0xFF then i - 1 else i;
      ghost var text := data[..expecting];
      len := HandleBuffered(data, ch);
      if ch == 0xFF {
        assert data[..len] == text + [0xFF];
        WS.RunTextEnd(s, text, true);
      } else {
        WS.RunText(s, text, true);
      }
    }

    /** Looks at bytes until one is 0xFF or there are no more. */
    method FindTerminator(data: seq<byte>) returns (i: nat, ch: byte)
      requires data != []
      ensures 0 < i <= |data| && ch == data[i - 1] && 0xFF !in data[..i - 1]
      ensures if ch == 0xFF then true else i == |data| && 0xFF !in data[..i]
    {
      i, ch := 0, 0;
      while true
        invariant 0 <= i < |data| && 0xFF !in data[..i]
        decreases |data| - i
      {
        ch := data[i];
        assert data[..i + 1] == data[..i] + [ch];
        i := i + 1;
        if ch == 0xFF || |data| == i {
          break;
        }
      }
    }

    /** The previous frame is complete: goes back to looking for a new one. */
    method NextFrame(b: byte) returns (ok: bool, ch: byte)
      requires ValidSocket() && Stream().dec.Finished?
      modifies `websocketType, `expecting, `frames
      ensures ok && ValidSocket() && Stream() == WS.Step(old(Stream()), b) && frames == old(frames)
      ensures websocketType.undefined || websocketType.code < 0x80
    {
      websocketType := WS_UNDEFINED;
      ok, ch := HeaderByte(b);
    }

    /** Bytes have been consumed, all of them in `partial` or all of them in the buffer; in `partial` they are removed
        from the front, whatever the offset is, which keeps the offsets right. */
    method Consume(buf: seq<byte>, offset: int, len: nat) returns (next: int)
      requires -|partial| <= offset <= |buf| && len <= if offset < 0 then -offset else |buf| - offset
      modifies `partial
      ensures next == offset + len && -|partial| <= next <= |buf|
      ensures Unread(partial, buf, next) == old(Unread(partial, buf, offset))[len..]
      ensures partial == if offset < 0 then old(partial)[len..] else old(partial)
    {
      if offset < 0 {
        partial := partial[len..];
      }
      next := offset + len;
    }

    /** The bytes that can be looked at without going from `partial` to the buffer. */
    function Here(buf: seq<byte>, offset: int): (data: seq<byte>)
      reads this
      requires -|partial| <= offset <= |buf|
      ensures data <= Unread(partial, buf, offset) && |data| == if offset < 0 then -offset else |buf| - offset
    {
      if offset < 0 then partial[|partial| + offset..] else buf[offset..]
    }

    /** Binary data from one of the two places. */
    method TakeBinary(buf: seq<byte>, offset: int, ch: byte) returns (next: int)
      requires ValidSocket() && Stream().dec.Binary? && ch != 0xFF && -|partial| <= offset < |buf|
      modifies `websocketType, `expecting, `frames, `partial
      ensures offset < next <= |buf| && -|partial| <= next
      ensures var rest := old(Unread(partial, buf, offset));
              && Unread(partial, buf, next) == rest[next - offset..]
              && ValidSocket() && Stream() == WS.Run(old(Stream()), rest[..next - offset])
    {
      hide WS.Run, WS.Step, Unread;
      ghost var rest := Unread(partial, buf, offset);
      var data := Here(buf, offset);
      var len := BinaryData(data, ch);
      assert data[..len] == rest[..len];
      next := Consume(buf, offset, len);
    }

    /** Text from one of the two places. */
    method TakeText(buf: seq<byte>, offset: int) returns (next: int, ch: byte)
      requires ValidSocket() && Stream().dec.Text? && -|partial| <= offset < |buf|
      modifies `websocketType, `expecting, `frames, `partial
      ensures offset < next <= |buf| && -|partial| <= next && (websocketType.undefined || websocketType.code < 0x80)
      ensures var rest := old(Unread(partial, buf, offset));
              && Unread(partial, buf, next) == rest[next - offset..]
              && ValidSocket() && Stream() == WS.Run(old(Stream()), rest[..next - offset])
    {
      hide WS.Run, WS.Step, Unread;
      ghost var rest := Unread(partial, buf, offset);
      var data, len := Here(buf, offset), 0;
      len, ch := TextData(data);
      assert data[..len] == rest[..len];
      next := Consume(buf, offset, len);
    }

    /** One turn of the decoding loop. */
    method DecodeSome(buf: seq<byte>, offset: int, ch: byte) returns (ok: bool, next: int, ch': byte)
      requires ValidSocket() && -|partial| <= offset < |buf|
      requires !websocketType.undefined && 0x80 <= websocketType.code ==> ch != 0xFF
      modifies `websocketType, `expecting, `frames, `partial
      ensures offset < next <= |buf| && -|partial| <= next
      ensures var rest := old(Unread(partial, buf, offset));
              var s := WS.Run(old(Stream()), rest[..next - offset]);
              && Unread(partial, buf, next) == rest[next - offset..]
              && ok == !s.dec.Failed? && frames == s.frames && (ok ==> ValidSocket() && Stream() == s)
      ensures ok && !websocketType.undefined && 0x80 <= websocketType.code ==> ch' != 0xFF
    {
      hide WS.Run, Unread;
      ghost var s, rest := Stream(), Unread(partial, buf, offset);
      ok, ch' := true, ch;
      var b := GetChar(buf, offset);
      UnreadNext(partial, buf, offset);
      if websocketType.undefined {
        StepIsRun(s, rest);
        ok, ch' := HeaderByte(b);
        next := offset + 1;
      } else if 0x80 <= websocketType.code {
        if expecting != 0 {
          next := TakeBinary(buf, offset, ch);
        } else {
          StepIsRun(s, rest);
          ok, ch' := NextFrame(b);
          next := offset + 1;
        }
      } else {
        next, ch' := TakeText(buf, offset);
      }
    }

    /** Decodes what is left of the input. Fails if a length is too long. */
    method HandleWebSocket(buf: seq<byte>, start: int) returns (ok: bool)
      requires ValidSocket() && -|partial| <= start <= |buf|
      modifies `websocketType, `expecting, `frames, `partial
      ensures var s := WS.Run(old(Stream()), old(Unread(partial, buf, start)));
              ok == !s.dec.Failed? && frames == s.frames && (ok ==> ValidSocket() && Stream() == s)
    {
      hide WS.Run, Unread;
      var ch: byte := 0;
      var offset := start;
      ghost var s0, rest := Stream(), Unread(partial, buf, start);
      LengthOf(partial, buf, start);
      NothingDecoded(s0, rest);
      ok := true;
      while offset < |buf|
        invariant start <= offset <= |buf| && -|partial| <= offset && ValidSocket() && offset - start <= |rest|
        invariant !websocketType.undefined && 0x80 <= websocketType.code ==> ch != 0xFF
        invariant Stream() == WS.Run(s0, rest[..offset - start])
        invariant Unread(partial, buf, offset) == rest[offset - start..]
      {
        var next;
        LengthOf(partial, buf, offset);
        ok, next, ch := DecodeSome(buf, offset, ch);
        RunPiece(s0, rest, offset - start, next - start);
        if !ok {
          DecodingFails(s0, rest, next - start);
          return;
        }
        offset := next;
      }
      assert rest[..offset - start] == rest;
    }

    // ---- Payload ----

    /** The payload collector (serverCollectFullPayload): keeps the piece, and frames the request handler
        when everything has arrived. It reports whether the handler or an error reply has finished the
        request. */
    method CollectPayload(piece: seq<byte>) returns (done: bool)
      requires state == PAYLOAD && !closed && piece != []
      modifies `app, `payload, `closed
      ensures var all := old(payload) + piece;
              if MAX_PAYLOAD_LENGTH < |all| then
                done && closed && app == handlers.badRequest(old(app))
              else if contentLength <= |all| then
                var (app', close) := handlers.onBody(old(app), all);
                done && closed == close && app == app' && payload == []
              else
                !done && !closed && app == old(app) && payload == all
    {
      if MAX_PAYLOAD_LENGTH < |payload| + |piece| {
        app, closed := handlers.badRequest(app), true;
        return true;
      }
      payload := payload + piece;
      done := contentLength <= |payload|;
      if done {
        var (app', close) := handlers.onBody(app, payload);
        app, closed, payload := app', close, [];
      }
    }

    /** httpConsumePayload for a known length: never takes more than is expected. */
    method ConsumePayload(data: seq<byte>) returns (len: nat)
      requires Consistent() && state == PAYLOAD && !closed && data != []
      modifies `app, `payload, `closed, `expecting, `state, `headerLength
      ensures 0 < len <= |data| && len == (if old(expecting) < |data| then old(expecting) else |data|)
      ensures Consistent() && LineModeOrPayload()
      ensures Now([]) == Run(handlers, old(Now([])), data[..len])
      ensures len == old(expecting) ==> closed || state == COMMAND
      ensures len == |data| || len == old(Now([])).total - |old(Now([])).body|
      ensures expecting == old(expecting) - len
      ensures !closed ==> (Finishes(handlers, old(Now([])), data[..len]) <==> state == COMMAND)
      ensures !closed ==> headerLength == if state == COMMAND then 0 else old(headerLength)
    {
      ghost var m := Now([]);
      len := |data|;
      if expecting < len {
        len := expecting;
      }
      RunBody(handlers, m, data[..len]);
      FinishesBody(handlers, m, data[..len]);
      expecting := expecting - len;
      var done := CollectPayload(data[..len]);
      if done {
        state := if expecting != 0 then DISCARD_PAYLOAD else COMMAND;
        if state == COMMAND {
          headerLength := 0;
        }
      }
    }

    ghost predicate LineModeOrPayload()
      reads this
    {
      closed || state == COMMAND || state == PAYLOAD
    }

    /** Hands over what comes next, from one of the two places. */
    method HandOver(buf: seq<byte>, offset: int, data: seq<byte>) returns (len: nat)
      requires Consistent() && state == PAYLOAD && !closed && data != [] && -|partial| <= offset <= |buf|
      requires data <= Unread(partial, buf, offset) && |data| <= if offset < 0 then -offset else |buf| - offset
      modifies `app, `payload, `closed, `expecting, `state, `headerLength, `partial
      ensures 0 < len <= |data| && len == (if old(expecting) < |data| then old(expecting) else |data|)
      ensures Consistent() && LineModeOrPayload() && expecting == old(expecting) - len
      ensures -|partial| <= offset + len <= |buf|
      ensures var m, rest := old(Now([])), old(Unread(partial, buf, offset));
              && Unread(partial, buf, offset + len) == rest[len..] && Advanced(m, old(headerLength), rest[..len])
              && (!closed ==> (Finishes(handlers, m, rest[..len]) <==> state == COMMAND))
      ensures partial == if offset < 0 then old(partial)[len..] else old(partial)
    {
      hide Run, Finishes, Unread;
      ghost var rest := Unread(partial, buf, offset);
      len := ConsumePayload(data);
      assert data[..len] == rest[..len];
      var next := Consume(buf, offset, len);
    }

    /** httpParsePayload: what has been put off is handed over first, then what is in the buffer. (The original must
        not call the collector again once that has refused the payload.) */
    method ParsePayload(buf: seq<byte>, offset: int, len: nat) returns (consumed: nat)
      requires Consistent() && state == PAYLOAD && !closed && -|partial| <= offset < |buf|
      requires len == if expecting < |buf| - offset then expecting else |buf| - offset
      modifies `app, `payload, `closed, `expecting, `state, `headerLength, `partial
      ensures Consistent() && LineModeOrPayload() && 0 < consumed <= len && (!closed ==> consumed == len)
      ensures -|partial| <= offset + consumed <= |buf|
      ensures var m, rest := old(Now([])), old(Unread(partial, buf, offset));
              && Unread(partial, buf, offset + consumed) == rest[consumed..]
              && Advanced(m, old(headerLength), rest[..consumed])
              && (!closed ==> (Finishes(handlers, m, rest[..consumed]) <==> state == COMMAND))
      ensures offset + consumed < 0 ==> consumed <= |old(partial)| && partial == old(partial)[consumed..]
    {
      hide Run, Finishes, Unread, Now;
      ghost var m, rest := Now([]), Unread(partial, buf, offset);
      LengthOf(partial, buf, offset);
      consumed := 0;
      if offset < 0 {
        consumed := HandOver(buf, offset, Here(buf, offset));
        assert !closed ==> consumed == len || (state == PAYLOAD && consumed == -offset < len);
      } else {
        NothingRead(handlers, m, rest);
      }
      if !closed && consumed < len {
        var first := consumed;
        var next := offset + first;
        UnreadInBuffer(partial, buf, next);
        assert buf[next..offset + len] <= buf[next..] == Unread(partial, buf, next);
        var more := HandOver(buf, next, buf[next..offset + len]);
        consumed := first + more;
        Further(handlers, m, rest, first, more);
      }
    }

    // ---- Reads ----

    /** What httpParseCommand or httpParseHeaders, with everything they call, do to the connection. */
    method Apply(outcome: Outcome<A>) returns (ok: bool)
      requires Consistent() && LineMode()
      modifies this
      ensures partial == old(partial) && frames == old(frames) && (old(closed) || Consistent())
      ensures !old(closed) ==> Now([]) == AfterOutcome(outcome, old(state) == HEADERS) && (!ok ==> closed)
      ensures headerLength == if old(state) == HEADERS && outcome.Continue? && !outcome.headers then 0
                              else old(headerLength)
      ensures old(closed) ==> closed
      ensures (app, state) == Parsed(outcome, old(state) == HEADERS) && (state == PAYLOAD ==> payload == [])
    {
      ok := true;
      match outcome
      case Continue(a, headers) =>
        app := a;
        if state == HEADERS && !headers {
          headerLength := 0;
        }
        state := if headers then HEADERS else COMMAND;
      case Post(a, length) =>
        app, state, expecting, contentLength, payload := a, PAYLOAD, length, length, [];
      case Upgrade(a, e) =>
        app, state, expecting := a, WEBSOCKET, e;
      case Reject(a) =>
        app, closed, ok := a, true, false;
      case Close(a) =>
        app, closed, state := a, true, COMMAND;
    }

    /** Bytes have been consumed since the automaton was in `m` and `headerLength` was `length`. */
    ghost predicate Advanced(m: Machine<A>, length: nat, bytes: seq<byte>)
      reads this
    {
      && Consistent() && Now([]) == Run(handlers, m, bytes)
      && (!closed ==> headerLength == if Finishes(handlers, m, bytes) then 0 else length)
    }

    /** A turn of the loop has consumed `k` bytes. Either the loop goes on, or it stops and pushes back what is left. */
    ghost predicate Turned(m: Machine<A>, length: nat, rest: seq<byte>, buf: seq<byte>, next: int, k: nat,
                           pushBack: nat)
      reads this
    {
      && Consistent() && -|partial| <= next <= |buf| && k <= |rest| && Unread(partial, buf, next) == rest[k..]
      && Advanced(m, length, rest[..k])
      && if pushBack != 0 then LineMode() && k + pushBack == |rest| && StopAt(handlers, m, rest) == k
         else 0 < k && StopAt(handlers, m, rest) == k + StopAt(handlers, Now([]), rest[k..])
    }

    /** What is left of `partial`, if the loop has not got beyond it: payload has been removed from its front. */
    ghost predicate Shifted(was: seq<byte>, m: Machine<A>, bytes: seq<byte>)
      reads this
    {
      var shift := |bytes| - LineBytes(handlers, m, bytes);
      shift <= |was| && partial == was[shift..]
    }

    /** One turn of the loop in line mode: a complete line is parsed, an incomplete one is left to be
        pushed back. */
    method LineTurn(buf: seq<byte>, offset: int)
      returns (ok: bool, consumed: nat, pushBack: nat, eob: bool)
      requires Consistent() && LineMode() && !closed && -|partial| <= offset < |buf|
      modifies this
      ensures partial == old(partial) && (!ok ==> closed) && (closed ==> !eob) && consumed <= |buf| - offset
      ensures var m, rest := old(Now([])), old(Unread(partial, buf, offset));
              && Turned(m, old(headerLength), rest, buf, offset + consumed, consumed, pushBack)
              && LineBytes(handlers, m, rest[..consumed]) == consumed && eob == (pushBack != 0)
    {
      hide Run, Finishes, Unread, StopAt, LineBytes, MakeLine;
      ok, consumed, pushBack := true, 0, 0;
      ghost var m, rest := Now([]), Unread(partial, buf, offset);
      LengthOf(partial, buf, offset);
      var text, colon, firstSpace, lastSpace, fullLine := ScanLine(buf, offset);
      eob := !fullLine;
      if fullLine {
        consumed := |text| + 1;
        LineConsumed(handlers, m, text, rest);
        StopsBehindLine(handlers, m, text, rest);
        UnreadLater(partial, buf, offset, consumed);
        ok := ParseLine(text, colon, firstSpace, lastSpace);
      } else {
        pushBack := |text|;
        NothingRead(handlers, m, rest);
        NoLineBytes(handlers, m);
        StopsAtOnce(handlers, m, rest);
      }
    }

    /** A complete line is parsed, unless it is empty. */
    method ParseLine(text: seq<byte>, colon: int, firstSpace: int, lastSpace: int) returns (ok: bool)
      requires Consistent() && LineMode() && !closed
      requires Line(text, colon, firstSpace, lastSpace, true) == MakeLine(text, true)
      modifies this
      ensures Consistent() && partial == old(partial) && (!ok ==> closed)
      ensures Now([]) == AfterLine(handlers, old(app), old(state) == HEADERS, text)
      ensures !closed ==> headerLength == if old(state) == HEADERS && Now([]).Lines? && !Now([]).headers then 0
                                          else old(headerLength)
    {
      ok := true;
      if text != [] {
        ok := Apply(handlers.onLine(app, state == HEADERS, Line(text, colon, firstSpace, lastSpace, true)));
      }
    }

    /** One turn of the loop while payload is expected. */
    method PayloadTurn(buf: seq<byte>, offset: int) returns (consumed: nat, pushBack: nat)
      requires Consistent() && state == PAYLOAD && !closed && -|partial| <= offset < |buf|
      modifies `app, `payload, `closed, `expecting, `state, `headerLength, `partial
      ensures Consistent() && 0 < consumed && offset + consumed + pushBack == |buf|
      ensures var m, rest := old(Now([])), old(Unread(partial, buf, offset));
              && consumed <= |rest|
              && if closed then Now([]) == Run(handlers, m, rest) && StopAt(handlers, m, rest) == |rest|
                 else
                   && Turned(m, old(headerLength), rest, buf, offset + consumed, consumed, pushBack)
                   && LineBytes(handlers, m, rest[..consumed]) == 0
      ensures !closed && offset + consumed < 0 ==> consumed <= |old(partial)| && partial == old(partial)[consumed..]
    {
      hide Run, Finishes, Unread, StopAt, LineBytes;
      ghost var m, rest := Now([]), Unread(partial, buf, offset);
      LengthOf(partial, buf, offset);
      var len := |buf| - offset;
      if expecting < len {
        len := expecting;
      }
      StopsBehindBody(handlers, m, rest, len);
      consumed := ParsePayload(buf, offset, len);
      pushBack := |buf| - offset - consumed;
      if closed {
        assert rest[..len][..consumed] == rest[..consumed];
        ClosedBehind(handlers, m, rest[..len], consumed);
        ClosedBehind(handlers, m, rest, consumed);
      } else {
        StopAtEnd(handlers, Now([]));
      }
    }

    /** Saves the unread end of the input: it is not copied if as many bytes are stored as are left. */
    method SavePartial(buf: seq<byte>, offset: int, pushBack: nat)
      requires -|partial| <= offset && offset + pushBack == |buf| && 0 < pushBack
      modifies `partial
      ensures partial == if 0 <= offset || pushBack != |old(partial)| then old(Unread(partial, buf, offset))
                         else old(partial)
    {
      if 0 <= offset {
        partial := buf[offset..];
      } else if pushBack != |partial| {
        var rebuilt, i := [], offset;
        ghost var unread := Unread(partial, buf, offset);
        while |rebuilt| < pushBack
          invariant |rebuilt| <= pushBack && i == offset + |rebuilt| && partial == old(partial)
          invariant rebuilt == unread[..|rebuilt|]
          invariant unread[|rebuilt|..] == Unread(partial, buf, i)
        {
          var ch: byte := GetChar(buf, i);
          assert ch == unread[|rebuilt|..][0] == unread[|rebuilt|];
          UnreadNext(partial, buf, i);
          assert unread[|rebuilt|..][1..] == unread[|rebuilt| + 1..];
          rebuilt, i := rebuilt + [ch], i + 1;
        }
        partial := rebuilt;
      }
    }

    /** One turn of the loop over a read. Either it consumes some bytes and the loop goes on, or what is left
        is to be saved (an unfinished line, or anything behind a payload), or the connection is closed for good. */
    method Turn(buf: seq<byte>, offset: int)
      returns (ok: bool, consumed: nat, pushBack: nat, eob: bool)
      requires Consistent() && !closed && -|partial| <= offset < |buf|
      modifies this
      ensures Consistent() && (!ok ==> closed)
      ensures var m, rest := old(Now([])), old(Unread(partial, buf, offset));
              && consumed <= |rest|
              && if closed then Now([]) == Run(handlers, m, rest) && StopAt(handlers, m, rest) == |rest|
                 else
                   && Turned(m, old(headerLength), rest, buf, offset + consumed, consumed, pushBack)
                   && (eob ==> pushBack != 0)
                   && (offset + consumed < 0 ==> Shifted(old(partial), m, rest[..consumed]))
    {
      hide Run, Finishes, Unread, StopAt, LineBytes;
      ghost var m, rest := Now([]), Unread(partial, buf, offset);
      LengthOf(partial, buf, offset);
      ok, pushBack, eob := true, 0, false;
      if state == COMMAND || state == HEADERS {
        ok, consumed, pushBack, eob := LineTurn(buf, offset);
        if closed {
          ClosedBehind(handlers, m, rest, consumed);
          NoLines(handlers, Now([]), rest[consumed..]);
        }
      } else if state == PAYLOAD {
        consumed, pushBack := PayloadTurn(buf, offset);
      } else {
        ok := SocketTurn(buf, offset);
        consumed := |buf| - offset;
        assert rest[..consumed] == rest;
      }
    }

    /** In the WebSocket state all the input is consumed. */
    method SocketTurn(buf: seq<byte>, offset: int) returns (ok: bool)
      requires Consistent() && !closed && state == WEBSOCKET && -|partial| <= offset < |buf|
      modifies this
      ensures Consistent() && (!ok ==> closed) && (ok ==> !closed)
      ensures var m, rest := old(Now([])), old(Unread(partial, buf, offset));
              && Now([]) == Run(handlers, m, rest) && StopAt(handlers, m, rest) == |rest|
              && (ok ==> Turned(m, old(headerLength), rest, buf, |buf|, |buf| - offset, 0))
    {
      hide Run, Finishes, Unread, StopAt;
      ghost var m, rest := Now([]), Unread(partial, buf, offset);
      LengthOf(partial, buf, offset);
      RunSocket(handlers, m, rest);
      FinishesNothing(handlers, m, rest);
      NoLines(handlers, m, rest);
      ok := HandleWebSocket(buf, offset);
      if !ok {
        closed := true;
      } else {
        StopAtEnd(handlers, Now([]));
        UnreadInBuffer(partial, buf, |buf|);
        assert rest[..|rest|] == rest && rest[|rest|..] == [] && buf[|buf|..] == [];
      }
    }

    /** One turn with what follows it: the end of the input is saved, or the loop goes on at `next`. */
    method TurnAndSave(buf: seq<byte>, offset: int) returns (next: int, done: bool)
      requires Consistent() && !closed && -|partial| <= offset < |buf|
      modifies this
      ensures Consistent()
      ensures var m, rest := old(Now([])), old(Unread(partial, buf, offset));
              if closed then
                done && Now([]) == Run(handlers, m, rest) && StopAt(handlers, m, rest) == |rest|
              else if done && next < 0 then
                var n := StopAt(handlers, m, rest);
                var shift := n - LineBytes(handlers, m, rest[..n]);
                && LineMode() && n < |rest| && Advanced(m, old(headerLength), rest[..n])
                && (offset + n < 0 ==> shift <= |old(partial)|)
                && partial == if offset + n < 0 && |rest| - n == |old(partial)| - shift then old(partial)[shift..]
                              else rest[n..]
              else
                && offset < next && Turned(m, old(headerLength), rest, buf, next, next - offset, 0)
                && done == (next == |buf|) && (next < 0 ==> Shifted(old(partial), m, rest[..next - offset]))
    {
      hide Run, Finishes, Unread, StopAt, LineBytes;
      ghost var m, rest := Now([]), Unread(partial, buf, offset);
      LengthOf(partial, buf, offset);
      var ok, consumed, pushBack, eob;
      ok, consumed, pushBack, eob := Turn(buf, offset);
      next := offset;
      if !ok {
        return next, true;
      }
      next := offset + consumed;
      if pushBack != 0 {
        if closed {
          return next, true;
        }
        SavePartial(buf, next, pushBack);
        return 0 - pushBack as int, true;
      }
      eob := eob || |buf| <= next;
      done := eob || closed;
    }

    // ---- The loop over a read ----

    /** Where the loop is: `m` is the automaton in front of the saved bytes, `offset` the next byte. */
    ghost predicate InLoop(m: Machine<A>, length: nat, saved: seq<byte>, buf: seq<byte>, offset: int, done: bool)
      reads this
    {
      && Consistent()
      && (if closed then
            done && Now([]) == Run(handlers, m, saved + buf) && StopAt(handlers, m, saved + buf) == |saved + buf|
          else if done && offset < 0 then Stopped(m, length, saved, buf)
          else
            && -|partial| <= offset <= |buf| && -|saved| <= offset && done == (offset == |buf|)
            && GoingOn(m, length, saved, buf, offset))
    }

    /** The loop has stopped, and the rest is put off. */
    ghost predicate Stopped(m: Machine<A>, length: nat, saved: seq<byte>, buf: seq<byte>)
      reads this
    {
      && LineMode() && partial == PutOff(handlers, m, saved, buf)
      && Advanced(m, length, (saved + buf)[..StopAt(handlers, m, saved + buf)])
    }

    ghost predicate GoingOn(m: Machine<A>, length: nat, saved: seq<byte>, buf: seq<byte>, offset: int)
      reads this
      requires Consistent() && -|partial| <= offset <= |buf| && -|saved| <= offset
    {
      var input, pos := saved + buf, |saved| + offset;
      && Unread(partial, buf, offset) == input[pos..] && Advanced(m, length, input[..pos])
      && StopAt(handlers, m, input) == pos + StopAt(handlers, Now([]), input[pos..])
      && (offset < 0 ==> Shifted(saved, m, input[..pos]))
    }

    lemma StartLoop(buf: seq<byte>)
      requires Valid() && !closed && buf != []
      ensures InLoop(Now([]), headerLength, partial, buf, -|partial|, false)
    {
      hide Run, Finishes, StopAt, LineBytes;
      NothingRead(handlers, Now([]), partial + buf);
      NoLineBytes(handlers, Now([]));
    }

    method LoopTurn(buf: seq<byte>, offset: int, ghost m: Machine<A>, ghost length: nat, ghost saved: seq<byte>)
      returns (next: int, done: bool)
      requires buf != [] && InLoop(m, length, saved, buf, offset, false)
      modifies this
      ensures InLoop(m, length, saved, buf, next, done) && (done || offset < next)
    {
      hide Run, Finishes, Unread, StopAt, LineBytes, PutOff;
      ghost var m1, length1, before := Now([]), headerLength, partial;
      ghost var input, pos := saved + buf, |saved| + offset;
      LengthOf(partial, buf, offset);
      assert At(m, length, input, pos, m1, length1);
      hide At;
      next, done := TurnAndSave(buf, offset);
      if closed {
        ClosedFurther(m, length, input, pos, m1, length1);
      } else if done && next < 0 {
        StoppedFurther(m, length, saved, buf, pos, m1, length1, before);
      } else {
        GoesFurther(m, length, saved, buf, pos, m1, length1, before, next);
      }
    }

    /** The state in front of a turn, in terms of the whole input. */
    ghost predicate At(m: Machine<A>, length: nat, input: seq<byte>, pos: nat, m1: Machine<A>, length1: nat)
    {
      && pos <= |input| && m1 == Run(handlers, m, input[..pos])
      && length1 == (if Finishes(handlers, m, input[..pos]) then 0 else length)
      && StopAt(handlers, m, input) == pos + StopAt(handlers, m1, input[pos..])
    }

    lemma ClosedFurther(m: Machine<A>, length: nat, input: seq<byte>, pos: nat, m1: Machine<A>, length1: nat)
      requires At(m, length, input, pos, m1, length1)
      ensures Run(handlers, m, input) == Run(handlers, m1, input[pos..])
      ensures StopAt(handlers, m1, input[pos..]) == |input[pos..]| ==> StopAt(handlers, m, input) == |input|
    {
      hide Run, Finishes, StopAt, LineBytes;
      TurnFurther(handlers, m, input, pos, 0);
    }

    lemma StoppedFurther(m: Machine<A>, length: nat, saved: seq<byte>, buf: seq<byte>, pos: nat, m1: Machine<A>,
                         length1: nat, before: seq<byte>)
      requires At(m, length, saved + buf, pos, m1, length1) && !closed && LineMode()
      requires pos < |saved| ==> var lines := LineBytes(handlers, m, (saved + buf)[..pos]);
                                 pos - lines <= |saved| && before == saved[pos - lines..]
      requires var rest := (saved + buf)[pos..];
               var n := StopAt(handlers, m1, rest);
               var shift := n - LineBytes(handlers, m1, rest[..n]);
               && Advanced(m1, length1, rest[..n]) && (pos + n < |saved| ==> shift <= |before|)
               && partial == if pos + n < |saved| && |rest| - n == |before| - shift then before[shift..] else rest[n..]
      ensures Stopped(m, length, saved, buf)
    {
      hide Run, Finishes, StopAt, LineBytes, PutOff, Now, Consistent;
      var input := saved + buf;
      TurnFurther(handlers, m, input, pos, StopAt(handlers, m1, input[pos..]));
      PutOffIs(handlers, m, saved, buf, pos, before, partial);
    }

    lemma GoesFurther(m: Machine<A>, length: nat, saved: seq<byte>, buf: seq<byte>, pos: nat, m1: Machine<A>,
                      length1: nat, before: seq<byte>, next: int)
      requires At(m, length, saved + buf, pos, m1, length1) && !closed && pos <= |saved| + next
      requires pos < |saved| ==> var lines := LineBytes(handlers, m, (saved + buf)[..pos]);
                                 pos - lines <= |saved| && before == saved[pos - lines..]
      requires var rest, k := (saved + buf)[pos..], |saved| + next - pos;
               Turned(m1, length1, rest, buf, next, k, 0) && (next < 0 ==> Shifted(before, m1, rest[..k]))
      ensures Consistent() && -|partial| <= next <= |buf| && GoingOn(m, length, saved, buf, next)
    {
      hide Run, Finishes, StopAt, LineBytes, Unread, Now;
      TurnFurther(handlers, m, saved + buf, pos, |saved| + next - pos);
    }

    method ReadLoop(buf: seq<byte>) returns (offset: int)
      requires Valid() && !closed && buf != []
      modifies this
      ensures InLoop(old(Now([])), old(headerLength), old(partial), buf, offset, true)
    {
      ghost var m, length, saved := Now([]), headerLength, partial;
      StartLoop(buf);
      var done := false;
      offset := -|partial|;
      while !done
        invariant InLoop(m, length, saved, buf, offset, done)
        decreases !done, |buf| - offset
      {
        offset, done := LoopTurn(buf, offset, m, length, saved);
      }
    }

    /** One read that brought bytes, whatever has been put off before. The bytes count as received. */
    method HandleRead(buf: seq<byte>)
      requires Valid() && !closed && buf != [] && |buf| <= headerLength <= MAX_HEADER_LENGTH
      modifies this
      ensures Valid() && View() == ReadOnce(handlers, old(Reader(Now([]), partial, headerLength - |buf|)), buf)
    {
      hide Run, Finishes, StopAt, LineBytes, PutOff;
      ghost var m, length, saved := Now([]), headerLength, partial;
      var offset := ReadLoop(buf);
      ghost var input := saved + buf;
      assert input[..|input|] == input && input[|input|..] == [];
      if closed || 0 <= offset {
        StopAtEnd(handlers, Now([]));
        NothingPutOff(handlers, m, saved, buf);
        partial := [];
      }
      // Otherwise there is nothing to move: the saved bytes are exactly those that are put off.
    }

    // ---- The end of a connection ----

    /** The first line of what was saved. */
    method ScanLeftover() returns (line: Line)
      requires partial != []
      ensures line == MakeLine(FirstLine(partial), FirstLine(partial) != partial)
    {
      var text, colon, firstSpace, lastSpace, fullLine := ScanLine([], -|partial|);
      line := Line(text, colon, firstSpace, lastSpace, fullLine);
      assert Unread(partial, [], -|partial|) == partial;
      FirstLineIs(partial, text, fullLine);
    }

    /** At the end of the input, what was saved counts as a line, or its first line is parsed. */
    method LastLine()
      requires closed && LineMode() && partial != []
      modifies this
      ensures closed && partial == [] && frames == old(frames)
      ensures var text := FirstLine(old(partial));
              (app, state) == if text == [] then (old(app), old(state))
                              else Parsed(handlers.onLine(old(app), old(state) == HEADERS,
                                                          MakeLine(text, text != old(partial))), old(state) == HEADERS)
      ensures state == PAYLOAD ==> payload == []
    {
      var line := ScanLeftover();
      if line.text != [] {
        var ok := Apply(handlers.onLine(app, state == HEADERS, line));
      }
      partial := [];
    }

    /** httpFinishCommand with the callbacks that are called without a buffer: the collector hands what it has
        to the request handler (the buffer it starts with is empty, but not NULL). */
    method FinishCommand()
      requires closed && state != DISCARD_PAYLOAD
      modifies `app, `payload, `state, `expecting
      ensures app == Finished(handlers, old(app), old(state), old(payload)) && state == COMMAND
    {
      if state == PAYLOAD {
        app := handlers.onBody(app, payload).0;
        payload := [];
      } else if state == WEBSOCKET {
        app := handlers.onClose(app);
      }
      expecting := 0;
      state := COMMAND;
    }

    /** The stream has ended, or reading is given up: an unfinished line is parsed, a request that is not
        finished is wound up. */
    method HandleEof()
      requires closed && (!LineMode() ==> partial == [])
      requires state != DISCARD_PAYLOAD
      modifies this
      ensures Valid() && closed && state == COMMAND && frames == old(frames)
      ensures app == Eof(handlers, old(Unclosed())).app
    {
      hide FirstLine, MakeLine, DecoderOf, ValidType, WindUp;
      NoFirstLine();
      if partial != [] {
        LastLine();
      }
      FinishRequest();
    }

    /** A request whose headers are not complete is handled nevertheless. */
    method FinishRequest()
      requires closed && partial == [] && state != DISCARD_PAYLOAD
      modifies this
      ensures Valid() && closed && state == COMMAND && frames == old(frames)
      ensures app == WindUp(handlers, old(app), old(state), if old(state) == PAYLOAD then old(payload) else [])
    {
      hide DecoderOf, ValidType;
      if state == HEADERS {
        var _ := Apply(handlers.onCut(app));
      }
      FinishCommand();
    }

    /** A connection that has been closed is looked at again. */
    method HandleClosed()
      requires Valid() && closed
      modifies this
      ensures Valid() && closed && Abs() == Eof(handlers, old(Abs()))
    {
      partial := [];
      if state == DISCARD_PAYLOAD {
        expecting := 0;
        state := COMMAND;
      } else {
        HandleEof();
      }
    }

    /** The peer closes the connection, or a read fails. */
    method HandleEnd()
      requires Valid() && !closed
      modifies this
      ensures Valid() && closed && Abs() == Eof(handlers, old(Abs()))
    {
      closed := true;
      HandleEof();
    }

    /** destroyHttpConnection. */
    method Destroy()
      requires Valid()
      modifies this
      ensures Valid() && closed && Abs() == Destroyed(handlers, old(Abs()))
    {
      closed := true;
      partial := [];
      if state == DISCARD_PAYLOAD {
        state := COMMAND;
      } else {
        FinishCommand();
      }
    }

    /** One successful read. `headerLength` limits what a request may send before it is answered; it starts
        again when a request is finished. */
    method Receive(buf: seq<byte>)
      requires Valid() && !closed && buf != []
      modifies this
      ensures Valid() && View() == ReadOnce(handlers, old(View()), buf)
      ensures !TooLong(old(View()), buf) && !Confused(handlers, old(Now([])), old(partial), buf) ==>
                && Meaning(handlers, View()) == Run(handlers, Meaning(handlers, old(View())), buf)
                && (Abs() == Run(handlers, Meaning(handlers, old(View())), buf)
                    <==> NoLineBehind(handlers, old(Now([])), old(partial) + buf))
    {
      hide Run, NoLineBehind, ReadOnce, Confused;
      ghost var r := View();
      headerLength := headerLength + |buf|;
      if MAX_HEADER_LENGTH < headerLength {
        TooLongIs(handlers, r, buf);
        app, closed := handlers.headerTooBig(app), true;
        HandleEof();
      } else {
        HandleRead(buf);
        if !Confused(handlers, r.machine, r.saved, buf) {
          ReadExactly(handlers, r, buf);
        }
      }
    }

    /** Any number of reads. The server stops reading when the connection is closed. */
    method ReceiveAll(pieces: seq<seq<byte>>)
      requires Valid() && !closed && [] !in pieces
      modifies this
      ensures Valid() && View() == ReadAll(handlers, old(View()), pieces)
      ensures Smooth(handlers, old(View()), pieces) ==>
                Meaning(handlers, View()) == Run(handlers, Meaning(handlers, old(View())), Flatten(pieces))
      ensures LF !in old(partial) && Polite(handlers, old(Abs()), old(headerLength), pieces) ==>
                && Abs() == Answered(handlers, old(Abs()), old(headerLength), pieces)
                && (Smooth(handlers, old(View()), pieces)
                    <==> !Overflows(handlers, old(Abs()), old(headerLength), pieces))
    {
      hide Run, ReadOnce, Smooth, Polite, Answered, Overflows;
      ghost var r := View();
      var i: nat := 0;
      assert pieces[0..] == pieces;
      while i < |pieces| && !closed
        invariant i <= |pieces| && Valid()
        invariant ReadAll(handlers, r, pieces) == ReadAll(handlers, View(), pieces[i..])
      {
        Receive(pieces[i]);
        assert pieces[i..][1..] == pieces[i + 1..];
        i := i + 1;
      }
      ReadsMean(handlers, r, pieces);
    }
  }

  /** Two connections that receive the same bytes, cut into reads in two ways, will have done the same once they have
      processed what is put off, unless a read of one of them exceeds the limit or is confused. They are in the same
      state if no line is put off. Reads without a line behind a payload are never confused, and put none off; and
      64 KiB in all never exceed the limit. */
  method SameBytes<A>(handlers: Handlers<A>, app: A, cut1: seq<seq<byte>>, cut2: seq<seq<byte>>)
    returns (c1: HttpConnection<A>, c2: HttpConnection<A>)
    requires Flatten(cut1) == Flatten(cut2) && [] !in cut1 && [] !in cut2
    ensures c1.Valid() && c2.Valid()
    ensures var r := Reader(Lines(app, false, []), [], 0);
            Smooth(handlers, r, cut1) && Smooth(handlers, r, cut2) ==>
              && Meaning(handlers, c1.View()) == Meaning(handlers, c2.View())
              && (LF !in c1.partial && LF !in c2.partial ==> c1.Abs() == c2.Abs())
    ensures var m := Lines(app, false, []);
            Within(handlers, m, 0, cut1) && Within(handlers, m, 0, cut2) ==> c1.Abs() == c2.Abs()
    ensures c1.Abs() == c2.Abs() ==> c1.app == c2.app && c1.closed == c2.closed && c1.frames == c2.frames
    ensures var m := Lines(app, false, []);
            |Flatten(cut1)| <= MAX_HEADER_LENGTH ==>
              !Overflows(handlers, m, 0, cut1) && !Overflows(handlers, m, 0, cut2)
  {
    hide *;
    ghost var r: Reader<A> := Reader(Lines(app, false, []), [], 0);
    c1 := Served(handlers, app, cut1);
    c2 := Served(handlers, app, cut2);
    StartsWhole(handlers, app);
    SameReads(handlers, r, cut1, cut2);
    SameFields(c1, c2);
  }

  /** A new connection that receives these reads. */
  method Served<A>(handlers: Handlers<A>, app: A, pieces: seq<seq<byte>>) returns (c: HttpConnection<A>)
    requires [] !in pieces
    ensures fresh(c) && c.handlers == handlers && c.Valid()
    ensures c.View() == ReadAll(handlers, Reader(Lines(app, false, []), [], 0), pieces)
    ensures c.Consistent() && c.Abs() == AsMachine(c.View()) && c.partial == c.View().saved
  {
    c := new HttpConnection(handlers, app);
    c.ReceiveAll(pieces);
  }

  lemma StartsWhole<A>(h: Handlers<A>, app: A)
    ensures var r := Reader(Lines(app, false, []), [], 0);
            Proper(r) && AsMachine(r) == Lines(app, false, []) && LF !in r.saved
  {
  }

  lemma SameFields<A>(c1: HttpConnection<A>, c2: HttpConnection<A>)
    requires c1.Consistent() && c2.Consistent()
    ensures c1.Abs() == c2.Abs() ==> c1.app == c2.app && c1.closed == c2.closed && c1.frames == c2.frames
  {
  }

  /** How a connection leaves the automaton: a line behind a payload in the same read is put off with its newline,
      and is not parsed. */
  method LineBehindPayload<A>(handlers: Handlers<A>, app: A, first: seq<byte>, app1: A, body: byte, line: seq<byte>)
    returns (c: HttpConnection<A>)
    requires first != [] && LF !in first && |first| + |line| + 3 <= MAX_HEADER_LENGTH && LF !in line
    requires handlers.onLine(app, false, MakeLine(first, true)) == Post(app1, 1) && !handlers.onBody(app1, [body]).1
    ensures fresh(c) && c.Valid()
    ensures c.partial == line + [LF] && c.app == handlers.onBody(app1, [body]).0
    ensures var all := first + [LF] + ([body] + (line + [LF]));
            && c.Abs() != Run(handlers, Lines(app, false, []), all)
            && Meaning(handlers, c.View()) == Run(handlers, Lines(app, false, []), all)
  {
    hide Run;
    c := Posted(handlers, app, first, app1, body, line + [LF]);
    PutOffRight(handlers, c.View());
  }

  /** A connection that has got a request with a payload of one byte, and some text behind it. */
  method Posted<A>(handlers: Handlers<A>, app: A, first: seq<byte>, app1: A, body: byte, text: seq<byte>)
    returns (c: HttpConnection<A>)
    requires first != [] && LF !in first && text != [] && |first| + |text| + 2 <= MAX_HEADER_LENGTH
    requires handlers.onLine(app, false, MakeLine(first, true)) == Post(app1, 1) && !handlers.onBody(app1, [body]).1
    ensures fresh(c) && c.Valid() && !c.closed && c.handlers == handlers
    ensures c.View() == Reader(Lines(handlers.onBody(app1, [body]).0, false, []), text, 0)
    ensures Meaning(handlers, c.View()) == Run(handlers, Lines(app, false, []), first + [LF] + ([body] + text))
  {
    hide Run, MakeLine, ReadOnce, Confused;
    c := new HttpConnection(handlers, app);
    AnnouncedPost(handlers, app, first, app1);
    c.Receive(first + [LF]);
    BehindPost(handlers, app1, body, text, |first| + 1);
    c.Receive([body] + text);
    PostedMeans(handlers, app, first, app1, body, text);
  }

  lemma PostedMeans<A>(h: Handlers<A>, app: A, first: seq<byte>, app1: A, body: byte, text: seq<byte>)
    requires first != [] && LF !in first
    requires h.onLine(app, false, MakeLine(first, true)) == Post(app1, 1) && !h.onBody(app1, [body]).1
    ensures Run(h, Lines(app, false, []), first + [LF] + ([body] + text))
         == Run(h, Lines(h.onBody(app1, [body]).0, false, []), text)
  {
    hide MakeLine;
    assert [] + first == first && [] + [body] == [body] && ([body] + text)[1..] == text;
    RunLine(h, Lines(app, false, []), first);
    RunConcat(h, Lines(app, false, []), first + [LF], [body] + text);
  }

  /** How a line comes to be parsed again: it is put off, and the read that makes the connection parse it is as long
      as the line. What has been put off then stays as it is, and the read itself is forgotten. */
  method ParsedAgain<A>(handlers: Handlers<A>, app: A, first: seq<byte>, app1: A, body: byte, line: seq<byte>, app2: A,
                        tail: byte, buf: seq<byte>)
    returns (c: HttpConnection<A>)
    requires first != [] && LF !in first && |first| + |line| + 4 <= MAX_HEADER_LENGTH
    requires handlers.onLine(app, false, MakeLine(first, true)) == Post(app1, 1) && !handlers.onBody(app1, [body]).1
    requires line != [] && LF !in line && tail != LF && LF !in buf && |buf| == |line| + 1
    requires handlers.onLine(handlers.onBody(app1, [body]).0, false, MakeLine(line, true)) == Continue(app2, false)
    ensures fresh(c) && c.Valid() && c.app == app2 && c.partial == line + [LF] + [tail]
    ensures Meaning(handlers, c.View())
         != Run(handlers, Lines(app, false, []), first + [LF] + ([body] + (line + [LF] + [tail])) + buf)
  {
    hide Run, MakeLine, ReadOnce, Confused;
    ghost var before := first + [LF] + ([body] + (line + [LF] + [tail]));
    c := Posted(handlers, app, first, app1, body, line + [LF] + [tail]);
    ConfusedRead(handlers, c.app, line, app2, false, tail, buf);
    RunConcat(handlers, Lines(app, false, []), before, buf);
    c.Receive(buf);
  }

  lemma UnreadNext(partial: seq<byte>, buf: seq<byte>, offset: int)
    requires -|partial| <= offset <= |buf|
    ensures Unread(partial, buf, offset) == [] <==> offset == |buf|
    ensures offset < |buf| ==> Unread(partial, buf, offset)[1..] == Unread(partial, buf, offset + 1)
  {
    if offset < -1 {
      assert partial[|partial| + offset..][1..] == partial[|partial| + offset + 1..];
    }
  }

  lemma LengthOf(partial: seq<byte>, buf: seq<byte>, offset: int)
    requires -|partial| <= offset <= |buf|
    ensures |Unread(partial, buf, offset)| == |buf| - offset
  {
  }

  lemma UnreadInBuffer(partial: seq<byte>, buf: seq<byte>, offset: nat)
    requires offset <= |buf|
    ensures Unread(partial, buf, offset) == buf[offset..]
  {
  }

  lemma UnreadLater(partial: seq<byte>, buf: seq<byte>, offset: int, k: nat)
    requires -|partial| <= offset && offset + k <= |buf|
    ensures Unread(partial, buf, offset + k) == Unread(partial, buf, offset)[k..]
  {
  }

  lemma NoFirstLine()
    ensures FirstLine([]) == []
  {
  }

  lemma FirstLineIs(partial: seq<byte>, text: seq<byte>, fullLine: bool)
    requires LF !in text && if fullLine then text + [LF] <= partial else text == partial
    ensures FirstLine(partial) == text && fullLine == (text != partial)
  {
    if fullLine {
      assert partial[..|text|] == text && partial[|text|] == LF;
      assert forall k :: 0 <= k < |text| ==> partial[k] == text[k] && text[k] in text;
    }
  }

  /** Nothing is left if the loop gets to the end. */
  lemma NothingPutOff<A>(h: Handlers<A>, m: Machine<A>, saved: seq<byte>, buf: seq<byte>)
    requires StopAt(h, m, saved + buf) == |saved + buf|
    ensures PutOff(h, m, saved, buf) == []
  {
  }

  /** What is put off, if the loop stops in a turn that starts at `pos`. */
  lemma PutOffIs<A>(h: Handlers<A>, m: Machine<A>, saved: seq<byte>, buf: seq<byte>, pos: nat, before: seq<byte>,
                    after: seq<byte>)
    requires pos <= |saved + buf|
    requires var input := saved + buf;
             var m1, rest := Run(h, m, input[..pos]), input[pos..];
             var n, lines := StopAt(h, m1, rest), LineBytes(h, m, input[..pos]);
             && StopAt(h, m, input) == pos + n && rest[n..] == input[pos + n..]
             && LineBytes(h, m, input[..pos + n]) == lines + LineBytes(h, m1, rest[..n])
             && (pos < |saved| ==> pos - lines <= |saved| && before == saved[pos - lines..])
             && var shift := n - LineBytes(h, m1, rest[..n]);
             && (pos + n < |saved| ==> shift <= |before|)
             && after == if pos + n < |saved| && |rest| - n == |before| - shift then before[shift..] else rest[n..]
    ensures after == PutOff(h, m, saved, buf)
  {
    hide Run, StopAt, LineBytes;
  }

  /** A complete line. */
  lemma LineConsumed<A>(h: Handlers<A>, m: Machine<A>, text: seq<byte>, unread: seq<byte>)
    requires m.Lines? && m.line == [] && LF !in text && text + [LF] <= unread
    ensures var n := |text| + 1;
            && Run(h, m, unread[..n]) == AfterLine(h, m.app, m.headers, text)
            && (Finishes(h, m, unread[..n])
                <==> m.headers && Run(h, m, unread[..n]).Lines? && !Run(h, m, unread[..n]).headers)
  {
    hide Run, Finishes, MakeLine;
    var n := |text| + 1;
    assert unread[..n] == text + [LF];
    assert [] + text == text;
    RunLine(h, m, text);
    FinishesLine(h, m, text);
  }

  lemma NoLineBytes<A>(h: Handlers<A>, m: Machine<A>)
    ensures LineBytes(h, m, []) == 0
  {
  }

  lemma StopAtEnd<A>(h: Handlers<A>, m: Machine<A>)
    ensures StopAt(h, m, []) == 0
  {
  }

  /** What follows when a connection is closed means nothing. */
  lemma ClosedBehind<A>(h: Handlers<A>, m: Machine<A>, unread: seq<byte>, n: nat)
    requires n <= |unread| && Run(h, m, unread[..n]).Closed?
    ensures Run(h, m, unread) == Run(h, m, unread[..n])
  {
    SplitAt(unread, n);
    RunConcat(h, m, unread[..n], unread[n..]);
    RunClosed(h, Run(h, m, unread[..n]), unread[n..]);
  }

  lemma NothingDecoded(s: WS.Stream, rest: seq<byte>)
    ensures rest[..0] == [] && WS.Run(s, []) == s && rest[0..] == rest
  {
  }

  lemma DecodingFails(s: WS.Stream, rest: seq<byte>, k: nat)
    requires k <= |rest| && WS.Run(s, rest[..k]).dec.Failed?
    ensures WS.Run(s, rest) == WS.Run(s, rest[..k])
  {
    SplitAt(rest, k);
    WS.RunConcat(s, rest[..k], rest[k..]);
    WS.RunFailed(WS.Run(s, rest[..k]), rest[k..]);
  }

  lemma RunPiece(s: WS.Stream, rest: seq<byte>, i: nat, j: nat)
    requires i <= j <= |rest|
    ensures WS.Run(s, rest[..j]) == WS.Run(WS.Run(s, rest[..i]), rest[i..][..j - i])
    ensures rest[i..][j - i..] == rest[j..]
  {
    assert rest[..j] == rest[..i] + rest[i..][..j - i];
    WS.RunConcat(s, rest[..i], rest[i..][..j - i]);
  }

  lemma StepIsRun(s: WS.Stream, rest: seq<byte>)
    requires rest != []
    ensures WS.Run(s, rest[..1]) == WS.Step(s, rest[0])
  {
    assert rest[..1] == [rest[0]];
    assert [rest[0]][1..] == [];
    assert WS.Run(s, [rest[0]]) == WS.Run(WS.Step(s, rest[0]), []);
  }

  ghost predicate IsFirst(text: seq<byte>, p: byte -> bool, i: int)
  {
    -1 <= i < |text| && (0 <= i ==> p(text[i])) &&
    forall k :: 0 <= k < (if i < 0 then |text| else i) ==> !p(text[k])
  }

  ghost predicate Positions(text: seq<byte>, colon: int, firstSpace: int, lastSpace: int)
  {
    && IsFirst(text, IsColon, colon)
    && IsFirst(text, IsBlank, firstSpace)
    && (lastSpace < 0 ==> lastSpace == -1 && forall k :: 0 <= k < |text| && IsBlank(text[k]) ==> k == firstSpace)
    && (0 <= lastSpace ==>
          && 0 <= firstSpace < lastSpace < |text|
          && IsBlank(text[lastSpace])
          && forall k :: lastSpace < k < |text| ==> !IsBlank(text[k]))
  }

  /** The scan has found `text` in front of `rest`, and no newline. */
  ghost predicate Scanned(unread: seq<byte>, text: seq<byte>, rest: seq<byte>)
  {
    unread == text + rest && LF !in text
  }

  lemma NothingScanned(unread: seq<byte>)
    ensures Scanned(unread, [], unread) && Positions([], -1, -1, -1)
  {
    assert [] + unread == unread;
  }

  lemma ScannedNext(unread: seq<byte>, text: seq<byte>, rest: seq<byte>)
    requires Scanned(unread, text, rest) && rest != []
    ensures text + [rest[0]] <= unread
    ensures rest[0] != LF ==> Scanned(unread, text + [rest[0]], rest[1..])
  {
    assert text + rest == text + [rest[0]] + rest[1..];
  }

  lemma ScannedAll(unread: seq<byte>, text: seq<byte>, rest: seq<byte>)
    requires Scanned(unread, text, rest)
    ensures LF !in text && (rest == [] ==> text == unread)
  {
    assert rest == [] ==> text + rest == text;
  }

  lemma PositionsExtend(text: seq<byte>, b: byte, colon: int, firstSpace: int, lastSpace: int)
    requires Positions(text, colon, firstSpace, lastSpace)
    ensures Positions(text + [b],
                      if IsColon(b) && colon < 0 then |text| else colon,
                      if IsBlank(b) && firstSpace < 0 then |text| else firstSpace,
                      if IsBlank(b) && 0 <= firstSpace then |text| else lastSpace)
  {
    assert forall k :: 0 <= k < |text| ==> (text + [b])[k] == text[k];
  }

  lemma PositionsUnique(text: seq<byte>, colon: int, firstSpace: int, lastSpace: int, terminated: bool)
    requires Positions(text, colon, firstSpace, lastSpace)
    ensures Line(text, colon, firstSpace, lastSpace, terminated) == MakeLine(text, terminated)
  {
    var c, f, l := FirstOf(text, IsColon), FirstOf(text, IsBlank), LastOf(text, IsBlank);
    assert c == colon;
    assert f == firstSpace;
    if lastSpace < 0 {
      assert l == f;
    } else {
      assert l == lastSpace;
    }
  }
}
