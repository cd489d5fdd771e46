/** What the automaton of `Machine` guarantees about lines and about the payload of POST requests. */
module Requests {
  import opened Bytes
  import opened Machine

  /** Lines ended by a newline, and the rest. */
  datatype Split = Split(lines: seq<seq<byte>>, rest: seq<byte>)

  function SplitLines(bytes: seq<byte>): Split
  {
    if bytes == [] then Split([], [])
    else
      var s := SplitLines(bytes[..|bytes| - 1]);
      var b := bytes[|bytes| - 1];
      if b == LF then Split(s.lines + [s.rest], []) else Split(s.lines, s.rest + [b])
  }

  function Join(lines: seq<seq<byte>>): seq<byte>
  {
    if lines == [] then [] else lines[0] + [LF] + Join(lines[1..])
  }

  lemma {:induction false} JoinAppend(lines: seq<seq<byte>>, line: seq<byte>)
    ensures Join(lines + [line]) == Join(lines) + line + [LF]
  {
    if lines == [] {
      assert [] + [line] == [line] && [line][1..] == [];
      assert Join([line]) == line + [LF] + Join([]);
      assert [] + line + [LF] == line + [LF];
    } else {
      assert (lines + [line])[1..] == lines[1..] + [line];
      JoinAppend(lines[1..], line);
      assert lines[0] + [LF] + (Join(lines[1..]) + line + [LF]) == Join(lines) + line + [LF];
    }
  }

  /** Nothing is lost or invented by splitting, and no newline is left inside a line. */
  lemma {:induction false} SplitLossless(bytes: seq<byte>)
    ensures var s := SplitLines(bytes);
            && Join(s.lines) + s.rest == bytes
            && LF !in s.rest && forall i :: 0 <= i < |s.lines| ==> LF !in s.lines[i]
  {
    if bytes != [] {
      var init, b := bytes[..|bytes| - 1], bytes[|bytes| - 1];
      SplitLossless(init);
      var s := SplitLines(init);
      assert bytes == init + [b];
      if b == LF {
        JoinAppend(s.lines, s.rest);
        assert Join(s.lines) + s.rest + [LF] == Join(SplitLines(bytes).lines) + [];
      } else {
        assert Join(s.lines) + (s.rest + [b]) == Join(s.lines) + s.rest + [b];
      }
    }
  }

  /** An application that records every line it is given and never leaves line mode. */
  const RECORDER: Handlers<seq<Line>> := Handlers(
    (log, headers, line) => Continue(log + [line], headers),
    (log, body) => (log, false),
    log => Close(log),
    log => log,
    log => log,
    log => log)

  /** The lines the parsers see: all but the empty ones. */
  function Seen(lines: seq<seq<byte>>): seq<Line>
  {
    if lines == [] then []
    else
      var last := lines[|lines| - 1];
      Seen(lines[..|lines| - 1]) + (if last == [] then [] else [MakeLine(last, true)])
  }

  /** Every non-empty line of the input reaches the parser once, in order, with the right positions, and
      the unfinished line is exactly what was not consumed. */
  lemma {:induction false} LinesReachParser(headers: bool, bytes: seq<byte>)
    ensures var s := SplitLines(bytes);
            Run(RECORDER, Lines([], headers, []), bytes) == Lines(Seen(s.lines), headers, s.rest)
  {
    if bytes != [] {
      var init, b := bytes[..|bytes| - 1], bytes[|bytes| - 1];
      LinesReachParser(headers, init);
      var s := SplitLines(init);
      assert bytes == init + [b];
      var m := Lines(Seen(s.lines), headers, s.rest);
      RunSnoc(RECORDER, Lines([], headers, []), init, b);
      hide Run, MakeLine;
      if b == LF {
        assert (s.lines + [s.rest])[..|s.lines|] == s.lines;
        assert Seen(s.lines) + [] == Seen(s.lines);
      }
    }
  }

  lemma RunSnoc<A>(h: Handlers<A>, m: Machine<A>, bytes: seq<byte>, b: byte)
    ensures Run(h, m, bytes + [b]) == Step(h, Run(h, m, bytes), b)
  {
    RunConcat(h, m, bytes, [b]);
    assert [b][1..] == [];
    assert Run(h, Run(h, m, bytes), [b]) == Run(h, Step(h, Run(h, m, bytes), b), []);
  }

  /** Before the last byte of a payload, the request handler has not been called; with the last byte it
      is called, once, with the whole payload and nothing else. If the stream ends before that, or the connection
      is destroyed, then the handler is called with what has arrived. */
  lemma PayloadDeliveredOnce<A>(h: Handlers<A>, app: A, n: pos, body: seq<byte>, k: nat)
    requires |body| == n <= MAX_PAYLOAD_LENGTH && k < n
    ensures Run(h, Body(app, n, []), body[..k]) == Body(app, n, body[..k])
    ensures var short := Closed(h.onBody(app, body[..k]).0, [], COMMAND);
            && Eof(h, Run(h, Body(app, n, []), body[..k])) == short
            && Destroyed(h, Run(h, Body(app, n, []), body[..k])) == short
    ensures Run(h, Body(app, n, []), body)
         == var (app', close) := h.onBody(app, body);
            if close then Closed(app', [], COMMAND) else Lines(app', false, [])
  {
    assert [] + body == body && [] + body[..k] == body[..k];
    if 0 < k {
      RunBody(h, Body(app, n, []), body[..k]);
    }
    RunBody(h, Body(app, n, []), body);
  }

  /** A whole POST request: the line that ends the headers, then the payload. However it is cut, the
      handler is called with exactly the payload, and the connection waits for the next command. */
  lemma PostRequest<A>(h: Handlers<A>, app: A, blank: seq<byte>, app1: A, n: pos, body: seq<byte>)
    requires LF !in blank && blank != []
    requires h.onLine(app, true, MakeLine(blank, true)) == Post(app1, n)
    requires |body| == n <= MAX_PAYLOAD_LENGTH && !h.onBody(app1, body).1
    ensures Run(h, Lines(app, true, []), blank + [LF] + body) == Lines(h.onBody(app1, body).0, false, [])
  {
    var m := Lines(app, true, []);
    RunConcat(h, m, blank + [LF], body);
    RunLine(h, m, blank);
    assert [] + blank == blank;
    PayloadDeliveredOnce(h, app1, n, body, 0);
  }

  /** A POST request that is cut short: the handler gets what has arrived of the payload, as if it were all. */
  lemma TruncatedPost<A>(h: Handlers<A>, app: A, blank: seq<byte>, app1: A, n: pos, body: seq<byte>)
    requires LF !in blank && blank != []
    requires h.onLine(app, true, MakeLine(blank, true)) == Post(app1, n)
    requires |body| < n && |body| <= MAX_PAYLOAD_LENGTH
    ensures var m := Run(h, Lines(app, true, []), blank + [LF] + body);
            var end := Closed(h.onBody(app1, body).0, [], COMMAND);
            m == Body(app1, n, body) && Eof(h, m) == end && Destroyed(h, m) == end
  {
    hide Run, MakeLine;
    CollectedPost(h, Lines(app, true, []), blank, Body(app1, n, []), body);
    EndOfBody(h, Body(app1, n, body));
  }

  // ---- Payload that is too long: 400 or 413 ----

  function BodyLength<A>(m: Machine<A>): nat
  {
    if m.Body? then |m.body| else 0
  }

  /** The collector refuses one of these bytes: it would take the payload beyond what the server keeps. */
  predicate Refused<A>(h: Handlers<A>, m: Machine<A>, bytes: seq<byte>)
    decreases |bytes|
  {
    bytes != [] && ((m.Body? && MAX_PAYLOAD_LENGTH <= |m.body|) || Refused(h, Step(h, m, bytes[0]), bytes[1..]))
  }

  /** Within a payload that starts at 0, it is the byte behind the limit that is refused. The handler never
      sees such a payload. */
  lemma LongPayloadRefused<A>(h: Handlers<A>, app: A, n: pos, body: seq<byte>)
    requires |body| == n
    ensures Refused(h, Body(app, n, []), body) <==> MAX_PAYLOAD_LENGTH < n
    ensures MAX_PAYLOAD_LENGTH < n ==> Run(h, Body(app, n, []), body) == Closed(h.badRequest(app), [], COMMAND)
  {
    assert [] + body == body;
    RunBody(h, Body(app, n, []), body);
    RefusedBody(h, Body(app, n, []), body);
  }

  lemma {:induction false} RefusedConcat<A>(h: Handlers<A>, m: Machine<A>, a: seq<byte>, b: seq<byte>)
    ensures Refused(h, m, a + b) <==> Refused(h, m, a) || Refused(h, Run(h, m, a), b)
    decreases |a|
  {
    if a == [] {
      assert a + b == b;
    } else {
      assert (a + b)[1..] == a[1..] + b;
      RefusedConcat(h, Step(h, m, a[0]), a[1..], b);
    }
  }

  lemma {:induction false} RefusedBody<A>(h: Handlers<A>, m: Machine<A>, bytes: seq<byte>)
    requires m.Body? && |m.body| <= MAX_PAYLOAD_LENGTH && 0 < |bytes| <= m.total - |m.body|
    ensures Refused(h, m, bytes) <==> MAX_PAYLOAD_LENGTH < |m.body| + |bytes|
    decreases |bytes|
  {
    if |m.body| < MAX_PAYLOAD_LENGTH && 1 < |bytes| {
      RefusedBody(h, Step(h, m, bytes[0]), bytes[1..]);
    }
  }

  /** The payload grows with the bytes that are read, and nothing is refused below the limit. */
  lemma {:induction false} BodyGrows<A>(h: Handlers<A>, m: Machine<A>, bytes: seq<byte>)
    ensures BodyLength(Run(h, m, bytes)) <= BodyLength(m) + |bytes|
    ensures BodyLength(m) + |bytes| <= MAX_PAYLOAD_LENGTH ==> !Refused(h, m, bytes)
    decreases |bytes|
  {
    if bytes != [] {
      BodyGrows(h, Step(h, m, bytes[0]), bytes[1..]);
    }
  }

  /** Exactly when a read is answered with 400: the read itself is within the limit for reads, it goes beyond
      the limit for payload, and so does the length that was announced. */
  lemma RefusedRead<A>(h: Handlers<A>, m: Machine<A>, read: seq<byte>)
    requires m.Body? ==> |m.body| < m.total && |m.body| <= MAX_PAYLOAD_LENGTH
    requires |read| <= MAX_HEADER_LENGTH
    ensures Refused(h, m, read)
       <==> m.Body? && MAX_PAYLOAD_LENGTH < m.total && MAX_PAYLOAD_LENGTH < |m.body| + |read|
  {
    if !m.Body? || read == [] {
      BodyGrows(h, m, read);
    } else if |read| <= m.total - |m.body| {
      RefusedBody(h, m, read);
    } else {
      var k := m.total - |m.body|;
      assert read == read[..k] + read[k..];
      RefusedConcat(h, m, read[..k], read[k..]);
      RefusedBody(h, m, read[..k]);
      RunBody(h, m, read[..k]);
      BodyGrows(h, Run(h, m, read[..k]), read[k..]);
    }
  }

  /** Whether one of the reads is answered with 400. */
  predicate BadRequest<A>(h: Handlers<A>, m: Machine<A>, len: nat, pieces: seq<seq<byte>>)
    decreases |pieces|
  {
    pieces != [] && !m.Closed? && len + |pieces[0]| <= MAX_HEADER_LENGTH &&
    (Refused(h, m, pieces[0])
     || BadRequest(h, Run(h, m, pieces[0]), Counted(h, m, len, pieces[0]), pieces[1..]))
  }

  /** Whether one of the reads ends a request and begins the payload of another, which is not counted then. */
  predicate PayloadUncounted<A>(h: Handlers<A>, m: Machine<A>, len: nat, pieces: seq<seq<byte>>)
    decreases |pieces|
  {
    pieces != [] && !m.Closed? && len + |pieces[0]| <= MAX_HEADER_LENGTH &&
    ((Finishes(h, m, pieces[0]) && 0 < BodyLength(Run(h, m, pieces[0])))
     || PayloadUncounted(h, Run(h, m, pieces[0]), Counted(h, m, len, pieces[0]), pieces[1..]))
  }

  /** As the limit for reads counts payload as well, and comes first, 400 is given only behind such a read. */
  lemma {:induction false} NeverBadRequest<A>(h: Handlers<A>, m: Machine<A>, len: nat, pieces: seq<seq<byte>>)
    requires BodyLength(m) <= len && !PayloadUncounted(h, m, len, pieces)
    ensures !BadRequest(h, m, len, pieces)
    decreases |pieces|
  {
    if pieces != [] && !m.Closed? && len + |pieces[0]| <= MAX_HEADER_LENGTH {
      BodyGrows(h, m, pieces[0]);
      NeverBadRequest(h, Run(h, m, pieces[0]), Counted(h, m, len, pieces[0]), pieces[1..]);
    }
  }

  /** Bytes that the collector would refuse exceed the limit for reads before it sees them: the answer is 413. */
  lemma {:induction false} TooBigFirst<A>(h: Handlers<A>, m: Machine<A>, len: nat, pieces: seq<seq<byte>>)
    requires BodyLength(m) <= len && !PayloadUncounted(h, m, len, pieces)
    requires Refused(h, m, Flatten(pieces))
    ensures Overflows(h, m, len, pieces)
    decreases |pieces|
  {
    if m.Closed? {
      RefusedClosed(h, m, Flatten(pieces));
    } else if len + |pieces[0]| <= MAX_HEADER_LENGTH {
      BodyGrows(h, m, pieces[0]);
      RefusedConcat(h, m, pieces[0], Flatten(pieces[1..]));
      TooBigFirst(h, Run(h, m, pieces[0]), Counted(h, m, len, pieces[0]), pieces[1..]);
    }
  }

  /** As long as nothing is finished, the limit is one for all the bytes that are looked at. */
  lemma {:induction false} LookedIsShort<A>(h: Handlers<A>, m: Machine<A>, len: nat, pieces: seq<seq<byte>>)
    requires !Finishes(h, m, Flatten(pieces)) && len <= MAX_HEADER_LENGTH
    ensures len + |Looked(h, m, len, pieces)| <= MAX_HEADER_LENGTH
    decreases |pieces|
  {
    if pieces != [] && !m.Closed? && len + |pieces[0]| <= MAX_HEADER_LENGTH {
      FinishesConcat(h, m, pieces[0], Flatten(pieces[1..]));
      LookedIsShort(h, Run(h, m, pieces[0]), Counted(h, m, len, pieces[0]), pieces[1..]);
    }
  }

  lemma {:induction false} RefusedClosed<A>(h: Handlers<A>, m: Machine<A>, bytes: seq<byte>)
    requires m.Closed?
    ensures !Refused(h, m, bytes)
    decreases |bytes|
  {
    if bytes != [] {
      RefusedClosed(h, m, bytes[1..]);
    }
  }

  lemma {:induction false} NothingFinished<A>(h: Handlers<A>, m: Machine<A>, len: nat, pieces: seq<seq<byte>>)
    requires !Finishes(h, m, Flatten(pieces))
    ensures !PayloadUncounted(h, m, len, pieces)
    decreases |pieces|
  {
    if pieces != [] {
      FinishesConcat(h, m, pieces[0], Flatten(pieces[1..]));
      NothingFinished(h, Run(h, m, pieces[0]), Counted(h, m, len, pieces[0]), pieces[1..]);
    }
  }

  /** A POST request with a payload that is too long is answered with 413, however it is cut into reads. */
  lemma LongPostTooBig<A>(h: Handlers<A>, app: A, blank: seq<byte>, app1: A, n: pos, body: seq<byte>,
                          len: nat, pieces: seq<seq<byte>>)
    requires LF !in blank && blank != []
    requires h.onLine(app, true, MakeLine(blank, true)) == Post(app1, n)
    requires |body| == n && MAX_PAYLOAD_LENGTH < n
    requires Flatten(pieces) == blank + [LF] + body
    ensures Overflows(h, Lines(app, true, []), len, pieces) && !BadRequest(h, Lines(app, true, []), len, pieces)
    ensures !Finishes(h, Lines(app, true, []), Flatten(pieces))
  {
    hide Run, Finishes, Refused, Overflows, BadRequest, Flatten;
    var m, m1 := Lines(app, true, []), Body(app1, n, []);
    assert [] + blank == blank;
    RunLine(h, m, blank);
    FinishesConcat(h, m, blank + [LF], body);
    FinishesLine(h, m, blank);
    FinishesBody(h, m1, body);
    LongPayloadRefused(h, app1, n, body);
    RefusedConcat(h, m, blank + [LF], body);
    NothingFinished(h, m, len, pieces);
    TooBigFirst(h, m, len, pieces);
    NeverBadRequest(h, m, len, pieces);
  }

  /** And its handler is called with the bytes of the payload that arrived before. */
  lemma LongPostPrefix<A>(h: Handlers<A>, app: A, blank: seq<byte>, app1: A, n: pos, body: seq<byte>,
                          len: nat, pieces: seq<seq<byte>>)
    requires LF !in blank && blank != []
    requires h.onLine(app, true, MakeLine(blank, true)) == Post(app1, n)
    requires |body| == n && MAX_PAYLOAD_LENGTH < n
    requires Flatten(pieces) == blank + [LF] + body
    requires |blank| < |Looked(h, Lines(app, true, []), len, pieces)|
    ensures var k := |Looked(h, Lines(app, true, []), len, pieces)| - |blank| - 1;
            && k <= MAX_PAYLOAD_LENGTH
            && Answered(h, Lines(app, true, []), len, pieces)
               == Closed(h.onBody(h.headerTooBig(app1), body[..k]).0, [], COMMAND)
  {
    hide Run, Finishes, Overflows, Answered, Flatten, MakeLine;
    var m := Lines(app, true, []);
    var looked := Looked(h, m, len, pieces);
    LongPostTooBig(h, app, blank, app1, n, body, len, pieces);
    LookedAt(h, m, len, pieces);
    LookedFits(h, m, len, pieces);
    LookedIsShort(h, m, len, pieces);
    hide Looked;
    PartOfPost(blank + [LF], body, looked);
    CollectedPost(h, m, blank, Body(app1, n, []), body[..|looked| - |blank| - 1]);
    EndOfBody(h, Body(app1, n, body[..|looked| - |blank| - 1]));
    hide Eof;
  }

  lemma LookedFits<A>(h: Handlers<A>, m: Machine<A>, len: nat, pieces: seq<seq<byte>>)
    ensures Looked(h, m, len, pieces) != [] ==> len <= MAX_HEADER_LENGTH
  {
  }

  lemma PartOfPost(header: seq<byte>, body: seq<byte>, part: seq<byte>)
    requires part <= header + body && |header| <= |part|
    ensures part == header + body[..|part| - |header|]
  {
  }

  lemma CollectedPost<A>(h: Handlers<A>, m: Machine<A>, blank: seq<byte>, m1: Machine<A>, part: seq<byte>)
    requires m.Lines? && m.line == [] && LF !in blank && m1.Body? && m1.body == []
    requires AfterLine(h, m.app, m.headers, blank) == m1 && |part| < m1.total && |part| <= MAX_PAYLOAD_LENGTH
    ensures Run(h, m, blank + [LF] + part) == m1.(body := part)
  {
    hide Run;
    assert [] + blank == blank && [] + part == part;
    RunLine(h, m, blank);
    RunConcat(h, m, blank + [LF], part);
    if part == [] {
      NothingRun(h, m1);
    } else {
      RunBody(h, m1, part);
    }
  }

  lemma EndOfBody<A>(h: Handlers<A>, m: Machine<A>)
    requires m.Body?
    ensures Eof(h, m) == Destroyed(h, m) == Closed(h.onBody(m.app, m.body).0, [], COMMAND)
    ensures Eof(h, TooBig(h, m)) == Closed(h.onBody(h.headerTooBig(m.app), m.body).0, [], COMMAND)
  {
  }

  lemma NothingRun<A>(h: Handlers<A>, m: Machine<A>)
    ensures Run(h, m, []) == m
  {
  }

  /** Payload that is ahead of the count reaches its limit first. */
  lemma {:induction false} AheadOfCount<A>(h: Handlers<A>, m: Machine<A>, len: nat, pieces: seq<seq<byte>>)
    requires m.Body? && |m.body| <= MAX_PAYLOAD_LENGTH < m.total
    requires [] !in pieces && len + |Flatten(pieces)| <= MAX_HEADER_LENGTH
    requires MAX_PAYLOAD_LENGTH < |m.body| + |Flatten(pieces)|
    ensures BadRequest(h, m, len, pieces)
    decreases |pieces|
  {
    assert pieces[0] != [] && forall p :: p in pieces[1..] ==> p in pieces;
    RefusedRead(h, m, pieces[0]);
    if |m.body| + |pieces[0]| <= MAX_PAYLOAD_LENGTH {
      RunBody(h, m, pieces[0]);
      FinishesBody(h, m, pieces[0]);
      AheadOfCount(h, Run(h, m, pieces[0]), Counted(h, m, len, pieces[0]), pieces[1..]);
    }
  }

  /** How 400 comes about: a read ends a request, and has the first byte of a payload behind it. */
  lemma BadRequestBehindGet<A>(h: Handlers<A>, app: A, blank: seq<byte>, app1: A, post: seq<byte>, app2: A, n: pos,
                               first: byte, rest: seq<seq<byte>>)
    requires LF !in blank && blank != [] && LF !in post && post != []
    requires h.onLine(app, true, MakeLine(blank, true)) == Continue(app1, false)
    requires h.onLine(app1, false, MakeLine(post, true)) == Post(app2, n)
    requires |blank| + |post| + 3 <= MAX_HEADER_LENGTH
    requires [] !in rest && |Flatten(rest)| == MAX_HEADER_LENGTH < n
    ensures BadRequest(h, Lines(app, true, []), 0, [blank + [LF] + (post + [LF] + [first])] + rest)
  {
    hide Run, Finishes, Refused;
    var m, m1, m2 := Lines(app, true, []), Lines(app1, false, []), Body(app2, n, [first]);
    var read := blank + [LF] + (post + [LF] + [first]);
    assert [] + blank == blank && [] + post == post && [] + [first] == [first];
    RunLine(h, m, blank);
    RunLine(h, m1, post);
    RunConcat(h, m, blank + [LF], post + [LF] + [first]);
    RunConcat(h, m1, post + [LF], [first]);
    RunBody(h, Body(app2, n, []), [first]);
    FinishesConcat(h, m, blank + [LF], post + [LF] + [first]);
    FinishesLine(h, m, blank);
    assert Run(h, m, read) == m2 && Counted(h, m, 0, read) == 0;
    AheadOfCount(h, m2, 0, rest);
    assert ([read] + rest)[1..] == rest;
  }
}
