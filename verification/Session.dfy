/**
 A terminal session: output of the child process is buffered until the browser asks for it, and sent in
 replies of bounded size.
 */
module Session {
  import opened Bytes
  import opened Json

  const MAX_RESPONSE: nat := 2048
  const INT_MAX: nat := 0x7FFF_FFFF
  const BELL: byte := 7

  datatype Verb = GET | POST | HEAD

  /** What a request for data asks for: output, or to write keys to the terminal, which may fail. */
  datatype Keys = NoKeys | Written | Failed

  /** A request, with the `session` argument in its query or body. */
  datatype Request = Request(verb: Verb, session: Option<string>, keys: Keys)

  /** Arguments are parsed for GET and POST only. */
  function SessionArgument(request: Request): Option<string>
  {
    if request.verb == GET || request.verb == POST then request.session else None
  }

  datatype Found = Refused | Existing(key: string) | New

  /** findSession. In CGI mode there is exactly one session, with a key that was negotiated before. */
  function FindSession(sessions: set<string>, cgiKey: Option<string>, key: Option<string>): Found
  {
    if cgiKey.Some? && key != cgiKey then Refused
    else if key.Some? && key.value != "" && key.value in sessions then Existing(key.value)
    else if cgiKey.None? && key.Some? && key.value != "" then Refused
    else New
  }

  /** An answer: the `data` member of the JSON object, as it is written, and whether the request was a
      HEAD request, in which case no body is sent. */
  datatype Reply = Reply(head: bool, data: string)

  function Decoded(reply: Reply): seq<int>
  {
    match Unescape(reply.data)
    case Some(v) => v
    case None => []
  }

  /** What the browser gets to see of the terminal output in a list of replies, decoded and concatenated. */
  function Visible(replies: seq<Reply>): seq<int>
  {
    if replies == [] then []
    else
      var last := replies[|replies| - 1];
      Visible(replies[..|replies| - 1]) + (if last.head then [] else Decoded(last))
  }

  class Session {
    var http: Option<Request>     // the pending request
    var buffered: seq<byte>       // NULL is modelled as []
    var done: bool                // the child process is gone
    var finished: bool            // the session has been removed
    var input: bool               // POLLIN is enabled for the terminal
    var replies: seq<Reply>       // everything that has been sent

    ghost var fed: seq<int>       // everything the terminal has written

    /** Nothing is lost, duplicated or reordered on its way to the browser. A HEAD request, which gets to see
        nothing, is only ever answered when there is nothing. */
    ghost predicate Valid()
      reads this
    {
      && Visible(replies) + buffered == fed
      && (finished ==> done && buffered == [])
      && (http.Some? && http.value.verb == HEAD ==> buffered == [])
      && (forall i :: 0 <= i < |replies| ==>
            Unescape(replies[i].data).Some? && (replies[i].head ==> replies[i].data == ""))
    }

    /** What holds between events: a request waits only while there is nothing to send, and it is no HEAD
        request; a session whose child is gone is there only as long as there is something to send. */
    ghost predicate Waiting()
      reads this
    {
      && Valid() && finished == (done && buffered == [])
      && (http.Some? ==> buffered == [] && !done && http.value.verb != HEAD)
    }

    /** The first request creates the session, and is answered at once. */
    constructor (first: Request)
      ensures Waiting() && !done && !finished && http == None && fed == [] && buffered == [] && input
      ensures replies == [Reply(first.verb == HEAD, "")]
    {
      http, buffered, done, finished, input, replies, fed := Some(first), [], false, false, true, [], [];
      new;
      ghost var nothing: seq<byte> := [];
      NothingEscaped(nothing);
      NothingVisible();
      hide Escape, Unescape, Visible;
      assert nothing + nothing == nothing;
      var alive := CompletePendingRequest([], MAX_RESPONSE);
    }

    /** Takes what may be sent at once, out of the buffered bytes and the new ones, and keeps the rest. */
    method TakeData(buf: seq<byte>, maxLength: nat) returns (data: string)
      modifies `buffered
      ensures var all := old(buffered) + buf;
              data == Escape(Chunk(all, maxLength)) && buffered == all[|Chunk(all, maxLength)|..]
    {
      if buffered != [] {
        buffered := buffered + buf;
        if 0 < maxLength < |buffered| {
          data := JsonEscape(buffered[..maxLength]);
          buffered := buffered[maxLength..];
        } else {
          data := JsonEscape(buffered);
          buffered := [];
        }
      } else {
        assert buffered + buf == buf;
        if 0 < maxLength < |buf| {
          buffered := buf[maxLength..];
          data := JsonEscape(buf[..maxLength]);
        } else {
          data := JsonEscape(buf);
        }
      }
    }

    /** There is no pending request: the data is saved. */
    method Save(buf: seq<byte>)
      requires Valid() && !finished && http == None
      modifies `buffered, `fed
      ensures Valid() && fed == old(fed) + buf && buffered == old(buffered) + buf
    {
      assert Visible(replies) + (buffered + buf) == fed + buf;
      buffered := buffered + buf;
      fed := fed + buf;
    }

    /** The pending request is answered. */
    method Answer(buf: seq<byte>, maxLength: nat)
      requires Valid() && !finished && http.Some? && (http.value.verb == HEAD ==> buf == [])
      modifies `http, `buffered, `replies, `fed
      ensures Valid() && fed == old(fed) + buf && http == None
      ensures var all := old(buffered) + buf;
              var chunk := Chunk(all, maxLength);
              && replies == old(replies) + [Reply(old(http).value.verb == HEAD, Escape(chunk))]
              && buffered == all[|chunk|..]
    {
      ghost var kept, sent := buffered, replies;
      var data := TakeData(buf, maxLength);
      var reply := Reply(http.value.verb == HEAD, data);
      ChunkSent(sent, reply, kept, buf, maxLength, fed);
      http := None;
      replies := replies + [reply];
      fed := fed + buf;
    }

    /** completePendingRequest: without a pending request, the data is saved; otherwise at most
        `maxLength` bytes of what there is are sent. The session ends when it is done and drained. */
    method CompletePendingRequest(buf: seq<byte>, maxLength: nat) returns (alive: bool)
      requires Valid() && !finished && (http.Some? && http.value.verb == HEAD ==> buf == [])
      modifies `http, `buffered, `replies, `finished, `fed
      ensures Waiting() && fed == old(fed) + buf && http == None && alive == !finished
      ensures var all := old(buffered) + buf;
              if old(http).None? then replies == old(replies) && buffered == all
              else
                var chunk := Chunk(all, maxLength);
                && replies == old(replies) + [Reply(old(http).value.verb == HEAD, Escape(chunk))]
                && buffered == all[|chunk|..]
    {
      if http.None? {
        Save(buf);
      } else {
        Answer(buf, maxLength);
      }
      alive := !(done && buffered == []);
      if !alive {
        finished := true;
      }
    }

    /** How many bytes may be read from the terminal. */
    function ReadSize(): (len: nat)
      reads this
      ensures 0 < len <= MAX_RESPONSE
    {
      if |buffered| < MAX_RESPONSE then MAX_RESPONSE - |buffered| else 1
    }

    /** handleSession: the terminal has written something, or there has been nothing for too long while a
        request is pending. */
    method HandleOutput(buf: seq<byte>)
      requires Waiting() && !done && !finished && |buf| <= ReadSize() && if buf == [] then http.Some? else input
      modifies this
      ensures Waiting() && !done && !finished && fed == old(fed) + buf && http == None
      ensures |buffered| <= MAX_RESPONSE || |buffered| <= |old(buffered)| + 1
      ensures input ==> !old(input) || |buffered| < MAX_RESPONSE
      ensures Extends(old(replies), replies, 1)
    {
      hide Visible, Escape, Unescape;
      ReplyExtends(replies, if http.Some? then http.value.verb == HEAD else false, Chunk(buffered + buf, MAX_RESPONSE));
      var alive := CompletePendingRequest(buf, MAX_RESPONSE);
      assert alive;
      if MAX_RESPONSE <= |buffered| {
        input := false;
      }
    }

    /** handleSession, after a read from the terminal that has brought something, or after the deadline. If the
        deadline has passed and no request is pending, then the session is given up, and what has been read is
        dropped. */
    method HandleSession(buf: seq<byte>, expired: bool) returns (lost: bool)
      requires Waiting() && !done && !finished && |buf| <= ReadSize() && (buf != [] || expired) && (buf != [] ==> input)
      modifies this
      ensures Waiting() && fed == old(fed) + (if lost then [] else buf)
      ensures lost <==> expired && old(http).None?
      ensures if lost then done && buffered == old(buffered) && replies == old(replies) else !done && !finished
    {
      assert fed + [] == fed;
      lost := expired && http.None?;
      if lost {
        HandleExit();
      } else {
        HandleOutput(buf);
      }
    }

    /** dataHandler, for a request that reaches this session: the browser asks for output, or has sent keys. */
    method HandleData(key: string, cgiKey: Option<string>, request: Request)
      requires Waiting() && !finished
      modifies this
      ensures Waiting() && done == old(done) && Extends(old(replies), replies, 2)
      ensures fed == old(fed) + if Fails(key, cgiKey, request) then [BELL] else []
      ensures request.verb == HEAD ==> unchanged(this)
    {
      assert fed + [] == fed;
      if FindSession({key}, cgiKey, SessionArgument(request)) == Existing(key) {
        match request.keys {
          case NoKeys =>
            var _ := HandlePoll(request);
          case Written =>
          case Failed =>
            HandleKeyFailure();
        }
      }
    }

    /** The browser asks for output. A request that is still pending is answered first. */
    method HandlePoll(request: Request) returns (suspended: bool)
      requires Waiting() && !finished && request.verb != HEAD
      modifies this
      ensures Waiting() && fed == old(fed) && done == old(done)
      ensures suspended <==> old(buffered) == []
      ensures if suspended then http == Some(request) && !finished else http == None
      ensures |buffered| < MAX_RESPONSE && !finished ==> input
      ensures Extends(old(replies), replies, 2)
    {
      if http.Some? {
        var alive := Flush();
        if !alive {
          return false;  // the new request gets a 400
        }
      }
      http := Some(request);
      if buffered != [] {
        var alive := Flush();
        if alive && |buffered| < MAX_RESPONSE {
          input := true;
        }
        return false;
      }
      input := true;
      return true;
    }

    /** Answers the pending request with what there is. */
    method Flush() returns (alive: bool)
      requires Valid() && !finished && http.Some?
      modifies `http, `buffered, `replies, `finished, `fed
      ensures Waiting() && fed == old(fed) && http == None && alive == !finished
      ensures buffered == old(buffered)[|Chunk(old(buffered), MAX_RESPONSE)|..]
      ensures Extends(old(replies), replies, 1)
    {
      hide Visible, Escape, Unescape;
      assert buffered + [] == buffered && fed + [] == fed;
      ReplyExtends(replies, http.value.verb == HEAD, Chunk(buffered, MAX_RESPONSE));
      alive := CompletePendingRequest([], MAX_RESPONSE);
    }

    /** The keys could not be written to the terminal. */
    method HandleKeyFailure()
      requires Waiting() && !finished
      modifies this
      ensures Waiting() && fed == old(fed) + [BELL] && done == old(done) && Extends(old(replies), replies, 1)
    {
      hide Visible, Escape, Unescape;
      ReplyExtends(replies, if http.Some? then http.value.verb == HEAD else false,
                   Chunk(buffered + [BELL], MAX_RESPONSE));
      var alive := CompletePendingRequest([BELL], MAX_RESPONSE);
    }

    /** sessionDone: the child process is gone. A pending request is answered, and the session lives on only
        to be drained. */
    method HandleExit()
      requires Waiting() && !done
      modifies this
      ensures Waiting() && fed == old(fed) && done && buffered == old(buffered) && http == None
      ensures if old(http).Some? then finished && |replies| == |old(replies)| + 1 else replies == old(replies)
    {
      assert buffered + [] == buffered && fed + [] == fed;
      done := true;
      var alive := CompletePendingRequest([], INT_MAX);
    }

    /** invalidatePendingHttpSession: the browser has dropped the request that was pending. The child is
        given up, and as there is nothing to send, the session ends. */
    method HandleDrop()
      requires Waiting() && http.Some?
      modifies this
      ensures Waiting() && fed == old(fed) && finished && replies == old(replies)
    {
      assert buffered + [] == buffered && fed + [] == fed;
      http := None;
      done := true;
      var alive := CompletePendingRequest([], INT_MAX);
    }
  }

  /** A request brings keys for this session that cannot be written. */
  predicate Fails(key: string, cgiKey: Option<string>, request: Request)
  {
    FindSession({key}, cgiKey, SessionArgument(request)) == Existing(key) && request.keys == Failed
  }

  // ---- Whole runs ----

  /** dataHandler, for a request that creates a session. It must not bring keys. */
  method Open(first: Request) returns (s: Session?)
    ensures s == null <==> first.keys != NoKeys
    ensures s != null ==> fresh(s) && s.Waiting() && s.fed == [] && s.replies == [Reply(first.verb == HEAD, "")]
  {
    if first.keys != NoKeys {
      return null;
    }
    s := new Session(first);
  }

  /** What happens to a session: the terminal can be read, possibly when the deadline has passed, which is so when
      there has been nothing to read for too long, or nothing arrives until then; a request arrives, for this
      session or not; the browser drops its pending request; and the child process ends. */
  datatype Event = Readable(n: nat, expired: bool) | TimedOut | Arrives(request: Request) | Dropped | Exit

  /** Output with one bell between any two parts. */
  function Belled(parts: seq<seq<int>>): seq<int>
  {
    if parts == [] then []
    else if |parts| == 1 then parts[0]
    else Belled(parts[..|parts| - 1]) + [BELL] + parts[|parts| - 1]
  }

  /** How many of these events are keys for this session that cannot be written. */
  function Failures(key: string, cgiKey: Option<string>, events: seq<Event>): nat
  {
    if events == [] then 0
    else
      var last := events[|events| - 1];
      Failures(key, cgiKey, events[..|events| - 1]) + if last.Arrives? && Fails(key, cgiKey, last.request) then 1 else 0
  }

  /** The terminal output so far has been cut into parts by the bells. */
  ghost predicate Told(fed: seq<int>, parts: seq<seq<int>>, read: seq<int>, bells: nat)
  {
    fed == Belled(parts) && read == Flatten(parts) && |parts| == 1 + bells
  }

  lemma MoreRead(fed: seq<int>, parts: seq<seq<int>>, read: seq<int>, bells: nat, more: seq<int>)
    requires Told(fed, parts, read, bells)
    ensures Told(fed + more, parts[bells := parts[bells] + more], read + more, bells)
  {
    var init, last := parts[..bells], parts[bells];
    var parts' := parts[bells := last + more];
    assert parts == init + [last] && parts' == init + [last + more] && parts'[..bells] == init;
    FlattenAppend(init, last);
    FlattenAppend(init, last + more);
    assert Flatten(init) + (last + more) == Flatten(init) + last + more;
    if bells != 0 {
      assert Belled(init) + [BELL] + (last + more) == Belled(init) + [BELL] + last + more;
    }
  }

  lemma BellRung(fed: seq<int>, parts: seq<seq<int>>, read: seq<int>, bells: nat)
    requires Told(fed, parts, read, bells)
    ensures Told(fed + [BELL], parts + [[]], read, bells + 1)
  {
    FlattenAppend(parts, []);
    assert (parts + [[]])[..|parts|] == parts;
    assert Belled(parts) + [BELL] + [] == Belled(parts) + [BELL] && Flatten(parts) + [] == Flatten(parts);
  }

  lemma FirstPart()
    ensures Told([], [[]], [], 0)
  {
    var none: seq<seq<int>> := [];
    FlattenAppend(none, []);
    assert none + [[]] == [[]];
  }

  /** Without a bell there is one part. */
  lemma OnePart(fed: seq<int>, parts: seq<seq<int>>, read: seq<int>)
    requires Told(fed, parts, read, 0)
    ensures fed == read
  {
    FlattenAppend([], parts[0]);
    assert parts == [] + [parts[0]] && [] + parts[0] == parts[0];
  }

  /** Reads from the terminal, if reading is enabled: no more than there is room for. */
  method Read(s: Session, pty: seq<byte>, start: nat, n: nat, expired: bool) returns (pos: nat, lost: bool)
    requires s.Waiting() && !s.finished && start <= |pty|
    modifies s
    ensures s.Waiting() && start <= pos <= |pty| && pos - start <= n && (old(s.done) ==> pos == start && s.done)
    ensures s.fed == old(s.fed) + if lost then [] else pty[start..pos]
    ensures lost <==> expired && old(s.http).None? && start < pos
    ensures lost ==> s.done
  {
    pos, lost := start, false;
    assert s.fed + [] == s.fed;
    var len := if n < s.ReadSize() then n else s.ReadSize();
    len := if len < |pty| - start then len else |pty| - start;
    if s.input && !s.done && 0 < len {
      pos := start + len;
      lost := s.HandleSession(pty[start..pos], expired);
    }
    assert pos == start ==> s.fed + pty[start..pos] == s.fed;
  }

  /** Any other event: no more output. */
  method Handle(s: Session, key: string, cgiKey: Option<string>, event: Event)
    requires s.Waiting() && !s.finished && !event.Readable?
    modifies s
    ensures s.Waiting() && (old(s.done) ==> s.done)
    ensures s.fed == old(s.fed) + if event.Arrives? && Fails(key, cgiKey, event.request) then [BELL] else []
  {
    assert s.fed + [] == s.fed;
    match event {
      case TimedOut =>
        if !s.done {
          var _ := s.HandleSession([], true);
        }
      case Arrives(request) =>
        s.HandleData(key, cgiKey, request);
      case Dropped =>
        if s.http.Some? {
          s.HandleDrop();
        }
      case Exit =>
        if !s.done {
          s.HandleExit();
        }
    }
  }

  /** What is kept of `pos` bytes that have been read: all of them, or all but those of a read that came when the
      deadline had passed, after which nothing is read any more. */
  ghost predicate AllKept(s: Session, events: seq<Event>, pos: nat, kept: nat)
    reads s
  {
    && kept <= pos
    && (kept < pos ==> s.done && exists k :: 0 <= k < |events| && LastRead(events[k], pos - kept))
  }

  predicate LastRead(event: Event, n: nat)
  {
    event.Readable? && event.expired && n <= event.n
  }

  /** Over any run, whatever requests arrive, what the browser can see and the bytes that are still buffered are
      together exactly what has been read from the terminal, in order, with one bell for every failure to
      write keys, at the place where it happened. Only the bytes of the last read can be missing, if that came
      after the deadline. */
  method Run(key: string, cgiKey: Option<string>, first: Request, pty: seq<byte>, events: seq<Event>)
    returns (s: Session, pos: nat, kept: nat, handled: nat, ghost parts: seq<seq<int>>)
    ensures fresh(s) && s.Waiting() && pos <= |pty| && handled <= |events| && (handled == |events| || s.finished)
    ensures AllKept(s, events[..handled], pos, kept)
    ensures Visible(s.replies) + s.buffered == Belled(parts) && pty[..kept] == Flatten(parts)
    ensures |parts| == 1 + Failures(key, cgiKey, events[..handled])
    ensures |parts| == 1 ==> Visible(s.replies) + s.buffered == pty[..kept]
    ensures |parts| == 1 && s.finished ==> Visible(s.replies) == pty[..kept]
  {
    hide Belled, Flatten, Failures, Visible, Told;
    s := new Session(first);
    pos, kept, handled, parts := 0, 0, 0, [[]];
    FirstPart();
    NoFailures(key, cgiKey);
    while handled < |events| && !s.finished
      invariant handled <= |events| && fresh(s) && s.Waiting() && pos <= |pty|
      invariant AllKept(s, events[..handled], pos, kept)
      invariant Told(s.fed, parts, pty[..kept], Failures(key, cgiKey, events[..handled]))
    {
      pos, kept, parts := HandleNext(s, key, cgiKey, pty, pos, kept, events, handled, parts);
      handled := handled + 1;
    }
    Whole(s.fed, parts, pty[..kept], Failures(key, cgiKey, events[..handled]));
    assert s.finished ==> Visible(s.replies) + s.buffered == Visible(s.replies);
  }

  method HandleNext(s: Session, key: string, cgiKey: Option<string>, pty: seq<byte>, start: nat, kept: nat,
                    events: seq<Event>, i: nat, ghost parts: seq<seq<int>>)
    returns (pos: nat, kept': nat, ghost parts': seq<seq<int>>)
    requires s.Waiting() && !s.finished && start <= |pty| && i < |events| && AllKept(s, events[..i], start, kept)
    requires Told(s.fed, parts, pty[..kept], Failures(key, cgiKey, events[..i]))
    modifies s
    ensures s.Waiting() && pos <= |pty| && AllKept(s, events[..i + 1], pos, kept')
    ensures Told(s.fed, parts', pty[..kept'], Failures(key, cgiKey, events[..i + 1]))
  {
    hide Belled, Flatten, Visible;
    var event := events[i];
    ghost var fed, bells := s.fed, Failures(key, cgiKey, events[..i]);
    assert events[..i + 1][..i] == events[..i] && events[..i + 1][i] == event;
    assert forall k :: 0 <= k < i ==> events[..i + 1][k] == events[..i][k];
    pos, kept', parts' := start, kept, parts;
    if event.Readable? {
      var lost;
      pos, lost := Read(s, pty, start, event.n, event.expired);
      if lost {
        assert fed + [] == fed && LastRead(event, pos - start);
      } else if start < pos {
        kept' := pos;
        assert pty[..pos] == pty[..start] + pty[start..pos];
        MoreRead(fed, parts, pty[..start], bells, pty[start..pos]);
        parts' := parts[bells := parts[bells] + pty[start..pos]];
      } else {
        assert fed + pty[start..pos] == fed;
      }
    } else {
      Handle(s, key, cgiKey, event);
      if event.Arrives? && Fails(key, cgiKey, event.request) {
        BellRung(fed, parts, pty[..kept], bells);
        parts' := parts + [[]];
      } else {
        assert fed + [] == fed;
      }
    }
  }

  /** Such a read: the session is new, so that no request is pending, and its first output comes too late. */
  method TooLate(first: Request, output: seq<byte>) returns (s: Session)
    requires 0 < |output| <= MAX_RESPONSE
    ensures fresh(s) && s.Waiting() && s.finished && Visible(s.replies) == [] && s.buffered == []
  {
    s := new Session(first);
    var lost := s.HandleSession(output, true);
    assert Visible(s.replies) + s.buffered == [];
  }

  lemma NoFailures(key: string, cgiKey: Option<string>)
    ensures forall events: seq<Event> :: Failures(key, cgiKey, events[..0]) == 0
  {
  }

  lemma Whole(fed: seq<int>, parts: seq<seq<int>>, read: seq<int>, bells: nat)
    requires Told(fed, parts, read, bells)
    ensures fed == Belled(parts) && read == Flatten(parts) && |parts| == 1 + bells
    ensures |parts| == 1 ==> fed == read
  {
    if bells == 0 {
      OnePart(fed, parts, read);
    }
  }

  /** What is sent at once. */
  function Chunk(all: seq<byte>, maxLength: nat): (chunk: seq<byte>)
    ensures chunk <= all && (0 < maxLength ==> |chunk| <= maxLength)
  {
    if 0 < maxLength < |all| then all[..maxLength] else all
  }

  /** At most `n` replies have been added, each of bounded size. */
  ghost predicate Extends(before: seq<Reply>, now: seq<Reply>, n: nat)
  {
    && before <= now && |now| <= |before| + n
    && forall i :: |before| <= i < |now| ==> |Decoded(now[i])| <= MAX_RESPONSE
  }

  lemma ReplyExtends(replies: seq<Reply>, head: bool, chunk: seq<byte>)
    requires |chunk| <= MAX_RESPONSE
    ensures Extends(replies, replies + [Reply(head, Escape(chunk))], 1) && Extends(replies, replies, 1)
  {
    RoundTrip(chunk);
  }

  /** A reply and what is kept back are together what there was. */
  lemma ChunkSent(replies: seq<Reply>, reply: Reply, kept: seq<byte>, buf: seq<byte>, maxLength: nat, fed: seq<int>)
    requires reply.data == Escape(Chunk(kept + buf, maxLength)) && Visible(replies) + kept == fed
    requires reply.head ==> kept + buf == []
    ensures Unescape(reply.data).Some? && (reply.head ==> reply.data == "")
    ensures Visible(replies + [reply]) + (kept + buf)[|Chunk(kept + buf, maxLength)|..] == fed + buf
  {
    var chunk := Chunk(kept + buf, maxLength);
    NothingEscaped(chunk);
    hide Visible, Escape, Unescape;
    var rest := (kept + buf)[|chunk|..];
    RoundTrip(chunk);
    VisibleAppend(replies, reply);
    Rejoin(Visible(replies), kept, buf, chunk, rest);
  }

  lemma NothingVisible()
    ensures Visible([]) == []
  {
  }

  lemma NothingEscaped(chunk: seq<byte>)
    ensures chunk == [] ==> Escape(chunk) == ""
  {
  }

  lemma VisibleAppend(replies: seq<Reply>, reply: Reply)
    ensures Visible(replies + [reply]) == Visible(replies) + if reply.head then [] else Decoded(reply)
  {
    assert (replies + [reply])[..|replies|] == replies;
  }

  lemma Rejoin(sent: seq<int>, kept: seq<int>, buf: seq<int>, chunk: seq<int>, rest: seq<int>)
    requires chunk + rest == kept + buf
    ensures sent + chunk + rest == sent + kept + buf
  {
    assert sent + chunk + rest == sent + (chunk + rest);
    assert sent + kept + buf == sent + (kept + buf);
  }
}
