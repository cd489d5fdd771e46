/**
 Outgoing data: replies are queued in one buffer and written as the socket takes them. The first part of a
 reply may be compressed. `deflate` is an oracle, which either delivers a compressed body that fits or fails.
 */
module Output {
  import opened Bytes
  import opened Text
  import opened Headers

  /** What a write returns: a number of bytes, or an error, which is EAGAIN or fatal. */
  datatype WriteResult = Wrote(n: nat) | WouldBlock | Failed

  /** What decides about compression: the method, what the peer accepts, and the oracle. */
  datatype Compression = Compression(isHead: bool, accepted: bool, deflated: Option<string>)

  /** The position of the first blank line, if there is one. */
  function BlankLine(s: string): (p: Option<nat>)
    ensures p.Some? ==> p.value + 2 <= |s|
  {
    var n := LineLength(s);
    if n == 0 || s[n - 1] != '\n' then None
    else if n == 2 then Some(0)
    else
      match BlankLine(s[n..])
      case None => None
      case Some(p) => Some(n + p)
  }

  /** Replies that might not fit into a single packet are compressed. */
  predicate Compresses(s: string, partial: bool, c: Compression)
  {
    BlankLine(s).Some? && !c.isHead && !partial && |s| > 1400 && c.accepted
  }

  /** What has to go out for a part of a reply. */
  function Outgoing(s: string, first: bool, partial: bool, c: Compression): string
  {
    if first && Compresses(s, partial, c) && c.deflated.Some? then
      Rewritten(s[..BlankLine(s).value + 2], |c.deflated.value|) + c.deflated.value
    else s
  }

  /** Output leaves the queue at its front: the socket takes it, or it is given up. */
  datatype Piece = Taken(text: string) | GivenUp(text: string)

  function All(pieces: seq<Piece>): string
  {
    if pieces == [] then "" else All(pieces[..|pieces| - 1]) + pieces[|pieces| - 1].text
  }

  /** What the socket has taken. */
  function Sent(pieces: seq<Piece>): string
  {
    if pieces == [] then ""
    else Sent(pieces[..|pieces| - 1]) + if pieces[|pieces| - 1].Taken? then pieces[|pieces| - 1].text else ""
  }

  lemma OneMore(pieces: seq<Piece>, p: Piece)
    ensures All(pieces + [p]) == All(pieces) + p.text
    ensures Sent(pieces + [p]) == Sent(pieces) + if p.Taken? then p.text else ""
  {
    assert (pieces + [p])[..|pieces|] == pieces;
  }

  predicate NothingLost(pieces: seq<Piece>)
  {
    forall p :: p in pieces && p.GivenUp? ==> p.text == ""
  }

  /** What has been given up is missing. */
  lemma {:induction false} MissingExactly(pieces: seq<Piece>)
    ensures |Sent(pieces)| <= |All(pieces)| && (Sent(pieces) == All(pieces) <==> NothingLost(pieces))
    ensures |Sent(pieces)| == |All(pieces)| ==> Sent(pieces) == All(pieces)
    decreases |pieces|
  {
    if pieces != [] {
      assert pieces == pieces[..|pieces| - 1] + [pieces[|pieces| - 1]];
      MissingExactly(pieces[..|pieces| - 1]);
    }
  }

  lemma LostOrSent(pieces: seq<Piece>, pending: string)
    ensures Sent(pieces) + pending == All(pieces) + pending <==> NothingLost(pieces)
  {
    MissingExactly(pieces);
    if Sent(pieces) + pending == All(pieces) + pending {
      assert |Sent(pieces) + pending| == |All(pieces) + pending|;
    }
  }

  function Min(a: nat, b: nat): nat
  {
    if a < b then a else b
  }

  class Output {
    var msg: array?<char>
    var msgLength: nat
    var totalWritten: nat
    var isSuspended: bool
    var isPartialReply: bool
    var closed: bool

    ghost var queued: string       // all that was to go out
    ghost var pieces: seq<Piece>   // what has left the queue
    ghost var failed: bool         // a write has failed for good
    ghost var expired: bool        // the deadline of the connection has passed

    ghost predicate Valid()
      reads this, msg
    {
      && (msg == null <==> msgLength == 0) && (msg != null ==> msgLength <= msg.Length)
      && (failed || expired ==> closed)
      && All(pieces) + Pending() == queued && (!failed && !expired ==> Sent(pieces) == All(pieces))
    }

    ghost function Pending(): string
      requires msg != null ==> msgLength <= msg.Length
      reads this, msg
    {
      if msg == null then "" else msg[..msgLength]
    }

    constructor ()
      ensures Valid() && queued == "" && pieces == [] && !failed && !expired
      ensures totalWritten == 0 && !isSuspended && !isPartialReply
      ensures msg == null
    {
      msg, msgLength, totalWritten, isSuspended, isPartialReply, closed := null, 0, 0, false, false, false;
      queued, pieces, failed, expired := "", [], false, false;
    }

    /** Appends data to the queue; the first data becomes the queue. */
    method Put(data: array<char>, offset: nat, n: nat)
      requires Valid() && 0 < n && offset + n <= data.Length && data != msg
      modifies this`msg, this`msgLength, this`queued, data
      ensures Valid() && queued == old(queued) + old(data[offset..offset + n])
      ensures msg == data || fresh(msg)
    {
      ghost var more := data[offset..offset + n];
      ghost var before := Pending();
      if msg != null {
        var grown := new char[msgLength + n](i requires 0 <= i < msgLength + n && msg != null && msgLength <= msg.Length
                                                        && offset + n <= data.Length
                                             reads this, msg, data
                                             => if i < msgLength then msg[i] else data[offset + (i - msgLength)]);
        assert grown[..] == before + more;
        msg, msgLength := grown, msgLength + n;
        assert msg[..msgLength] == grown[..];
      } else {
        if offset > 0 {
          MemMove(data, 0, offset, n);
        }
        msg, msgLength := data, n;
        assert msg[..msgLength] == more;
      }
      queued := queued + more;
      Associative(All(pieces), before, more);
    }

    /** Writes as much as the socket takes. */
    method Write(r: WriteResult)
      requires Valid()
      modifies this`msg, this`msgLength, this`closed, this`pieces, this`failed, msg
      ensures Valid() && failed == (old(failed) || (r.Failed? && old(msg) != null))
      ensures closed == (old(closed) || (r.Failed? && old(msg) != null))
      ensures var taken := if r.Wrote? then Min(r.n, old(|Pending()|)) else 0;
              pieces == old(pieces)
                + (if r.Failed? && old(msg) != null then [GivenUp(old(Pending()))]
                   else if taken == 0 then [] else [Taken(old(Pending())[..taken])])
      ensures r.Failed? ==> msg == null
      ensures msg == old(msg) || msg == null
    {
      assert pieces + [] == pieces;
      if msg != null && msgLength > 0 {
        match r
        case Failed =>
          GiveUp();
          failed := true;
        case WouldBlock =>
        case Wrote(n) =>
          if n > 0 {
            Take(Min(n, msgLength));
          }
      }
    }

    /** Drops what is pending, and closes the connection. */
    method GiveUp()
      requires msg != null ==> msgLength <= msg.Length
      requires All(pieces) + Pending() == queued
      modifies this`msg, this`msgLength, this`closed, this`pieces
      ensures msg == null && msgLength == 0 && closed && pieces == old(pieces) + [GivenUp(old(Pending()))]
      ensures All(pieces) + Pending() == queued
    {
      ghost var pending := Pending();
      OneMore(pieces, GivenUp(pending));
      Associative(All(pieces), pending, "");
      pieces := pieces + [GivenUp(pending)];
      closed := true;
      msg, msgLength := null, 0;
    }

    /** The deadline of the connection has passed: what the socket has not taken until now is given up. */
    method Expire()
      requires Valid()
      modifies this`msg, this`msgLength, this`closed, this`pieces, this`expired
      ensures Valid() && expired && closed && msg == null && failed == old(failed)
      ensures pieces == old(pieces) + [GivenUp(old(Pending()))]
    {
      GiveUp();
      expired := true;
    }

    /** The socket has taken some bytes: the others move to the front. */
    method Take(wrote: nat)
      requires Valid() && 0 < wrote <= msgLength
      modifies this`msg, this`msgLength, this`pieces, msg
      ensures Valid() && pieces == old(pieces) + [Taken(old(Pending())[..wrote])]
      ensures msg == old(msg) || msg == null
    {
      hide All, Sent;
      ghost var all := msg[..msgLength];
      OneMore(pieces, Taken(all[..wrote]));
      TakenAndLeft(All(pieces), all, wrote);
      pieces := pieces + [Taken(all[..wrote])];
      if wrote == msgLength {
        msg, msgLength := null, 0;
      } else {
        MemMove(msg, 0, wrote, msgLength - wrote);
        msgLength := msgLength - wrote;
        assert msg[..msgLength] == all[wrote..];
      }
    }

    /** Sends a part of a reply; the first one may be compressed. It is written at once if the request is
        suspended or the reply is sent piece by piece. */
    method Transfer(message: array<char>, len: nat, c: Compression, ready: WriteResult)
      requires Valid() && len <= message.Length && message != msg
      modifies this`msg, this`msgLength, this`totalWritten, this`queued, this`pieces, this`failed, this`closed
      modifies msg, message
      ensures Valid() && queued == old(queued) + old(Outgoing(message[..len], totalWritten == 0, isPartialReply, c))
      ensures totalWritten == old(totalWritten) + |old(Outgoing(message[..len], totalWritten == 0, isPartialReply, c))|
      ensures msg == null || msg == old(msg) || msg == message || fresh(msg)
      ensures failed ==> old(failed) || (ready.Failed? && (isSuspended || isPartialReply))
      ensures !isSuspended && !isPartialReply ==> pieces == old(pieces)
    {
      hide BlankLine, Rewritten, All, Sent;
      ghost var text := message[..len];
      ghost var out := Outgoing(text, totalWritten == 0, isPartialReply, c);
      var compress, end := Decide(message, len, c);
      if compress {
        SendInParts(message, len, end, c);
      } else {
        SendWhole(message, len);
      }
      if isSuspended || isPartialReply {
        Write(ready);
      }
    }

    /** Whether to compress, and where the header ends. */
    method Decide(message: array<char>, len: nat, c: Compression) returns (compress: bool, end: nat)
      requires len <= message.Length
      ensures compress == (totalWritten == 0 && Compresses(message[..len], isPartialReply, c))
      ensures compress ==> end == BlankLine(message[..len]).value + 2 <= len
    {
      compress, end := false, 0;
      if totalWritten == 0 {
        var blank := FindBlankLine(message, len);
        if blank.Some? {
          compress, end := !c.isHead && !isPartialReply && len > 1400 && c.accepted, blank.value + 2;
        }
      }
    }

    method SendWhole(message: array<char>, len: nat)
      requires Valid() && len <= message.Length && message != msg
      modifies this`msg, this`msgLength, this`totalWritten, this`queued, message
      ensures Valid() && queued == old(queued) + old(message[..len]) && totalWritten == old(totalWritten) + len
      ensures msg == old(msg) || msg == message || fresh(msg)
    {
      ghost var text := message[..len];
      totalWritten := totalWritten + len;
      if len > 0 {
        assert message[0..len] == text;
        Put(message, 0, len);
      } else {
        assert queued + text == queued;
      }
    }

    /** Sends the header and the body separately, the body compressed if that is possible. */
    method SendInParts(message: array<char>, len: nat, end: nat, c: Compression)
      requires Valid() && 2 <= end <= len <= message.Length && message != msg
      modifies this`msg, this`msgLength, this`totalWritten, this`queued, message
      ensures var text := old(message[..len]);
              var out := if c.deflated.None? then text
                         else Rewritten(text[..end], |c.deflated.value|) + c.deflated.value;
              Valid() && queued == old(queued) + out && totalWritten == old(totalWritten) + |out|
      ensures msg == message || fresh(msg)
    {
      hide BlankLine, Rewritten, All, Sent;
      ghost var text := message[..len];
      var header := new char[end](i requires 0 <= i < end && end <= message.Length reads message => message[i]);
      assert header[..end] == text[..end];
      match c.deflated {
        case Some(z) =>
          SendCompressed(header, end, z);
        case None =>
          totalWritten := totalWritten + end + (len - end);
          assert header[0..end] == text[..end] && message[end..len] == text[end..];
          assert text[..end] + text[end..] == text;
          Put(header, 0, end);
          if len > end {
            Put(message, end, len - end);
          }
          Associative(old(queued), text[..end], text[end..]);
      }
    }

    method SendCompressed(header: array<char>, end: nat, z: string)
      requires Valid() && end <= header.Length && header != msg
      modifies this`msg, this`msgLength, this`totalWritten, this`queued, header
      ensures var out := Rewritten(old(header[..end]), |z|) + z;
              Valid() && queued == old(queued) + out && totalWritten == old(totalWritten) + |out|
      ensures fresh(msg)
    {
      NeverEmpty(header[..end], |z|);
      hide Rewritten, All, Sent;
      ghost var head := Rewritten(header[..end], |z|);
      var compressed := new char[|z|](i requires 0 <= i < |z| => z[i]);
      assert compressed[0..|z|] == z;
      var grown, headerLength := Rewrite(header, end, |z|);
      totalWritten := totalWritten + headerLength + |z|;
      assert grown[0..headerLength] == grown[..];
      Put(grown, 0, headerLength);
      if |z| > 0 {
        Put(compressed, 0, |z|);
      }
      Associative(old(queued), head, z);
    }

    /** Looks for the end of the header. */
    method FindBlankLine(message: array<char>, len: nat) returns (p: Option<nat>)
      requires len <= message.Length
      ensures p == BlankLine(message[..len])
    {
      var line: nat := 0;
      ghost var text, goal := message[..len], BlankLine(message[..len]);
      SearchStarts(text);
      while line < len
        invariant line <= len && Searching(text, line, goal)
      {
        var end := LineEnd(message, line, len);
        SearchNext(text, line, end, goal);
        if message[end - 1] != '\n' {
          return None;
        }
        if end - line == 2 {
          return Some(line);
        }
        line := end;
      }
      SearchEnds(text, goal);
      return None;
    }
  }

  lemma NeverEmpty(header: string, n: nat)
    ensures Rewritten(header, n) != ""
  {
  }

  lemma TakenAndLeft(before: string, all: string, n: nat)
    requires n <= |all|
    ensures before + all[..n] + all[n..] == before + all && before <= before + all[..n]
    ensures n == |all| ==> all[n..] == ""
  {
    assert before + all[..n] + all[n..] == before + (all[..n] + all[n..]);
    assert all[..n] + all[n..] == all;
  }

  lemma Associative(a: string, b: string, c: string)
    ensures a + b + c == a + (b + c) && a + "" == a
  {
  }

  function From(line: nat, p: Option<nat>): Option<nat>
  {
    match p
    case None => None
    case Some(q) => Some(line + q)
  }

  ghost predicate Searching(text: string, line: nat, goal: Option<nat>)
  {
    line <= |text| && goal == From(line, BlankLine(text[line..]))
  }

  lemma SearchStarts(text: string)
    ensures Searching(text, 0, BlankLine(text))
  {
    assert text[0..] == text;
  }

  lemma SearchNext(text: string, line: nat, end: nat, goal: Option<nat>)
    requires line < end <= |text| && end - line == LineLength(text[line..]) && Searching(text, line, goal)
    ensures if text[end - 1] != '\n' then goal == None
            else if end - line == 2 then goal == Some(line)
            else Searching(text, end, goal)
  {
    hide LineLength, BlankLine;
    Behind(text, line, end);
    FirstLine(text[line..], end - line);
  }

  lemma Behind(text: string, line: nat, end: nat)
    requires line < end <= |text|
    ensures text[line..][end - line..] == text[end..] && text[line..][end - line - 1] == text[end - 1]
  {
  }

  lemma FirstLine(s: string, n: nat)
    requires 0 < n == LineLength(s)
    ensures BlankLine(s) == if s[n - 1] != '\n' then None else if n == 2 then Some(0) else From(n, BlankLine(s[n..]))
  {
  }

  lemma SearchEnds(text: string, goal: Option<nat>)
    requires Searching(text, |text|, goal)
    ensures goal == None
  {
  }

  // ---- Whole runs ----

  /** What happens: parts of replies are sent, the socket becomes writable, the deadline passes, after a last attempt
      to write, and the next command begins. */
  datatype Event =
    | Send(text: string, partial: bool, suspended: bool, c: Compression, ready: WriteResult)
    | Writable(ready: WriteResult)
    | Deadline(ready: WriteResult)
    | NextCommand

  /** Output is given up only when a write fails for good, or the deadline passes. */
  predicate GivesUp(event: Event)
  {
    event.Deadline? || ((event.Send? || event.Writable?) && event.ready.Failed?)
  }

  /** All that has to go out; `total` bytes of the current reply already have. */
  function Queue(events: seq<Event>, total: nat): string
  {
    if events == [] then ""
    else
      match events[0]
      case Send(text, partial, _, c, _) =>
        var out := Outgoing(text, total == 0, partial, c);
        out + Queue(events[1..], total + |out|)
      case Writable(_) => Queue(events[1..], total)
      case Deadline(_) => Queue(events[1..], total)
      case NextCommand => Queue(events[1..], 0)
  }

  /** One event. */
  method Handle(o: Output, event: Event)
    requires o.Valid()
    modifies o, o.msg
    ensures o.Valid() && (o.msg == null || o.msg == old(o.msg) || fresh(o.msg))
    ensures o.queued == old(o.queued) + Queue([event], old(o.totalWritten))
    ensures o.totalWritten == Written(event, old(o.totalWritten))
    ensures o.failed || o.expired ==> old(o.failed || o.expired) || GivesUp(event)
  {
    hide All, Sent, Outgoing;
    assert [event][1..] == [];
    match event {
      case Send(text, partial, suspended, c, ready) =>
        o.isPartialReply, o.isSuspended := partial, suspended;
        var message := new char[|text|](i requires 0 <= i < |text| => text[i]);
        assert message[..|text|] == text;
        o.Transfer(message, |text|, c, ready);
        Associative(old(o.queued), Outgoing(text, old(o.totalWritten) == 0, partial, c), "");
      case Writable(ready) =>
        o.Write(ready);
      case Deadline(ready) =>
        o.Write(ready);
        o.Expire();
      case NextCommand =>
        o.totalWritten := 0;
    }
  }

  function Written(event: Event, total: nat): nat
  {
    match event
    case Send(text, partial, _, c, _) => total + |Outgoing(text, total == 0, partial, c)|
    case Writable(_) => total
    case Deadline(_) => total
    case NextCommand => 0
  }

  lemma QueueStep(events: seq<Event>, total: nat)
    requires events != []
    ensures Queue(events, total) == Queue([events[0]], total) + Queue(events[1..], Written(events[0], total))
  {
    assert [events[0]][1..] == [];
  }

  /** The output is a queue: over any run, what the socket has taken, what has been given up and what is pending are
      together all that was to go out, in order, however little the socket takes at a time. Nothing is missing
      exactly if nothing has been given up, and that is so unless a write fails for good or the deadline of the
      connection passes. */
  method Run(events: seq<Event>) returns (o: Output)
    ensures fresh(o) && o.Valid() && All(o.pieces) + o.Pending() == Queue(events, 0)
    ensures Sent(o.pieces) + o.Pending() == Queue(events, 0) <==> NothingLost(o.pieces)
    ensures (forall i :: 0 <= i < |events| ==> !GivesUp(events[i])) ==> NothingLost(o.pieces)
  {
    o := new Output();
    var i: nat := 0;
    assert events[0..] == events;
    while i < |events|
      invariant i <= |events| && o.Valid() && fresh(o) && (o.msg == null || fresh(o.msg))
      invariant o.queued + Queue(events[i..], o.totalWritten) == Queue(events, 0)
      invariant o.failed || o.expired ==> exists k :: 0 <= k < i && GivesUp(events[k])
    {
      QueueStep(events[i..], o.totalWritten);
      assert events[i..][1..] == events[i + 1..];
      Associative(o.queued, Queue([events[i]], o.totalWritten),
                  Queue(events[i + 1..], Written(events[i], o.totalWritten)));
      Handle(o, events[i]);
      i := i + 1;
    }
    LostOrSent(o.pieces, o.Pending());
    MissingExactly(o.pieces);
  }

  /** A reply that the socket does not take before the deadline. */
  method TooSlow(text: string) returns (o: Output)
    requires 0 < |text| <= 1400
    ensures fresh(o) && o.Valid() && o.pieces == [GivenUp(text)] && Sent(o.pieces) == "" && o.Pending() == ""
  {
    hide BlankLine, Rewritten;
    o := new Output();
    var message := new char[|text|](i requires 0 <= i < |text| => text[i]);
    assert message[..|text|] == text;
    ghost var nothing: seq<Piece> := [];
    OneMore(nothing, GivenUp(text));
    assert All(nothing) == "" && Sent(nothing) == "";
    hide All, Sent;
    o.Transfer(message, |text|, Compression(false, false, None), WouldBlock);
    assert "" + text == text && o.queued == text;
    assert o.pieces == nothing;
    assert "" + o.Pending() == o.Pending();
    assert o.Pending() == text;
    o.Expire();
    assert nothing + [GivenUp(text)] == [GivenUp(text)];
  }

  // ---- Compressed replies ----

  /** None of the lines of a text could be taken for a blank line. */
  predicate NoBlankLine(l: string)
    decreases |l|
  {
    l == "" || (LineLength(l) != 2 && NoBlankLine(l[LineLength(l)..]))
  }

  lemma FirstOfMore(l: string, rest: string)
    requires l != "" && l[|l| - 1] == '\n'
    ensures var n := LineLength(l);
            && LineLength(l + rest) == n && (l + rest)[n - 1] == '\n' && (l + rest)[n..] == l[n..] + rest
            && (l[n..] != "" ==> l[n..][|l[n..]| - 1] == '\n')
            && (l[n..] == "" ==> n == |l| && l[n..] + rest == rest)
  {
    var n := LineLength(l);
    assert forall i :: 0 <= i < n ==> (l + rest)[i] == l[i];
    LineLengthIs(l + rest, n);
  }

  lemma {:induction false} BlankBehind(l: string, rest: string)
    requires l != "" && l[|l| - 1] == '\n' && NoBlankLine(l)
    ensures BlankLine(l + rest) == From(|l|, BlankLine(rest))
    decreases |l|
  {
    hide LineLength, BlankLine;
    var n := LineLength(l);
    FirstOfMore(l, rest);
    FirstLine(l + rest, n);
    if l[n..] != "" {
      BlankBehind(l[n..], rest);
    }
  }

  lemma BlankAtOnce(body: string)
    ensures BlankLine(CRLF + body) == Some(0)
  {
    LineLengthIs(CRLF + body, 2);
    hide LineLength;
    FirstLine(CRLF + body, 2);
  }

  lemma BlockParts(lines: seq<string>, body: string)
    ensures lines == [] ==> Block(lines) + body == CRLF + body && |Flatten(lines)| == 0
    ensures lines != [] ==> Block(lines) + body == lines[0] + (Block(lines[1..]) + body)
                            && |Flatten(lines)| == |lines[0]| + |Flatten(lines[1..])|
  {
    if lines != [] {
      var a, b := lines[0], Flatten(lines[1..]);
      assert a + b + CRLF + body == a + (b + CRLF + body);
    }
  }

  lemma {:induction false} BlankLineOf(lines: seq<string>, body: string)
    requires forall i :: 0 <= i < |lines| ==> IsLogical(lines[i]) && NoBlankLine(lines[i])
    ensures BlankLine(Block(lines) + body) == Some(|Flatten(lines)|)
  {
    hide BlankLine, Block, Flatten, NoBlankLine;
    BlockParts(lines, body);
    if lines == [] {
      BlankAtOnce(body);
    } else {
      BlankBehind(lines[0], Block(lines[1..]) + body);
      BlankLineOf(lines[1..], body);
    }
  }

  /** A reply that is compressed goes out as a header that announces the compressed body, and that body. */
  lemma CompressedReply(lines: seq<string>, body: string, z: string)
    requires forall i :: 0 <= i < |lines| ==> IsLogical(lines[i]) && NoBlankLine(lines[i])
    requires |Block(lines) + body| > 1400
    ensures Outgoing(Block(lines) + body, true, false, Compression(false, true, Some(z)))
         == Block(NewLines(lines, |z|)) + z
  {
    BlankLineOf(lines, body);
    assert (Block(lines) + body)[..|Flatten(lines)| + 2] == Block(lines);
    RewrittenHeader(lines, |z|);
  }
}
