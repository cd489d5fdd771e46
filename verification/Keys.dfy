/**
 Keystrokes: the browser encodes them as UTF-8 in hexadecimal digits and sends them in one request at a time;
 the server decodes the digits and writes the bytes to the terminal.
 */
module Keys {
  import opened Bytes
  import opened Text
  import opened Utf8
  import opened Url

  function Hex(bytes: seq<byte>): string
  {
    if bytes == [] then "" else [HexDigit(bytes[0] / 16), HexDigit(bytes[0] % 16)] + Hex(bytes[1..])
  }

  predicate IsHex(s: string)
  {
    |s| % 2 == 0 && forall i :: 0 <= i < |s| ==> HexValue(s[i]) >= 0
  }

  /** What the server makes of the keys: pairs of digits, up to the first character that is none. */
  function HexDecode(s: string): (bytes: seq<byte>)
    ensures |bytes| <= |s| / 2
  {
    if |s| < 2 || HexValue(s[0]) < 0 || HexValue(s[1]) < 0 then []
    else [16 * HexValue(s[0]) + HexValue(s[1])] + HexDecode(s[2..])
  }

  lemma {:induction false} HexIsHex(bytes: seq<byte>)
    ensures IsHex(Hex(bytes)) && HexDecode(Hex(bytes)) == bytes
  {
    if bytes != [] {
      var hi, lo := bytes[0] / 16, bytes[0] % 16;
      HexDigitValue(hi);
      HexDigitValue(lo);
      HexIsHex(bytes[1..]);
      var s := [HexDigit(hi), HexDigit(lo)] + Hex(bytes[1..]);
      assert s[2..] == Hex(bytes[1..]);
      assert forall i :: 2 <= i < |s| ==> s[i] == Hex(bytes[1..])[i - 2];
      assert bytes == [bytes[0]] + bytes[1..];
    }
  }

  lemma HexDecodePair(s: string, b: string)
    requires IsHex(s) && s != ""
    ensures HexDecode(s + b) == [16 * HexValue(s[0]) + HexValue(s[1])] + HexDecode(s[2..] + b)
    ensures HexDecode(s) == [16 * HexValue(s[0]) + HexValue(s[1])] + HexDecode(s[2..])
    ensures IsHex(s[2..])
  {
    assert (s + b)[2..] == s[2..] + b;
    assert forall i :: 0 <= i < |s| - 2 ==> s[2..][i] == s[i + 2];
  }

  lemma {:induction false} HexDecodeAppend(a: string, b: string)
    requires IsHex(a)
    ensures HexDecode(a + b) == HexDecode(a) + HexDecode(b)
    decreases |a|
  {
    if a == "" {
      assert a + b == b;
    } else {
      HexDecodePair(a, b);
      hide HexDecode;
      HexDecodeAppend(a[2..], b);
      var first: seq<byte> := [16 * HexValue(a[0]) + HexValue(a[1])];
      assert first + (HexDecode(a[2..]) + HexDecode(b)) == first + HexDecode(a[2..]) + HexDecode(b);
    }
  }

  lemma IsHexAppend(a: string, b: string)
    requires IsHex(a) && IsHex(b)
    ensures IsHex(a + b)
  {
  }

  lemma {:induction false} HexAppend(a: seq<byte>, b: seq<byte>)
    ensures Hex(a + b) == Hex(a) + Hex(b)
  {
    if a == [] {
      assert a + b == b;
    } else {
      assert (a + b)[1..] == a[1..] + b;
      HexAppend(a[1..], b);
    }
  }

  /** The bytes that the server gets out of all the requests, in turn. */
  function Received(requests: seq<string>): seq<byte>
  {
    if requests == [] then [] else Received(requests[..|requests| - 1]) + HexDecode(requests[|requests| - 1])
  }

  // ---- What a run means ----

  /** The browser's side of the channel for keys. */
  datatype State = State(
    connected: bool,
    session: Option<string>,
    pending: string,
    inFlight: bool,
    accepted: seq<code>,      // what has been typed since the last reconnect, while connected
    requests: seq<string>,    // the keys that have been sent since then
    outstanding: nat,         // how many of these requests have not been answered
    stale: nat)               // unanswered requests from before

  /** The page has been loaded. If a session is named in its URL, the first event is `Polled`. */
  const START := State(false, None, "", false, [], [], 0, 0)

  /** A poll is answered, which is what lets keys in; its output has been shown, and the session of the reply is
      looked at; the session is closed; the user reconnects; the user types, or the terminal answers a query;
      the window gets another size; a reply to a request with keys arrives, since the last reconnect or from
      before it. */
  datatype Event =
    | PollAnswered | Polled(response: Option<string>) | SessionClosed | Reconnect
    | Typed(ch: seq<code>) | Resized | Reply | StaleReply

  /** Keys are dropped without a connection, kept while they have to wait, and sent otherwise. */
  function Sent(s: State, keys: string, typed: seq<code>): State
  {
    if !s.connected then s
    else if s.inFlight || s.session == None then
      s.(pending := s.pending + keys, accepted := s.accepted + typed)
    else
      s.(pending := "", inFlight := true, accepted := s.accepted + typed,
         requests := s.requests + [s.pending + keys], outstanding := s.outstanding + 1)
  }

  function Loaded(s: State): State
  {
    var s1 := s.(inFlight := false);
    if s.pending == "" then s1 else Sent(s1, "", [])
  }

  function Closed(s: State): State
  {
    s.(connected := false, session := None)
  }

  function Step(s: State, event: Event): State
  {
    match event
    case PollAnswered => s.(connected := true)
    case Polled(response) =>
      if response == None || (s.session.Some? && s.session != response) then Closed(s) else s.(session := response)
    case SessionClosed => Closed(s)
    case Reconnect =>
      if s.session.Some? then s
      else State(s.connected, None, "", false, [], [], 0, s.stale + s.outstanding)
    case Typed(ch) => Sent(s, Hex(Encode(ch)), ch)
    case Resized => if s.session.Some? then Sent(s, "", []) else s
    case Reply => if s.outstanding == 0 then s else Loaded(s.(outstanding := s.outstanding - 1))
    case StaleReply => if s.stale == 0 then s else Loaded(s.(stale := s.stale - 1))
  }

  function After(events: seq<Event>): State
  {
    if events == [] then START else Step(After(events[..|events| - 1]), events[|events| - 1])
  }

  /** Nothing is lost, doubled or reordered: what the server has got and what is kept are what was typed. */
  ghost predicate InOrder(s: State)
  {
    IsHex(s.pending) && Received(s.requests) + HexDecode(s.pending) == Encode(s.accepted)
  }

  /** At most one request is in flight, and the flag says whether there is one. */
  predicate OneAtATime(s: State)
  {
    s.outstanding <= 1 && (s.inFlight <==> s.outstanding == 1)
  }

  lemma SentInOrder(s: State, keys: string, typed: seq<code>)
    requires InOrder(s) && IsHex(keys) && HexDecode(keys) == Encode(typed)
    ensures InOrder(Sent(s, keys, typed))
  {
    hide HexDecode, Encode, Received, IsHex;
    KeysAdded(s.requests, s.pending, keys, s.accepted, typed);
  }

  lemma StepInOrder(s: State, event: Event)
    requires InOrder(s)
    ensures InOrder(Step(s, event))
  {
    hide HexDecode, Received, Encode, IsHex, Hex, Sent;
    NothingSent(s);
    match event
    case Typed(ch) =>
      HexIsHex(Encode(ch));
      SentInOrder(s, Hex(Encode(ch)), ch);
    case Resized => SentInOrder(s, "", []);
    case Reply =>
      if s.outstanding > 0 {
        SentInOrder(s.(outstanding := s.outstanding - 1, inFlight := false), "", []);
      }
    case StaleReply =>
      if s.stale > 0 {
        SentInOrder(s.(stale := s.stale - 1, inFlight := false), "", []);
      }
    case _ =>
  }

  lemma NothingSent(s: State)
    ensures IsHex("") && HexDecode("") == Encode([]) && Received([]) + HexDecode("") == Encode([])
    ensures s.accepted + [] == s.accepted
  {
  }

  /** Over any run, whatever happens to the connection and to the replies. */
  lemma {:induction false} AlwaysInOrder(events: seq<Event>)
    ensures InOrder(After(events))
  {
    hide Step, InOrder;
    if events == [] {
      StartInOrder();
    } else {
      AlwaysInOrder(events[..|events| - 1]);
      StepInOrder(After(events[..|events| - 1]), events[|events| - 1]);
    }
  }

  lemma StartInOrder()
    ensures InOrder(START)
  {
    NothingSent(START);
  }

  lemma RestartInOrder(connected: bool, stale: nat)
    ensures InOrder(State(connected, None, "", false, [], [], 0, stale))
  {
    NothingSent(START);
  }

  // ---- How many requests are in flight ----

  /** The most requests that have ever been in flight. */
  function MostInFlight(events: seq<Event>): nat
  {
    var now := After(events).outstanding;
    if events == [] then now
    else
      var before := MostInFlight(events[..|events| - 1]);
      if now < before then before else now
  }

  predicate Open(s: State)
  {
    s.connected && s.session.Some?
  }

  /** Keys, or the size of the window, that go out at once if nothing is in flight. */
  predicate Sends(s: State, event: Event)
  {
    Open(s) && (event.Typed? || event.Resized?)
  }

  /** The `i`-th event is a reply from before a reconnect, and a request is in flight; the browser takes it for
      the reply to that request. Up to the `j`-th event, this request is neither answered nor forgotten by a
      reconnect. */
  ghost predicate Mistaken(events: seq<Event>, i: nat, j: nat)
    requires i <= j <= |events| && i < |events|
  {
    && events[i] == StaleReply && After(events[..i]).stale > 0 && After(events[..i]).outstanding == 1
    && forall k :: i < k < j ==> events[k] != Reply && (events[k] == Reconnect ==> After(events[..k]).session.Some?)
  }

  /** A reply is mistaken for another one, and then keys that were kept, or new ones, do not wait. */
  ghost predicate Overtaken(events: seq<Event>)
  {
    exists i: nat, j: nat | i <= j < |events| ::
      && Mistaken(events, i, j)
      && if i == j then Open(After(events[..i])) && After(events[..i]).pending != ""
         else Sends(After(events[..j]), events[j])
  }

  lemma PrefixOf(events: seq<Event>, i: nat)
    requires i < |events|
    ensures events[..|events| - 1][..i] == events[..i]
  {
  }

  lemma MistakenLonger(events: seq<Event>, i: nat, j: nat)
    requires i <= j < |events| && i < |events| - 1
    ensures Mistaken(events[..|events| - 1], i, j) <==> Mistaken(events, i, j)
  {
    hide After;
    var init := events[..|events| - 1];
    forall k | 0 <= k < |init|
      ensures init[..k] == events[..k]
    {
      PrefixOf(events, k);
    }
  }

  lemma OvertakenLonger(events: seq<Event>)
    requires events != [] && Overtaken(events[..|events| - 1])
    ensures Overtaken(events)
  {
    hide After, Mistaken;
    var init := events[..|events| - 1];
    var i: nat, j: nat :| i <= j < |init| && Mistaken(init, i, j)
      && if i == j then Open(After(init[..i])) && After(init[..i]).pending != "" else Sends(After(init[..j]), init[j]);
    MistakenLonger(events, i, j);
    PrefixOf(events, i);
    PrefixOf(events, j);
  }

  /** One request is in flight, but the browser does not know. */
  predicate Unaware(s: State)
  {
    s.outstanding == 1 && !s.inFlight
  }

  /** What an event does to a browser that knows about its request. */
  lemma StepAware(s: State, event: Event)
    requires OneAtATime(s)
    ensures var s' := Step(s, event);
            if event == StaleReply && s.stale > 0 && s.outstanding == 1 then
              if Open(s) && s.pending != "" then s'.outstanding == 2 else Unaware(s')
            else OneAtATime(s')
  {
  }

  lemma SentKeepsOne(s: State, keys: string, typed: seq<code>)
    ensures OneAtATime(s) ==> OneAtATime(Sent(s, keys, typed))
  {
  }

  lemma StepKeepsOne(s: State)
    ensures OneAtATime(s) ==> OneAtATime(Step(s, Reply))
  {
  }

  /** What an event does to a browser that does not. */
  lemma StepUnaware(s: State, event: Event)
    requires Unaware(s)
    ensures var s' := Step(s, event);
            if event == Reply || (event == Reconnect && s.session == None) then OneAtATime(s')
            else if Sends(s, event) then s'.outstanding == 2
            else if event == StaleReply && s.stale > 0 && Open(s) && s.pending != "" then s'.outstanding == 2
            else Unaware(s')
  {
  }

  /** As long as there has been one request at most, the browser is unaware of it only if it has mistaken a
      reply. */
  lemma {:induction false} HowUnaware(events: seq<Event>)
    ensures 2 <= MostInFlight(events) ==> Overtaken(events)
    ensures MostInFlight(events) <= 1 && !OneAtATime(After(events)) ==>
              Unaware(After(events)) && exists i: nat | i < |events| :: Mistaken(events, i, |events|)
  {
    hide Step, Mistaken, Overtaken;
    if events != [] {
      var n := |events| - 1;
      var init, last := events[..n], events[n];
      var s := After(init);
      HowUnaware(init);
      if 2 <= MostInFlight(init) {
        OvertakenLonger(events);
      } else if OneAtATime(s) {
        StepAware(s, last);
        if last == StaleReply && s.stale > 0 && s.outstanding == 1 {
          MistakenNow(events);
        }
      } else {
        StepUnaware(s, last);
        var i: nat :| i < n && Mistaken(init, i, n);
        StillMistaken(events, i);
        if last == StaleReply && s.stale > 0 {
          MistakenNow(events);
        }
      }
    }
  }

  lemma MistakenNow(events: seq<Event>)
    requires events != []
    requires var n := |events| - 1;
             events[n] == StaleReply && After(events[..n]).stale > 0 && After(events[..n]).outstanding == 1
    ensures Mistaken(events, |events| - 1, |events|)
    ensures Open(After(events[..|events| - 1])) && After(events[..|events| - 1]).pending != "" ==> Overtaken(events)
  {
    assert Mistaken(events, |events| - 1, |events| - 1);
  }

  lemma StillMistaken(events: seq<Event>, i: nat)
    requires i < |events| - 1 && Mistaken(events[..|events| - 1], i, |events| - 1)
    ensures var n := |events| - 1;
            && (Sends(After(events[..n]), events[n]) ==> Overtaken(events))
            && (events[n] != Reply && (events[n] == Reconnect ==> After(events[..n]).session.Some?) ==>
                  Mistaken(events, i, |events|))
  {
    hide After, Step;
    var n := |events| - 1;
    assert events[..n] == events[..|events| - 1];
    MistakenLonger(events, i, n);
  }

  /** A mistake that is followed by keys has had two requests in flight by then. */
  lemma {:induction false} MistakeLasts(events: seq<Event>, i: nat, j: nat)
    requires i < j <= |events| && Mistaken(events, i, j)
    requires MostInFlight(events[..j]) <= 1
    ensures Unaware(After(events[..j]))
  {
    hide Step;
    var k := j - 1;
    assert events[..j][..k] == events[..k] && events[..j][k] == events[k];
    if i == k {
      AwareOrNot(events[..i]);
      if OneAtATime(After(events[..i])) {
        StepAware(After(events[..i]), events[i]);
      } else {
        StepUnaware(After(events[..i]), events[i]);
      }
    } else {
      MistakeLasts(events, i, k);
      StepUnaware(After(events[..k]), events[k]);
    }
  }

  lemma AwareOrNot(events: seq<Event>)
    requires MostInFlight(events) <= 1
    ensures OneAtATime(After(events)) || Unaware(After(events))
  {
    HowUnaware(events);
  }

  lemma {:induction false} MostGrows(events: seq<Event>, n: nat)
    requires n <= |events|
    ensures MostInFlight(events[..n]) <= MostInFlight(events)
    ensures After(events[..n]).outstanding <= MostInFlight(events)
  {
    hide After;
    if n == |events| {
      assert events[..n] == events;
    } else {
      assert events[..|events| - 1][..n] == events[..n];
      MostGrows(events[..|events| - 1], n);
    }
  }

  /** Two requests with keys are in flight in some run if and only if a reply from before a reconnect is mistaken
      for the reply to a request that is in flight, and keys that were kept, or new keys, come before that
      request has been answered. */
  lemma OneAtATimeIff(events: seq<Event>)
    ensures MostInFlight(events) <= 1 <==> !Overtaken(events)
  {
    HowUnaware(events);
    if MostInFlight(events) <= 1 && Overtaken(events) {
      hide Step, MostInFlight, After;
      var i: nat, j: nat :| i <= j < |events| && Mistaken(events, i, j)
        && if i == j then Open(After(events[..i])) && After(events[..i]).pending != ""
           else Sends(After(events[..j]), events[j]);
      NotOvertaken(events, i, j);
    }
  }

  lemma NotOvertaken(events: seq<Event>, i: nat, j: nat)
    requires i <= j < |events| && Mistaken(events, i, j) && MostInFlight(events) <= 1
    ensures !if i == j then Open(After(events[..i])) && After(events[..i]).pending != ""
             else Sends(After(events[..j]), events[j])
  {
    hide Step;
    MostGrows(events, j);
    MostGrows(events, j + 1);
    assert events[..j + 1][..j] == events[..j];
    var s := After(events[..j]);
    if i < j {
      MistakeLasts(events, i, j);
      StepUnaware(s, events[j]);
    } else {
      AwareOrNot(events[..j]);
      if OneAtATime(s) {
        StepAware(s, events[j]);
      } else {
        StepUnaware(s, events[j]);
      }
    }
  }

  /** So one request at a time it is, if no reply from before a reconnect comes while a request is in flight. */
  lemma OneAtATimeIfOnTime(events: seq<Event>)
    requires forall i :: 0 <= i < |events| && events[i] == StaleReply ==> After(events[..i]).outstanding == 0
    ensures MostInFlight(events) <= 1
  {
    hide After, Step, MostInFlight;
    OneAtATimeIff(events);
  }

  lemma AfterMore(events: seq<Event>, event: Event)
    ensures After(events + [event]) == Step(After(events), event)
    ensures After(events + [event]).outstanding <= MostInFlight(events + [event])
  {
    assert (events + [event])[..|events|] == events;
  }

  /** A run in which there are two: the reply to the first key comes after a reconnect, when the second key is in
      flight, and so the third does not wait. */
  lemma TwoInFlight(k1: seq<code>, k2: seq<code>, k3: seq<code>, s1: string, s2: string) returns (events: seq<Event>)
    ensures After(events).outstanding == 2 && 2 <= MostInFlight(events)
    ensures After(events).requests == [Hex(Encode(k2)), Hex(Encode(k3))]
  {
    hide After, MostInFlight, Hex, Encode;
    var start: seq<Event> := [];
    AfterNothing();
    var before := Connected(start, s1);
    AfterMore(before, Typed(k1));
    AfterMore(before + [Typed(k1)], SessionClosed);
    AfterMore(before + [Typed(k1)] + [SessionClosed], Reconnect);
    assert After(before + [Typed(k1)] + [SessionClosed] + [Reconnect]) == State(false, None, "", false, [], [], 0, 1);
    var again := Connected(before + [Typed(k1)] + [SessionClosed] + [Reconnect], s2);
    AfterMore(again, Typed(k2));
    AfterMore(again + [Typed(k2)], StaleReply);
    AfterMore(again + [Typed(k2)] + [StaleReply], Typed(k3));
    assert "" + Hex(Encode(k2)) == Hex(Encode(k2)) && "" + Hex(Encode(k3)) == Hex(Encode(k3));
    events := again + [Typed(k2)] + [StaleReply] + [Typed(k3)];
  }

  lemma AfterNothing()
    ensures After([]) == START
  {
  }

  lemma Connected(events: seq<Event>, session: string) returns (longer: seq<Event>)
    requires After(events).session == None
    ensures After(longer) == After(events).(connected := true, session := Some(session))
  {
    hide After, MostInFlight;
    AfterMore(events, PollAnswered);
    AfterMore(events + [PollAnswered], Polled(Some(session)));
    longer := events + [PollAnswered] + [Polled(Some(session))];
  }

  // ---- As it runs ----

  class ShellInABox {
    var connected: bool
    var session: Option<string>
    var pendingKeys: string
    var keysInFlight: bool

    ghost var accepted: seq<code>
    ghost var requests: seq<string>
    var outstanding: nat          // the XMLHttpRequests that are under way
    var stale: nat

    ghost function Now(): State
      reads this
    {
      State(connected, session, pendingKeys, keysInFlight, accepted, requests, outstanding, stale)
    }

    constructor ()
      ensures Now() == START
    {
      connected, session, pendingKeys, keysInFlight := false, None, "", false;
      accepted, requests, outstanding, stale := [], [], 0, 0;
    }

    /** Sends keys, unless a request is in flight or there is no session. */
    method SendKeys(keys: string, ghost typed: seq<code>)
      requires InOrder(Now()) && IsHex(keys) && HexDecode(keys) == Encode(typed)
      modifies this
      ensures Now() == Sent(old(Now()), keys, typed) && InOrder(Now())
      ensures old(OneAtATime(Now())) ==> OneAtATime(Now())
    {
      hide HexDecode, Received, Encode, IsHex, InOrder, OneAtATime;
      SentInOrder(Now(), keys, typed);
      SentKeepsOne(Now(), keys, typed);
      if connected {
        accepted := accepted + typed;
        if keysInFlight || session == None {
          pendingKeys := pendingKeys + keys;
        } else {
          keysInFlight := true;
          var all := pendingKeys + keys;
          pendingKeys := "";
          requests, outstanding := requests + [all], outstanding + 1;
        }
      }
    }

    /** The reply to a request has arrived, or what is taken for it. */
    method KeyPressLoaded()
      requires InOrder(Now())
      modifies this
      ensures Now() == Loaded(old(Now())) && InOrder(Now())
    {
      NothingSent(Now());
      keysInFlight := false;
      if pendingKeys != "" {
        SendKeys("", []);
      }
    }

    method Answered()
      requires InOrder(Now()) && outstanding > 0
      modifies this
      ensures Now() == Step(old(Now()), Reply) && InOrder(Now())
      ensures old(OneAtATime(Now())) ==> OneAtATime(Now())
    {
      hide HexDecode, Received, Encode, IsHex, Sent;
      StepKeepsOne(Now());
      outstanding := outstanding - 1;
      KeyPressLoaded();
    }

    /** The reply to a request from before the last reconnect arrives. If keys have been kept for the request
        that is in flight just then, they do not wait for it any more. */
    method StaleAnswered()
      requires InOrder(Now()) && OneAtATime(Now()) && stale > 0
      modifies this
      ensures Now() == Step(old(Now()), StaleReply) && InOrder(Now())
      ensures outstanding <= 1 <==>
                old(outstanding) == 0 || !old(connected) || old(session).None? || old(pendingKeys) == ""
      ensures OneAtATime(Now()) <==> old(outstanding) == 0
    {
      StaleLoaded();
    }

    method StaleLoaded()
      requires InOrder(Now()) && stale > 0
      modifies this
      ensures Now() == Step(old(Now()), StaleReply) && InOrder(Now())
    {
      hide HexDecode, Received, Encode, IsHex, Sent;
      stale := stale - 1;
      KeyPressLoaded();
    }

    /** A poll has been answered: the first thing that happens is that keys are accepted. */
    method OnReadyStateChange()
      modifies this`connected
      ensures Now() == Step(old(Now()), PollAnswered)
    {
      connected := true;
    }

    /** After the output has been shown, the session of the reply is looked at. */
    method OnOutputShown(response: Option<string>)
      modifies this`connected, this`session
      ensures Now() == Step(old(Now()), Polled(response))
    {
      if response == None || (session.Some? && session != response) {
        CloseSession();
      } else {
        session := response;
      }
    }

    method CloseSession()
      modifies this`connected, this`session
      ensures Now() == Step(old(Now()), SessionClosed)
    {
      connected := false;
      session := None;
    }

    /** Starts again. Requests that are in flight are forgotten. */
    method Restart()
      modifies this
      ensures Now() == Step(old(Now()), Reconnect)
      ensures old(session) == None ==> OneAtATime(Now()) && stale == old(stale) + old(outstanding)
      ensures old(InOrder(Now())) ==> InOrder(Now())
    {
      hide HexDecode, Received, Encode, IsHex, InOrder;
      RestartInOrder(connected, stale + outstanding);
      if session == None {
        pendingKeys := "";
        keysInFlight := false;
        stale, outstanding := stale + outstanding, 0;
        accepted, requests := [], [];
      }
    }

    /** The user types, or the terminal answers a query. */
    method KeysPressed(ch: seq<code>)
      requires InOrder(Now())
      modifies this
      ensures Now() == Step(old(Now()), Typed(ch)) && InOrder(Now())
    {
      var s := HexDigits(ch);
      HexIsHex(Encode(ch));
      SendKeys(s, ch);
    }

    /** The size of the terminal goes out with the next keys. */
    method WindowResized()
      requires InOrder(Now())
      modifies this
      ensures Now() == Step(old(Now()), Resized) && InOrder(Now())
    {
      if session.Some? {
        NothingSent(Now());
        SendKeys("", []);
      }
    }
  }

  /** Replies that nobody waits for do not arrive. */
  method Handle(box: ShellInABox, event: Event)
    requires InOrder(box.Now())
    modifies box
    ensures box.Now() == Step(old(box.Now()), event) && InOrder(box.Now())
  {
    StepInOrder(box.Now(), event);
    match event {
      case PollAnswered => box.OnReadyStateChange();
      case Polled(response) => box.OnOutputShown(response);
      case SessionClosed => box.CloseSession();
      case Reconnect => box.Restart();
      case Typed(ch) => box.KeysPressed(ch);
      case Resized => box.WindowResized();
      case Reply =>
        if box.outstanding > 0 {
          box.Answered();
        }
      case StaleReply =>
        if box.stale > 0 {
          box.StaleLoaded();
        }
    }
  }

  /** Over any run, what the server has got and what is kept are together what was typed since the last reconnect;
      and there have been two requests in flight if and only if one has been overtaken. */
  method Run(events: seq<Event>) returns (box: ShellInABox, most: nat)
    ensures fresh(box) && box.Now() == After(events)
    ensures Received(box.requests) + HexDecode(box.pendingKeys) == Encode(box.accepted)
    ensures most == MostInFlight(events) && (most <= 1 <==> !Overtaken(events))
  {
    hide Step, InOrder;
    StartInOrder();
    box := new ShellInABox();
    most := 0;
    var i := 0;
    while i < |events|
      invariant i <= |events| && fresh(box) && box.Now() == After(events[..i]) && InOrder(box.Now())
      invariant most == MostInFlight(events[..i])
    {
      Handle(box, events[i]);
      assert events[..i + 1][..i] == events[..i];
      most := if most < box.outstanding then box.outstanding else most;
      i := i + 1;
    }
    assert events[..i] == events;
    OneAtATimeIff(events);
    KeptInOrder(box.Now());
  }

  lemma KeptInOrder(s: State)
    requires InOrder(s)
    ensures Received(s.requests) + HexDecode(s.pending) == Encode(s.accepted)
  {
  }

  /** The loop in `keysPressed`. */
  method HexDigits(ch: seq<code>) returns (s: string)
    ensures s == Hex(Encode(ch))
  {
    s := "";
    var i := 0;
    assert ch[..0] == [];
    while i < |ch|
      invariant i <= |ch| && s == Hex(Encode(ch[..i]))
    {
      assert ch[..i + 1] == ch[..i] + [ch[i]];
      EncodeAppend(ch[..i], ch[i]);
      HexAppend(Encode(ch[..i]), EncodeOne(ch[i]));
      s := s + HexOf(ch[i]);
      i := i + 1;
    }
    assert ch[..|ch|] == ch;
  }

  /** The digits of one character, from its bits. */
  function HexOf(c: code): (digits: string)
    ensures digits == Hex(EncodeOne(c))
  {
    if c < 128 then
      HexPairs1(c);
      [HexDigit(c / 0x10), HexDigit(c % 0x10)]
    else if c < 0x800 then
      HexPairs2(c);
      [HexDigit(0xC + c / 0x400), HexDigit(c / 0x40 % 0x10), HexDigit(0x8 + c / 0x10 % 4), HexDigit(c % 0x10)]
    else if c < 0x1_0000 then
      HexPairs3(c);
      ['E', HexDigit(c / 0x1000), HexDigit(0x8 + c / 0x400 % 4), HexDigit(c / 0x40 % 0x10),
       HexDigit(0x8 + c / 0x10 % 4), HexDigit(c % 0x10)]
    else
      HexPairs4(c);
      ['F', HexDigit(c / 0x4_0000), HexDigit(0x8 + c / 0x1_0000 % 4), HexDigit(c / 0x1000 % 0x10),
       HexDigit(0x8 + c / 0x400 % 4), HexDigit(c / 0x40 % 0x10), HexDigit(0x8 + c / 0x10 % 4), HexDigit(c % 0x10)]
  }

  lemma HexFirst(b: byte, rest: seq<byte>)
    ensures Hex([b] + rest) == [HexDigit(b / 16), HexDigit(b % 16)] + Hex(rest)
    ensures Hex([b]) == [HexDigit(b / 16), HexDigit(b % 16)]
  {
    assert ([b] + rest)[1..] == rest;
  }

  lemma HexPairs1(c: code)
    requires c < 128
    ensures Hex(EncodeOne(c)) == [HexDigit(c / 0x10), HexDigit(c % 0x10)]
  {
    HexFirst(c, []);
  }

  /** A byte that continues a character. */
  lemma HexTail(n: int)
    requires 0 <= n
    ensures (0x80 + n % 0x40) / 16 == 0x8 + n / 0x10 % 4 && (0x80 + n % 0x40) % 16 == n % 0x10
  {
    var q, r := n / 0x40, n % 0x40;
    assert n == 0x10 * (4 * q + r / 0x10) + r % 0x10;
    assert n / 0x10 == 4 * q + r / 0x10 && n % 0x10 == r % 0x10;
    assert 0x80 + r == 0x10 * (8 + r / 0x10) + r % 0x10;
  }

  lemma HexPairs2(c: code)
    requires 128 <= c < 0x800
    ensures Hex(EncodeOne(c))
         == [HexDigit(0xC + c / 0x400), HexDigit(c / 0x40 % 0x10), HexDigit(0x8 + c / 0x10 % 4), HexDigit(c % 0x10)]
  {
    var a: byte, b: byte := 0xC0 + c / 0x40, 0x80 + c % 0x40;
    HexTail(c);
    HexFirst(a, [b]);
    HexFirst(b, []);
    assert EncodeOne(c) == [a] + [b];
    assert a / 16 == 0xC + c / 0x400 && a % 16 == c / 0x40 % 0x10;
  }

  lemma HexPairs3(c: code)
    requires 0x800 <= c < 0x1_0000
    ensures Hex(EncodeOne(c))
         == ['E', HexDigit(c / 0x1000), HexDigit(0x8 + c / 0x400 % 4), HexDigit(c / 0x40 % 0x10),
             HexDigit(0x8 + c / 0x10 % 4), HexDigit(c % 0x10)]
  {
    hide Hex;
    var a: byte, b: byte, d: byte := 0xE0 + c / 0x1000, 0x80 + c / 0x40 % 0x40, 0x80 + c % 0x40;
    HexTail(c);
    HexTail(c / 0x40);
    HexFirst(a, [b] + [d]);
    HexFirst(b, [d]);
    HexFirst(d, []);
    assert EncodeOne(c) == [a] + ([b] + [d]);
    assert c / 0x40 / 0x10 == c / 0x400;
  }

  lemma HexPairs4(c: code)
    requires 0x1_0000 <= c
    ensures Hex(EncodeOne(c))
         == ['F', HexDigit(c / 0x4_0000), HexDigit(0x8 + c / 0x1_0000 % 4), HexDigit(c / 0x1000 % 0x10),
             HexDigit(0x8 + c / 0x400 % 4), HexDigit(c / 0x40 % 0x10), HexDigit(0x8 + c / 0x10 % 4), HexDigit(c % 0x10)]
  {
    hide Hex, HexDigit;
    var a: byte, b: byte := 0xF0 + c / 0x4_0000, 0x80 + c / 0x1000 % 0x40;
    var d: byte, e: byte := 0x80 + c / 0x40 % 0x40, 0x80 + c % 0x40;
    HexParts4(c);
    HexFirst(a, [b] + ([d] + [e]));
    HexFirst(b, [d] + [e]);
    HexFirst(d, [e]);
    HexFirst(e, []);
    assert EncodeOne(c) == [a] + ([b] + ([d] + [e]));
    LetterF();
  }

  lemma LetterF()
    ensures HexDigit(15) == 'F'
  {
  }

  lemma HexParts4(c: code)
    requires 0x1_0000 <= c
    ensures var a, b, d, e := 0xF0 + c / 0x4_0000, 0x80 + c / 0x1000 % 0x40, 0x80 + c / 0x40 % 0x40, 0x80 + c % 0x40;
            && a / 16 == 15 && a % 16 == c / 0x4_0000
            && b / 16 == 0x8 + c / 0x1_0000 % 4 && b % 16 == c / 0x1000 % 0x10
            && d / 16 == 0x8 + c / 0x400 % 4 && d % 16 == c / 0x40 % 0x10
            && e / 16 == 0x8 + c / 0x10 % 4 && e % 16 == c % 0x10
  {
    HexTail(c);
    HexTail(c / 0x40);
    HexTail(c / 0x1000);
    assert c / 0x40 / 0x10 == c / 0x400 && c / 0x1000 / 0x10 == c / 0x1_0000;
  }

  lemma KeysAdded(requests: seq<string>, pending: string, keys: string, accepted: seq<code>, typed: seq<code>)
    requires IsHex(pending) && Received(requests) + HexDecode(pending) == Encode(accepted)
    requires IsHex(keys) && HexDecode(keys) == Encode(typed)
    ensures IsHex(pending + keys) && Received(requests) + HexDecode(pending + keys) == Encode(accepted + typed)
    ensures IsHex("") && Received(requests + [pending + keys]) + HexDecode("") == Encode(accepted + typed)
  {
    HexDecodeAppend(pending, keys);
    IsHexAppend(pending, keys);
    EncodeConcat(accepted, typed);
    Associative(Received(requests), HexDecode(pending), HexDecode(keys));
    ReceivedMore(requests, pending + keys);
    Associative(Received(requests + [pending + keys]), [], []);
  }

  /** Once nothing is pending, the terminal has got exactly what was typed. */
  lemma AllArrives(requests: seq<string>, accepted: seq<code>)
    requires Received(requests) + HexDecode("") == Encode(accepted)
    ensures Utf8.Decode(Received(requests)) == Some(accepted)
  {
    Associative(Received(requests), [], []);
    RoundTrip(accepted);
  }

  lemma {:induction false} EncodeConcat(a: seq<code>, b: seq<code>)
    ensures Encode(a + b) == Encode(a) + Encode(b)
  {
    if a == [] {
      assert a + b == b;
    } else {
      assert (a + b)[1..] == a[1..] + b;
      EncodeConcat(a[1..], b);
    }
  }

  lemma Associative(a: seq<byte>, b: seq<byte>, c: seq<byte>)
    ensures a + (b + c) == a + b + c && a + [] == a
  {
  }

  lemma ReceivedMore(requests: seq<string>, keys: string)
    ensures Received(requests + [keys]) == Received(requests) + HexDecode(keys)
  {
    assert (requests + [keys])[..|requests|] == requests;
  }

  // ---- The server ----

  /** The loop in `dataHandler`. Half as many bytes as there are digits are enough. */
  method DecodeKeys(keys: string) returns (keyCodes: array<byte>, len: nat)
    ensures keyCodes.Length == |keys| / 2 && len <= keyCodes.Length && keyCodes[..len] == HexDecode(keys)
  {
    keyCodes := new byte[|keys| / 2];
    len := 0;
    var ptr: nat := 0;
    assert keys[0..] == keys;
    while ptr < |keys| && IsDigit(keys[ptr]) && ptr + 1 < |keys| && IsDigit(keys[ptr + 1])
      invariant ptr <= |keys| && ptr == 2 * len && len <= keyCodes.Length
      invariant keyCodes[..len] + HexDecode(keys[ptr..]) == HexDecode(keys)
    {
      ghost var done := keyCodes[..len];
      DecodePair(keys, ptr);
      keyCodes[len] := 16 * Digit(keys[ptr]) + Digit(keys[ptr + 1]);
      assert keyCodes[..len + 1] == done + [keyCodes[len]];
      Associative(done, [keyCodes[len]], HexDecode(keys[ptr + 2..]));
      ptr := ptr + 2;
      len := len + 1;
    }
    DecodeEnd(keys, ptr);
    assert keyCodes[..len] + [] == keyCodes[..len];
  }

  predicate IsDigit(c: char)
  {
    !(c < '0' || ('9' < c && c < 'A') || ('F' < c && c < 'a') || 'f' < c)
  }

  /** The value of a digit, from its bits. */
  function Digit(c: char): int
  {
    c as int % 16 + 9 * (if c > '9' then 1 else 0)
  }

  lemma DigitIs(c: char)
    ensures IsDigit(c) <==> HexValue(c) >= 0
    ensures IsDigit(c) ==> Digit(c) == HexValue(c)
  {
  }

  lemma DecodePair(keys: string, ptr: nat)
    requires ptr + 1 < |keys| && IsDigit(keys[ptr]) && IsDigit(keys[ptr + 1])
    ensures 0 <= 16 * Digit(keys[ptr]) + Digit(keys[ptr + 1]) < 0x100
    ensures HexDecode(keys[ptr..]) == [16 * Digit(keys[ptr]) + Digit(keys[ptr + 1])] + HexDecode(keys[ptr + 2..])
  {
    DigitIs(keys[ptr]);
    DigitIs(keys[ptr + 1]);
    assert keys[ptr..][2..] == keys[ptr + 2..];
  }

  lemma DecodeEnd(keys: string, ptr: nat)
    requires ptr <= |keys| && !(ptr < |keys| && IsDigit(keys[ptr]) && ptr + 1 < |keys| && IsDigit(keys[ptr + 1]))
    ensures HexDecode(keys[ptr..]) == []
  {
    if ptr + 1 < |keys| {
      DigitIs(keys[ptr]);
      DigitIs(keys[ptr + 1]);
    }
  }

  // ---- The form in between ----

  lemma {:induction false} UnescapePlain(s: string)
    requires '%' !in s && '+' !in s
    ensures Unescape(s) == s
  {
    if s != "" {
      assert s[0] in s;
      UnescapePlain(s[1..]);
    }
  }

  lemma PlainField(s: string)
    requires '%' !in s && '+' !in s && NUL !in s
    ensures CString(Unescape(s)) == s
  {
    UnescapePlain(s);
    assert s[..|s|] == s;
    FindIs(s, NUL, |s|);
  }

  const KEYS: string := "keys"

  lemma KeysField(m: map<string, Option<string>>, keys: string)
    requires IsHex(keys)
    ensures WithField(m, KEYS + "=" + keys) == m[KEYS := Some(keys)]
  {
    hide Unescape, CString, Find;
    var field := KEYS + "=" + keys;
    assert field[..4] == KEYS && field[5..] == keys;
    FindIs(field, '=', 4);
    PlainField(KEYS);
    assert forall i :: 0 <= i < |keys| ==> keys[i] != '%' && keys[i] != '+' && keys[i] != NUL;
    PlainField(keys);
  }

  lemma LastField(m: map<string, Option<string>>, q: string, start: nat, keys: string)
    requires IsHex(keys) && start <= |q| && q[start..] == KEYS + "=" + keys
    ensures WithQuery(m, q, start) == m[KEYS := Some(keys)]
  {
    var last := KEYS + "=" + keys;
    assert forall i :: 0 <= i < |last| ==> last[i] != '&' && last[i] != NUL;
    assert forall i :: start <= i < |q| ==> q[i] == q[start..][i - start];
    assert FieldEnd(q, start) == |q|;
    KeysField(m, keys);
  }

  lemma OneField(m: map<string, Option<string>>, q: string, start: nat) returns (m': map<string, Option<string>>)
    requires start <= |q| && FieldEnd(q, start) < |q| && q[FieldEnd(q, start)] == '&'
    ensures WithQuery(m, q, start) == WithQuery(m', q, FieldEnd(q, start) + 1)
  {
    m' := WithField(m, q[start..FieldEnd(q, start)]);
  }

  /** The fields in front of an ampersand are read before what is behind it. */
  lemma {:induction false} FieldsInFront(m: map<string, Option<string>>, q: string, n: nat, start: nat)
    returns (m': map<string, Option<string>>)
    requires start <= n < |q| && q[n] == '&' && forall i :: start <= i < n ==> q[i] != NUL
    ensures WithQuery(m, q, start) == WithQuery(m', q, n + 1)
    decreases n - start
  {
    m' := OneField(m, q, start);
    if FieldEnd(q, start) < n {
      m' := FieldsInFront(m', q, n, FieldEnd(q, start) + 1);
    }
  }

  /** Whatever is in front of them in the form, the server reads the keys that were sent. */
  lemma KeysArrive(m: map<string, Option<string>>, front: string, keys: string)
    requires IsHex(keys) && NUL !in front
    ensures var received := WithQuery(m, front + "&" + (KEYS + "=" + keys), 0);
            KEYS in received && received[KEYS] == Some(keys)
  {
    hide WithQuery, IsHex;
    var q := front + "&" + (KEYS + "=" + keys);
    assert q[|front|] == '&' && q[|front| + 1..] == KEYS + "=" + keys;
    assert forall i :: 0 <= i < |front| ==> q[i] == front[i];
    var m' := FieldsInFront(m, q, |front|, 0);
    LastField(m', q, |front| + 1, keys);
  }
}
