/**
 The tables of the event loop: two arrays side by side, one with what `poll` needs and one with the
 connections. Entry `i` of the table is `pollFds[i + 1]` and `connections[i]`; `pollFds[0]` is the socket
 that listens. Entries are swapped, marked as deleted and moved up, and all the time the table has to
 stand for the same finite map from descriptors to connections.
 */
module EventLoop {
  import opened Bytes
  import opened Text

  const POLLIN: int := 1

  datatype PollFd = PollFd(fd: int, events: int, revents: int)

  /** A connection; `arg` stands for the handler together with its argument. */
  datatype Connection<C> = Connection(deleted: bool, timeout: nat, arg: C)

  datatype Entry<C> = Entry(poll: PollFd, conn: Connection<C>)

  /** What a handler does to the tables while it runs, to other connections or its own. A descriptor that is open is
      never given out again; there is nothing to be done about one that is not open. */
  datatype Effect<C> =
    | Opens(fd: int, arg: C)
    | Closes(fd: int)
    | SetEvents(fd: int, events: int)
    | SetTimeout(fd: int, delay: int)

  /** What a handler answers: whether the connection is kept, and which events it wants. */
  datatype Reaction<C> = Reaction(keep: bool, events: int, effects: seq<Effect<C>>)

  type Handler<!C> = (C, int, int) -> Reaction<C>

  /** The time, and what memory happens to hold that is not initialized. */
  datatype System = System(now: nat, memory: nat -> int)

  predicate Live<C>(e: Entry<C>, fd: int)
  {
    e.poll.fd == fd && !e.conn.deleted
  }

  /** The table stands for a map: the entries that are not deleted are its items, one entry an item. */
  ghost predicate Agrees<C>(t: seq<Entry<C>>, m: map<int, C>)
  {
    && (forall i :: 0 <= i < |t| && !t[i].conn.deleted ==> t[i].poll.fd in m && m[t[i].poll.fd] == t[i].conn.arg)
    && (forall fd :: fd in m ==> exists i :: 0 <= i < |t| && Live(t[i], fd))
    && (forall i, j :: 0 <= i < j < |t| && !t[i].conn.deleted && !t[j].conn.deleted ==> t[i].poll.fd != t[j].poll.fd)
  }

  /** The earliest deadline that is set, or -1. */
  ghost predicate IsDeadline<C>(t: seq<Entry<C>>, timeout: int)
  {
    && (forall i :: 0 <= i < |t| && t[i].conn.timeout != 0 ==> 0 < timeout <= t[i].conn.timeout)
    && (timeout != -1 ==> exists i :: 0 <= i < |t| && t[i].conn.timeout == timeout != 0)
  }

  function Swapped<C>(t: seq<Entry<C>>, i: nat, j: nat): seq<Entry<C>>
    requires i < |t| && j < |t|
  {
    t[i := t[j]][j := t[i]]
  }

  lemma SwapAgrees<C>(t: seq<Entry<C>>, i: nat, j: nat, m: map<int, C>)
    requires i < |t| && j < |t| && Agrees(t, m)
    ensures Agrees(Swapped(t, i, j), m)
  {
    var t' := Swapped(t, i, j);
    forall fd | fd in m
      ensures exists k :: 0 <= k < |t'| && Live(t'[k], fd)
    {
      var k :| 0 <= k < |t| && Live(t[k], fd);
      var k' := if k == i then j else if k == j then i else k;
      assert Live(t'[k'], fd);
    }
  }

  lemma SwapBag<C>(t: seq<Entry<C>>, i: nat, j: nat)
    requires i < |t| && j < |t|
    ensures multiset(Swapped(t, i, j)) == multiset(t)
  {
  }

  /** The entries that are kept when the table is compacted. */
  function Remaining<C>(t: seq<Entry<C>>): (r: seq<Entry<C>>)
    ensures |r| <= |t|
    ensures (forall i :: 0 <= i < |t| ==> !t[i].conn.deleted) ==> r == t
  {
    if t == [] then []
    else if t[0].conn.deleted then Remaining(t[1..])
    else [t[0]] + Remaining(t[1..])
  }

  // ---- What handlers do ----

  /** The tables, and what they stand for. */
  datatype State<C> = State(table: seq<Entry<C>>, open: map<int, C>, destroyed: seq<C>)

  function On<C>(e: Entry<C>, f: Effect<C>, now: nat): Entry<C>
  {
    if f.Opens? || !Live(e, f.fd) then e
    else if f.Closes? then Entry(e.poll, e.conn.(deleted := true))
    else if f.SetEvents? then Entry(e.poll.(events := f.events), e.conn)
    else Entry(e.poll, e.conn.(timeout := if f.delay > 0 then now + f.delay else 0))
  }

  /** An effect on all the entries: at most one of them has an open descriptor. */
  function Each<C>(t: seq<Entry<C>>, f: Effect<C>, now: nat): (r: seq<Entry<C>>)
    ensures |r| == |t| && forall i :: 0 <= i < |t| ==> r[i] == On(t[i], f, now)
  {
    seq(|t|, i requires 0 <= i < |t| => On(t[i], f, now))
  }

  function Appended<C>(t: seq<Entry<C>>, fd: int, arg: C, os: System): seq<Entry<C>>
  {
    t + [Entry(PollFd(fd, POLLIN, os.memory(|t|)), Connection(false, 0, arg))]
  }

  function Effected<C>(s: State<C>, f: Effect<C>, os: System): (r: State<C>)
    ensures |s.table| <= |r.table|
  {
    match f
    case Opens(fd, arg) =>
      if fd in s.open then s else State(Appended(s.table, fd, arg, os), s.open[fd := arg], s.destroyed)
    case Closes(fd) =>
      State(Each(s.table, f, os.now), s.open - {fd}, s.destroyed + if fd in s.open then [s.open[fd]] else [])
    case _ => State(Each(s.table, f, os.now), s.open, s.destroyed)
  }

  function EffectedAll<C>(s: State<C>, fs: seq<Effect<C>>, os: System): (r: State<C>)
    ensures |s.table| <= |r.table|
  {
    if fs == [] then s else Effected(EffectedAll(s, fs[..|fs| - 1], os), fs[|fs| - 1], os)
  }

  lemma EffectedMore<C>(s: State<C>, fs: seq<Effect<C>>, i: nat, os: System)
    requires i < |fs|
    ensures EffectedAll(s, fs[..i + 1], os) == Effected(EffectedAll(s, fs[..i], os), fs[i], os)
  {
    assert fs[..i + 1][..i] == fs[..i];
  }

  predicate Expired<C>(c: Connection<C>, now: nat)
  {
    c.timeout != 0 && now >= c.timeout
  }

  /** Whether an entry is called, if this is what it is told about. */
  predicate Due<C>(e: Entry<C>, revents: int, now: nat)
  {
    revents != 0 || Expired(e.conn, now)
  }

  datatype Call<C> = Call(fd: int, arg: C, events: int, revents: int)

  /** A call together with the position of the entry. */
  datatype Visit<C> = Visit(pos: nat, call: Call<C>)

  function CallFor<C>(e: Entry<C>, revents: int): Call<C>
  {
    Call(e.poll.fd, e.conn.arg, e.poll.events, revents)
  }

  function Answer<C>(c: Call<C>, h: Handler<C>): Reaction<C>
  {
    h(c.arg, c.events, c.revents)
  }

  function Told<C>(e: Entry<C>, revents: int): Entry<C>
  {
    Entry(e.poll.(revents := revents), e.conn)
  }

  /** What follows a call: a connection that is not kept is closed, even if its handler has closed it before. */
  function Settled<C>(s: State<C>, i: nat, r: Reaction<C>, events: int): (s': State<C>)
    requires i < |s.table|
    ensures |s'.table| == |s.table|
  {
    var e := s.table[i];
    if !r.keep then
      State(s.table[i := Entry(e.poll, e.conn.(deleted := true))],
            if e.conn.deleted then s.open else s.open - {e.poll.fd}, s.destroyed + [e.conn.arg])
    else if r.events != events then
      State(s.table[i := Entry(e.poll.(events := r.events), e.conn)], s.open, s.destroyed)
    else s
  }

  /** An entry is looked at. */
  function Visited<C>(s: State<C>, i: nat, revents: int, h: Handler<C>, os: System): (s': State<C>)
    ensures |s.table| <= |s'.table|
  {
    if |s.table| <= i || s.table[i].conn.deleted then s
    else
      var e := s.table[i];
      var s1 := State(s.table[i := Told(e, revents)], s.open, s.destroyed);
      if !Due(e, revents, os.now) then s1
      else
        var r := Answer(CallFor(e, revents), h);
        Settled(EffectedAll(s1, r.effects, os), i, r, e.poll.events)
  }

  function VisitsAt<C>(s: State<C>, i: nat, revents: int, now: nat): seq<Visit<C>>
  {
    if i < |s.table| && !s.table[i].conn.deleted && Due(s.table[i], revents, now)
    then [Visit(i, CallFor(s.table[i], revents))] else []
  }

  /** The first entries are looked at, one after the other; `reps` is what they are told about. */
  function After<C>(s: State<C>, reps: seq<int>, h: Handler<C>, os: System): (s': State<C>)
    ensures |s.table| <= |s'.table|
  {
    if reps == [] then s else Visited(After(s, Front(reps), h, os), |reps| - 1, Last(reps), h, os)
  }

  function Visits<C>(s: State<C>, reps: seq<int>, h: Handler<C>, os: System): seq<Visit<C>>
  {
    if reps == [] then []
    else Visits(s, Front(reps), h, os) + VisitsAt(After(s, Front(reps), h, os), |reps| - 1, Last(reps), os.now)
  }

  function Front(reps: seq<int>): seq<int>
    requires reps != []
  {
    reps[..|reps| - 1]
  }

  function Last(reps: seq<int>): int
    requires reps != []
  {
    reps[|reps| - 1]
  }

  // ---- What is counted ----

  function CountReady<C>(t: seq<Entry<C>>, i: nat, polled: nat): nat
    requires polled <= |t|
    decreases polled - i
  {
    if polled <= i then 0 else (if t[i].poll.revents != 0 then 1 else 0) + CountReady(t, i + 1, polled)
  }

  /** The entries that were ready, but closed by another handler before it was their turn. */
  function Lost<C>(s: State<C>, reps: seq<int>, polled: nat, h: Handler<C>, os: System): nat
    requires polled <= |s.table|
  {
    if reps == [] then 0
    else
      var i := |reps| - 1;
      Lost(s, Front(reps), polled, h, os)
      + if i < polled && s.table[i].poll.revents != 0 && After(s, Front(reps), h, os).table[i].conn.deleted then 1
        else 0
  }

  /** The entries that were told about something, although `poll` was not asked about them. */
  function Extra<C>(s: State<C>, reps: seq<int>, polled: nat, h: Handler<C>, os: System): nat
  {
    if reps == [] then 0
    else
      var i, before := |reps| - 1, After(s, Front(reps), h, os).table;
      Extra(s, Front(reps), polled, h, os)
      + if polled <= i < |before| && !before[i].conn.deleted && Last(reps) != 0 then 1 else 0
  }

  /** What an entry is told about: what `poll` has reported; or, for an entry that was not passed to it, what is left
      in `revents` from earlier, as long as there are lost events that make up for it. */
  function Shown<C>(s: State<C>, reps: seq<int>, polled: nat, h: Handler<C>, os: System): int
    requires polled <= |s.table|
  {
    var i, t := |reps|, After(s, reps, h, os).table;
    if |t| <= i then 0
    else if t[i].conn.deleted || i < polled then t[i].poll.revents
    else if Lost(s, reps, polled, h, os) <= Extra(s, reps, polled, h, os) then 0
    else t[i].poll.revents
  }

  predicate ReadRightly<C>(s: State<C>, reps: seq<int>, polled: nat, h: Handler<C>, os: System)
    requires polled <= |s.table|
  {
    reps == []
    || (ReadRightly(s, Front(reps), polled, h, os) && Last(reps) == Shown(s, Front(reps), polled, h, os)
        && |reps| <= |After(s, Front(reps), h, os).table|)
  }

  class Server<C> {
    var pollFds: array<PollFd>
    var connections: array<Connection<C>>
    var numConnections: nat

    ghost var open: map<int, C>      // the open descriptors and their connections
    ghost var destroyed: seq<C>      // calls of destroyConnection

    ghost predicate Fits()
      reads this
    {
      numConnections < pollFds.Length && numConnections <= connections.Length
    }

    ghost function Table(): (t: seq<Entry<C>>)
      requires Fits()
      reads this, pollFds, connections
      ensures |t| == numConnections
      ensures forall i :: 0 <= i < |t| ==> t[i] == Entry(pollFds[i + 1], connections[i])
    {
      seq(numConnections, i requires 0 <= i < numConnections && Fits() reads this, pollFds, connections
            => Entry(pollFds[i + 1], connections[i]))
    }

    ghost predicate Valid()
      reads this, pollFds, connections
    {
      Fits() && Agrees(Table(), open)
    }

    ghost function Now(): State<C>
      requires Fits()
      reads this, pollFds, connections
    {
      State(Table(), open, destroyed)
    }

    /** Exchanges two entries, in both arrays. */
    method Swap(i: nat, j: nat)
      requires Fits() && i < numConnections && j < numConnections
      modifies pollFds, connections
      ensures Table() == Swapped(old(Table()), i, j)
    {
      var tmpPollFd := pollFds[j + 1];
      pollFds[j + 1] := pollFds[i + 1];
      pollFds[i + 1] := tmpPollFd;
      var tmpConnection := connections[j];
      connections[j] := connections[i];
      connections[i] := tmpConnection;
    }

    /** Brings an entry that expects events to position `i`, as long as there is one. */
    method PushIdle(i: nat, n: nat, ghost t0: seq<Entry<C>>) returns (numFds: nat)
      requires Valid() && i < numConnections && 1 <= n && Arranged(Table(), t0, i, n - 1)
      modifies pollFds, connections
      ensures Valid() && 1 <= numFds <= n && Arranged(Table(), t0, i + 1, numFds - 1)
      ensures Table()[..i] == old(Table()[..i])
    {
      numFds := n;
      while i < numFds - 1 && pollFds[i + 1].events == 0
        invariant Valid() && 1 <= numFds <= n && Arranged(Table(), t0, i, numFds - 1)
        invariant Table()[..i] == old(Table()[..i])
        decreases numFds
      {
        numFds := numFds - 1;
        PutLast(i, numFds, t0);
      }
    }

    /** Exchanges an entry that expects no events with the last one that is not known to expect none. */
    method PutLast(i: nat, n: nat, ghost t0: seq<Entry<C>>)
      requires Valid() && i < n <= numConnections && Arranged(Table(), t0, i, n) && pollFds[i + 1].events == 0
      modifies pollFds, connections
      ensures Valid() && Arranged(Table(), t0, i, n - 1) && Table()[..i] == old(Table()[..i])
    {
      hide Agrees, Arranged, Swapped;
      SwapArranged(Table(), t0, i, n);
      SwapAgrees(Table(), i, n - 1, open);
      Swap(i, n - 1);
    }

    /** Moves the entries that expect no events to the end, and finds the earliest deadline of all. */
    method SortIdle() returns (numFds: nat, timeout: int)
      requires Valid()
      modifies pollFds, connections
      ensures Valid() && multiset(Table()) == multiset(old(Table()))
      ensures 1 <= numFds <= numConnections + 1
      ensures forall i :: 0 <= i < numConnections ==> (Table()[i].poll.events != 0 <==> i < numFds - 1)
      ensures IsDeadline(Table(), timeout)
    {
      timeout, numFds := -1, numConnections + 1;
      ghost var t0 := Table();
      var i: nat := 0;
      while i < numConnections
        invariant Valid() && i <= numConnections && 1 <= numFds
        invariant Arranged(Table(), t0, i, numFds - 1) && IsDeadline(Table()[..i], timeout)
      {
        ghost var earlier := timeout;
        numFds := PushIdle(i, numFds, t0);
        if connections[i].timeout != 0 && (timeout < 0 || timeout > connections[i].timeout) {
          timeout := connections[i].timeout;
        }
        NextDeadline(Table(), i, earlier);
        i := i + 1;
      }
      assert Table()[..i] == Table();
    }

    /** Removes an entry from both arrays by moving up what is behind it. */
    method RemoveAt(i: nat)
      requires Fits() && i < numConnections
      modifies this`numConnections, pollFds, connections
      ensures Fits() && numConnections == old(numConnections) - 1
      ensures Table() == Without(old(Table()), i)
    {
      ghost var t := Table();
      MoveUp(pollFds, i + 1, numConnections + 1);
      MoveUp(connections, i, numConnections);
      numConnections := numConnections - 1;
      assert forall x :: 0 <= x < numConnections ==> Table()[x] == t[if x < i then x else x + 1];
    }

    /** Drops the entries that are marked as deleted. The others keep their order. */
    method Compact()
      requires Valid()
      modifies this`numConnections, pollFds, connections
      ensures Valid() && Table() == Remaining(old(Table()))
      ensures NoneDeleted(Table())
    {
      var i: nat := 0;
      ghost var remaining := Remaining(Table());
      while i < numConnections
        invariant Valid() && i <= numConnections && Remaining(Table()) == remaining && NoneDeleted(Table()[..i])
        decreases numConnections - i
      {
        if connections[i].deleted {
          Drop(i);
        } else {
          OneMore(Table(), i);
          i := i + 1;
        }
      }
      NothingRemoved(Table(), i);
    }

    /** Removes an entry that is marked as deleted. */
    method Drop(i: nat)
      requires Valid() && i < numConnections && connections[i].deleted
      modifies this`numConnections, pollFds, connections
      ensures Valid() && Remaining(Table()) == Remaining(old(Table()))
      ensures numConnections == old(numConnections) - 1 && Table()[..i] == old(Table())[..i]
    {
      ghost var t := Table();
      RemainingWithout(t, i);
      WithoutAgrees(t, i, open);
      RemoveAt(i);
    }

    /** Adds a connection; both arrays are allocated anew. */
    method Add(fd: int, arg: C, os: System) returns (idx: nat)
      requires Valid() && fd !in open
      modifies this
      ensures Valid() && fresh(pollFds) && fresh(connections)
      ensures idx == old(numConnections) && Now() == Effected(old(Now()), Opens(fd, arg), os)
      ensures |Table()| == idx + 1 && Table()[idx].conn == Connection(false, 0, arg)
    {
      var n := numConnections;
      var stale := os.memory(n);
      var moreConnections := new Connection<C>[n + 1](
        i requires 0 <= i <= n && n <= connections.Length reads this, connections =>
          if i < n then connections[i] else Connection(false, 0, arg));
      var morePollFds := new PollFd[n + 2](
        i requires 0 <= i <= n + 1 && n < pollFds.Length reads this, pollFds =>
          if i <= n then pollFds[i] else PollFd(fd, POLLIN, stale));
      AddAgrees(Table(), open, Entry(PollFd(fd, POLLIN, stale), Connection(false, 0, arg)));
      ghost var t := Table();
      connections, pollFds, numConnections, idx := moreConnections, morePollFds, n + 1, n;
      open := open[fd := arg];
      assert Table() == t + [Entry(PollFd(fd, POLLIN, stale), Connection(false, 0, arg))];
    }

    /** Finds the entry of an open descriptor. The hint may be out of date; it never changes what is found. */
    method Get(hint: Option<int>, fd: int) returns (idx: Option<nat>)
      requires Valid()
      ensures idx.Some? <==> fd in open
      ensures idx.Some? ==> idx.value < numConnections && Live(Table()[idx.value], fd)
      ensures idx.Some? ==> Table()[idx.value].conn.arg == open[fd]
      ensures forall i :: 0 <= i < numConnections && Live(Table()[i], fd) ==> idx == Some(i)
    {
      if hint.Some? && 0 <= hint.value < numConnections {
        if !connections[hint.value].deleted && pollFds[hint.value + 1].fd == fd {
          assert Live(Table()[hint.value], fd);
          return Some(hint.value);
        }
      }
      var i: nat := 0;
      while i < numConnections
        invariant i <= numConnections && forall k :: 0 <= k < i ==> !Live(Table()[k], fd)
      {
        if pollFds[i + 1].fd == fd && !connections[i].deleted {
          assert Live(Table()[i], fd);
          return Some(i);
        }
        i := i + 1;
      }
      return None;
    }

    /** Closes the connection of a descriptor: its entry is only marked, and destroyConnection called. */
    method Delete(fd: int, ghost os: System)
      requires Valid()
      modifies this`open, this`destroyed, connections
      ensures Valid() && Now() == Effected(old(Now()), Closes(fd), os)
    {
      ghost var s := Now();
      var i: nat := 0;
      while i < numConnections
        invariant i <= numConnections && forall k :: 0 <= k < i ==> !Live(Table()[k], fd)
      {
        if fd == pollFds[i + 1].fd && !connections[i].deleted {
          OnlyOne(s.table, i, Closes(fd), os.now, open);
          DropAgrees(s.table, i, On(s.table[i], Closes(fd), os.now), open);
          connections[i] := connections[i].(deleted := true);
          destroyed := destroyed + [connections[i].arg];
          open := open - {fd};
          assert Table() == s.table[i := On(s.table[i], Closes(fd), os.now)];
          return;
        }
        i := i + 1;
      }
      Nobody(s.table, Closes(fd), os.now, open);
      assert open - {fd} == open && destroyed + [] == destroyed;
    }

    /** What a handler does to the tables. */
    method Perform(f: Effect<C>, os: System)
      requires Valid()
      modifies this, pollFds, connections
      ensures Valid() && Now() == Effected(old(Now()), f, os)
      ensures pollFds == old(pollFds) || fresh(pollFds)
      ensures connections == old(connections) || fresh(connections)
    {
      hide Agrees, Each;
      match f
      case Opens(fd, arg) =>
        var idx := Get(None, fd);
        if idx.None? {
          var i := Add(fd, arg, os);
        }
      case Closes(fd) =>
        Delete(fd, os);
      case _ =>
        Adjust(f, os);
    }

    /** New events or a new deadline for a connection that is open. */
    method Adjust(f: Effect<C>, os: System)
      requires Valid() && (f.SetEvents? || f.SetTimeout?)
      modifies pollFds, connections
      ensures Valid() && Now() == Effected(old(Now()), f, os)
    {
      ghost var t := Table();
      var idx := Get(None, f.fd);
      if idx.Some? {
        OnlyOne(t, idx.value, f, os.now, open);
        Change(idx.value, f, os);
        UpdateAgrees(t, Table(), open);
      } else {
        Nobody(t, f, os.now, open);
      }
    }

    /** serverConnectionSetEvents and serverSetTimeout. */
    method Change(i: nat, f: Effect<C>, os: System)
      requires Fits() && i < numConnections && (f.SetEvents? || f.SetTimeout?) && Live(Table()[i], f.fd)
      modifies pollFds, connections
      ensures Fits() && Table() == old(Table())[i := On(old(Table())[i], f, os.now)]
    {
      if f.SetEvents? {
        pollFds[i + 1] := pollFds[i + 1].(events := f.events);
      } else {
        connections[i] := connections[i].(timeout := if f.delay > 0 then os.now + f.delay else 0);
      }
    }

    method PerformAll(fs: seq<Effect<C>>, os: System)
      requires Valid()
      modifies this, pollFds, connections
      ensures Valid() && Now() == EffectedAll(old(Now()), fs, os)
      ensures pollFds == old(pollFds) || fresh(pollFds)
      ensures connections == old(connections) || fresh(connections)
    {
      var i := 0;
      while i < |fs|
        invariant i <= |fs| && Valid() && Now() == EffectedAll(old(Now()), fs[..i], os)
        invariant pollFds == old(pollFds) || fresh(pollFds)
        invariant connections == old(connections) || fresh(connections)
      {
        EffectedMore(old(Now()), fs, i, os);
        Perform(fs[i], os);
        i := i + 1;
      }
      assert fs[..i] == fs;
    }

    /** Asks for events: the first `numFds` descriptors get theirs, the others are left alone. */
    method Poll(numFds: nat, ready: int -> int) returns (eventCount: nat)
      requires Valid() && 1 <= numFds <= numConnections + 1
      modifies pollFds
      ensures Valid() && Table() == Polled(old(Table()), numFds - 1, ready)
      ensures eventCount == CountReady(Table(), 0, numFds - 1)
    {
      hide Agrees, CountReady;
      ghost var t := Table();
      pollFds[0] := pollFds[0].(revents := ready(pollFds[0].fd));
      assert Table() == t;
      eventCount := PollFrom(0, numFds - 1, ready);
      assert Table() == Polled(t, numFds - 1, ready);
      UpdateAgrees(t, Table(), open);
    }

    method PollFrom(i: nat, n: nat, ready: int -> int) returns (eventCount: nat)
      requires Fits() && i <= n <= numConnections
      modifies pollFds
      ensures Fits() && eventCount == CountReady(Table(), i, n)
      ensures forall x :: 0 <= x < numConnections ==>
                Table()[x] == if i <= x < n then Reports(old(Table())[x], ready) else old(Table())[x]
      decreases n - i
    {
      if i < n {
        pollFds[i + 1] := pollFds[i + 1].(revents := ready(pollFds[i + 1].fd));
        var more := PollFrom(i + 1, n, ready);
        eventCount := more + if pollFds[i + 1].revents != 0 then 1 else 0;
        assert Table()[i].poll == pollFds[i + 1];
      } else {
        eventCount := 0;
      }
    }

    /** What follows a call. */
    method Settle(i: nat, r: Reaction<C>, events: int)
      requires Valid() && i < numConnections
      modifies this`open, this`destroyed, pollFds, connections
      ensures Valid() && Now() == Settled(old(Now()), i, r, events)
    {
      ghost var s := Now();
      if !r.keep {
        destroyed := destroyed + [connections[i].arg];
        open := if connections[i].deleted then open else open - {pollFds[i + 1].fd};
        connections[i] := connections[i].(deleted := true);
      } else if r.events != events {
        pollFds[i + 1] := pollFds[i + 1].(events := r.events);
      }
      assert Table() == Settled(s, i, r, events).table;
      SettledAgrees(s, i, r, events);
    }

    /** Looks at an entry, and calls its handler if it is due. */
    method HandleEntry(i: nat, count: nat, h: Handler<C>, os: System)
      returns (eventCount: nat, calls: seq<Visit<C>>, ghost revents: int)
      requires Valid() && i < numConnections
      modifies this, pollFds, connections
      ensures Valid() && Now() == Visited(old(Now()), i, revents, h, os)
      ensures calls == VisitsAt(old(Now()), i, revents, os.now)
      ensures var e := old(Table())[i];
              && revents == (if !e.conn.deleted && count == 0 then 0 else e.poll.revents)
              && eventCount == count - if !e.conn.deleted && revents != 0 then 1 else 0
      ensures pollFds == old(pollFds) || fresh(pollFds)
      ensures connections == old(connections) || fresh(connections)
    {
      hide EffectedAll, Agrees;
      eventCount, calls, revents := count, [], pollFds[i + 1].revents;
      if connections[i].deleted {
        return;
      }
      ghost var s := Now();
      if count == 0 {
        pollFds[i + 1] := pollFds[i + 1].(revents := 0);
        revents := 0;
      }
      assert Table() == s.table[i := Told(s.table[i], revents)];
      UpdateAgrees(s.table, Table(), open);
      var poll, conn := pollFds[i + 1], connections[i];
      if poll.revents != 0 || Expired(conn, os.now) {
        if poll.revents != 0 {
          eventCount := eventCount - 1;
        }
        calls := [Visit(i, Call(poll.fd, conn.arg, poll.events, poll.revents))];
        var r := h(conn.arg, poll.events, poll.revents);
        PerformAll(r.effects, os);
        Settle(i, r, poll.events);
      }
    }
    /** Waits until there is something to do. The table `t1` is the one that was passed to `poll`. */
    method Await(ready: int -> int, accepted: Option<(int, C)>, last: nat, serverTimeout: int, os: System)
      returns (numFds: nat, eventCount: nat, isTimeout: bool, ghost t1: seq<Entry<C>>)
      requires Valid() && 1 <= last <= os.now && (accepted.Some? ==> accepted.value.0 !in open)
      modifies this, pollFds, connections
      ensures Valid() && destroyed == old(destroyed) && open == Accepted(old(open), accepted)
      ensures pollFds == old(pollFds) || fresh(pollFds)
      ensures connections == old(connections) || fresh(connections)
      ensures multiset(old(Table())) == multiset(t1) && 1 <= numFds <= |t1| + 1
      ensures forall i :: 0 <= i < |t1| ==> (t1[i].poll.events != 0 <==> i < numFds - 1)
      ensures eventCount == CountReady(Polled(t1, numFds - 1, ready), 0, numFds - 1)
      ensures isTimeout || NoneExpired(t1, os.now)
      ensures IsAccepted(Polled(t1, numFds - 1, ready), Table(), accepted, os.now)
    {
      var timeout;
      numFds, timeout := SortIdle();
      t1 := Table();
      eventCount := Poll(numFds, ready);
      isTimeout := IsTimeout(Wait(timeout, serverTimeout, last), last, os.now);
      NoDeadlineMissed(t1, timeout, serverTimeout, last, os.now);
      Accept(accepted, os);
    }

    /** A new connection may have come in. */
    method Accept(accepted: Option<(int, C)>, os: System)
      requires Valid() && (accepted.Some? ==> accepted.value.0 !in open)
      modifies this, connections
      ensures Valid() && destroyed == old(destroyed) && open == Accepted(old(open), accepted)
      ensures IsAccepted(old(Table()), Table(), accepted, os.now)
      ensures pollFds == old(pollFds) || fresh(pollFds)
      ensures connections == old(connections) || fresh(connections)
    {
      hide Agrees, Each;
      if accepted.Some? {
        ghost var t := Table();
        var idx := Add(accepted.value.0, accepted.value.1, os);
        ghost var t' := Table();
        connections[idx] := connections[idx].(timeout := os.now + INITIAL_TIMEOUT);
        UpdateAgrees(t', Table(), open);
        assert t == t'[..idx] == Table()[..idx];
      } else {
        assert Table()[..numConnections] == Table();
      }
    }

    /** Looks at the entries in turn, until all that `poll` has counted have been found; entries that handlers add are
        looked at as well. That comes to an end, because a new entry has no event and no deadline that has passed. */
    method Dispatch(count: nat, isTimeout: bool, h: Handler<C>, os: System, ghost polled: nat)
      returns (calls: seq<Visit<C>>, ghost reps: seq<int>)
      requires Valid() && polled <= numConnections && count == CountReady(Table(), 0, polled)
      modifies this, pollFds, connections
      ensures Valid() && Now() == After(old(Now()), reps, h, os)
      ensures Ran(old(Now()), Now(), calls, reps, polled, isTimeout, h, os)
      ensures pollFds == old(pollFds) || fresh(pollFds)
      ensures connections == old(connections) || fresh(connections)
    {
      hide Agrees, CountReady, Lost, Extra, Shown, ReadRightly, Visited, VisitsAt, CountExpired;
      ghost var s := Now();
      var i: nat, eventCount: nat := 0, count;
      calls, reps := [], [];
      StartsWith(s, polled, h, os);
      while (isTimeout || eventCount > 0) && i < numConnections
        invariant i == |reps| <= numConnections && Valid()
        invariant Now() == After(s, reps, h, os) && calls == Visits(s, reps, h, os)
        invariant ReadRightly(s, reps, polled, h, os) && polled <= |s.table|
        invariant eventCount + Extra(s, reps, polled, h, os)
               == CountReady(s.table, i, polled) + Lost(s, reps, polled, h, os)
        invariant pollFds == old(pollFds) || fresh(pollFds)
        invariant connections == old(connections) || fresh(connections)
        decreases eventCount + CountExpired(Table(), i, os.now), numConnections - i
      {
        ghost var s1, n := Now(), eventCount;
        var more;
        ghost var revents;
        eventCount, more, revents := HandleEntry(i, eventCount, h, os);
        NextVisit(s, reps, revents, h, os);
        NextCount(s, reps, revents, n, polled, h, os);
        Progresses(s1, i, revents, h, os, n);
        calls, reps, i := calls + more, reps + [revents], i + 1;
      }
      if i < numConnections {
        NothingCounted(s, reps, polled, h, os);
      }
    }

    /** One turn of the loop. The table is arranged for `poll`, a new connection may be accepted, entries are looked
        at, and those that are marked are removed. Nothing that is left out is due. If every handler acts on its own
        connection only, and on those it opens, then every connection that is ready for an event it waits for, or
        whose deadline has passed, is called once, with what is ready. */
    method Turn(ready: int -> int, accepted: Option<(int, C)>, last: nat, serverTimeout: int, h: Handler<C>, os: System)
      returns (calls: seq<Visit<C>>, ghost c: Start<C>, ghost reps: seq<int>)
      requires Valid() && NoneDeleted(Table()) && 1 <= last <= os.now
      requires accepted.Some? ==> accepted.value.0 !in open
      modifies this, pollFds, connections
      ensures Valid() && NoneDeleted(Table()) && Begins(c, old(Now()), ready, accepted, os.now)
      ensures var end := After(c.state, reps, h, os);
              && Ran(c.state, end, calls, reps, c.polled, c.isTimeout, h, os)
              && Now() == State(Remaining(end.table), end.open, end.destroyed)
      ensures Modest(calls, h) ==> OnceEach(old(Table()), Called(calls), ready, os.now)
    {
      hide Agrees, After, Ran, CountReady, OnceEach, Modest, Begins, Remaining, NoneDeleted;
      ghost var s := Now();
      var eventCount, isTimeout;
      eventCount, isTimeout, c := Prepare(ready, accepted, last, serverTimeout, os);
      calls, reps := Dispatch(eventCount, isTimeout, h, os, c.polled);
      Compact();
      if Modest(calls, h) {
        ModestOnce(c, s, reps, calls, ready, accepted, h, os);
      }
    }

    /** Everything up to the first call. */
    method Prepare(ready: int -> int, accepted: Option<(int, C)>, last: nat, serverTimeout: int, os: System)
      returns (eventCount: nat, isTimeout: bool, ghost c: Start<C>)
      requires Valid() && NoneDeleted(Table()) && 1 <= last <= os.now
      requires accepted.Some? ==> accepted.value.0 !in open
      modifies this, pollFds, connections
      ensures Valid() && Begins(c, old(Now()), ready, accepted, os.now)
      ensures c.state == Now() && c.isTimeout == isTimeout
      ensures c.polled <= numConnections && eventCount == CountReady(Table(), 0, c.polled)
      ensures pollFds == old(pollFds) || fresh(pollFds)
      ensures connections == old(connections) || fresh(connections)
    {
      hide CountReady, Polled, Accepted, Agrees, IsAccepted, NoneDeleted, NoneExpired;
      ghost var t0 := Table();
      var numFds;
      ghost var t1;
      numFds, eventCount, isTimeout, t1 := Await(ready, accepted, last, serverTimeout, os);
      Ready(t0, t1, Table(), numFds - 1, accepted, ready, os.now);
      c := Start(t1, numFds - 1, isTimeout, Now());
    }
  }

  lemma UpdateAgrees<C>(t: seq<Entry<C>>, t': seq<Entry<C>>, m: map<int, C>)
    requires Agrees(t, m) && |t'| == |t|
    requires forall i :: 0 <= i < |t| ==> t'[i].poll.fd == t[i].poll.fd && t'[i].conn.deleted == t[i].conn.deleted
                                          && t'[i].conn.arg == t[i].conn.arg
    ensures Agrees(t', m)
  {
    forall fd | fd in m
      ensures exists k :: 0 <= k < |t'| && Live(t'[k], fd)
    {
      var k :| 0 <= k < |t| && Live(t[k], fd);
      assert Live(t'[k], fd);
    }
  }

  /** An effect on an open descriptor is an effect on one entry. */
  lemma OnlyOne<C>(t: seq<Entry<C>>, i: nat, f: Effect<C>, now: nat, m: map<int, C>)
    requires Agrees(t, m) && i < |t| && !f.Opens? && Live(t[i], f.fd)
    ensures Each(t, f, now) == t[i := On(t[i], f, now)]
  {
  }

  lemma Nobody<C>(t: seq<Entry<C>>, f: Effect<C>, now: nat, m: map<int, C>)
    requires Agrees(t, m) && !f.Opens? && f.fd !in m
    ensures Each(t, f, now) == t
  {
    assert forall i :: 0 <= i < |t| ==> !Live(t[i], f.fd);
  }

  lemma SettledAgrees<C>(s: State<C>, i: nat, r: Reaction<C>, events: int)
    requires i < |s.table| && Agrees(s.table, s.open)
    ensures Agrees(Settled(s, i, r, events).table, Settled(s, i, r, events).open)
  {
    var e := s.table[i];
    if !r.keep && !e.conn.deleted {
      DropAgrees(s.table, i, Entry(e.poll, e.conn.(deleted := true)), s.open);
    } else {
      UpdateAgrees(s.table, Settled(s, i, r, events).table, s.open);
    }
  }

  // ---- One turn of the loop ----

  /** The beginning of a turn: the table that was passed to `poll` and how much of it, whether a deadline may have
      passed, and the state when the first handler is called. */
  datatype Start<C> = Start(table: seq<Entry<C>>, polled: nat, isTimeout: bool, state: State<C>)

  ghost predicate Begins<C>(c: Start<C>, s: State<C>, ready: int -> int, accepted: Option<(int, C)>, now: nat)
  {
    && multiset(c.table) == multiset(s.table) && c.polled <= |c.table|
    && (forall i :: 0 <= i < |c.table| ==> (c.table[i].poll.events != 0 <==> i < c.polled))
    && IsAccepted(Polled(c.table, c.polled, ready), c.state.table, accepted, now)
    && c.state.open == Accepted(s.open, accepted) && c.state.destroyed == s.destroyed
    && NoneDeleted(c.state.table) && Agrees(c.state.table, c.state.open)
    && (c.isTimeout || NoneExpired(c.state.table, now))
  }

  /** Entries have been looked at as they have to be, until all events were found. */
  ghost predicate Ran<C>(s: State<C>, s': State<C>, calls: seq<Visit<C>>, reps: seq<int>, polled: nat, isTimeout: bool,
                         h: Handler<C>, os: System)
  {
    && polled <= |s.table| && s' == After(s, reps, h, os) && calls == Visits(s, reps, h, os)
    && ReadRightly(s, reps, polled, h, os) && |reps| <= |s'.table|
    && (|reps| < |s'.table| ==>
          && !isTimeout && CountReady(s.table, |reps|, polled) == 0
          && Lost(s, reps, polled, h, os) == Extra(s, reps, polled, h, os))
  }

  /** The calls of handlers that act on their own connections, and on those that they open. */
  ghost predicate Modest<C>(calls: seq<Visit<C>>, h: Handler<C>)
  {
    forall v, f :: v in calls && f in Answer(v.call, h).effects ==> f.Opens? || f.fd == v.call.fd
  }

  function Called<C>(calls: seq<Visit<C>>): seq<Call<C>>
  {
    if calls == [] then [] else Called(calls[..|calls| - 1]) + [calls[|calls| - 1].call]
  }

  // ---- Entries that have not been looked at ----

  /** What can have become of the entries from position `i` on: none of them is ready for anything new, and no deadline
      of theirs has passed that had not passed before. */
  ghost predicate Behind<C>(t: seq<Entry<C>>, t': seq<Entry<C>>, i: nat, now: nat)
  {
    && |t| <= |t'|
    && (forall k :: i <= k < |t| ==> Lasts(t[k], t'[k], now))
    && (forall k :: i <= k && |t| <= k < |t'| ==> !Expired(t'[k].conn, now))
  }

  ghost predicate Lasts<C>(e: Entry<C>, e': Entry<C>, now: nat)
  {
    && e'.poll.fd == e.poll.fd && e'.poll.revents == e.poll.revents && e'.conn.arg == e.conn.arg
    && (e.conn.deleted ==> e'.conn.deleted) && (Expired(e'.conn, now) ==> Expired(e.conn, now))
  }

  lemma BehindTwice<C>(t: seq<Entry<C>>, t1: seq<Entry<C>>, t2: seq<Entry<C>>, i: nat, j: nat, now: nat)
    requires Behind(t, t1, i, now) && Behind(t1, t2, j, now) && i <= j
    ensures Behind(t, t2, j, now)
  {
    forall k | j <= k < |t|
      ensures Lasts(t[k], t2[k], now)
    {
      assert Lasts(t[k], t1[k], now) && Lasts(t1[k], t2[k], now);
    }
    forall k | j <= k && |t| <= k < |t2|
      ensures !Expired(t2[k].conn, now)
    {
      assert k < |t1| ==> Lasts(t1[k], t2[k], now);
    }
  }

  lemma {:induction false} BehindEffects<C>(s: State<C>, fs: seq<Effect<C>>, os: System)
    ensures Behind(s.table, EffectedAll(s, fs, os).table, 0, os.now)
    decreases |fs|
  {
    if fs != [] {
      var s1 := EffectedAll(s, fs[..|fs| - 1], os);
      BehindEffects(s, fs[..|fs| - 1], os);
      BehindEffect(s1, fs[|fs| - 1], os);
      BehindTwice(s.table, s1.table, EffectedAll(s, fs, os).table, 0, 0, os.now);
    }
  }

  lemma BehindEffect<C>(s: State<C>, f: Effect<C>, os: System)
    ensures Behind(s.table, Effected(s, f, os).table, 0, os.now)
  {
  }

  lemma BehindVisit<C>(s: State<C>, i: nat, revents: int, h: Handler<C>, os: System)
    ensures Behind(s.table, Visited(s, i, revents, h, os).table, i + 1, os.now)
  {
    if i < |s.table| && !s.table[i].conn.deleted && Due(s.table[i], revents, os.now) {
      var e := s.table[i];
      var s1 := State(s.table[i := Told(e, revents)], s.open, s.destroyed);
      BehindEffects(s1, Answer(CallFor(e, revents), h).effects, os);
      var t2 := EffectedAll(s1, Answer(CallFor(e, revents), h).effects, os).table;
      forall k | i < k < |s.table|
        ensures Lasts(s.table[k], Visited(s, i, revents, h, os).table[k], os.now)
      {
        assert Lasts(s1.table[k], t2[k], os.now);
      }
    }
  }

  lemma {:induction false} AfterBehind<C>(s: State<C>, reps: seq<int>, h: Handler<C>, os: System)
    ensures Behind(s.table, After(s, reps, h, os).table, |reps|, os.now)
    decreases |reps|
  {
    hide Visited, Behind;
    if reps == [] {
      SameBehind(s.table, os.now);
    } else {
      var s1 := After(s, Front(reps), h, os);
      AfterBehind(s, Front(reps), h, os);
      BehindVisit(s1, |reps| - 1, Last(reps), h, os);
      BehindTwice(s.table, s1.table, After(s, reps, h, os).table, |reps| - 1, |reps|, os.now);
    }
  }

  lemma SameBehind<C>(t: seq<Entry<C>>, now: nat)
    ensures Behind(t, t, 0, now)
  {
  }

  // ---- The loop over the entries ends, and finds the events that were counted ----

  function CountExpired<C>(t: seq<Entry<C>>, i: nat, now: nat): nat
    decreases |t| - i
  {
    if |t| <= i then 0 else (if Expired(t[i].conn, now) then 1 else 0) + CountExpired(t, i + 1, now)
  }

  lemma {:induction false} FewerExpired<C>(t: seq<Entry<C>>, t': seq<Entry<C>>, i: nat, now: nat)
    requires Behind(t, t', i, now)
    ensures CountExpired(t', i, now) <= CountExpired(t, i, now)
    decreases |t'| - i
  {
    if i < |t'| {
      assert i < |t| ==> Lasts(t[i], t'[i], now);
      FewerExpired(t, t', i + 1, now);
    }
  }

  /** An entry either costs an event or a deadline, or the table has become no longer by it. */
  lemma Progresses<C>(s: State<C>, i: nat, revents: int, h: Handler<C>, os: System, count: nat)
    requires i < |s.table|
    requires !s.table[i].conn.deleted && revents != 0 ==> count != 0
    ensures var s' := Visited(s, i, revents, h, os);
            var count' := count - if !s.table[i].conn.deleted && revents != 0 then 1 else 0;
            var was, now := count + CountExpired(s.table, i, os.now), count' + CountExpired(s'.table, i + 1, os.now);
            now < was || (now == was && |s'.table| == |s.table|)
  {
    BehindVisit(s, i, revents, h, os);
    FewerExpired(s.table, Visited(s, i, revents, h, os).table, i + 1, os.now);
  }

  lemma StartsWith<C>(s: State<C>, polled: nat, h: Handler<C>, os: System)
    requires polled <= |s.table|
    ensures After(s, [], h, os) == s && Visits(s, [], h, os) == [] && ReadRightly(s, [], polled, h, os)
    ensures Lost(s, [], polled, h, os) == Extra(s, [], polled, h, os) == 0
  {
  }

  lemma NextVisit<C>(s: State<C>, reps: seq<int>, revents: int, h: Handler<C>, os: System)
    ensures var s1 := After(s, reps, h, os);
            && After(s, reps + [revents], h, os) == Visited(s1, |reps|, revents, h, os)
            && Visits(s, reps + [revents], h, os) == Visits(s, reps, h, os) + VisitsAt(s1, |reps|, revents, os.now)
  {
    hide Visited, VisitsAt;
    assert Front(reps + [revents]) == reps;
  }

  lemma NextCount<C>(s: State<C>, reps: seq<int>, revents: int, count: nat, polled: nat, h: Handler<C>, os: System)
    requires polled <= |s.table| && |reps| < |After(s, reps, h, os).table| && ReadRightly(s, reps, polled, h, os)
    requires count + Extra(s, reps, polled, h, os) == CountReady(s.table, |reps|, polled) + Lost(s, reps, polled, h, os)
    requires var e := After(s, reps, h, os).table[|reps|];
             revents == if !e.conn.deleted && count == 0 then 0 else e.poll.revents
    ensures ReadRightly(s, reps + [revents], polled, h, os)
    ensures var e, all := After(s, reps, h, os).table[|reps|], reps + [revents];
            count - (if !e.conn.deleted && revents != 0 then 1 else 0) + Extra(s, all, polled, h, os)
            == CountReady(s.table, |all|, polled) + Lost(s, all, polled, h, os)
  {
    hide After, Extra, Lost;
    var i, all := |reps|, reps + [revents];
    assert Front(all) == reps && Last(all) == revents;
    AfterBehind(s, reps, h, os);
    OneMoreCounted(s, reps, revents, polled, h, os);
    if i <= polled {
      NoExtra(s, reps, polled, h, os);
    }
    assert i < |s.table| ==> Lasts(s.table[i], After(s, reps, h, os).table[i], os.now);
  }

  lemma OneMoreCounted<C>(s: State<C>, reps: seq<int>, revents: int, polled: nat, h: Handler<C>, os: System)
    requires polled <= |s.table|
    ensures var i, t, all := |reps|, After(s, reps, h, os).table, reps + [revents];
            && Lost(s, all, polled, h, os) == Lost(s, reps, polled, h, os)
               + (if i < polled && s.table[i].poll.revents != 0 && t[i].conn.deleted then 1 else 0)
            && Extra(s, all, polled, h, os) == Extra(s, reps, polled, h, os)
               + if polled <= i < |t| && !t[i].conn.deleted && revents != 0 then 1 else 0
  {
    hide After;
    assert Front(reps + [revents]) == reps;
  }

  lemma {:induction false} NoExtra<C>(s: State<C>, reps: seq<int>, polled: nat, h: Handler<C>, os: System)
    requires |reps| <= polled
    ensures Extra(s, reps, polled, h, os) == 0
    decreases |reps|
  {
    if reps != [] {
      NoExtra(s, Front(reps), polled, h, os);
    }
  }

  lemma NothingCounted<C>(s: State<C>, reps: seq<int>, polled: nat, h: Handler<C>, os: System)
    requires polled <= |s.table|
    requires Extra(s, reps, polled, h, os) == CountReady(s.table, |reps|, polled) + Lost(s, reps, polled, h, os)
    ensures CountReady(s.table, |reps|, polled) == 0
  {
    if |reps| <= polled {
      NoExtra(s, reps, polled, h, os);
    }
  }

  /** At most as many entries are told about something left over as there are lost events. */
  lemma {:induction false} FewExtra<C>(s: State<C>, reps: seq<int>, polled: nat, h: Handler<C>, os: System)
    requires polled <= |s.table| && ReadRightly(s, reps, polled, h, os)
    ensures Extra(s, reps, polled, h, os) <= Lost(s, reps, polled, h, os)
    decreases |reps|
  {
    hide After;
    if reps != [] {
      FewExtra(s, Front(reps), polled, h, os);
    }
  }

  /** As long as not all the events that were counted have been found, entries are among those polled. */
  lemma NowReported<C>(t: seq<Entry<C>>, i: nat, polled: nat)
    requires i < |t| && polled <= |t|
    ensures Reported(t, i, polled) == if CountReady(t, i, polled) == 0 then 0 else t[i].poll.revents
    ensures CountReady(t, i + 1, polled) == CountReady(t, i, polled) - if Reported(t, i, polled) != 0 then 1 else 0
  {
  }

  predicate IsDue<C>(e: Entry<C>, ready: int -> int, now: nat)
  {
    (e.poll.events != 0 && ready(e.poll.fd) != 0) || Expired(e.conn, now)
  }

  function CallOf<C>(e: Entry<C>, ready: int -> int): Call<C>
  {
    Call(e.poll.fd, e.conn.arg, e.poll.events, if e.poll.events != 0 then ready(e.poll.fd) else 0)
  }

  function Accepted<C>(open: map<int, C>, accepted: Option<(int, C)>): map<int, C>
  {
    if accepted.Some? then open[accepted.value.0 := accepted.value.1] else open
  }

  /** The entry of a new connection: it waits for input, and has some time to send it. */
  ghost predicate IsNew<C>(e: Entry<C>, accepted: Option<(int, C)>, now: nat)
  {
    && accepted.Some? && e.poll.fd == accepted.value.0 && e.poll.events == POLLIN
    && e.conn == Connection(false, now + INITIAL_TIMEOUT, accepted.value.1)
  }

  /** The table has become longer by the connection that has been accepted, which is not due. */
  ghost predicate IsAccepted<C>(t: seq<Entry<C>>, t': seq<Entry<C>>, accepted: Option<(int, C)>, now: nat)
  {
    && |t'| == |t| + (if accepted.Some? then 1 else 0) && t'[..|t|] == t
    && (accepted.Some? ==> IsNew(t'[|t|], accepted, now))
  }

  /** What `poll` has reported about an entry: nothing, if the entry was not passed to it. */
  function Reported<C>(t: seq<Entry<C>>, i: nat, polled: nat): int
    requires i < |t|
  {
    if i < polled then t[i].poll.revents else 0
  }

  predicate DueAt<C>(t: seq<Entry<C>>, i: nat, polled: nat, now: nat)
    requires i < |t|
  {
    Due(t[i], Reported(t, i, polled), now)
  }

  function CallAt<C>(t: seq<Entry<C>>, i: nat, polled: nat): Call<C>
    requires i < |t|
  {
    CallFor(t[i], Reported(t, i, polled))
  }

  /** The calls of handlers for the first `n` entries, if nobody disturbs them. */
  function Calls<C>(t: seq<Entry<C>>, n: nat, polled: nat, now: nat): seq<Call<C>>
    requires n <= |t|
  {
    if n == 0 then []
    else Calls(t, n - 1, polled, now) + (if DueAt(t, n - 1, polled, now) then [CallAt(t, n - 1, polled)] else [])
  }

  lemma SameEntries<C>(t0: seq<Entry<C>>, t1: seq<Entry<C>>)
    requires multiset(t0) == multiset(t1)
    ensures forall e :: e in t0 <==> e in t1
  {
    forall e
      ensures e in t0 <==> e in t1
    {
      assert e in t0 <==> e in multiset(t0);
      assert e in t1 <==> e in multiset(t1);
    }
  }

  /** The table is ready for the calls of the handlers. */
  lemma Ready<C>(t0: seq<Entry<C>>, t1: seq<Entry<C>>, t3: seq<Entry<C>>, n: nat,
                 accepted: Option<(int, C)>, ready: int -> int, now: nat)
    requires multiset(t0) == multiset(t1) && n <= |t1| && NoneDeleted(t0)
    requires IsAccepted(Polled(t1, n, ready), t3, accepted, now)
    ensures NoneDeleted(t3) && n <= |t3| && CountReady(t3, 0, n) == CountReady(Polled(t1, n, ready), 0, n)
    ensures NoneExpired(t1, now) ==> NoneExpired(t3, now)
  {
    SameEntries(t0, t1);
    var t2 := Polled(t1, n, ready);
    assert forall i :: 0 <= i < |t1| ==> t3[i] == t3[..|t1|][i] == t2[i] && t1[i] in t0;
    CountSame(t2, t3, 0, n);
  }

  lemma {:induction false} CountSame<C>(t: seq<Entry<C>>, t': seq<Entry<C>>, i: nat, n: nat)
    requires n <= |t| <= |t'| && t'[..|t|] == t
    ensures CountReady(t', i, n) == CountReady(t, i, n)
    decreases n - i
  {
    if i < n {
      assert t'[i] == t'[..|t|][i];
      CountSame(t, t', i + 1, n);
    }
  }

  lemma {:induction false} CallsAre<C>(t: seq<Entry<C>>, n: nat, polled: nat, now: nat)
    requires n <= |t|
    ensures forall i :: 0 <= i < n && DueAt(t, i, polled, now) ==> CallAt(t, i, polled) in Calls(t, n, polled, now)
    ensures forall c :: c in Calls(t, n, polled, now)
              ==> exists i :: 0 <= i < n && DueAt(t, i, polled, now) && c == CallAt(t, i, polled)
    decreases n
  {
    if n != 0 {
      CallsAre(t, n - 1, polled, now);
    }
  }

  ghost predicate Distinct<C>(t: seq<Entry<C>>)
  {
    forall i, j :: 0 <= i < j < |t| ==> t[i].poll.fd != t[j].poll.fd
  }

  lemma {:induction false} CallsDiffer<C>(t: seq<Entry<C>>, n: nat, polled: nat, now: nat)
    requires n <= |t| && Distinct(t)
    ensures Apart(Calls(t, n, polled, now))
    decreases n
  {
    if n != 0 {
      CallsDiffer(t, n - 1, polled, now);
      CallsAre(t, n - 1, polled, now);
      var earlier := Calls(t, n - 1, polled, now);
      forall i | 0 <= i < |earlier|
        ensures earlier[i].fd != t[n - 1].poll.fd
      {
        assert earlier[i] in earlier;
        var k :| 0 <= k < n - 1 && DueAt(t, k, polled, now) && earlier[i] == CallAt(t, k, polled);
        assert t[k].poll.fd != t[n - 1].poll.fd;
      }
      var calls := Calls(t, n, polled, now);
      if DueAt(t, n - 1, polled, now) {
        assert calls == earlier + [CallAt(t, n - 1, polled)];
        forall i, j | 0 <= i < j < |calls|
          ensures calls[i].fd != calls[j].fd
        {
          assert calls[i] == earlier[i];
          assert calls[j] == if j < |earlier| then earlier[j] else CallAt(t, n - 1, polled);
        }
      } else {
        assert calls == earlier;
      }
    }
  }

  lemma DistinctFds<C>(t: seq<Entry<C>>, m: map<int, C>)
    requires Agrees(t, m) && NoneDeleted(t)
    ensures Distinct(t)
  {
  }

  /** The calls of one turn: those of the entries that are due, each of them once. */
  ghost predicate OnceEach<C>(t: seq<Entry<C>>, calls: seq<Call<C>>, ready: int -> int, now: nat)
  {
    && (forall e :: e in t && IsDue(e, ready, now) ==> CallOf(e, ready) in calls)
    && (forall c :: c in calls ==> exists e :: e in t && IsDue(e, ready, now) && c == CallOf(e, ready))
    && Apart(calls)
  }

  ghost predicate Apart<C>(calls: seq<Call<C>>)
  {
    forall i, j :: 0 <= i < j < |calls| ==> calls[i].fd != calls[j].fd
  }

  lemma DueSame<C>(t1: seq<Entry<C>>, t3: seq<Entry<C>>, n: nat,
                   accepted: Option<(int, C)>, ready: int -> int, now: nat, i: nat)
    requires n <= |t1| && IsAccepted(Polled(t1, n, ready), t3, accepted, now) && i < |t1|
    requires t1[i].poll.events != 0 <==> i < n
    ensures (DueAt(t3, i, n, now) <==> IsDue(t1[i], ready, now)) && CallAt(t3, i, n) == CallOf(t1[i], ready)
  {
    assert t3[i] == t3[..|t1|][i] == Polled(t1, n, ready)[i];
  }

  lemma DueOnce<C>(t1: seq<Entry<C>>, t3: seq<Entry<C>>, n: nat,
                   accepted: Option<(int, C)>, ready: int -> int, now: nat)
    requires n <= |t1| && IsAccepted(Polled(t1, n, ready), t3, accepted, now) && Distinct(t3)
    requires forall i :: 0 <= i < |t1| ==> (t1[i].poll.events != 0 <==> i < n)
    ensures OnceEach(t1, Calls(t3, |t3|, n, now), ready, now)
  {
    var calls := Calls(t3, |t3|, n, now);
    CallsAre(t3, |t3|, n, now);
    CallsDiffer(t3, |t3|, n, now);
    forall e | e in t1 && IsDue(e, ready, now)
      ensures CallOf(e, ready) in calls
    {
      var i :| 0 <= i < |t1| && t1[i] == e;
      DueSame(t1, t3, n, accepted, ready, now, i);
    }
    forall c | c in calls
      ensures exists e :: e in t1 && IsDue(e, ready, now) && c == CallOf(e, ready)
    {
      var i :| 0 <= i < |t3| && DueAt(t3, i, n, now) && c == CallAt(t3, i, n);
      DueSame(t1, t3, n, accepted, ready, now, i);
      assert t1[i] in t1;
    }
  }

  lemma AllDue<C>(t1: seq<Entry<C>>, t3: seq<Entry<C>>, n: nat,
                  accepted: Option<(int, C)>, ready: int -> int, now: nat, m: map<int, C>)
    requires n <= |t1| && IsAccepted(Polled(t1, n, ready), t3, accepted, now) && NoneDeleted(t3) && Agrees(t3, m)
    requires forall i :: 0 <= i < |t1| ==> (t1[i].poll.events != 0 <==> i < n)
    ensures OnceEach(t1, Calls(t3, |t3|, n, now), ready, now)
  {
    hide *;
    DistinctFds(t3, m);
    DueOnce(t1, t3, n, accepted, ready, now);
  }

  lemma OncePermuted<C>(t0: seq<Entry<C>>, t1: seq<Entry<C>>, calls: seq<Call<C>>, ready: int -> int, now: nat)
    requires OnceEach(t1, calls, ready, now) && multiset(t0) == multiset(t1)
    ensures OnceEach(t0, calls, ready, now)
  {
    SameEntries(t0, t1);
  }

  /** When all the events have been found and no deadline has passed, there is nothing left to do. */
  lemma {:induction false} NothingLeft<C>(t: seq<Entry<C>>, i: nat, n: nat, polled: nat, now: nat)
    requires i <= n <= |t| && polled <= |t| && CountReady(t, i, polled) == 0
    requires NoneExpired(t, now)
    ensures CountReady(t, n, polled) == 0 && Calls(t, n, polled, now) == Calls(t, i, polled, now)
    ensures forall k :: i <= k < n ==> !DueAt(t, k, polled, now)
    decreases n
  {
    if i < n {
      NothingLeft(t, i, n - 1, polled, now);
      NowReported(t, n - 1, polled);
    }
  }

  // ---- Handlers that leave the others alone ----

  lemma {:induction false} Untouched<C>(s: State<C>, fs: seq<Effect<C>>, k: nat, fd: int, os: System)
    requires k < |s.table| && s.table[k].poll.fd != fd && forall f :: f in fs ==> f.Opens? || f.fd == fd
    ensures EffectedAll(s, fs, os).table[k] == s.table[k]
    decreases |fs|
  {
    if fs != [] {
      var f := fs[|fs| - 1];
      assert f in fs && forall f' :: f' in fs[..|fs| - 1] ==> f' in fs;
      Untouched(s, fs[..|fs| - 1], k, fd, os);
    }
  }

  lemma UntouchedByVisit<C>(t: seq<Entry<C>>, s: State<C>, i: nat, revents: int, h: Handler<C>, os: System)
    requires |t| <= |s.table| && Distinct(t) && forall k :: i <= k < |t| ==> s.table[k] == t[k]
    requires Modest(VisitsAt(s, i, revents, os.now), h)
    ensures forall k :: i < k < |t| ==> Visited(s, i, revents, h, os).table[k] == t[k]
  {
    if i < |s.table| && !s.table[i].conn.deleted && Due(s.table[i], revents, os.now) {
      var e := s.table[i];
      assert Visit(i, CallFor(e, revents)) in VisitsAt(s, i, revents, os.now);
      forall k | i < k < |t|
        ensures Visited(s, i, revents, h, os).table[k] == t[k]
      {
        Untouched(State(s.table[i := Told(e, revents)], s.open, s.destroyed), Answer(CallFor(e, revents), h).effects, k,
                  e.poll.fd, os);
      }
    }
  }

  lemma NoneCalled<C>()
    ensures Called<C>([]) == []
  {
  }

  lemma CalledMore<C>(calls: seq<Visit<C>>, more: seq<Visit<C>>)
    requires |more| <= 1
    ensures Called(calls + more) == Called(calls) + if more == [] then [] else [more[0].call]
  {
    if more == [] {
      assert calls + more == calls;
    } else {
      assert (calls + more)[..|calls|] == calls;
    }
  }

  lemma ModestFront<C>(calls: seq<Visit<C>>, more: seq<Visit<C>>, h: Handler<C>)
    requires Modest(calls + more, h)
    ensures Modest(calls, h) && Modest(more, h)
  {
    forall v, f | v in calls && f in Answer(v.call, h).effects
      ensures f.Opens? || f.fd == v.call.fd
    {
      assert v in calls + more;
    }
    forall v, f | v in more && f in Answer(v.call, h).effects
      ensures f.Opens? || f.fd == v.call.fd
    {
      assert v in calls + more;
    }
  }

  /** Then every entry is as it was when its turn comes, and no event is lost. */
  lemma {:induction false} ModestRun<C>(s: State<C>, reps: seq<int>, polled: nat, h: Handler<C>, os: System)
    requires polled <= |s.table| && Distinct(s.table) && NoneDeleted(s.table)
    requires ReadRightly(s, reps, polled, h, os) && Modest(Visits(s, reps, h, os), h)
    ensures forall k :: |reps| <= k < |s.table| ==> After(s, reps, h, os).table[k] == s.table[k]
    ensures Lost(s, reps, polled, h, os) == 0
    ensures Called(Visits(s, reps, h, os))
         == Calls(s.table, if |reps| < |s.table| then |reps| else |s.table|, polled, os.now)
    decreases |reps|
  {
    hide Visited, VisitsAt, Called, Behind, Modest, Extra, Distinct;
    if reps == [] {
      NoneCalled<C>();
    } else {
      var i, front := |reps| - 1, Front(reps);
      var s1 := After(s, front, h, os);
      var more := VisitsAt(s1, i, Last(reps), os.now);
      ModestFront(Visits(s, front, h, os), more, h);
      ModestRun(s, front, polled, h, os);
      AfterBehind(s, front, h, os);
      ModestVisit(s.table, s1, i, Last(reps), polled, os.now);
      CalledMore(Visits(s, front, h, os), more);
      assert Called(Visits(s, front, h, os)) + [] == Called(Visits(s, front, h, os));
      UntouchedByVisit(s.table, s1, i, Last(reps), h, os);
    }
  }

  /** One visit, of an entry that is as it was or that is new. */
  lemma ModestVisit<C>(t: seq<Entry<C>>, s: State<C>, i: nat, revents: int, polled: nat, now: nat)
    requires polled <= |t| && NoneDeleted(t) && Behind(t, s.table, i, now) && i < |s.table|
    requires i < |t| ==> s.table[i] == t[i]
    requires !s.table[i].conn.deleted ==> revents == if i < polled then s.table[i].poll.revents else 0
    ensures VisitsAt(s, i, revents, now)
         == if i < |t| && DueAt(t, i, polled, now) then [Visit(i, CallAt(t, i, polled))]
            else []
  {
  }

  lemma ModestOnce<C>(c: Start<C>, s: State<C>, reps: seq<int>, calls: seq<Visit<C>>, ready: int -> int,
                      accepted: Option<(int, C)>, h: Handler<C>, os: System)
    requires Begins(c, s, ready, accepted, os.now)
    requires Ran(c.state, After(c.state, reps, h, os), calls, reps, c.polled, c.isTimeout, h, os) && Modest(calls, h)
    ensures OnceEach(s.table, Called(calls), ready, os.now)
  {
    hide After, Visits, Lost, Extra, ReadRightly, CountReady, Modest, OnceEach, Calls, Called, IsAccepted, Agrees;
    var t := c.state.table;
    DistinctFds(t, c.state.open);
    ModestRun(c.state, reps, c.polled, h, os);
    if |reps| < |t| {
      NothingLeft(t, |reps|, |t|, c.polled, os.now);
    }
    AllDue(c.table, t, c.polled, accepted, ready, os.now, c.state.open);
    OncePermuted(s.table, c.table, Called(calls), ready, os.now);
  }

  lemma OneMore<C>(t: seq<Entry<C>>, i: nat)
    requires i < |t| && NoneDeleted(t[..i]) && !t[i].conn.deleted
    ensures NoneDeleted(t[..i + 1])
  {
    assert t[..i + 1] == t[..i] + [t[i]];
  }

  lemma NothingRemoved<C>(t: seq<Entry<C>>, i: nat)
    requires i == |t| && NoneDeleted(t[..i])
    ensures Remaining(t) == t && NoneDeleted(t)
  {
    assert t[..i] == t;
  }

  ghost predicate NoneDeleted<C>(t: seq<Entry<C>>)
  {
    forall i :: 0 <= i < |t| ==> !t[i].conn.deleted
  }

  ghost predicate NoneExpired<C>(t: seq<Entry<C>>, now: nat)
  {
    forall i :: 0 <= i < |t| ==> !Expired(t[i].conn, now)
  }

  const INITIAL_TIMEOUT: nat := 10 * 60

  /** An entry for which `poll` has reported what is ready. */
  function Reports<C>(e: Entry<C>, ready: int -> int): Entry<C>
  {
    Entry(e.poll.(revents := ready(e.poll.fd)), e.conn)
  }

  function Polled<C>(t: seq<Entry<C>>, polled: nat, ready: int -> int): (r: seq<Entry<C>>)
    ensures |r| == |t|
    ensures forall i :: 0 <= i < |t| ==> r[i] == if i < polled then Reports(t[i], ready) else t[i]
  {
    seq(|t|, i requires 0 <= i < |t| => if i < polled then Reports(t[i], ready) else t[i])
  }

  /** The earliest deadline, of the connections and of the server itself, or -1. */
  function Earliest(timeout: int, serverTimeout: int, last: nat): int
  {
    var idle := serverTimeout + last;
    var t := if serverTimeout >= 0 && (timeout < 0 || timeout > idle) then idle else timeout;
    if t < 0 then -1 else t
  }

  /** How long to wait, in milliseconds, or -1. One second is added, as `poll` may be early. */
  function Wait(timeout: int, serverTimeout: int, last: nat): int
  {
    var t := Earliest(timeout, serverTimeout, last);
    if t < 0 then -1 else if t >= last then (t - last + 1) * 1000 else 1000
  }

  /** The time that is compared is in milliseconds only as far as the wait is concerned. */
  predicate IsTimeout(wait: int, last: nat, now: nat)
  {
    wait >= 0 && (wait + last) / 1000 <= now
  }

  /** No deadline is missed: if one has passed, then all the connections are looked at. */
  lemma NoDeadlineMissed<C>(t: seq<Entry<C>>, timeout: int, serverTimeout: int, last: nat, now: nat)
    requires IsDeadline(t, timeout) && 1 <= last <= now
    ensures IsTimeout(Wait(timeout, serverTimeout, last), last, now) || NoneExpired(t, now)
  {
  }

  /** When the flag is set, whatever the clock does. */
  lemma FlagExactly(timeout: int, serverTimeout: int, last: nat, now: nat)
    ensures var d := Earliest(timeout, serverTimeout, last);
              IsTimeout(Wait(timeout, serverTimeout, last), last, now)
              <==> 0 <= d && if last <= d then d < now + last - last / 1000 else last / 1000 < now
  {
    var d := Earliest(timeout, serverTimeout, last);
    if last <= d {
      assert ((d - last + 1) * 1000 + last) / 1000 == d - last + 1 + last / 1000;
    } else {
      assert (1000 + last) / 1000 == 1 + last / 1000;
    }
  }

  /** The flag is set early exactly for the deadlines in this interval, which is almost as long as the time that
      has passed since 1970, because milliseconds are added to seconds. So the deadlines of the connections
      have to be compared once more. */
  lemma FlagIsEarly(timeout: int, serverTimeout: int, last: nat, now: nat)
    requires 1 <= last <= now
    ensures var d := Earliest(timeout, serverTimeout, last);
              IsTimeout(Wait(timeout, serverTimeout, last), last, now) && now < d
              <==> now < d < now + last - last / 1000
  {
    FlagExactly(timeout, serverTimeout, last, now);
  }

  /** For example, at once for a deadline in five minutes. */
  lemma EarlyFlag()
    ensures IsTimeout(Wait(1000300, -1, 1000000), 1000000, 1000000)
  {
    FlagExactly(1000300, -1, 1000000, 1000000);
  }

  function Without<C>(t: seq<Entry<C>>, i: nat): seq<Entry<C>>
    requires i < |t|
  {
    t[..i] + t[i + 1..]
  }

  lemma {:induction false} RemainingWithout<C>(t: seq<Entry<C>>, i: nat)
    requires i < |t| && t[i].conn.deleted
    ensures Remaining(Without(t, i)) == Remaining(t)
    decreases |t|
  {
    if i == 0 {
      assert Without(t, 0) == t[1..];
    } else {
      assert Without(t, i)[0] == t[0] && Without(t, i)[1..] == Without(t[1..], i - 1);
      RemainingWithout(t[1..], i - 1);
    }
  }

  lemma WithoutAgrees<C>(t: seq<Entry<C>>, i: nat, m: map<int, C>)
    requires i < |t| && t[i].conn.deleted && Agrees(t, m)
    ensures Agrees(Without(t, i), m)
  {
    WithoutAt(t, i);
    AgreesStill(t, i, m, Without(t, i));
  }

  lemma WithoutAt<C>(t: seq<Entry<C>>, i: nat)
    requires i < |t|
    ensures |Without(t, i)| == |t| - 1
    ensures forall k :: 0 <= k < |t| - 1 ==> Without(t, i)[k] == t[if k < i then k else k + 1]
  {
  }

  lemma AgreesStill<C>(t: seq<Entry<C>>, i: nat, m: map<int, C>, t': seq<Entry<C>>)
    requires i < |t| && t[i].conn.deleted && Agrees(t, m) && |t'| == |t| - 1
    requires forall k :: 0 <= k < |t'| ==> t'[k] == t[if k < i then k else k + 1]
    ensures Agrees(t', m)
  {
    forall fd | fd in m
      ensures exists k :: 0 <= k < |t'| && Live(t'[k], fd)
    {
      var k :| 0 <= k < |t| && Live(t[k], fd);
      assert Live(t'[if k < i then k else k - 1], fd);
    }
  }

  lemma AddAgrees<C>(t: seq<Entry<C>>, m: map<int, C>, e: Entry<C>)
    requires Agrees(t, m) && e.poll.fd !in m && !e.conn.deleted
    ensures Agrees(t + [e], m[e.poll.fd := e.conn.arg])
  {
    var t', m' := t + [e], m[e.poll.fd := e.conn.arg];
    assert Live(t'[|t|], e.poll.fd);
    forall fd | fd in m'
      ensures exists k :: 0 <= k < |t'| && Live(t'[k], fd)
    {
      if fd in m {
        var k :| 0 <= k < |t| && Live(t[k], fd);
        assert Live(t'[k], fd);
      }
    }
  }

  lemma DropAgrees<C>(t: seq<Entry<C>>, i: nat, e: Entry<C>, m: map<int, C>)
    requires i < |t| && Agrees(t, m) && !t[i].conn.deleted && e.conn.deleted
    ensures Agrees(t[i := e], m - {t[i].poll.fd})
  {
    var t' := t[i := e];
    forall fd | fd in m - {t[i].poll.fd}
      ensures exists k :: 0 <= k < |t'| && Live(t'[k], fd)
    {
      var k :| 0 <= k < |t| && Live(t[k], fd);
      assert Live(t'[k], fd);
    }
  }

  /** In front of `i` there are entries that expect events, from `n` on entries that do not. */
  ghost predicate Arranged<C>(t: seq<Entry<C>>, t0: seq<Entry<C>>, i: nat, n: nat)
  {
    n <= |t| == |t0| && multiset(t) == multiset(t0) && Sorted(t, i, n)
  }

  ghost predicate Sorted<C>(t: seq<Entry<C>>, i: nat, n: nat)
    requires n <= |t|
  {
    && (forall k :: 0 <= k < i && k < n ==> t[k].poll.events != 0)
    && (forall k :: n <= k < |t| ==> t[k].poll.events == 0)
  }

  lemma SwapSorted<C>(t: seq<Entry<C>>, i: nat, n: nat)
    requires i < n <= |t| && Sorted(t, i, n) && t[i].poll.events == 0
    ensures Sorted(Swapped(t, i, n - 1), i, n - 1) && Swapped(t, i, n - 1)[..i] == t[..i]
  {
  }

  lemma SwapArranged<C>(t: seq<Entry<C>>, t0: seq<Entry<C>>, i: nat, n: nat)
    requires i < n && Arranged(t, t0, i, n) && t[i].poll.events == 0
    ensures Arranged(Swapped(t, i, n - 1), t0, i, n - 1) && Swapped(t, i, n - 1)[..i] == t[..i]
  {
    SwapBag(t, i, n - 1);
    SwapSorted(t, i, n);
  }

  function Earlier(timeout: int, next: nat): int
  {
    if next != 0 && (timeout < 0 || timeout > next) then next else timeout
  }

  lemma NextDeadline<C>(t: seq<Entry<C>>, i: nat, timeout: int)
    requires i < |t| && IsDeadline(t[..i], timeout)
    ensures IsDeadline(t[..i + 1], Earlier(timeout, t[i].conn.timeout))
  {
    var next := Earlier(timeout, t[i].conn.timeout);
    var longer := t[..i + 1];
    assert longer == t[..i] + [t[i]];
    if next != -1 {
      if next == timeout {
        var k :| 0 <= k < i && t[..i][k].conn.timeout == timeout != 0;
        assert longer[k].conn.timeout == next;
      } else {
        assert longer[i].conn.timeout == next;
      }
    }
  }
  // ---- What becomes of one entry ----

  function OnAll<C>(e: Entry<C>, fs: seq<Effect<C>>, now: nat): Entry<C>
  {
    if fs == [] then e else On(OnAll(e, fs[..|fs| - 1], now), fs[|fs| - 1], now)
  }

  /** All that the handlers do in some calls. */
  function Effects<C>(calls: seq<Visit<C>>, h: Handler<C>): seq<Effect<C>>
  {
    if calls == [] then []
    else Effects(calls[..|calls| - 1], h) + Answer(calls[|calls| - 1].call, h).effects
  }

  /** An entry when its turn is over, if it was `e` when the turn came. */
  function Own<C>(e: Entry<C>, revents: int, h: Handler<C>, now: nat): Entry<C>
  {
    if e.conn.deleted then e
    else if !Due(e, revents, now) then Told(e, revents)
    else
      var r := Answer(CallFor(e, revents), h);
      var e' := OnAll(Told(e, revents), r.effects, now);
      if !r.keep then Entry(e'.poll, e'.conn.(deleted := true))
      else if r.events != e.poll.events then Entry(e'.poll.(events := r.events), e'.conn)
      else e'
  }

  lemma {:induction false} EffectsEach<C>(s: State<C>, fs: seq<Effect<C>>, k: nat, os: System)
    requires k < |s.table|
    ensures EffectedAll(s, fs, os).table[k] == OnAll(s.table[k], fs, os.now)
    decreases |fs|
  {
    if fs != [] {
      EffectsEach(s, fs[..|fs| - 1], k, os);
    }
  }

  lemma {:induction false} OnConcat<C>(e: Entry<C>, a: seq<Effect<C>>, b: seq<Effect<C>>, now: nat)
    ensures OnAll(e, a + b, now) == OnAll(OnAll(e, a, now), b, now)
    decreases |b|
  {
    if b == [] {
      assert a + b == a;
    } else {
      assert (a + b)[..|a + b| - 1] == a + b[..|b| - 1];
      OnConcat(e, a, b[..|b| - 1], now);
    }
  }

  /** An entry is closed exactly if its descriptor is closed. */
  lemma {:induction false} ClosedIff<C>(e: Entry<C>, fs: seq<Effect<C>>, now: nat)
    ensures OnAll(e, fs, now).conn.deleted
       <==> e.conn.deleted || exists f :: f in fs && f.Closes? && f.fd == e.poll.fd
    ensures OnAll(e, fs, now).poll.fd == e.poll.fd && OnAll(e, fs, now).poll.revents == e.poll.revents
    decreases |fs|
  {
    if fs != [] {
      var f := fs[|fs| - 1];
      assert fs == fs[..|fs| - 1] + [f];
      ClosedIff(e, fs[..|fs| - 1], now);
    }
  }

  lemma NoEffects<C>(e: Entry<C>, now: nat)
    ensures OnAll(e, [], now) == e
  {
  }

  lemma VisitedSelf<C>(s: State<C>, i: nat, revents: int, h: Handler<C>, os: System)
    requires i < |s.table|
    ensures Visited(s, i, revents, h, os).table[i] == Own(s.table[i], revents, h, os.now)
  {
    var e := s.table[i];
    if !e.conn.deleted && Due(e, revents, os.now) {
      var s1 := State(s.table[i := Told(e, revents)], s.open, s.destroyed);
      EffectsEach(s1, Answer(CallFor(e, revents), h).effects, i, os);
    }
  }

  lemma VisitedOther<C>(s: State<C>, i: nat, revents: int, k: nat, h: Handler<C>, os: System)
    requires k < |s.table| && k != i
    ensures Visited(s, i, revents, h, os).table[k]
         == OnAll(s.table[k], Effects(VisitsAt(s, i, revents, os.now), h), os.now)
  {
    hide EffectedAll, OnAll, On, Effected;
    var calls := VisitsAt(s, i, revents, os.now);
    NoEffects(s.table[k], os.now);
    if i < |s.table| && !s.table[i].conn.deleted && Due(s.table[i], revents, os.now) {
      var e := s.table[i];
      var s1 := State(s.table[i := Told(e, revents)], s.open, s.destroyed);
      EffectsEach(s1, Answer(CallFor(e, revents), h).effects, k, os);
      assert calls[..0] == [] && [] + Answer(CallFor(e, revents), h).effects == Answer(CallFor(e, revents), h).effects;
    }
  }

  lemma {:induction false} EffectsConcat<C>(a: seq<Visit<C>>, b: seq<Visit<C>>, h: Handler<C>)
    ensures Effects(a + b, h) == Effects(a, h) + Effects(b, h)
    decreases |b|
  {
    if b == [] {
      assert a + b == a;
    } else {
      assert (a + b)[..|a + b| - 1] == a + b[..|b| - 1];
      EffectsConcat(a, b[..|b| - 1], h);
    }
  }

  /** The calls after some of the entries have been looked at. */
  function Later<C>(s: State<C>, reps: seq<int>, j: nat, h: Handler<C>, os: System): seq<Visit<C>>
    requires j <= |reps|
    decreases |reps|
  {
    if |reps| == j then []
    else Later(s, Front(reps), j, h, os) + VisitsAt(After(s, Front(reps), h, os), |reps| - 1, Last(reps), os.now)
  }

  lemma {:induction false} LaterCalls<C>(s: State<C>, reps: seq<int>, j: nat, h: Handler<C>, os: System)
    requires j <= |reps|
    ensures Visits(s, reps, h, os) == Visits(s, reps[..j], h, os) + Later(s, reps, j, h, os)
    ensures forall v :: v in Later(s, reps, j, h, os) ==> j <= v.pos < |reps|
    decreases |reps|
  {
    hide After, VisitsAt;
    if |reps| == j {
      assert reps[..j] == reps;
    } else {
      assert Front(reps)[..j] == reps[..j];
      LaterCalls(s, Front(reps), j, h, os);
      AtOnly(After(s, Front(reps), h, os), |reps| - 1, Last(reps), os.now);
    }
  }

  lemma AtOnly<C>(s: State<C>, i: nat, revents: int, now: nat)
    ensures forall v :: v in VisitsAt(s, i, revents, now) ==> v.pos == i
  {
  }

  /** Calls for other entries change an entry only by what their handlers do to its descriptor. */
  lemma {:induction false} LaterEffects<C>(s: State<C>, reps: seq<int>, j: nat, k: nat, h: Handler<C>, os: System)
    requires j <= |reps| && k < |After(s, reps[..j], h, os).table| && (k < j || |reps| <= k)
    ensures k < |After(s, reps, h, os).table|
    ensures After(s, reps, h, os).table[k]
         == OnAll(After(s, reps[..j], h, os).table[k], Effects(Later(s, reps, j, h, os), h), os.now)
    decreases |reps|
  {
    hide Visited, VisitsAt;
    if |reps| == j {
      assert reps[..j] == reps;
    } else {
      var s1 := After(s, Front(reps), h, os);
      var more := VisitsAt(s1, |reps| - 1, Last(reps), os.now);
      var e := After(s, reps[..j], h, os).table[k];
      assert Front(reps)[..j] == reps[..j];
      LaterEffects(s, Front(reps), j, k, h, os);
      VisitedOther(s1, |reps| - 1, Last(reps), k, h, os);
      EffectsConcat(Later(s, Front(reps), j, h, os), more, h);
      OnConcat(e, Effects(Later(s, Front(reps), j, h, os), h), Effects(more, h), os.now);
    }
  }

  /** The history of an entry that is in the table when the calls begin: what earlier calls do to it, its own turn, and
      what later calls do to it. It is called in its turn or not at all. */
  lemma EntryHistory<C>(s: State<C>, reps: seq<int>, k: nat, h: Handler<C>, os: System)
    requires k < |reps| && k < |s.table|
    ensures var before, later := Visits(s, reps[..k], h, os), Later(s, reps, k + 1, h, os);
            var e := OnAll(s.table[k], Effects(before, h), os.now);
            && Visits(s, reps, h, os)
               == before + (if !e.conn.deleted && Due(e, reps[k], os.now) then [Visit(k, CallFor(e, reps[k]))] else [])
                  + later
            && (forall v :: v in before ==> v.pos < k) && (forall v :: v in later ==> k < v.pos)
            && After(s, reps, h, os).table[k] == OnAll(Own(e, reps[k], h, os.now), Effects(later, h), os.now)
  {
    hide OnAll, Effects, Own, Visited, On, Due;
    var front, upto := reps[..k], reps[..k + 1];
    assert Front(upto) == front && front[..0] == [] && Last(upto) == reps[k];
    LaterCalls(s, front, 0, h, os);
    LaterEffects(s, front, 0, k, h, os);
    LaterAll(s, front, h, os);
    VisitedSelf(After(s, front, h, os), k, reps[k], h, os);
    LaterCalls(s, reps, k + 1, h, os);
    LaterEffects(s, reps, k + 1, k, h, os);
  }

  lemma LaterAll<C>(s: State<C>, reps: seq<int>, h: Handler<C>, os: System)
    ensures Later(s, reps, 0, h, os) == Visits(s, reps, h, os)
  {
    hide VisitsAt, After;
    LaterCalls(s, reps, 0, h, os);
    assert reps[..0] == [] && [] + Later(s, reps, 0, h, os) == Later(s, reps, 0, h, os);
  }

  lemma {:induction false} RightPrefix<C>(s: State<C>, reps: seq<int>, k: nat, polled: nat, h: Handler<C>, os: System)
    requires polled <= |s.table| && ReadRightly(s, reps, polled, h, os) && k < |reps|
    ensures ReadRightly(s, reps[..k], polled, h, os) && reps[k] == Shown(s, reps[..k], polled, h, os)
    ensures Lost(s, reps[..k], polled, h, os) <= Lost(s, reps, polled, h, os)
    ensures k < |After(s, reps[..k], h, os).table|
    decreases |reps|
  {
    hide After, Shown;
    if k == |reps| - 1 {
      assert reps[..k] == Front(reps);
    } else {
      assert Front(reps)[..k] == reps[..k] && Front(reps)[k] == reps[k];
      RightPrefix(s, Front(reps), k, polled, h, os);
    }
  }

  /** Exactly when an entry is called: unless an earlier call in the same turn has closed its descriptor, for the events
      that `poll` has reported, or if the deadline that it has by then has passed. For an entry that was not passed to
      `poll` that is so if no event is lost. */
  lemma CalledIff<C>(s: State<C>, reps: seq<int>, k: nat, polled: nat, h: Handler<C>, os: System)
    requires polled <= |s.table| && NoneDeleted(s.table) && ReadRightly(s, reps, polled, h, os)
    requires k < |reps| && k < |s.table| && (k < polled || Lost(s, reps, polled, h, os) == 0)
    ensures var before := Effects(Visits(s, reps[..k], h, os), h);
            (exists v :: v in Visits(s, reps, h, os) && v.pos == k)
            <==> && !(exists f :: f in before && f.Closes? && f.fd == s.table[k].poll.fd)
                 && Due(OnAll(s.table[k], before, os.now), Reported(s.table, k, polled), os.now)
  {
    hide After, Visits, Later, OnAll, Effects, Own, Lost, Extra, ReadRightly, Due;
    var front := reps[..k];
    var before, later := Visits(s, front, h, os), Later(s, reps, k + 1, h, os);
    var e := OnAll(s.table[k], Effects(before, h), os.now);
    EntryHistory(s, reps, k, h, os);
    RightPrefix(s, reps, k, polled, h, os);
    ClosedIff(s.table[k], Effects(before, h), os.now);
    ToldRightly(s, front, k, polled, h, os);
    if !e.conn.deleted && Due(e, reps[k], os.now) {
      var v := Visit(k, CallFor(e, reps[k]));
      assert v in before + [v];
    }
  }

  lemma ToldRightly<C>(s: State<C>, front: seq<int>, k: nat, polled: nat, h: Handler<C>, os: System)
    requires polled <= |s.table| && k == |front| < |s.table| && (k < polled || Lost(s, front, polled, h, os) == 0)
    ensures var e := OnAll(s.table[k], Effects(Visits(s, front, h, os), h), os.now);
            !e.conn.deleted ==> Shown(s, front, polled, h, os) == Reported(s.table, k, polled)
  {
    hide Visits, Effects, OnAll, Lost, Extra, Visited;
    assert front[..0] == [] && After(s, [], h, os) == s;
    LaterEffects(s, front, 0, k, h, os);
    LaterAll(s, front, h, os);
    ClosedIff(s.table[k], Effects(Visits(s, front, h, os), h), os.now);
  }

  /** What the loop does not come to is not due. */
  lemma RestNotDue<C>(s: State<C>, s': State<C>, calls: seq<Visit<C>>, reps: seq<int>, polled: nat, isTimeout: bool,
                      h: Handler<C>, os: System)
    requires Ran(s, s', calls, reps, polled, isTimeout, h, os) && (isTimeout || NoneExpired(s.table, os.now))
    ensures forall k :: |reps| <= k < |s'.table| ==>
              !Expired(s'.table[k].conn, os.now) && (k < polled ==> s'.table[k].poll.revents == 0)
  {
    hide After, Visits, Lost, Extra, ReadRightly, Calls;
    AfterBehind(s, reps, h, os);
    forall k | |reps| <= k < |s'.table|
      ensures !Expired(s'.table[k].conn, os.now) && (k < polled ==> s'.table[k].poll.revents == 0)
    {
      if k < |s.table| {
        assert Lasts(s.table[k], s'.table[k], os.now);
        NothingLeft(s.table, |reps|, |s.table|, polled, os.now);
        assert !DueAt(s.table, k, polled, os.now);
      }
    }
  }

  // ---- Every connection is destroyed once ----

  lemma EffectAgrees<C>(s: State<C>, f: Effect<C>, os: System)
    requires Agrees(s.table, s.open)
    ensures Agrees(Effected(s, f, os).table, Effected(s, f, os).open)
  {
    var s' := Effected(s, f, os);
    if f.Opens? {
      if f.fd !in s.open {
        AddAgrees(s.table, s.open, Entry(PollFd(f.fd, POLLIN, os.memory(|s.table|)), Connection(false, 0, f.arg)));
      }
    } else if f.fd !in s.open {
      Nobody(s.table, f, os.now, s.open);
      assert s.open - {f.fd} == s.open;
    } else {
      var i :| 0 <= i < |s.table| && Live(s.table[i], f.fd);
      OnlyOne(s.table, i, f, os.now, s.open);
      if f.Closes? {
        DropAgrees(s.table, i, On(s.table[i], f, os.now), s.open);
      } else {
        UpdateAgrees(s.table, s'.table, s.open);
      }
    }
  }

  /** How many connections there have been, apart from the entries of the table. */
  function Balance<C>(s: State<C>): int
  {
    |s.open| + |s.destroyed| - |s.table|
  }

  lemma EffectBalance<C>(s: State<C>, f: Effect<C>, os: System)
    ensures Balance(Effected(s, f, os)) == Balance(s)
  {
    if f.Opens? {
      assert f.fd !in s.open ==> s.open[f.fd := f.arg].Keys == s.open.Keys + {f.fd};
    } else if f.Closes? {
      OneLess(s.open, f.fd);
    }
  }

  lemma OneLess<C>(m: map<int, C>, fd: int)
    ensures |m - {fd}| == |m| - if fd in m then 1 else 0
  {
    assert (m - {fd}).Keys == m.Keys - {fd};
  }

  lemma {:induction false} EffectsConserve<C>(s: State<C>, fs: seq<Effect<C>>, os: System)
    requires Agrees(s.table, s.open)
    ensures var s' := EffectedAll(s, fs, os); Agrees(s'.table, s'.open) && Balance(s') == Balance(s)
    decreases |fs|
  {
    hide Agrees, Balance, Effected;
    if fs != [] {
      EffectsConserve(s, fs[..|fs| - 1], os);
      EffectAgrees(EffectedAll(s, fs[..|fs| - 1], os), fs[|fs| - 1], os);
      EffectBalance(EffectedAll(s, fs[..|fs| - 1], os), fs[|fs| - 1], os);
    }
  }

  /** Whether a handler closes its own connection, and then reports that it is not to be kept. */
  predicate GivesUpTwice<C>(s: State<C>, i: nat, revents: int, h: Handler<C>, os: System)
  {
    && i < |s.table| && !s.table[i].conn.deleted && Due(s.table[i], revents, os.now)
    && var r := Answer(CallFor(s.table[i], revents), h);
       !r.keep && OnAll(Told(s.table[i], revents), r.effects, os.now).conn.deleted
  }

  function Twice<C>(s: State<C>, reps: seq<int>, h: Handler<C>, os: System): nat
  {
    if reps == [] then 0
    else
      Twice(s, Front(reps), h, os)
      + if GivesUpTwice(After(s, Front(reps), h, os), |reps| - 1, Last(reps), h, os) then 1 else 0
  }

  lemma VisitConserves<C>(s: State<C>, i: nat, revents: int, h: Handler<C>, os: System)
    requires Agrees(s.table, s.open)
    ensures var s' := Visited(s, i, revents, h, os);
            && Agrees(s'.table, s'.open)
            && Balance(s') == Balance(s) + if GivesUpTwice(s, i, revents, h, os) then 1 else 0
  {
    if i < |s.table| && !s.table[i].conn.deleted {
      var e := s.table[i];
      var s1 := State(s.table[i := Told(e, revents)], s.open, s.destroyed);
      UpdateAgrees(s.table, s1.table, s.open);
      if Due(e, revents, os.now) {
        hide EffectedAll;
        var r := Answer(CallFor(e, revents), h);
        var s2 := EffectedAll(s1, r.effects, os);
        EffectsConserve(s1, r.effects, os);
        EffectsEach(s1, r.effects, i, os);
        SettledAgrees(s2, i, r, e.poll.events);
        OneLess(s2.open, s2.table[i].poll.fd);
      }
    }
  }

  /** Every connection that has been opened is either open or has been destroyed, and it is destroyed twice exactly if
      its handler closes it and then gives it up. */
  lemma {:induction false} Conserved<C>(s: State<C>, reps: seq<int>, h: Handler<C>, os: System)
    requires Agrees(s.table, s.open)
    ensures var s' := After(s, reps, h, os);
            && Agrees(s'.table, s'.open)
            && |s'.open| + |s'.destroyed|
               == |s.open| + |s.destroyed| + (|s'.table| - |s.table|) + Twice(s, reps, h, os)
    decreases |reps|
  {
    hide Agrees, Visited, GivesUpTwice;
    if reps != [] {
      Conserved(s, Front(reps), h, os);
      VisitConserves(After(s, Front(reps), h, os), |reps| - 1, Last(reps), h, os);
    }
  }

  // ---- A lost event ----

  /** Two connections are ready, the handler of the first one closes the second, and the third, which waits for nothing,
      has something left in `revents`. */
  ghost predicate OneCloses<C>(s: State<C>, h: Handler<C>)
  {
    && |s.table| == 3 && Distinct(s.table) && NoneDeleted(s.table)
    && (forall i :: 0 <= i < 3 ==> s.table[i].poll.revents != 0)
    && Answer(CallFor(s.table[0], s.table[0].poll.revents), h)
       == Reaction(true, s.table[0].poll.events, [Closes(s.table[1].poll.fd)])
  }

  lemma FirstTwo<C>(s: State<C>, h: Handler<C>, os: System)
    requires OneCloses(s, h)
    ensures var a, b := s.table[0].poll.revents, s.table[1].poll.revents;
            && Shown(s, [], 2, h, os) == a && Shown(s, [a], 2, h, os) == b
            && Shown(s, [a, b], 2, h, os) == s.table[2].poll.revents
            && After(s, [a, b], h, os).table[2] == s.table[2]
            && Lost(s, [a, b], 2, h, os) == 1 && Extra(s, [a, b], 2, h, os) == 0
  {
    hide Visited;
    var a, b := s.table[0].poll.revents, s.table[1].poll.revents;
    assert Front([a]) == [] && Front([a, b]) == [a];
    FirstCloses(s, h, os);
    NoExtra(s, [a, b], 2, h, os);
    NoExtra(s, [a], 2, h, os);
    assert After(s, [], h, os) == s && After(s, [a], h, os) == Visited(s, 0, a, h, os);
    assert Lost(s, [a], 2, h, os) == Lost(s, [], 2, h, os) == 0;
    VisitedDeleted(After(s, [a], h, os), 1, b, h, os);
  }

  lemma FirstCloses<C>(s: State<C>, h: Handler<C>, os: System)
    requires OneCloses(s, h)
    ensures var t := Visited(s, 0, s.table[0].poll.revents, h, os).table;
            && |t| == 3 && t[1].conn.deleted && t[1].poll == s.table[1].poll && t[2] == s.table[2]
  {
    var e := s.table[0];
    var f := Closes(s.table[1].poll.fd);
    assert [f][..0] == [];
    assert EffectedAll(s, [f], os) == Effected(EffectedAll(s, [], os), f, os);
    assert s.table[0 := Told(e, e.poll.revents)] == s.table;
  }

  lemma VisitedDeleted<C>(s: State<C>, i: nat, revents: int, h: Handler<C>, os: System)
    requires i < |s.table| && s.table[i].conn.deleted
    ensures Visited(s, i, revents, h, os) == s
  {
  }

  /** How an entry is called for an event that it does not wait for. */
  lemma LeftOver<C>(s: State<C>, s': State<C>, calls: seq<Visit<C>>, reps: seq<int>, isTimeout: bool, h: Handler<C>,
                    os: System)
    requires OneCloses(s, h) && Ran(s, s', calls, reps, 2, isTimeout, h, os)
    ensures Visit(2, CallFor(s.table[2], s.table[2].poll.revents)) in calls
  {
    hide After, Visits, Lost, Extra, Shown, ReadRightly;
    FirstTwo(s, h, os);
    FirstTold(s, reps, h, os);
    VisitsPrefix(s, reps, h, os);
  }

  lemma FirstTold<C>(s: State<C>, reps: seq<int>, h: Handler<C>, os: System)
    requires OneCloses(s, h) && ReadRightly(s, reps, 2, h, os)
    ensures |reps| < 2 ==> CountReady(s.table, |reps|, 2) != 0
    ensures 2 <= |reps| ==> reps[..2] == [s.table[0].poll.revents, s.table[1].poll.revents]
    ensures |reps| == 2 ==> reps == [s.table[0].poll.revents, s.table[1].poll.revents]
    ensures 3 <= |reps| ==> reps[2] == s.table[2].poll.revents
  {
    hide After, Lost, Extra, Shown, ReadRightly;
    FirstTwo(s, h, os);
    if 2 <= |reps| {
      RightPrefix(s, reps, 0, 2, h, os);
      RightPrefix(s, reps, 1, 2, h, os);
      assert reps[..0] == [] && reps[..1] == [reps[0]] && reps[..2] == [reps[0], reps[1]];
      if 3 <= |reps| {
        RightPrefix(s, reps, 2, 2, h, os);
      }
    }
  }

  lemma VisitsPrefix<C>(s: State<C>, reps: seq<int>, h: Handler<C>, os: System)
    requires 3 <= |reps| && 3 <= |After(s, reps[..2], h, os).table|
    requires var e := After(s, reps[..2], h, os).table[2]; !e.conn.deleted && reps[2] != 0
    ensures Visit(2, CallFor(After(s, reps[..2], h, os).table[2], reps[2])) in Visits(s, reps, h, os)
  {
    hide After;
    LaterCalls(s, reps, 3, h, os);
    var upto := reps[..3];
    assert Front(upto) == reps[..2] && Last(upto) == reps[2];
  }
}
