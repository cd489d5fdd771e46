/**
 What single reads make of a connection. Everything behind a payload within the same read is put off until the next
 read, together with a line that is not complete. When what was put off is processed, the bytes that are put off
 again may be confused with those before, if there are as many of them.
 */
module Reading {
  import opened Bytes
  import opened Machine

  /** How far the loop over some input gets: to the end of a payload, to the beginning of a line that is not complete,
      or to the end. */
  function StopAt<A>(h: Handlers<A>, m: Machine<A>, input: seq<byte>): (n: nat)
    ensures n <= |input|
    decreases |input|
  {
    if input == [] then 0
    else if m.Lines? then
      var i := FirstOf(input, IsNewline);
      if i < 0 then 0 else i + 1 + StopAt(h, Run(h, m, input[..i + 1]), input[i + 1..])
    else
      var m1 := Step(h, m, input[0]);
      if m.Body? && m1.Lines? then 1 else 1 + StopAt(h, m1, input[1..])
  }

  /** How many of these bytes belong to lines. */
  function LineBytes<A>(h: Handlers<A>, m: Machine<A>, bytes: seq<byte>): (n: nat)
    ensures n <= |bytes|
    decreases |bytes|
  {
    if bytes == [] then 0 else (if m.Lines? then 1 else 0) + LineBytes(h, Step(h, m, bytes[0]), bytes[1..])
  }

  /** A connection: the automaton, without an unfinished line; the bytes that are put off; and how many bytes the
      current request has had so far. */
  datatype Reader<A> = Reader(machine: Machine<A>, saved: seq<byte>, length: nat)

  predicate Proper<A>(r: Reader<A>)
  {
    (r.machine.Lines? ==> r.machine.line == []) && (!r.machine.Lines? ==> r.saved == [])
  }

  /** The state, if what is put off is the beginning of a line. */
  function AsMachine<A>(r: Reader<A>): Machine<A>
  {
    if r.machine.Lines? then r.machine.(line := r.saved) else r.machine
  }

  /** What the state will be when the bytes that are put off have been processed. */
  function Meaning<A>(h: Handlers<A>, r: Reader<A>): Machine<A>
  {
    Run(h, r.machine, r.saved)
  }

  /** A read that is not looked at. */
  predicate TooLong<A>(r: Reader<A>, buf: seq<byte>)
  {
    MAX_HEADER_LENGTH < r.length + |buf|
  }

  /** The loop stops among the bytes that had been put off, and as many bytes are left as are stored, so that those
      that are stored are taken for those that are left. That is so if the lines that have been consumed are as long
      as the read; and it matters if they differ. */
  predicate Confused<A>(h: Handlers<A>, m: Machine<A>, saved: seq<byte>, buf: seq<byte>)
  {
    var n := StopAt(h, m, saved + buf);
    var lines := LineBytes(h, m, (saved + buf)[..n]);
    n < |saved| && lines == |buf| && saved[n - lines..] != (saved + buf)[n..]
  }

  /** The bytes that are put off. Payload has been removed from the front of those that were stored. */
  function PutOff<A>(h: Handlers<A>, m: Machine<A>, saved: seq<byte>, buf: seq<byte>): (rest: seq<byte>)
    ensures var n := StopAt(h, m, saved + buf); rest == (saved + buf)[n..] <==> !Confused(h, m, saved, buf)
  {
    var n := StopAt(h, m, saved + buf);
    if Confused(h, m, saved, buf) then saved[n - LineBytes(h, m, (saved + buf)[..n])..] else (saved + buf)[n..]
  }

  function ReadOnce<A>(h: Handlers<A>, r: Reader<A>, buf: seq<byte>): Reader<A>
  {
    if TooLong(r, buf) then
      Reader(Eof(h, TooBig(h, AsMachine(r))), [], 0)
    else
      var input := r.saved + buf;
      var taken := input[..StopAt(h, r.machine, input)];
      var m := Run(h, r.machine, taken);
      Reader(m, PutOff(h, r.machine, r.saved, buf),
             if m.Closed? || Finishes(h, r.machine, taken) then 0 else r.length + |buf|)
  }

  /** The server stops reading when the connection is closed. */
  function ReadAll<A>(h: Handlers<A>, r: Reader<A>, pieces: seq<seq<byte>>): Reader<A>
    decreases |pieces|
  {
    if pieces == [] || r.machine.Closed? then r else ReadAll(h, ReadOnce(h, r, pieces[0]), pieces[1..])
  }

  /** No read exceeds the limit, and none is confused. */
  predicate Smooth<A>(h: Handlers<A>, r: Reader<A>, pieces: seq<seq<byte>>)
    decreases |pieces|
  {
    pieces == [] || r.machine.Closed?
    || (!TooLong(r, pieces[0]) && !Confused(h, r.machine, r.saved, pieces[0])
        && Smooth(h, ReadOnce(h, r, pieces[0]), pieces[1..]))
  }

  /** Reads without a line behind a payload, none of which exceeds the limit. */
  predicate Within<A>(h: Handlers<A>, m: Machine<A>, len: nat, pieces: seq<seq<byte>>)
  {
    Polite(h, m, len, pieces) && !Overflows(h, m, len, pieces)
  }

  lemma SplitAt(s: seq<byte>, i: nat)
    requires i <= |s|
    ensures s == s[..i] + s[i..]
  {
  }

  lemma Apart(a: seq<byte>, b: seq<byte>)
    ensures (a + b)[..|a|] == a && (a + b)[|a|..] == b
  {
  }

  /** One turn of the loop in line mode. */
  lemma StopInLines<A>(h: Handlers<A>, m: Machine<A>, input: seq<byte>) returns (i: int)
    requires m.Lines?
    ensures i == FirstOf(input, IsNewline) && -1 <= i < |input| && (i < 0 ==> StopAt(h, m, input) == 0 && LF !in input)
    ensures 0 <= i ==> input[i] == LF && LF !in input[..i]
    ensures 0 <= i ==> StopAt(h, m, input) == i + 1 + StopAt(h, Run(h, m, input[..i + 1]), input[i + 1..])
  {
    hide Run;
    i := FirstOf(input, IsNewline);
  }

  /** One byte of something else. */
  lemma StopElsewhere<A>(h: Handlers<A>, m: Machine<A>, input: seq<byte>)
    requires !m.Lines? && input != []
    ensures var m1 := Step(h, m, input[0]);
            if m.Body? && m1.Lines? then StopAt(h, m, input) == 1 && m1.line == [] && !m1.headers
            else !m1.Lines? && StopAt(h, m, input) == 1 + StopAt(h, m1, input[1..])
  {
    hide Run;
  }

  /** What holds where the loop stops. */
  predicate StoppedProperly<A>(h: Handlers<A>, m: Machine<A>, input: seq<byte>, n: nat)
    requires n <= |input|
  {
    var m1 := Run(h, m, input[..n]);
    && (n < |input| ==> m1.Lines?) && (m1.Lines? ==> m1.line == [])
    && (LF in input[n..] ==> n != 0 && m1.Lines? && !m1.headers && Finishes(h, m, input[..n]))
  }

  /** Where the loop stops: right behind a line or a payload, or at the end. */
  lemma {:induction false} StopsProperly<A>(h: Handlers<A>, m: Machine<A>, input: seq<byte>)
    requires m.Lines? ==> m.line == []
    ensures StoppedProperly(h, m, input, StopAt(h, m, input))
    decreases |input|
  {
    hide Run, Finishes, Step, StopAt;
    if input == [] {
      StopNowhere(h, m);
      NothingRead(h, m, input);
    } else if m.Lines? {
      var i := StopInLines(h, m, input);
      if i < 0 {
        NothingRead(h, m, input);
      } else {
        LineFirst(h, m, input, i);
        StopsProperly(h, Run(h, m, input[..i + 1]), input[i + 1..]);
        ProperFurther(h, m, input, i + 1);
      }
    } else {
      StopElsewhere(h, m, input);
      OneStep(h, m, input);
      if !(m.Body? && Step(h, m, input[0]).Lines?) {
        StopsProperly(h, Step(h, m, input[0]), input[1..]);
        ProperFurther(h, m, input, 1);
      }
    }
  }

  lemma StopNowhere<A>(h: Handlers<A>, m: Machine<A>)
    ensures StopAt(h, m, []) == 0
  {
  }

  lemma ProperFurther<A>(h: Handlers<A>, m: Machine<A>, input: seq<byte>, i: nat)
    requires i <= |input|
    requires var m1 := Run(h, m, input[..i]);
             && StopAt(h, m, input) == i + StopAt(h, m1, input[i..])
             && StoppedProperly(h, m1, input[i..], StopAt(h, m1, input[i..]))
    ensures StoppedProperly(h, m, input, StopAt(h, m, input))
  {
    hide Run, Finishes, StopAt;
    var n := StopAt(h, m, input);
    Further(h, m, input, i, n - i);
  }

  lemma NothingRead<A>(h: Handlers<A>, m: Machine<A>, input: seq<byte>)
    ensures input[..0] == [] && input[0..] == input && Run(h, m, []) == m && !Finishes(h, m, [])
  {
  }

  lemma OneStep<A>(h: Handlers<A>, m: Machine<A>, input: seq<byte>)
    requires input != []
    ensures var m1 := Step(h, m, input[0]);
            && Run(h, m, input[..1]) == m1
            && (Finishes(h, m, input[..1]) <==> (m.Body? || (m.Lines? && m.headers)) && m1.Lines? && !m1.headers)
  {
    assert input[..1][1..] == [];
    assert Run(h, m, input[..1]) == Run(h, Step(h, m, input[0]), []);
    assert !Finishes(h, Step(h, m, input[0]), []);
  }

  /** The first line of some input. */
  lemma LineFirst<A>(h: Handlers<A>, m: Machine<A>, input: seq<byte>, i: nat)
    requires m.Lines? && m.line == [] && i < |input| && input[i] == LF && LF !in input[..i]
    ensures Run(h, m, input[..i + 1]) == AfterLine(h, m.app, m.headers, input[..i])
    ensures var m1 := Run(h, m, input[..i + 1]); m1.Lines? ==> m1.line == []
  {
    hide Run, MakeLine;
    assert input[..i + 1] == input[..i] + [LF] && [] + input[..i] == input[..i];
    RunLine(h, m, input[..i]);
  }

  lemma Further<A>(h: Handlers<A>, m: Machine<A>, input: seq<byte>, i: nat, k: nat)
    requires i + k <= |input|
    ensures var m1 := Run(h, m, input[..i]);
            && Run(h, m, input[..i + k]) == Run(h, m1, input[i..][..k]) && input[i..][k..] == input[i + k..]
            && (Finishes(h, m, input[..i + k]) <==> Finishes(h, m, input[..i]) || Finishes(h, m1, input[i..][..k]))
            && Run(h, m, input) == Run(h, m1, input[i..])
  {
    assert input[..i + k] == input[..i] + input[i..][..k];
    RunConcat(h, m, input[..i], input[i..][..k]);
    FinishesConcat(h, m, input[..i], input[i..][..k]);
    SplitAt(input, i);
    RunConcat(h, m, input[..i], input[i..]);
  }

  /** The loop gets to the end of all the lines exactly if no line follows a payload. */
  lemma {:induction false} StopsRight<A>(h: Handlers<A>, m: Machine<A>, input: seq<byte>)
    requires m.Lines? ==> m.line == []
    ensures NoLineBehind(h, m, input) <==> LF !in input[StopAt(h, m, input)..]
    decreases |input|
  {
    var n := StopAt(h, m, input);
    hide Run, StopAt, NoLineBehind, Step;
    if input == [] {
      BehindNothing(h, m);
    } else if m.Lines? {
      var i := StopInLines(h, m, input);
      if i < 0 {
        NothingBehind(h, m, input);
      } else {
        assert input[..i] + [LF] + input[i + 1..] == input && input[..i] + [LF] == input[..i + 1];
        BehindLine(h, m, input[..i], input[i + 1..]);
        LineFirst(h, m, input, i);
        StopsRight(h, Run(h, m, input[..i + 1]), input[i + 1..]);
        assert input[i + 1..][n - (i + 1)..] == input[n..];
      }
    } else {
      var m1 := Step(h, m, input[0]);
      StopElsewhere(h, m, input);
      BehindElsewhere(h, m, input);
      if !(m.Body? && m1.Lines?) {
        StopsRight(h, m1, input[1..]);
        assert input[1..][n - 1..] == input[n..];
      }
    }
  }

  lemma BehindNothing<A>(h: Handlers<A>, m: Machine<A>)
    ensures NoLineBehind(h, m, [])
  {
  }

  lemma BehindElsewhere<A>(h: Handlers<A>, m: Machine<A>, input: seq<byte>)
    requires !m.Lines? && input != []
    ensures var m1 := Step(h, m, input[0]);
            NoLineBehind(h, m, input)
            <==> if m.Body? && m1.Lines? then LF !in input[1..] else NoLineBehind(h, m1, input[1..])
  {
    StopElsewhere(h, m, input);
    if m.Body? && Step(h, m, input[0]).Lines? {
      BehindLast(h, Step(h, m, input[0]), input[1..]);
    }
  }

  /** A read puts some bytes off, but does not lose or reorder any, unless it is confused. */
  lemma ReadWhole<A>(h: Handlers<A>, r: Reader<A>, buf: seq<byte>)
    requires Proper(r) && !TooLong(r, buf)
    ensures Proper(ReadOnce(h, r, buf))
    ensures !Confused(h, r.machine, r.saved, buf) ==> Meaning(h, ReadOnce(h, r, buf)) == Run(h, Meaning(h, r), buf)
  {
    hide Run, StopAt, Finishes;
    var input := r.saved + buf;
    var n := StopAt(h, r.machine, input);
    StopsProperly(h, r.machine, input);
    SplitAt(input, n);
    RunConcat(h, r.machine, input[..n], input[n..]);
    RunConcat(h, r.machine, r.saved, buf);
  }

  lemma TooLongEnds<A>(h: Handlers<A>, r: Reader<A>, buf: seq<byte>)
    requires TooLong(r, buf)
    ensures ReadOnce(h, r, buf).machine.Closed? && Proper(ReadOnce(h, r, buf))
  {
  }

  /** Over any number of reads, and whatever is put off. */
  lemma {:induction false} ReadAllWhole<A>(h: Handlers<A>, r: Reader<A>, pieces: seq<seq<byte>>)
    requires Proper(r) && Smooth(h, r, pieces)
    ensures Meaning(h, ReadAll(h, r, pieces)) == Run(h, Meaning(h, r), Flatten(pieces))
    ensures Proper(ReadAll(h, r, pieces))
    decreases |pieces|
  {
    hide Run, ReadOnce, Confused;
    if pieces == [] {
      NothingRead(h, Meaning(h, r), []);
    } else if r.machine.Closed? {
      RunClosed(h, r.machine, r.saved);
      RunClosed(h, r.machine, Flatten(pieces));
    } else {
      ReadWhole(h, r, pieces[0]);
      ReadAllWhole(h, ReadOnce(h, r, pieces[0]), pieces[1..]);
      RunConcat(h, Meaning(h, r), pieces[0], Flatten(pieces[1..]));
    }
  }

  /** Bytes that are put off are right for the beginning of a line exactly if there is no newline among them. */
  lemma PutOffRight<A>(h: Handlers<A>, r: Reader<A>)
    requires Proper(r) && r.machine.Lines?
    ensures r.machine.(line := r.saved) == Meaning(h, r) <==> LF !in r.saved
  {
    SavedRight(h, r.machine, r.saved);
    assert [] + r.saved == r.saved;
  }

  // ---- The turns of the loop ----

  lemma StopsBehindLine<A>(h: Handlers<A>, m: Machine<A>, text: seq<byte>, rest: seq<byte>)
    requires m.Lines? && m.line == [] && LF !in text && text + [LF] <= rest
    ensures var k := |text| + 1;
            && StopAt(h, m, rest) == k + StopAt(h, Run(h, m, rest[..k]), rest[k..])
            && LineBytes(h, m, rest[..k]) == k
  {
    hide Run;
    var k := |text| + 1;
    assert rest[..k] == text + [LF] && rest[|text|] == LF && rest[..|text|] == text;
    assert forall j :: 0 <= j < |text| ==> rest[j] == text[j] && text[j] in text;
    assert FirstOf(rest, IsNewline) == |text|;
    AllLine(h, m, text);
  }

  lemma {:induction false} AllLine<A>(h: Handlers<A>, m: Machine<A>, text: seq<byte>)
    requires m.Lines? && LF !in text
    ensures LineBytes(h, m, text + [LF]) == |text| + 1
    decreases |text|
  {
    var bytes := text + [LF];
    if text == [] {
      assert bytes[1..] == [];
    } else {
      assert text[0] in text && (forall b :: b in text[1..] ==> b in text);
      assert bytes[1..] == text[1..] + [LF];
      AllLine(h, Step(h, m, bytes[0]), text[1..]);
    }
  }

  lemma StopsAtOnce<A>(h: Handlers<A>, m: Machine<A>, rest: seq<byte>)
    requires m.Lines? && LF !in rest
    ensures StopAt(h, m, rest) == 0
  {
  }

  /** Payload that is complete, or all there is. */
  lemma {:induction false} StopsBehindBody<A>(h: Handlers<A>, m: Machine<A>, rest: seq<byte>, k: nat)
    requires m.Body? && |m.body| <= MAX_PAYLOAD_LENGTH && 0 < k <= |rest| && k <= m.total - |m.body|
    requires k == m.total - |m.body| || k == |rest|
    ensures var m1 := Run(h, m, rest[..k]);
            && (m1.Lines? ==> StopAt(h, m, rest) == k)
            && (m1.Body? ==> StopAt(h, m, rest) == k == |rest|)
            && (m1.Closed? ==> StopAt(h, m, rest) == |rest|)
            && LineBytes(h, m, rest[..k]) == 0
    decreases k
  {
    var m1 := Step(h, m, rest[0]);
    assert rest[..k][1..] == rest[1..][..k - 1] && rest[..k][0] == rest[0];
    if k == 1 {
      assert rest[..1][1..] == [] && Run(h, m1, []) == m1;
      assert |rest| == 1 ==> rest[1..] == [];
      if m1.Closed? {
        NoLines(h, m1, rest[1..]);
      }
    } else if m1.Closed? {
      RunClosed(h, m1, rest[1..][..k - 1]);
      NoLines(h, m1, rest[1..][..k - 1]);
      NoLines(h, m1, rest[1..]);
    } else {
      StopsBehindBody(h, m1, rest[1..], k - 1);
    }
  }

  lemma {:induction false} NoLines<A>(h: Handlers<A>, m: Machine<A>, bytes: seq<byte>)
    requires m.Closed? || m.Socket?
    ensures LineBytes(h, m, bytes) == 0 && StopAt(h, m, bytes) == |bytes|
    decreases |bytes|
  {
    if bytes != [] {
      NoLines(h, Step(h, m, bytes[0]), bytes[1..]);
    }
  }

  lemma {:induction false} LineBytesConcat<A>(h: Handlers<A>, m: Machine<A>, a: seq<byte>, b: seq<byte>)
    ensures LineBytes(h, m, a + b) == LineBytes(h, m, a) + LineBytes(h, Run(h, m, a), b)
    decreases |a|
  {
    if a == [] {
      assert a + b == b;
    } else {
      assert (a + b)[1..] == a[1..] + b;
      LineBytesConcat(h, Step(h, m, a[0]), a[1..], b);
    }
  }

  /** How a turn continues what has been read so far. */
  lemma TurnFurther<A>(h: Handlers<A>, m: Machine<A>, input: seq<byte>, i: nat, k: nat)
    requires i + k <= |input|
    ensures var m1, rest := Run(h, m, input[..i]), input[i..];
            && Run(h, m, input[..i + k]) == Run(h, m1, rest[..k]) && rest[k..] == input[i + k..]
            && (Finishes(h, m, input[..i + k]) <==> Finishes(h, m, input[..i]) || Finishes(h, m1, rest[..k]))
            && Run(h, m, input) == Run(h, m1, rest)
            && LineBytes(h, m, input[..i + k]) == LineBytes(h, m, input[..i]) + LineBytes(h, m1, rest[..k])
  {
    hide Run, Finishes, LineBytes;
    Further(h, m, input, i, k);
    assert input[..i + k] == input[..i] + input[i..][..k];
    LineBytesConcat(h, m, input[..i], input[i..][..k]);
  }

  // ---- Reads without a line behind a payload ----

  lemma PartialFirst<A>(h: Handlers<A>, r: Reader<A>, buf: seq<byte>)
    requires Proper(r) && LF !in r.saved
    ensures Meaning(h, r) == AsMachine(r)
    ensures Run(h, r.machine, r.saved + buf) == Run(h, AsMachine(r), buf)
    ensures NoLineBehind(h, r.machine, r.saved + buf) <==> NoLineBehind(h, AsMachine(r), buf)
    ensures Finishes(h, r.machine, r.saved + buf) <==> Finishes(h, AsMachine(r), buf)
  {
    hide Run, Finishes, NoLineBehind;
    if r.machine.Lines? {
      assert [] + r.saved == r.saved;
      RunConcat(h, r.machine, r.saved, buf);
      RunNoNewline(h, r.machine, r.saved);
      BehindText(h, r.machine, r.saved, buf);
      FinishesConcat(h, r.machine, r.saved, buf);
      FinishesNothing(h, r.machine, r.saved);
    } else {
      NothingRead(h, r.machine, []);
      assert [] + buf == buf;
    }
  }

  /** Such a read leaves the automaton's own state, and puts nothing off but an unfinished line. */
  lemma PoliteRead<A>(h: Handlers<A>, r: Reader<A>, buf: seq<byte>)
    requires Proper(r) && LF !in r.saved && !TooLong(r, buf) && NoLineBehind(h, AsMachine(r), buf) && buf != []
    ensures !Confused(h, r.machine, r.saved, buf)
    ensures var r' := ReadOnce(h, r, buf);
            && Proper(r') && LF !in r'.saved && AsMachine(r') == Run(h, AsMachine(r), buf)
            && (!r'.machine.Closed? ==> r'.length == Counted(h, AsMachine(r), r.length, buf))
  {
    hide Run, Finishes, NoLineBehind;
    var input := r.saved + buf;
    var n := StopAt(h, r.machine, input);
    PartialFirst(h, r, buf);
    StopsRight(h, r.machine, input);
    NotConfused(h, r, buf);
    ReadWhole(h, r, buf);
    var r' := ReadOnce(h, r, buf);
    PartialFirst(h, r', []);
    StopsProperly(h, r.machine, input);
    SplitAt(input, n);
    FinishesConcat(h, r.machine, input[..n], input[n..]);
    FinishesAtEnd(h, Run(h, r.machine, input[..n]), input[n..]);
  }

  lemma FinishesAtEnd<A>(h: Handlers<A>, m: Machine<A>, rest: seq<byte>)
    requires LF !in rest && (rest != [] ==> m.Lines?)
    ensures !Finishes(h, m, rest)
  {
    if rest != [] {
      FinishesNothing(h, m, rest);
    }
  }

  lemma NotConfused<A>(h: Handlers<A>, r: Reader<A>, buf: seq<byte>)
    requires Proper(r) && LF !in r.saved && buf != []
    ensures !Confused(h, r.machine, r.saved, buf)
  {
    hide Run;
    var input := r.saved + buf;
    if r.machine.Lines? && r.saved != [] {
      var i := FirstOf(input, IsNewline);
      assert forall k :: 0 <= k < |r.saved| ==> input[k] == r.saved[k] && r.saved[k] in r.saved;
    }
  }

  /** As long as no line follows a payload within a read, nothing else is ever put off. */
  lemma {:induction false} PoliteReads<A>(h: Handlers<A>, r: Reader<A>, pieces: seq<seq<byte>>)
    requires Proper(r) && LF !in r.saved && [] !in pieces && Polite(h, AsMachine(r), r.length, pieces)
    ensures AsMachine(ReadAll(h, r, pieces)) == Answered(h, AsMachine(r), r.length, pieces)
    ensures Smooth(h, r, pieces) <==> !Overflows(h, AsMachine(r), r.length, pieces)
    decreases |pieces|
  {
    hide Run, NoLineBehind, Finishes, ReadOnce, Confused;
    if pieces != [] && !r.machine.Closed? {
      assert pieces[0] in pieces && forall p :: p in pieces[1..] ==> p in pieces;
      var r' := ReadOnce(h, r, pieces[0]);
      if TooLong(r, pieces[0]) {
        TooLongEnds(h, r, pieces[0]);
        TooLongIs(h, r, pieces[0]);
      } else {
        PoliteRead(h, r, pieces[0]);
        if r'.machine.Closed? {
          ClosedForGood(h, r', pieces[1..], Counted(h, AsMachine(r), r.length, pieces[0]));
        } else {
          PoliteReads(h, r', pieces[1..]);
        }
      }
    }
  }

  lemma TooLongIs<A>(h: Handlers<A>, r: Reader<A>, buf: seq<byte>)
    requires TooLong(r, buf)
    ensures ReadOnce(h, r, buf) == Reader(Eof(h, TooBig(h, AsMachine(r))), [], 0)
  {
  }

  lemma ClosedForGood<A>(h: Handlers<A>, r: Reader<A>, pieces: seq<seq<byte>>, len: nat)
    requires r.machine.Closed?
    ensures ReadAll(h, r, pieces) == r && Smooth(h, r, pieces)
    ensures Answered(h, r.machine, len, pieces) == r.machine && !Overflows(h, r.machine, len, pieces)
  {
  }

  /** The state after a read is the automaton's own, rather than its meaning only, exactly if no line follows a
      payload. */
  lemma ReadExactly<A>(h: Handlers<A>, r: Reader<A>, buf: seq<byte>)
    requires Proper(r) && !TooLong(r, buf) && !Confused(h, r.machine, r.saved, buf)
    ensures Meaning(h, ReadOnce(h, r, buf)) == Run(h, Meaning(h, r), buf)
    ensures AsMachine(ReadOnce(h, r, buf)) == Run(h, Meaning(h, r), buf) <==> NoLineBehind(h, r.machine, r.saved + buf)
  {
    hide Run, NoLineBehind, StopAt, Finishes, Confused;
    ReadWhole(h, r, buf);
    StopsRight(h, r.machine, r.saved + buf);
    StopsProperly(h, r.machine, r.saved + buf);
    var r' := ReadOnce(h, r, buf);
    if r'.machine.Lines? {
      PutOffRight(h, r');
    } else {
      NothingRead(h, r'.machine, []);
    }
  }

  /** What any number of reads mean. */
  lemma ReadsMean<A>(h: Handlers<A>, r: Reader<A>, pieces: seq<seq<byte>>)
    requires Proper(r) && [] !in pieces
    ensures Smooth(h, r, pieces) ==> Meaning(h, ReadAll(h, r, pieces)) == Run(h, Meaning(h, r), Flatten(pieces))
    ensures LF !in r.saved && Polite(h, AsMachine(r), r.length, pieces) ==>
              && AsMachine(ReadAll(h, r, pieces)) == Answered(h, AsMachine(r), r.length, pieces)
              && (Smooth(h, r, pieces) <==> !Overflows(h, AsMachine(r), r.length, pieces))
  {
    hide *;
    if Smooth(h, r, pieces) {
      ReadAllWhole(h, r, pieces);
    }
    if LF !in r.saved && Polite(h, AsMachine(r), r.length, pieces) {
      PoliteReads(h, r, pieces);
    }
  }

  /** The same bytes, cut into reads in two ways. */
  lemma SameReads<A>(h: Handlers<A>, r: Reader<A>, cut1: seq<seq<byte>>, cut2: seq<seq<byte>>)
    requires Proper(r) && LF !in r.saved && Flatten(cut1) == Flatten(cut2) && [] !in cut1 && [] !in cut2
    ensures var r1, r2 := ReadAll(h, r, cut1), ReadAll(h, r, cut2);
            && (Smooth(h, r, cut1) && Smooth(h, r, cut2) ==>
                  && Meaning(h, r1) == Meaning(h, r2)
                  && (LF !in r1.saved && LF !in r2.saved ==> AsMachine(r1) == AsMachine(r2)))
            && (Within(h, AsMachine(r), r.length, cut1) && Within(h, AsMachine(r), r.length, cut2) ==>
                  && Smooth(h, r, cut1) && Smooth(h, r, cut2) && AsMachine(r1) == AsMachine(r2))
    ensures r.length + |Flatten(cut1)| <= MAX_HEADER_LENGTH ==>
              !Overflows(h, AsMachine(r), r.length, cut1) && !Overflows(h, AsMachine(r), r.length, cut2)
  {
    hide Run, ReadAll, Smooth, Polite, Overflows, Answered, Meaning;
    ReadsMean(h, r, cut1);
    ReadsMean(h, r, cut2);
    var r1, r2 := ReadAll(h, r, cut1), ReadAll(h, r, cut2);
    if Smooth(h, r, cut1) && Smooth(h, r, cut2) && LF !in r1.saved && LF !in r2.saved {
      ReadAllWhole(h, r, cut1);
      ReadAllWhole(h, r, cut2);
      PartialFirst(h, r1, []);
      PartialFirst(h, r2, []);
    }
    if Within(h, AsMachine(r), r.length, cut1) && Within(h, AsMachine(r), r.length, cut2) {
      AnsweredIsRun(h, AsMachine(r), r.length, cut1);
      AnsweredIsRun(h, AsMachine(r), r.length, cut2);
    }
    if r.length + |Flatten(cut1)| <= MAX_HEADER_LENGTH {
      FewBytesFit(h, AsMachine(r), r.length, cut1);
      FewBytesFit(h, AsMachine(r), r.length, cut2);
    }
  }

  // ---- A line that is put off, and a read that is confused ----

  lemma AnnouncedPost<A>(h: Handlers<A>, app: A, first: seq<byte>, app1: A)
    requires first != [] && LF !in first && |first| < MAX_HEADER_LENGTH
    requires h.onLine(app, false, MakeLine(first, true)) == Post(app1, 1)
    ensures ReadOnce(h, Reader(Lines(app, false, []), [], 0), first + [LF])
         == Reader(Body(app1, 1, []), [], |first| + 1)
  {
    hide Run, MakeLine, Finishes, LineBytes;
    var m, buf := Lines(app, false, []), first + [LF];
    assert [] + buf == buf && buf[..|buf|] == buf && buf[|buf|..] == [] && [] + first == first;
    StopsBehindLine(h, m, first, buf);
    RunLine(h, m, first);
    FinishesLine(h, m, first);
  }

  /** Whatever follows a payload is put off. */
  lemma BehindPost<A>(h: Handlers<A>, app: A, body: byte, text: seq<byte>, length: nat)
    requires text != [] && !h.onBody(app, [body]).1 && length + 1 + |text| <= MAX_HEADER_LENGTH
    ensures ReadOnce(h, Reader(Body(app, 1, []), [], length), [body] + text)
         == Reader(Lines(h.onBody(app, [body]).0, false, []), text, 0)
  {
    hide LineBytes;
    var m, buf := Body(app, 1, []), [body] + text;
    assert [] + buf == buf && buf[..1] == [body] && buf[1..] == text && [] + [body] == [body];
    OneStep(h, m, buf);
    assert StopAt(h, m, buf) == 1;
  }

  /** The line that is put off is as long as the next read, which brings no newline; so it is put off again, after
      it has been parsed, and the new bytes are forgotten. */
  lemma ConfusedRead<A>(h: Handlers<A>, app: A, line: seq<byte>, app1: A, headers: bool, tail: byte, buf: seq<byte>)
    requires line != [] && LF !in line && tail != LF && LF !in buf && |buf| == |line| + 1 <= MAX_HEADER_LENGTH
    requires h.onLine(app, false, MakeLine(line, true)) == Continue(app1, headers)
    ensures var r := Reader(Lines(app, false, []), line + [LF] + [tail], 0);
            && Confused(h, r.machine, r.saved, buf)
            && ReadOnce(h, r, buf) == Reader(Lines(app1, headers, []), r.saved, |buf|)
            && Meaning(h, ReadOnce(h, r, buf)) != Run(h, Meaning(h, r), buf)
  {
    hide Run, MakeLine, Finishes, LineBytes, StopAt;
    var m, saved := Lines(app, false, []), line + [LF] + [tail];
    var input := saved + buf;
    assert input == line + [LF] + ([tail] + buf) && saved[0..] == saved && LF !in [tail] + buf;
    LineParsed(h, app, line, [tail] + buf);
    ForgottenRead(h, m, line, tail, buf);
  }

  /** A line in front of bytes without a newline. */
  lemma LineParsed<A>(h: Handlers<A>, app: A, line: seq<byte>, rest: seq<byte>)
    requires LF !in line && LF !in rest && AfterLine(h, app, false, line).Lines?
    ensures var m, input, n := Lines(app, false, []), line + [LF] + rest, |line| + 1;
            && StopAt(h, m, input) == n && LineBytes(h, m, input[..n]) == n
            && Run(h, m, input[..n]) == AfterLine(h, app, false, line) && !Finishes(h, m, input[..n])
  {
    hide Run, MakeLine, Finishes, LineBytes, StopAt;
    var m, input, n := Lines(app, false, []), line + [LF] + rest, |line| + 1;
    assert input[..n] == line + [LF] && input[n..] == rest && [] + line == line;
    StopsBehindLine(h, m, line, input);
    RunLine(h, m, line);
    FinishesLine(h, m, line);
    StopsAtOnce(h, AfterLine(h, app, false, line), rest);
  }

  /** The bytes of that read are missing. */
  lemma ForgottenRead<A>(h: Handlers<A>, m: Machine<A>, line: seq<byte>, tail: byte, buf: seq<byte>)
    requires m.Lines? && m.line == [] && line != [] && LF !in line && tail != LF && LF !in buf && buf != []
    requires AfterLine(h, m.app, m.headers, line).Lines?
    ensures var saved := line + [LF] + [tail];
            Run(h, AfterLine(h, m.app, m.headers, line), saved) != Run(h, Run(h, m, saved), buf)
  {
    hide Run, MakeLine;
    var m1, saved := AfterLine(h, m.app, m.headers, line), line + [LF] + [tail];
    assert saved + buf == line + [LF] + ([tail] + buf) && [] + line == line;
    RunLine(h, m, line);
    RunConcat(h, m, saved, buf);
    RunConcat(h, m, line + [LF], [tail] + buf);
    RunNoNewline(h, m1, [tail] + buf);
    LineAgain(h, m1, line, tail);
  }

  lemma LineAgain<A>(h: Handlers<A>, m: Machine<A>, line: seq<byte>, tail: byte)
    requires m.Lines? && m.line == [] && LF !in line && tail != LF
    ensures Run(h, m, line + [LF] + [tail]).Lines? ==> |Run(h, m, line + [LF] + [tail]).line| <= 1
  {
    hide MakeLine;
    assert [] + line == line && [] + [tail] == [tail];
    RunLine(h, m, line);
    RunConcat(h, m, line + [LF], [tail]);
    var m1 := AfterLine(h, m.app, m.headers, line);
    assert [tail][1..] == [];
    assert Run(h, m1, [tail]) == Run(h, Step(h, m1, tail), []);
  }
}
