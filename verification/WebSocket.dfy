/**
 WebSocket framing of draft-hixie-thewebsocketprotocol-75, section 5.3: the byte-at-a-time meaning of a
 stream of frames, in terms of the frames that an application assembles from the calls of its handler.
 */
module WebSocket {
  import opened Bytes

  /** One call of the application's WebSocket handler: the low byte of the type argument, the two
      flags, and the data. */
  datatype Call = Call(code: byte, start: bool, end: bool, data: seq<byte>)

  /** What the application has received of one frame. `complete` is reported for binary frames only,
      because in text mode the end flag is also raised whenever a read ends inside a frame. */
  datatype Frame = Frame(code: byte, data: seq<byte>, complete: bool)

  /** The meaning of a prefix of the stream. `e` is what the `expecting` field holds while it means
      nothing; `opening` says that no byte of the current frame has been delivered yet. */
  datatype Decoder =
    | Idle(e: int)
    | Length(code: byte, acc: nat)
    | Binary(code: byte, left: nat, opening: bool)
    | Finished(code: byte, opening: bool)
    | Text(code: byte, opening: bool, e: int)
    | Failed

  datatype Stream = Stream(dec: Decoder, frames: seq<Frame>)

  predicate Valid(dec: Decoder)
  {
    match dec
    case Length(code, acc) => 0x80 <= code && acc < 0x8000_0000
    case Binary(code, left, _) => 0x80 <= code && 0 < left < 0x8000_0000
    case Finished(code, _) => 0x80 <= code
    case Text(code, _, _) => code < 0x80
    case _ => true
  }

  /** What an application that concatenates the data of consecutive calls makes of one more call: it
      belongs to the frame under construction, or opens a new one. */
  function Deliver(frames: seq<Frame>, call: Call): seq<Frame>
  {
    var complete := 0x80 <= call.code && call.end;
    if call.start || frames == [] then
      frames + [Frame(call.code, call.data, complete)]
    else
      var last := frames[|frames| - 1];
      frames[..|frames| - 1] + [Frame(last.code, last.data + call.data, complete)]
  }

  /** The first byte of a frame: a type below 0x80 announces text, any other type a length. */
  function Begin(b: byte, e: int): Decoder
  {
    if b < 0x80 then Text(b, true, e) else Length(b, 0)
  }

  /** One more byte of the stream. */
  function Step(s: Stream, b: byte): (s': Stream)
    ensures Valid(s.dec) ==> Valid(s'.dec)
  {
    match s.dec
    case Idle(e) => s.(dec := Begin(b, e))
    case Finished(_, _) => s.(dec := Begin(b, 0))
    case Length(code, acc) =>
      if acc > 0xFF_FFFF then s.(dec := Failed)
      else
        var n := 128 * acc + b % 128;
        s.(dec := if 0x80 <= b then Length(code, n)
                  else if n == 0 then Finished(code, true)
                  else Binary(code, n, true))
    case Binary(code, left, opening) =>
      var last := left <= 1;
      Stream(if last then Finished(code, false) else Binary(code, left - 1, false),
             Deliver(s.frames, Call(code, opening, last, [b])))
    case Text(code, opening, e) =>
      if b == 0xFF then s.(dec := Idle(-1))
      else Stream(Text(code, false, 0), Deliver(s.frames, Call(code, opening, false, [b])))
    case Failed => s
  }

  /** The meaning of a byte string. */
  function Run(s: Stream, bytes: seq<byte>): (s': Stream)
    ensures Valid(s.dec) ==> Valid(s'.dec)
    decreases |bytes|
  {
    if bytes == [] then s else Run(Step(s, bytes[0]), bytes[1..])
  }

  /** Decoding is a left fold, so it does not matter where a stream is cut. */
  lemma {:induction false} RunConcat(s: Stream, a: seq<byte>, b: seq<byte>)
    ensures Run(s, a + b) == Run(Run(s, a), b)
    decreases |a|
  {
    if a == [] {
      assert a + b == b;
    } else {
      assert (a + b)[1..] == a[1..] + b;
      RunConcat(Step(s, a[0]), a[1..], b);
    }
  }

  lemma {:induction false} RunFailed(s: Stream, bytes: seq<byte>)
    requires s.dec.Failed?
    ensures Run(s, bytes) == s
    decreases |bytes|
  {
    if bytes != [] {
      RunFailed(s, bytes[1..]);
    }
  }

  /** Delivering data in two calls is the same as delivering it in one. */
  lemma DeliverTwice(frames: seq<Frame>, code: byte, opening: bool, mid: bool, end: bool, a: seq<byte>, b: seq<byte>)
    requires !opening ==> frames != []
    ensures Deliver(Deliver(frames, Call(code, opening, mid, a)), Call(code, false, end, b))
         == Deliver(frames, Call(code, opening, end, a + b))
  {
    var f1 := Deliver(frames, Call(code, opening, mid, a));
    var last := f1[|f1| - 1];
    if opening {
      assert f1[..|f1| - 1] == frames;
    } else {
      var was := frames[|frames| - 1];
      assert last.data == was.data + a;
      assert f1[..|f1| - 1] == frames[..|frames| - 1];
      assert was.data + a + b == was.data + (a + b);
    }
  }

  /** Payload of a binary frame that does not exceed its announced length arrives as one piece. */
  lemma {:induction false} RunBinary(s: Stream, data: seq<byte>)
    requires s.dec.Binary? && 0 < |data| <= s.dec.left
    requires !s.dec.opening ==> s.frames != []
    ensures var last := |data| == s.dec.left;
            Run(s, data) == Stream(if last then Finished(s.dec.code, false)
                                   else Binary(s.dec.code, s.dec.left - |data|, false),
                                   Deliver(s.frames, Call(s.dec.code, s.dec.opening, last, data)))
    decreases |data|
  {
    var first, rest := data[..1], data[1..];
    var s1 := Step(s, data[0]);
    assert first == [data[0]];
    if rest == [] {
      assert data == first;
      assert Run(s, data) == Run(s1, rest) == s1;
    } else {
      RunBinary(s1, rest);
      DeliverTwice(s.frames, s.dec.code, s.dec.opening, false, |data| == s.dec.left, first, rest);
      assert first + rest == data;
    }
  }

  /** Payload of a text frame arrives as one piece up to its terminator. The end flag of the call
      makes no difference. */
  lemma {:induction false} RunText(s: Stream, data: seq<byte>, end: bool)
    requires s.dec.Text? && s.dec.code < 0x80 && 0 < |data| && 0xFF !in data
    requires !s.dec.opening ==> s.frames != []
    ensures Run(s, data) == Stream(Text(s.dec.code, false, 0),
                                   Deliver(s.frames, Call(s.dec.code, s.dec.opening, end, data)))
    decreases |data|
  {
    var first, rest := data[..1], data[1..];
    var s1 := Step(s, data[0]);
    assert data[0] in data;
    assert first == [data[0]];
    if rest == [] {
      assert data == first;
      assert Run(s, data) == Run(s1, rest) == s1;
    } else {
      assert forall b :: b in rest ==> b in data;
      RunText(s1, rest, end);
      DeliverTwice(s.frames, s.dec.code, s.dec.opening, false, end, first, rest);
      assert first + rest == data;
    }
  }

  /** A text frame, or the part of it that is left, up to and including its terminator. */
  lemma RunTextEnd(s: Stream, data: seq<byte>, end: bool)
    requires s.dec.Text? && s.dec.code < 0x80 && 0xFF !in data
    requires !s.dec.opening ==> s.frames != []
    ensures Run(s, data + [0xFF])
         == Stream(Idle(-1), if data == [] then s.frames
                             else Deliver(s.frames, Call(s.dec.code, s.dec.opening, end, data)))
  {
    var s1 := Run(s, data);
    if data != [] {
      RunText(s, data, end);
    }
    RunConcat(s, data, [0xFF]);
    assert [0xFF][1..] == [];
    assert Run(s1, [0xFF]) == Run(Step(s1, 0xFF), []);
  }

  /** A frame that is continued has been opened. */
  predicate Opened(s: Stream)
  {
    match s.dec
    case Binary(_, _, opening) => !opening ==> s.frames != []
    case Text(_, opening, _) => !opening ==> s.frames != []
    case _ => true
  }

  lemma {:induction false} RunOpened(s: Stream, bytes: seq<byte>)
    requires Opened(s)
    ensures Opened(Run(s, bytes))
    decreases |bytes|
  {
    if bytes != [] {
      RunOpened(Step(s, bytes[0]), bytes[1..]);
    }
  }
}
