/** The sending side of WebSocket framing, and its round trip through the decoder. */
module WebSocketSend {
  import opened Bytes
  import opened WebSocket
  import Utf8

  /** A text frame: the type, the Latin-1 message as UTF-8, and the terminator. */
  function TextFrame(code: byte, msg: seq<byte>): seq<byte>
  {
    [code] + Utf8.Encode(msg) + [0xFF]
  }

  /** The first pass over a message: how long its frame is. */
  method Utf8Length(buf: seq<byte>) returns (utf8Len: nat)
    ensures utf8Len == |Utf8.Encode(buf)| + 2
  {
    var len := |buf|;
    utf8Len := len + 2;
    for i := 0 to len
      invariant utf8Len == |Utf8.Encode(buf[..i])| + (len - i) + 2
    {
      assert buf[..i + 1] == buf[..i] + [buf[i]];
      Utf8.EncodeAppend(buf[..i], buf[i]);
      if 0x80 <= buf[i] {
        utf8Len := utf8Len + 1;
      }
    }
    assert buf[..len] == buf;
  }

  method PutUtf8(utf8: array<byte>, j: nat, ch: byte) returns (next: nat)
    requires j + |Utf8.EncodeOne(ch)| <= utf8.Length
    modifies utf8
    ensures next == j + |Utf8.EncodeOne(ch)| && utf8[..next] == old(utf8[..j]) + Utf8.EncodeOne(ch)
  {
    if 0x80 <= ch {
      utf8[j], utf8[j + 1] := 0xC0 + ch / 0x40, 0x80 + ch % 0x40;
      next := j + 2;
    } else {
      utf8[j] := ch;
      next := j + 1;
    }
  }

  /** httpSendWebSocketTextMsg: the second pass fills a buffer of just that length. */
  method SendTextMsg(code: byte, buf: seq<byte>) returns (utf8: array<byte>)
    requires code < 0x80
    ensures fresh(utf8) && utf8[..] == TextFrame(code, buf)
  {
    var len := |buf|;
    var utf8Len := Utf8Length(buf);
    utf8 := new byte[utf8Len];
    utf8[0] := code;
    var i, j := 0, 1;
    RestIsLonger(buf, 0);
    while i < len
      invariant 0 <= i <= len && j == |Utf8.Encode(buf[..i])| + 1
      invariant j + (len - i) < utf8Len
      invariant utf8[..j] == [code] + Utf8.Encode(buf[..i])
    {
      FitsStill(buf, i);
      j := PutUtf8(utf8, j, buf[i]);
      i := i + 1;
    }
    assert buf[..i] == buf;
    utf8[utf8Len - 1] := 0xFF;
    assert utf8[..] == utf8[..utf8Len - 1] + [0xFF];
  }

  /** Every byte takes at least one place, so what is written never overruns what was counted. */
  lemma FitsStill(buf: seq<byte>, i: nat)
    requires i < |buf|
    ensures Utf8.Encode(buf[..i + 1]) == Utf8.Encode(buf[..i]) + Utf8.EncodeOne(buf[i])
    ensures |Utf8.Encode(buf[..i + 1])| + (|buf| - i - 1) <= |Utf8.Encode(buf)|
  {
    assert buf[..i + 1] == buf[..i] + [buf[i]];
    Utf8.EncodeAppend(buf[..i], buf[i]);
    RestIsLonger(buf, i + 1);
  }

  lemma {:induction false} RestIsLonger(buf: seq<byte>, i: nat)
    requires i <= |buf|
    ensures |Utf8.Encode(buf[..i])| + (|buf| - i) <= |Utf8.Encode(buf)|
    decreases |buf| - i
  {
    if i == |buf| {
      assert buf[..i] == buf;
    } else {
      RestIsLonger(buf, i + 1);
      assert buf[..i + 1] == buf[..i] + [buf[i]];
      Utf8.EncodeAppend(buf[..i], buf[i]);
    }
  }

  datatype Message = Message(code: byte, text: seq<byte>)

  predicate AllText(msgs: seq<Message>)
  {
    forall i :: 0 <= i < |msgs| ==> msgs[i].code < 0x80
  }

  function TextFrames(msgs: seq<Message>): seq<byte>
  {
    if msgs == [] then [] else TextFrame(msgs[0].code, msgs[0].text) + TextFrames(msgs[1..])
  }

  /** What the receiving application sees of text messages: nothing of empty ones. */
  function Delivered(msgs: seq<Message>): seq<Frame>
  {
    if msgs == [] then []
    else
      (if msgs[0].text == [] then [] else [Frame(msgs[0].code, Utf8.Encode(msgs[0].text), false)])
      + Delivered(msgs[1..])
  }

  lemma TextFrameRoundTrip(s: Stream, code: byte, msg: seq<byte>)
    requires s.dec.Idle? && code < 0x80
    ensures Run(s, TextFrame(code, msg))
         == Stream(Idle(-1), s.frames + (if msg == [] then [] else [Frame(code, Utf8.Encode(msg), false)]))
  {
    var payload := Utf8.Encode(msg);
    var s1 := s.(dec := Text(code, true, s.dec.e));
    assert TextFrame(code, msg)[0] == code && TextFrame(code, msg)[1..] == payload + [0xFF];
    RunTextEnd(s1, payload, false);
    assert s.frames + [] == s.frames;
  }

  /** The concatenated output for any list of messages, decoded, delivers every non-empty message in
      one frame of its own; and the payloads are UTF-8 for the original messages. */
  lemma {:induction false} TextRoundTrip(s: Stream, msgs: seq<Message>)
    requires s.dec.Idle? && AllText(msgs)
    ensures Run(s, TextFrames(msgs))
         == Stream(if msgs == [] then s.dec else Idle(-1), s.frames + Delivered(msgs))
    decreases |msgs|
  {
    if msgs == [] {
      assert s.frames + [] == s.frames;
    } else {
      var m := msgs[0];
      TextFrameRoundTrip(s, m.code, m.text);
      RunConcat(s, TextFrame(m.code, m.text), TextFrames(msgs[1..]));
      TextRoundTrip(Run(s, TextFrame(m.code, m.text)), msgs[1..]);
      DeliveredStep(s.frames, msgs);
    }
  }

  lemma DeliveredStep(frames: seq<Frame>, msgs: seq<Message>)
    requires msgs != []
    ensures frames + (if msgs[0].text == [] then [] else [Frame(msgs[0].code, Utf8.Encode(msgs[0].text), false)])
              + Delivered(msgs[1..])
         == frames + Delivered(msgs)
  {
  }

  function NonEmpty(msgs: seq<Message>): seq<Message>
  {
    if msgs == [] then []
    else (if msgs[0].text == [] then [] else [msgs[0]]) + NonEmpty(msgs[1..])
  }

  lemma {:induction false} DeliveredIsUtf8(msgs: seq<Message>)
    ensures |Delivered(msgs)| == |NonEmpty(msgs)|
    ensures forall i :: 0 <= i < |Delivered(msgs)| ==>
              && Delivered(msgs)[i].code == NonEmpty(msgs)[i].code
              && Utf8.Decode(Delivered(msgs)[i].data) == Some(NonEmpty(msgs)[i].text)
              && 0xFF !in Delivered(msgs)[i].data
  {
    if msgs != [] {
      DeliveredIsUtf8(msgs[1..]);
      Utf8.RoundTrip(msgs[0].text);
    }
  }

  // ---- Binary frames ----

  /** Base-128 digits, most significant first. */
  function Digits(n: nat): (d: seq<byte>)
    ensures d != [] && d[0] < 0x80 && (forall i :: 0 <= i < |d| ==> d[i] < 0x80)
    ensures 0x80 <= n ==> 0 < d[0] && 1 < |d|
  {
    if n < 0x80 then [n] else Digits(n / 0x80) + [n % 0x80]
  }

  function Value(d: seq<byte>): nat
  {
    if d == [] then 0 else Value(d[..|d| - 1]) * 0x80 + d[|d| - 1] % 0x80
  }

  /** The digits as they are sent: the flag that announces another digit is missing from the first one
      and set on all others. */
  function SentDigits(n: nat): (d: seq<byte>)
    ensures |d| == |Digits(n)|
  {
    var d := Digits(n);
    [d[0]] + seq(|d| - 1, i requires 0 <= i < |d| - 1 => 0x80 + d[i + 1])
  }

  function BinaryFrame(code: byte, data: seq<byte>): seq<byte>
  {
    [code] + SentDigits(|data|) + data
  }

  lemma {:induction false} DigitsDenote(n: nat)
    ensures Value(Digits(n)) == n
  {
    if 0x80 <= n {
      DigitsDenote(n / 0x80);
      assert (Digits(n / 0x80) + [n % 0x80])[..|Digits(n)| - 1] == Digits(n / 0x80);
    } else {
      assert [n][..0] == [];
    }
  }

  /** Whatever the flags, the digits that are sent denote the length; and five of them are enough. */
  lemma SentDigitsDenote(n: nat)
    ensures Value(SentDigits(n)) == n
    ensures n < 0x8_0000_0000 ==> |SentDigits(n)| <= 5
  {
    DigitsDenote(n);
    SameValue(SentDigits(n), Digits(n));
    if n < 0x8_0000_0000 {
      assert n / 0x80 / 0x80 / 0x80 / 0x80 / 0x80 == 0;
      DigitCount(n);
    }
  }

  lemma {:induction false} SameValue(a: seq<byte>, b: seq<byte>)
    requires |a| == |b| && forall i :: 0 <= i < |a| ==> a[i] % 0x80 == b[i] % 0x80
    ensures Value(a) == Value(b)
  {
    if a != [] {
      SameValue(a[..|a| - 1], b[..|b| - 1]);
    }
  }

  lemma DigitCount(n: nat)
    requires n < 0x8_0000_0000
    ensures |Digits(n)| <= 5
  {
    var n1 := n / 0x80;
    var n2 := n1 / 0x80;
    var n3 := n2 / 0x80;
    var n4 := n3 / 0x80;
    assert n4 < 0x80;
    assert |Digits(n4)| == 1;
    assert |Digits(n3)| <= 2;
    assert |Digits(n2)| <= 3;
    assert |Digits(n1)| <= 4;
  }

  /** Writes the digits of a number behind the first byte, least significant first, all but the last
      one with the flag. */
  method WriteDigits(data: array<byte>, len: nat) returns (i: nat)
    requires |Digits(len)| < data.Length
    modifies data
    ensures i == |Digits(len)| && data[0] == old(data[0])
    ensures forall k :: 1 <= k <= i ==> data[k] == SentDigits(len)[i - k]
  {
    var l := len;
    i := 0;
    ghost var digits := Digits(len);
    var more := true;
    while more
      invariant 0 <= i <= |digits| && data[0] == old(data[0]) && 0 <= l && (!more ==> 0 < i)
      invariant if more then Digits(l) == digits[..|digits| - i] else i == |digits|
      invariant forall k :: 1 <= k <= i ==> data[k] == 0x80 + digits[|digits| - k]
      decreases more, l
    {
      assert Digits(l)[|Digits(l)| - 1] == l % 0x80;
      assert 0x80 <= l ==> Digits(l / 0x80) == Digits(l)[..|Digits(l)| - 1];
      i := i + 1;
      data[i] := 0x80 + l % 0x80;
      l := l / 0x80;
      more := l != 0;
    }
    data[i] := data[i] % 0x80;
  }

  method ReverseDigits(data: array<byte>, i: nat, ghost sent: seq<byte>)
    requires i < data.Length && |sent| == i
    requires forall k :: 1 <= k <= i ==> data[k] == sent[i - k]
    modifies data
    ensures data[0] == old(data[0]) && data[1..i + 1] == sent
  {
    for j := 0 to i / 2
      invariant data[0] == old(data[0])
      invariant forall k :: j < k <= i - j ==> data[k] == sent[i - k]
      invariant forall k :: 1 <= k <= j || i - j < k <= i ==> data[k] == sent[k - 1]
    {
      data[1 + j], data[i - j] := data[i - j], data[1 + j];
    }
  }

  /** httpSendWebSocketBinaryMsg. */
  method SendBinaryMsg(code: byte, buf: seq<byte>) returns (msg: seq<byte>)
    requires 0x80 <= code && 0 < |buf| < 0x7FFF_FFF0
    ensures msg == BinaryFrame(code, buf)
  {
    var len := |buf|;
    var data := new byte[len + 6];
    data[0] := code;
    SentDigitsDenote(len);
    var i := WriteDigits(data, len);
    ghost var sent := SentDigits(len);
    ReverseDigits(data, i, sent);
    assert forall k :: 1 <= k <= i ==> data[k] == data[1..i + 1][k - 1];
    forall k | i + 1 <= k < len + i + 1 {
      data[k] := buf[k - i - 1];
    }
    msg := data[..len + i + 1];
    Joined(msg, [code] + sent, buf);
  }

  lemma Joined(msg: seq<byte>, head: seq<byte>, buf: seq<byte>)
    requires |msg| == |head| + |buf| && forall k :: 0 <= k < |head| ==> msg[k] == head[k]
    requires forall k :: |head| <= k < |msg| ==> msg[k] == buf[k - |head|]
    ensures msg == head + buf
  {
  }

  /** Frames that are complete are not touched again. */
  predicate Settled(s: Stream, n: nat)
  {
    match s.dec
    case Binary(_, _, opening) => n <= |s.frames| && (!opening ==> n < |s.frames|)
    case Text(_, opening, _) => n <= |s.frames| && (!opening ==> n < |s.frames|)
    case _ => n <= |s.frames|
  }

  lemma {:induction false} SettledStays(s: Stream, bytes: seq<byte>, n: nat)
    requires Settled(s, n)
    ensures Settled(Run(s, bytes), n) && Run(s, bytes).frames[..n] == s.frames[..n]
    decreases |bytes|
  {
    if bytes != [] {
      var s1 := Step(s, bytes[0]);
      assert Settled(s1, n) && s1.frames[..n] == s.frames[..n];
      SettledStays(s1, bytes[1..], n);
    }
  }

  lemma RunNext(s: Stream, b: byte, rest: seq<byte>)
    ensures Run(s, [b] + rest) == Run(Step(s, b), rest)
  {
    assert ([b] + rest)[1..] == rest;
  }

  /** The announced length is read from the first digit alone, because its continuation flag is missing. */
  lemma BinaryHeader(s: Stream, code: byte, data: seq<byte>)
    requires s.dec.Idle? && 0x80 <= code && data != []
    ensures var n := Digits(|data|)[0];
            && 0 < n <= |SentDigits(|data|)[1..] + data|
            && Run(s, BinaryFrame(code, data)) == Run(s.(dec := Binary(code, n, true)), SentDigits(|data|)[1..] + data)
  {
    var n, rest := Digits(|data|)[0], SentDigits(|data|)[1..] + data;
    assert BinaryFrame(code, data) == [code] + ([n] + rest);
    RunNext(s, code, [n] + rest);
    RunNext(Step(s, code), n, rest);
  }

  lemma BinaryPayload(s: Stream, code: byte, n: nat, rest: seq<byte>)
    requires s.dec == Binary(code, n, true) && 0 < n <= |rest|
    ensures Run(s, rest)
         == Run(Stream(Finished(code, false), s.frames + [Frame(code, rest[..n], 0x80 <= code)]), rest[n..])
  {
    var a, b := rest[..n], rest[n..];
    assert rest == a + b;
    RunConcat(s, a, b);
    RunBinary(s, a);
  }

  lemma ShortDigits(n: nat)
    requires n < 0x80
    ensures Digits(n)[0] == n && SentDigits(n)[1..] == []
  {
  }

  /** With more than one digit, the receiver sees a frame that is too short. */
  lemma LongBinaryFrame(s: Stream, code: byte, data: seq<byte>)
    requires s.dec.Idle? && 0x80 <= code && 0x80 <= |data|
    ensures var r := Run(s, BinaryFrame(code, data));
            |s.frames| < |r.frames| && |r.frames[|s.frames|].data| < 0x80
  {
    var rest := SentDigits(|data|)[1..] + data;
    var n := Digits(|data|)[0];
    BinaryHeader(s, code, data);
    BinaryPayload(s.(dec := Binary(code, n, true)), code, n, rest);
    var s1 := Stream(Finished(code, false), s.frames + [Frame(code, rest[..n], true)]);
    SettledStays(s1, rest[n..], |s1.frames|);
    var r := Run(s1, rest[n..]);
    assert r.frames[|s.frames|] == r.frames[..|s1.frames|][|s.frames|];
  }

  /** A binary frame survives the round trip exactly if its length fits one digit. */
  lemma BinaryRoundTrip(s: Stream, code: byte, data: seq<byte>)
    requires s.dec.Idle? && 0x80 <= code && data != []
    ensures Run(s, BinaryFrame(code, data)) == Stream(Finished(code, false), s.frames + [Frame(code, data, true)])
       <==> |data| < 0x80
  {
    if |data| < 0x80 {
      ShortDigits(|data|);
      assert [] + data == data;
      BinaryHeader(s, code, data);
      BinaryPayload(s.(dec := Binary(code, |data|, true)), code, |data|, data);
      assert data[..|data|] == data && data[|data|..] == [];
    } else {
      LongBinaryFrame(s, code, data);
    }
  }
}
