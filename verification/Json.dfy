/** JSON strings (section 7 of RFC 8259): how terminal output is escaped, and what a parser makes of it. */
module Json {
  import opened Bytes
  import opened Text

  /** A byte as it is written in a reply. Bytes above 0x7F become escapes of Latin-1 code points. */
  function EscapeByte(ch: byte): (s: string)
    ensures 1 <= |s| <= 6
  {
    if ch < 32 then
      match ch
      case 8 => "\\b"
      case 12 => "\\f"
      case 10 => "\\n"
      case 13 => "\\r"
      case 9 => "\\t"
      case _ => UnicodeEscape(ch)
    else if ch == 34 || ch == 92 || ch == 47 then ['\\', ch as char]
    else if 0x7F < ch then UnicodeEscape(ch)
    else [ch as char]
  }

  function UnicodeEscape(ch: byte): string
  {
    ['\\', 'u', '0', '0', HexDigit(ch / 16), HexDigit(ch % 16)]
  }

  function Escape(bytes: seq<byte>): string
  {
    if bytes == [] then "" else Escape(bytes[..|bytes| - 1]) + EscapeByte(bytes[|bytes| - 1])
  }

  function SimpleEscape(c: char): Option<int>
  {
    match c
    case '"' => Some(34)
    case '\\' => Some(92)
    case '/' => Some(47)
    case 'b' => Some(8)
    case 'f' => Some(12)
    case 'n' => Some(10)
    case 'r' => Some(13)
    case 't' => Some(9)
    case _ => None
  }

  /** One character of a JSON string: its code unit and how many characters it takes. */
  function ParseOne(s: string): (r: Option<(int, nat)>)
    requires s != ""
    ensures r.Some? ==> 0 < r.value.1 <= |s|
  {
    if s[0] == '\\' then
      if |s| < 2 then None
      else if s[1] == 'u' then
        if |s| < 6 || HexValue(s[2]) < 0 || HexValue(s[3]) < 0 || HexValue(s[4]) < 0 || HexValue(s[5]) < 0 then None
        else Some((0x1000 * HexValue(s[2]) + 0x100 * HexValue(s[3]) + 0x10 * HexValue(s[4]) + HexValue(s[5]), 6))
      else
        match SimpleEscape(s[1])
        case Some(v) => Some((v, 2))
        case None => None
    else if s[0] < ' ' || s[0] == '"' then None
    else Some((s[0] as int, 1))
  }

  /** The code units of a JSON string, or None if it is not well-formed. */
  function Unescape(s: string): Option<seq<int>>
  {
    if s == "" then Some([])
    else
      match ParseOne(s)
      case None => None
      case Some((v, n)) =>
        match Unescape(s[n..])
        case None => None
        case Some(rest) => Some([v] + rest)
  }

  lemma ParseOneEscaped(ch: byte, rest: string)
    ensures ParseOne(EscapeByte(ch) + rest) == Some((ch, |EscapeByte(ch)|))
  {
    if EscapeByte(ch) == UnicodeEscape(ch) {
      ParseUnicode(ch, rest);
    } else {
      ParseSimple(ch, rest);
    }
  }

  lemma ParseUnicode(ch: byte, rest: string)
    ensures ParseOne(UnicodeEscape(ch) + rest) == Some((ch, 6))
  {
    var s := UnicodeEscape(ch) + rest;
    HexDigitValue(ch / 16);
    HexDigitValue(ch % 16);
    assert s[..6] == UnicodeEscape(ch);
    assert s[0] == '\\' && s[1] == 'u' && s[2] == '0' && s[3] == '0';
    assert s[4] == HexDigit(ch / 16) && s[5] == HexDigit(ch % 16);
    assert ch / 16 * 16 + ch % 16 == ch;
  }

  lemma ParseSimple(ch: byte, rest: string)
    requires EscapeByte(ch) != UnicodeEscape(ch)
    ensures ParseOne(EscapeByte(ch) + rest) == Some((ch, |EscapeByte(ch)|))
  {
    var e := EscapeByte(ch);
    var s := e + rest;
    assert s[0] == e[0] && (|e| == 2 ==> s[1] == e[1]);
  }

  function Prepend(bytes: seq<int>, rest: Option<seq<int>>): Option<seq<int>>
  {
    match rest
    case Some(v) => Some(bytes + v)
    case None => None
  }

  lemma PrependTwice(a: seq<int>, b: seq<int>, rest: Option<seq<int>>)
    ensures Prepend(a, Prepend(b, rest)) == Prepend(a + b, rest)
    ensures Prepend([], rest) == rest
  {
    if rest.Some? {
      assert a + (b + rest.value) == a + b + rest.value;
      assert [] + rest.value == rest.value;
    }
  }

  lemma UnescapeStep(ch: byte, rest: string)
    ensures Unescape(EscapeByte(ch) + rest) == Prepend([ch], Unescape(rest))
  {
    var s := EscapeByte(ch) + rest;
    ParseOneEscaped(ch, rest);
    assert s[|EscapeByte(ch)|..] == rest;
  }

  lemma {:induction false} UnescapeEscaped(bytes: seq<byte>, rest: string)
    ensures Unescape(Escape(bytes) + rest) == Prepend(bytes, Unescape(rest))
    decreases |bytes|
  {
    var after := Unescape(rest);
    if bytes == [] {
      assert Escape(bytes) + rest == rest;
      PrependTwice([], [], after);
    } else {
      var init, ch := bytes[..|bytes| - 1], bytes[|bytes| - 1];
      UnescapeSplit(init, ch, rest);
      UnescapeStep(ch, rest);
      UnescapeEscaped(init, EscapeByte(ch) + rest);
      PrependTwice(init, [ch], after);
      assert init + [ch] == bytes;
    }
  }

  lemma UnescapeSplit(init: seq<byte>, ch: byte, rest: string)
    ensures Escape(init + [ch]) + rest == Escape(init) + (EscapeByte(ch) + rest)
  {
    assert (init + [ch])[..|init|] == init;
  }

  /** Parsing what was escaped gives the bytes back. */
  lemma RoundTrip(bytes: seq<byte>)
    ensures Unescape(Escape(bytes)) == Some(bytes)
  {
    UnescapeEscaped(bytes, "");
    assert Escape(bytes) + "" == Escape(bytes);
    assert bytes + [] == bytes;
  }

  lemma EscapeNext(bytes: seq<byte>, i: nat)
    requires i < |bytes|
    ensures Escape(bytes[..i + 1]) == Escape(bytes[..i]) + EscapeByte(bytes[i])
    ensures |Escape(bytes[..i + 1])| <= |Escape(bytes)|
  {
    assert bytes[..i + 1][..i] == bytes[..i];
    PrefixShorter(bytes, i + 1);
  }

  lemma {:induction false} PrefixShorter(bytes: seq<byte>, i: nat)
    requires i <= |bytes|
    ensures |Escape(bytes[..i])| <= |Escape(bytes)|
    decreases |bytes| - i
  {
    if i == |bytes| {
      assert bytes[..i] == bytes;
    } else {
      assert bytes[..i + 1][..i] == bytes[..i];
      PrefixShorter(bytes, i + 1);
    }
  }

  /** The first pass of jsonEscape: how much space is needed. */
  method EscapedLength(buf: seq<byte>) returns (count: nat)
    ensures count == |Escape(buf)|
  {
    count := 0;
    for i := 0 to |buf|
      invariant count == |Escape(buf[..i])|
    {
      var ch := buf[i];
      EscapeNext(buf, i);
      if ch < 32 {
        if ch == 8 || ch == 12 || ch == 10 || ch == 13 || ch == 9 {
          count := count + 2;
        } else {
          count := count + 6;
        }
      } else if ch == 34 || ch == 92 || ch == 47 {
        count := count + 2;
      } else if 0x7F < ch {
        count := count + 6;
      } else {
        count := count + 1;
      }
    }
    assert buf[..|buf|] == buf;
  }

  method Put(dst: array<char>, at: nat, s: string) returns (next: nat)
    requires at + |s| <= dst.Length
    modifies dst
    ensures next == at + |s| && dst[..next] == old(dst[..at]) + s
  {
    forall i | at <= i < at + |s| {
      dst[i] := s[i - at];
    }
    next := at + |s|;
  }

  /** jsonEscape: the second pass fills a buffer of just that size. */
  method JsonEscape(buf: seq<byte>) returns (result: string)
    ensures result == Escape(buf)
  {
    var count := EscapedLength(buf);
    var space := new char[count];
    var dst := 0;
    for i := 0 to |buf|
      invariant dst == |Escape(buf[..i])| <= space.Length && space[..dst] == Escape(buf[..i])
    {
      EscapeNext(buf, i);
      dst := PutEscaped(space, dst, buf[i]);
    }
    assert buf[..|buf|] == buf;
    result := space[..dst];
  }

  method PutEscaped(dst: array<char>, at: nat, ch: byte) returns (next: nat)
    requires at + |EscapeByte(ch)| <= dst.Length
    modifies dst
    ensures next == at + |EscapeByte(ch)| && dst[..next] == old(dst[..at]) + EscapeByte(ch)
  {
    if ch < 32 || 0x7F < ch {
      match ch {
        case 8 => next := Put(dst, at, "\\b");
        case 12 => next := Put(dst, at, "\\f");
        case 10 => next := Put(dst, at, "\\n");
        case 13 => next := Put(dst, at, "\\r");
        case 9 => next := Put(dst, at, "\\t");
        case _ => next := Put(dst, at, ['\\', 'u', '0', '0', HexDigit(ch / 16), HexDigit(ch % 16)]);
      }
    } else if ch == 34 || ch == 92 || ch == 47 {
      next := Put(dst, at, ['\\', ch as char]);
    } else {
      next := Put(dst, at, [ch as char]);
    }
  }
}
