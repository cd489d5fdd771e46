/** UTF-8 (section 3 of RFC 3629), applied to single code units: surrogates are encoded like any other value. */
module Utf8 {
  import opened Bytes

  type code = c: int | 0 <= c < 0x11_0000

  function EncodeOne(c: code): (bytes: seq<byte>)
    ensures 1 <= |bytes| <= 4 && 0xFF !in bytes
  {
    if c < 0x80 then [c]
    else if c < 0x800 then [0xC0 + c / 0x40, 0x80 + c % 0x40]
    else if c < 0x1_0000 then [0xE0 + c / 0x1000, 0x80 + c / 0x40 % 0x40, 0x80 + c % 0x40]
    else [0xF0 + c / 0x4_0000, 0x80 + c / 0x1000 % 0x40, 0x80 + c / 0x40 % 0x40, 0x80 + c % 0x40]
  }

  function Encode(text: seq<code>): (bytes: seq<byte>)
    ensures 0xFF !in bytes
  {
    if text == [] then [] else EncodeOne(text[0]) + Encode(text[1..])
  }

  predicate IsTail(bytes: seq<byte>, i: nat)
  {
    i < |bytes| && 0x80 <= bytes[i] < 0xC0
  }

  /** The length of a sequence, as its first byte announces it. */
  function Width(lead: byte): nat
  {
    if lead < 0x80 then 1 else if lead < 0xC0 then 0 else if lead < 0xE0 then 2
    else if lead < 0xF0 then 3 else if lead < 0xF8 then 4 else 0
  }

  function Lead(bytes: seq<byte>, base: int): int
    requires bytes != []
  {
    bytes[0] as int - base
  }

  function Tail(bytes: seq<byte>, i: nat): int
    requires IsTail(bytes, i)
  {
    bytes[i] as int - 0x80
  }

  function DecodeOne(bytes: seq<byte>): (c: Option<int>)
    requires bytes != []
    ensures c.Some? ==> 0 < Width(bytes[0]) <= |bytes|
  {
    var w := Width(bytes[0]);
    if w == 1 then Some(bytes[0])
    else if w == 2 && IsTail(bytes, 1) then
      Some(Lead(bytes, 0xC0) * 0x40 + Tail(bytes, 1))
    else if w == 3 && IsTail(bytes, 1) && IsTail(bytes, 2) then
      Some(Lead(bytes, 0xE0) * 0x1000 + Tail(bytes, 1) * 0x40 + Tail(bytes, 2))
    else if w == 4 && IsTail(bytes, 1) && IsTail(bytes, 2) && IsTail(bytes, 3) then
      Some(Lead(bytes, 0xF0) * 0x4_0000 + Tail(bytes, 1) * 0x1000 + Tail(bytes, 2) * 0x40 + Tail(bytes, 3))
    else None
  }

  function Decode(bytes: seq<byte>): Option<seq<int>>
  {
    if bytes == [] then Some([])
    else
      match DecodeOne(bytes)
      case None => None
      case Some(c) =>
        match Decode(bytes[Width(bytes[0])..])
        case None => None
        case Some(rest) => Some([c] + rest)
  }

  lemma DecodeOneRoundTrip(c: code, rest: seq<byte>)
    ensures DecodeOne(EncodeOne(c) + rest) == Some(c) && Width(EncodeOne(c)[0]) == |EncodeOne(c)|
  {
    var one := EncodeOne(c);
    var bytes := one + rest;
    assert forall i :: 0 <= i < |one| ==> bytes[i] == one[i];
    if c < 0x80 {
    } else if c < 0x800 {
      assert Width(one[0]) == 2;
    } else if c < 0x1_0000 {
      assert Width(one[0]) == 3;
      assert c == c / 0x1000 * 0x1000 + c / 0x40 % 0x40 * 0x40 + c % 0x40;
    } else {
      assert Width(one[0]) == 4;
      assert c == c / 0x4_0000 * 0x4_0000 + c / 0x1000 % 0x40 * 0x1000 + c / 0x40 % 0x40 * 0x40 + c % 0x40;
    }
  }

  lemma {:induction false} RoundTrip(text: seq<code>)
    ensures Decode(Encode(text)) == Some(text)
  {
    if text != [] {
      var rest := Encode(text[1..]);
      var bytes := EncodeOne(text[0]) + rest;
      DecodeOneRoundTrip(text[0], rest);
      assert bytes[0] == EncodeOne(text[0])[0];
      assert bytes[|EncodeOne(text[0])|..] == rest;
      RoundTrip(text[1..]);
      assert [text[0]] + text[1..] == text;
    }
  }

  lemma {:induction false} EncodeAppend(text: seq<code>, c: code)
    ensures Encode(text + [c]) == Encode(text) + EncodeOne(c)
  {
    if text == [] {
      assert text + [c] == [c] && [c][1..] == [];
      assert Encode([c]) == EncodeOne(c) + Encode([]);
    } else {
      assert (text + [c])[1..] == text[1..] + [c];
      EncodeAppend(text[1..], c);
      assert EncodeOne(text[0]) + (Encode(text[1..]) + EncodeOne(c)) == Encode(text) + EncodeOne(c);
    }
  }
}
