/**
 Base64 (section 4 of RFC 4648) as it is read from PEM files: the decoder shifts six bits at a time into a
 32-bit accumulator and takes out a byte whenever there are eight.
 */
module Base64 {
  import opened Bytes

  type sextet = n: int | 0 <= n < 64

  /** The alphabet. */
  function Letter(n: sextet): (c: char)
    ensures Value(c) == Some(n)
  {
    if n < 26 then 'A' + n as char
    else if n < 52 then 'a' + (n - 26) as char
    else if n < 62 then '0' + (n - 52) as char
    else if n == 62 then '+' else '/'
  }

  function Value(c: char): Option<sextet>
  {
    if 'A' <= c <= 'Z' then Some(c as int - 'A' as int)
    else if 'a' <= c <= 'z' then Some(c as int - 'a' as int + 26)
    else if '0' <= c <= '9' then Some(c as int - '0' as int + 52)
    else if c == '+' then Some(62) else if c == '/' then Some(63) else None
  }

  /** Three bytes at a time become four letters; the last group is padded. */
  function Encode(b: seq<byte>): string
  {
    if |b| == 0 then ""
    else if |b| == 1 then [Letter(b[0] / 4), Letter(b[0] % 4 * 16), '=', '=']
    else if |b| == 2 then [Letter(b[0] / 4), Letter(b[0] % 4 * 16 + b[1] / 16), Letter(b[1] % 16 * 4), '=']
    else [Letter(b[0] / 4), Letter(b[0] % 4 * 16 + b[1] / 16), Letter(b[1] % 16 * 4 + b[2] / 64), Letter(b[2] % 64)]
         + Encode(b[3..])
  }

  predicate Blank(c: char)
  {
    c <= ' '
  }

  function Stripped(t: string): string
  {
    if t == "" then "" else (if Blank(t[0]) then "" else [t[0]]) + Stripped(t[1..])
  }

  predicate Padding(t: string)
  {
    forall i :: 0 <= i < |t| ==> t[i] == '=' || Blank(t[i])
  }

  /** The bits that have not been taken out yet: how many there are, and their value. */
  datatype Pending = Pending(count: int, bits: int)

  predicate Proper(p: Pending)
  {
    || (p.count == 0 && p.bits == 0) || (p.count == 2 && 0 <= p.bits < 4)
    || (p.count == 4 && 0 <= p.bits < 16) || (p.count == 6 && 0 <= p.bits < 64)
  }

  /** Adds six bits, and takes out a byte if there are eight. */
  function Push(p: Pending, n: sextet): (seq<byte>, Pending)
    requires Proper(p)
    ensures Proper(Push(p, n).1) && 8 * |Push(p, n).0| + Push(p, n).1.count == p.count + 6
  {
    if p.count == 0 then ([], Pending(6, n))
    else if p.count == 2 then ([p.bits * 64 + n], Pending(0, 0))
    else if p.count == 4 then ([p.bits * 16 + n / 4], Pending(2, n % 4))
    else ([p.bits * 4 + n / 16], Pending(4, n % 16))
  }

  function Prepend(a: seq<byte>, r: Option<seq<byte>>): Option<seq<byte>>
  {
    match r
    case None => None
    case Some(b) => Some(a + b)
  }

  /** What a text stands for: letters, blanks that do not matter, and padding at the end. */
  function Decode(t: string, p: Pending): Option<seq<byte>>
    requires Proper(p)
    decreases |t|
  {
    if t == "" then Some([])
    else if Value(t[0]).Some? then
      var (out, p') := Push(p, Value(t[0]).value);
      Prepend(out, Decode(t[1..], p'))
    else if t[0] == '=' then (if Padding(t[1..]) then Some([]) else None)
    else if Blank(t[0]) then Decode(t[1..], p)
    else None
  }

  const START: Pending := Pending(0, 0)

  // ---- The decoder inverts the encoding ----

  lemma {:induction false} PaddingStripped(t: string)
    ensures Padding(Stripped(t)) <==> Padding(t)
  {
    if t != "" {
      PaddingStripped(t[1..]);
      assert t == [t[0]] + t[1..] && "" + Stripped(t[1..]) == Stripped(t[1..]);
      PaddingCons(t[0], t[1..]);
      PaddingCons(t[0], Stripped(t[1..]));
    }
  }

  lemma PaddingCons(c: char, t: string)
    ensures Padding([c] + t) <==> (c == '=' || Blank(c)) && Padding(t)
  {
    var s := [c] + t;
    assert forall i :: 0 <= i < |t| ==> s[i + 1] == t[i];
    if Padding(s) {
      assert s[0] == c;
      assert forall i :: 0 <= i < |t| ==> t[i] == s[i + 1];
    }
  }

  /** Blanks do not matter, wherever they are. */
  lemma {:induction false} BlanksIgnored(t: string, p: Pending)
    requires Proper(p)
    ensures Decode(Stripped(t), p) == Decode(t, p)
    decreases |t|
  {
    if t != "" {
      var rest := Stripped(t[1..]);
      if Blank(t[0]) {
        assert "" + rest == rest;
        BlanksIgnored(t[1..], p);
      } else {
        assert Stripped(t) == [t[0]] + rest && ([t[0]] + rest)[1..] == rest;
        if Value(t[0]).Some? {
          BlanksIgnored(t[1..], Push(p, Value(t[0]).value).1);
        } else if t[0] == '=' {
          PaddingStripped(t[1..]);
        }
      }
    }
  }

  lemma DecodeLetter(n: sextet, rest: string, p: Pending)
    requires Proper(p)
    ensures Decode([Letter(n)] + rest, p) == Prepend(Push(p, n).0, Decode(rest, Push(p, n).1))
  {
    assert ([Letter(n)] + rest)[1..] == rest;
  }

  /** The first two letters, the third and the fourth of a group. */
  lemma DecodeTwo(a: sextet, b: sextet, rest: string)
    ensures Decode([Letter(a), Letter(b)] + rest, START)
         == Prepend([a * 4 + b / 16], Decode(rest, Pending(4, b % 16)))
  {
    assert [Letter(a), Letter(b)] + rest == [Letter(a)] + ([Letter(b)] + rest);
    DecodeLetter(a, [Letter(b)] + rest, START);
    DecodeLetter(b, rest, Pending(6, a));
    PrependNothing(Decode([Letter(b)] + rest, Pending(6, a)));
  }

  lemma DecodeThird(b: sextet, c: sextet, rest: string)
    ensures Decode([Letter(c)] + rest, Pending(4, b % 16))
         == Prepend([b % 16 * 16 + c / 4], Decode(rest, Pending(2, c % 4)))
  {
    DecodeLetter(c, rest, Pending(4, b % 16));
  }

  lemma DecodeFourth(c: sextet, d: sextet, rest: string)
    ensures Decode([Letter(d)] + rest, Pending(2, c % 4)) == Prepend([c % 4 * 64 + d], Decode(rest, START))
  {
    DecodeLetter(d, rest, Pending(2, c % 4));
  }

  lemma DecodeFour(a: sextet, b: sextet, c: sextet, d: sextet, rest: string)
    ensures Decode([Letter(a), Letter(b), Letter(c), Letter(d)] + rest, START)
         == Prepend([a * 4 + b / 16, b % 16 * 16 + c / 4, c % 4 * 64 + d], Decode(rest, START))
  {
    assert [Letter(a), Letter(b), Letter(c), Letter(d)] + rest
        == [Letter(a), Letter(b)] + ([Letter(c)] + ([Letter(d)] + rest));
    DecodeTwo(a, b, [Letter(c)] + ([Letter(d)] + rest));
    DecodeThird(b, c, [Letter(d)] + rest);
    DecodeFourth(c, d, rest);
    var x: byte, y: byte, z: byte := a * 4 + b / 16, b % 16 * 16 + c / 4, c % 4 * 64 + d;
    PrependTwo([y], [z], Decode(rest, START));
    PrependTwo([x], [y] + [z], Decode(rest, START));
    assert [x] + ([y] + [z]) == [x, y, z];
  }

  lemma PrependTwo(a: seq<byte>, b: seq<byte>, r: Option<seq<byte>>)
    ensures Prepend(a, Prepend(b, r)) == Prepend(a + b, r)
  {
    if r.Some? {
      assert a + (b + r.value) == a + b + r.value;
    }
  }

  lemma PrependNothing(r: Option<seq<byte>>)
    ensures Prepend([], r) == r
  {
    if r.Some? {
      assert [] + r.value == r.value;
    }
  }

  lemma DecodePadded1(b0: byte)
    ensures Decode(Encode([b0]), START) == Some([b0])
  {
    var x, y := b0 / 4, b0 % 4 * 16;
    assert Encode([b0]) == [Letter(x), Letter(y)] + "==";
    DecodeTwo(x, y, "==");
    assert "=="[1..] == "=" && Padding("=");
    assert [b0] + [] == [b0];
    assert x * 4 + y / 16 == b0;
  }

  lemma DecodePadded2(b0: byte, b1: byte)
    ensures Decode(Encode([b0, b1]), START) == Some([b0, b1])
  {
    var x, y, z := b0 / 4, b0 % 4 * 16 + b1 / 16, b1 % 16 * 4;
    assert Encode([b0, b1]) == [Letter(x), Letter(y)] + ([Letter(z)] + "=");
    DecodeTwo(x, y, [Letter(z)] + "=");
    DecodeThird(y, z, "=");
    assert Decode("=", Pending(2, z % 4)) == Some([]);
    assert x * 4 + y / 16 == b0 && y % 16 * 16 + z / 4 == b1;
    assert [b0] + ([b1] + []) == [b0, b1];
  }

  lemma Regrouped(b0: byte, b1: byte, b2: byte)
    ensures var x, y, z, w := b0 / 4, b0 % 4 * 16 + b1 / 16, b1 % 16 * 4 + b2 / 64, b2 % 64;
            x * 4 + y / 16 == b0 && y % 16 * 16 + z / 4 == b1 && z % 4 * 64 + w == b2
  {
  }

  lemma {:induction false} DecodeEncode(b: seq<byte>)
    ensures Decode(Encode(b), START) == Some(b)
    decreases |b|
  {
    if |b| == 1 {
      assert b == [b[0]];
      DecodePadded1(b[0]);
    } else if |b| == 2 {
      assert b == [b[0], b[1]];
      DecodePadded2(b[0], b[1]);
    } else if |b| >= 3 {
      DecodeEncode(b[3..]);
      DecodeGroup(b);
      assert b == [b[0], b[1], b[2]] + b[3..];
    }
  }

  lemma DecodeGroup(b: seq<byte>)
    requires |b| >= 3
    ensures Decode(Encode(b), START) == Prepend([b[0], b[1], b[2]], Decode(Encode(b[3..]), START))
  {
    ThreeBytes(b[0], b[1], b[2], Encode(b[3..]));
  }

  lemma ThreeBytes(b0: byte, b1: byte, b2: byte, rest: string)
    ensures Decode([Letter(b0 / 4), Letter(b0 % 4 * 16 + b1 / 16), Letter(b1 % 16 * 4 + b2 / 64), Letter(b2 % 64)]
                   + rest, START)
         == Prepend([b0, b1, b2], Decode(rest, START))
  {
    Regrouped(b0, b1, b2);
    DecodeFour(b0 / 4, b0 % 4 * 16 + b1 / 16, b1 % 16 * 4 + b2 / 64, b2 % 64, rest);
  }

  /** Any byte string comes back, however the encoding is broken into lines. */
  lemma RoundTrip(b: seq<byte>, t: string)
    requires Stripped(t) == Encode(b)
    ensures Decode(t, START) == Some(b)
  {
    BlanksIgnored(t, START);
    DecodeEncode(b);
  }

  // ---- The decoder ----

  function Power(count: int): int
  {
    if count == 0 then 1 else if count == 2 then 4 else if count == 4 then 16 else 64
  }

  /** The accumulator agrees with the pending bits, however many older bits are still in it. */
  ghost predicate Holds(bits: int, count: int, p: Pending)
  {
    Proper(p) && count == p.count && 0 <= bits < WORD && bits % Power(count) == p.bits
  }

  /** Up to `ptr` the text has been decoded. */
  ghost predicate Decoded(text: string, ptr: nat, out: seq<byte>, p: Pending)
  {
    ptr <= |text| && Proper(p) && Prepend(out, Decode(text[ptr..], p)) == Decode(text, START)
  }

  lemma Begins(text: string)
    ensures Decoded(text, 0, [], START)
  {
    assert text[0..] == text;
    PrependNothing(Decode(text, START));
  }

  lemma NextChar(text: string, ptr: nat, out: seq<byte>, p: Pending)
    requires ptr < |text| && Decoded(text, ptr, out, p)
    ensures var v := Value(text[ptr]);
            if v.Some? then Decoded(text, ptr + 1, out + Push(p, v.value).0, Push(p, v.value).1)
            else if text[ptr] == '=' then Decode(text, START) == (if Padding(text[ptr + 1..]) then Some(out) else None)
            else if Blank(text[ptr]) then Decoded(text, ptr + 1, out, p)
            else Decode(text, START) == None
  {
    assert text[ptr..][1..] == text[ptr + 1..];
    var v := Value(text[ptr]);
    if v.Some? {
      PrependTwo(out, Push(p, v.value).0, Decode(text[ptr + 1..], Push(p, v.value).1));
    }
    assert out + [] == out;
  }

  lemma Ends(text: string, out: seq<byte>, p: Pending)
    requires Decoded(text, |text|, out, p)
    ensures Decode(text, START) == Some(out)
  {
    assert out + [] == out;
  }

  /** The decoder: the buffer is never too small. */
  method DecodeText(text: string) returns (ok: bool, ret: array<byte>, size: nat)
    ensures ret.Length == (|text| * 6 + 7) / 8 && size <= ret.Length
    ensures Decode(text, START) == if ok then Some(ret[..size]) else None
  {
    ret := new byte[(|text| * 6 + 7) / 8];
    size := 0;
    var ptr: nat, bits, count := 0, 0, 0;
    ghost var p := START;
    Begins(text);
    while ptr < |text|
      invariant ptr <= |text| && size <= ret.Length && Holds(bits, count, p) && 8 * size + count <= 6 * ptr
      invariant Decoded(text, ptr, ret[..size], p)
    {
      NextChar(text, ptr, ret[..size], p);
      var ch := text[ptr];
      ptr := ptr + 1;
      if Value(ch).Some? {
        bits, count, size, p := TakeLetter(ret, size, bits, count, Value(ch).value, p);
      } else if ch == '=' {
        ok := OnlyPadding(text, ptr);
        return;
      } else if !Blank(ch) {
        ok := false;
        return;
      }
    }
    Ends(text, ret[..size], p);
    ok := true;
  }

  /** Behind the first padding there may be nothing else. */
  method OnlyPadding(text: string, start: nat) returns (ok: bool)
    requires start <= |text|
    ensures ok <==> Padding(text[start..])
  {
    var ptr := start;
    while ptr < |text|
      invariant start <= ptr <= |text| && Padding(text[start..ptr])
    {
      assert text[start..][ptr - start] == text[ptr];
      if text[ptr] != '=' && text[ptr] > ' ' {
        return false;
      }
      assert text[start..ptr + 1] == text[start..ptr] + [text[ptr]];
      ptr := ptr + 1;
    }
    assert text[start..ptr] == text[start..];
    return true;
  }

  /** Shifts in six bits, and takes out a byte if there are eight. */
  method TakeLetter(ret: array<byte>, n: nat, acc: int, have: int, ch: sextet, ghost p: Pending)
    returns (bits: int, count: int, size: nat, ghost p': Pending)
    requires n <= ret.Length && Holds(acc, have, p) && (8 * n + have + 6) / 8 <= ret.Length
    modifies ret
    ensures p' == Push(p, ch).1 && Holds(bits, count, p') && 8 * size + count == 8 * n + have + 6
    ensures size <= ret.Length && ret[..size] == old(ret[..n]) + Push(p, ch).0
  {
    Shift(acc, have, p, ch);
    p' := Push(p, ch).1;
    bits := (acc * 64 + ch) % WORD;
    count := have + 6;
    size := n;
    if count >= 8 {
      count := count - 8;
      ret[size] := bits / Power(count) % 0x100;
      size := size + 1;
    }
  }

  /** One step of the accumulator. Bits that are shifted out are never needed. */
  lemma Shift(bits: int, count: int, p: Pending, n: sextet)
    requires Holds(bits, count, p)
    ensures var bits' := (bits * 64 + n) % WORD;
            var (out, p') := Push(p, n);
            if count + 6 >= 8 then Holds(bits', count - 2, p') && out == [bits' / Power(count - 2) % 0x100]
            else Holds(bits', count + 6, p') && out == []
  {
    Window(bits, n);
    ByteOut(p.bits, n, (bits * 64 + n) % WORD);
  }

  /** The byte at the top of the window, and what is left below it. */
  lemma ByteOut(pending: int, n: int, bits: int)
    requires 0 <= n < 64 && 0 <= bits
    ensures bits % 256 == pending * 64 + n ==> bits / 1 % 256 == pending * 64 + n
    ensures bits % 1024 == pending * 64 + n ==> bits / 4 % 256 == pending * 16 + n / 4 && bits % 4 == n % 4
    ensures bits % 4096 == pending * 64 + n ==> bits / 16 % 256 == pending * 4 + n / 16 && bits % 16 == n % 16
  {
    Window10(bits);
    Window12(bits);
  }

  const WORD: int := 0x1_0000_0000

  /** The low bits of the accumulator after a shift. */
  lemma Window(bits: int, n: int)
    requires 0 <= bits && 0 <= n < 64
    ensures var bits' := (bits * 64 + n) % WORD;
            && bits' % 64 == n && bits' % 256 == bits % 4 * 64 + n
            && bits' % 1024 == bits % 16 * 64 + n && bits' % 4096 == bits % 64 * 64 + n
  {
    var all := bits * 64 + n;
    Below(all, 0x400_0000, 64);
    Below(all, 0x100_0000, 256);
    Below(all, 0x40_0000, 1024);
    Below(all, 0x10_0000, 4096);
    Low(bits, 4, n);
    Low(bits, 16, n);
    Low(bits, 64, n);
  }

  lemma Below(a: int, k: int, m: int)
    requires 0 < k && 0 < m && k * m == WORD
    ensures a % WORD % m == a % m
  {
    var q, r := a / WORD, a % WORD;
    assert a == q * (k * m) + r == (q * k) * m + r;
    Multiple(q * k, r, m);
  }

  lemma Multiple(q: int, r: int, m: int)
    requires 0 < m
    ensures (q * m + r) % m == r % m
  {
    var s := r / m;
    assert q * m + r == (q + s) * m + r % m;
    Remainder(q + s, r % m, m);
  }

  lemma Remainder(q: int, r: int, m: int)
    requires 0 <= r < m
    ensures (q * m + r) % m == r
  {
    var a := q * m + r;
    var d := a / m - q;
    assert d * m == r - a % m;
    Times(d, m);
  }

  lemma Times(d: int, m: int)
    requires 0 < m
    ensures 1 <= d ==> m <= d * m
    ensures d <= -1 ==> d * m <= -m
  {
  }

  lemma Low(bits: int, m: int, n: int)
    requires 0 <= bits && 0 <= n < 64 && 0 < m
    ensures (bits * 64 + n) % (64 * m) == bits % m * 64 + n
  {
    var q, r := bits / m, bits % m;
    assert bits * 64 + n == q * (64 * m) + (r * 64 + n);
    assert r * 64 + n < 64 * m;
    Remainder(q, r * 64 + n, 64 * m);
  }

  lemma Window10(bits: int)
    requires 0 <= bits
    ensures bits / 4 % 256 == bits % 1024 / 4 && bits % 4 == bits % 1024 % 4
  {
    var q, r := bits / 1024, bits % 1024;
    assert bits == 1024 * q + r;
    assert bits / 4 == 256 * q + r / 4;
  }

  lemma Window12(bits: int)
    requires 0 <= bits
    ensures bits / 16 % 256 == bits % 4096 / 16 && bits % 16 == bits % 4096 % 16
  {
    var q, r := bits / 4096, bits % 4096;
    assert bits == 4096 * q + r;
    assert bits / 16 == 256 * q + r / 16;
  }
}
