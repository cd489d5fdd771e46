/**
 Percent encoding: characters that a shell might interpret are escaped before a URL is passed on, and
 received URLs and forms are unescaped in place.
 */
module Url {
  import opened Bytes
  import opened Text

  const UNSAFE: string := "\\\"'`${};() \r\n\t\U{0B}\U{0C}"

  predicate Unsafe(c: char)
  {
    c in UNSAFE
  }

  function Percent(c: char): string
  {
    ['%', HexDigit(c as int / 16 % 16), HexDigit(c as int % 16)]
  }

  /** The text with every unsafe character escaped, and nothing else. */
  function Escape(s: string): string
  {
    if s == "" then "" else (if Unsafe(s[0]) then Percent(s[0]) else [s[0]]) + Escape(s[1..])
  }

  /** The first character that is encoded, and how long its code is. A percent sign without a digit stands
      for itself; one with a single digit stands for the value of that digit. */
  function Decode(s: string): (r: (char, nat))
    requires s != ""
    ensures 1 <= r.1 <= |s|
  {
    if s[0] == '+' then (' ', 1)
    else if s[0] != '%' || |s| == 1 || HexValue(s[1]) < 0 then (s[0], 1)
    else if |s| == 2 || HexValue(s[2]) < 0 then (HexValue(s[1]) as char, 2)
    else ((16 * HexValue(s[1]) + HexValue(s[2])) as char, 3)
  }

  function Unescape(s: string): string
  {
    if s == "" then "" else [Decode(s).0] + Unescape(s[Decode(s).1..])
  }

  // ---- Escaping preserves the meaning ----

  lemma UnsafeOnes(c: char)
    requires Unsafe(c)
    ensures c as int < 128 && c != '%' && c != '+' && HexValue(c) == -1
  {
  }

  lemma SafeDigit(n: int)
    requires 0 <= n < 16
    ensures HexValue(HexDigit(n)) == n && !Unsafe(HexDigit(n))
  {
  }

  lemma PercentIs(c: char, rest: string)
    requires c as int < 128
    ensures Decode(Percent(c) + rest) == (c, 3) && (Percent(c) + rest)[3..] == rest
  {
    SafeDigit(c as int / 16 % 16);
    SafeDigit(c as int % 16);
  }

  lemma PercentDecodes(c: char, rest: string)
    requires Unsafe(c)
    ensures Unescape(Percent(c) + rest) == [c] + Unescape(rest)
  {
    UnsafeOnes(c);
    PercentIs(c, rest);
    hide Decode, Percent, Unsafe;
  }

  /** What follows a percent sign is a digit after escaping exactly if it was one before. */
  lemma EscapeHead(s: string)
    ensures Escape(s) == "" <==> s == ""
    ensures s != "" ==> HexValue(Escape(s)[0]) == HexValue(s[0])
  {
    if s != "" && Unsafe(s[0]) {
      UnsafeOnes(s[0]);
    }
  }

  lemma EscapeSafe(s: string)
    requires s != "" && !Unsafe(s[0])
    ensures Escape(s) == [s[0]] + Escape(s[1..]) && Escape(s)[0] == s[0] && Escape(s)[1..] == Escape(s[1..])
  {
  }

  lemma HexSafe(c: char)
    requires HexValue(c) >= 0
    ensures !Unsafe(c)
  {
  }

  lemma DecodeEscaped(s: string)
    requires s != "" && !Unsafe(s[0])
    ensures Decode(Escape(s)).0 == Decode(s).0
    ensures Escape(s)[Decode(Escape(s)).1..] == Escape(s[Decode(s).1..])
  {
    EscapeSafe(s);
    EscapeHead(s[1..]);
    if s[0] == '%' && |s| > 1 && HexValue(s[1]) >= 0 {
      DecodeDigits(s);
    }
  }

  lemma DecodeDigits(s: string)
    requires |s| > 1 && s[0] == '%' && HexValue(s[1]) >= 0 && Escape(s) == ['%'] + Escape(s[1..])
    ensures Decode(Escape(s)).0 == Decode(s).0
    ensures Escape(s)[Decode(Escape(s)).1..] == Escape(s[Decode(s).1..])
  {
    hide Escape;
    HexSafe(s[1]);
    var t := s[2..];
    assert s[1..][1..] == t;
    EscapeSafe(s[1..]);
    EscapeHead(t);
    var e := ['%', s[1]] + Escape(t);
    assert Escape(s) == e && e[2..] == Escape(t);
    if t != "" && HexValue(t[0]) >= 0 {
      HexSafe(t[0]);
      EscapeSafe(t);
      assert e[3..] == Escape(t[1..]) && t[1..] == s[3..];
    }
  }

  /** The other side cannot tell whether a text has been escaped: for all texts, malformed ones included. */
  lemma {:induction false} UnescapeEscape(s: string)
    ensures Unescape(Escape(s)) == Unescape(s)
    decreases |s|
  {
    if s != "" {
      if Unsafe(s[0]) {
        UnsafeOnes(s[0]);
        PercentDecodes(s[0], Escape(s[1..]));
        UnescapeEscape(s[1..]);
      } else {
        DecodeEscaped(s);
        UnescapeEscape(s[Decode(s).1..]);
      }
    }
  }

  // ---- Escaping ----

  function CountUnsafe(s: string): nat
  {
    if s == "" then 0 else (if Unsafe(s[0]) then 1 else 0) + CountUnsafe(s[1..])
  }

  lemma {:induction false} EscapeConcat(a: string, b: string)
    ensures Escape(a + b) == Escape(a) + Escape(b) && CountUnsafe(a + b) == CountUnsafe(a) + CountUnsafe(b)
  {
    if a == "" {
      assert a + b == b;
    } else {
      assert (a + b)[1..] == a[1..] + b;
      EscapeConcat(a[1..], b);
    }
  }

  lemma {:induction false} EscapeNothing(s: string)
    requires forall i :: 0 <= i < |s| ==> !Unsafe(s[i])
    ensures Escape(s) == s && CountUnsafe(s) == 0
  {
    if s != "" {
      EscapeNothing(s[1..]);
    }
  }

  lemma PercentSafe(c: char)
    ensures forall i :: 0 <= i < 3 ==> !Unsafe(Percent(c)[i])
  {
    SafeDigit(c as int / 16 % 16);
    SafeDigit(c as int % 16);
  }

  lemma {:induction false} EscapedIsSafe(s: string)
    ensures forall i :: 0 <= i < |Escape(s)| ==> !Unsafe(Escape(s)[i])
  {
    if s != "" {
      PercentSafe(s[0]);
      EscapedIsSafe(s[1..]);
    }
  }

  /** One replacement does not change what the text has to become. */
  lemma EscapeStep(s: string, i: nat)
    requires i < |s| && Unsafe(s[i])
    ensures var t := s[..i] + Percent(s[i]) + s[i + 1..];
            Escape(t) == Escape(s) && CountUnsafe(t) < CountUnsafe(s)
  {
    var c := s[i];
    assert s == s[..i] + [c] + s[i + 1..];
    EscapeConcat(s[..i] + [c], s[i + 1..]);
    EscapeConcat(s[..i], [c]);
    EscapeConcat(s[..i] + Percent(c), s[i + 1..]);
    EscapeConcat(s[..i], Percent(c));
    PercentSafe(c);
    EscapeNothing(Percent(c));
    assert Escape([c]) == Percent(c) && CountUnsafe([c]) == 1;
  }

  /** strcspn: the position of the first unsafe character, or the length. */
  method Strcspn(u: array<char>) returns (i: nat)
    ensures i <= u.Length && (i < u.Length ==> Unsafe(u[i])) && forall k :: 0 <= k < i ==> !Unsafe(u[..][k])
  {
    i := 0;
    while i < u.Length && u[i] !in UNSAFE
      invariant i <= u.Length && forall k :: 0 <= k < i ==> !Unsafe(u[..][k])
    {
      i := i + 1;
    }
  }

  /** Replaces one character by its code; the buffer is allocated anew. */
  method EscapeAt(u: array<char>, i: nat) returns (grown: array<char>)
    requires i < u.Length && Unsafe(u[i])
    ensures fresh(grown) && grown[..] == u[..i] + Percent(u[i]) + u[i + 1..]
  {
    grown := new char[u.Length + 2](k requires 0 <= k < u.Length + 2 && i < u.Length reads u =>
      if k <= i then u[k] else if k < i + 3 then '%' else u[k - 2]);
    grown[i + 2] := HexDigit(grown[i] as int % 16);
    grown[i + 1] := HexDigit(grown[i] as int / 16 % 16);
    grown[i] := '%';
  }

  /** The loop in `launchChild`: as long as there are unsafe characters, the first one is escaped. */
  method EscapeUrl(url: string) returns (u: array<char>)
    ensures fresh(u) && u[..] == Escape(url)
  {
    u := new char[|url|](i requires 0 <= i < |url| => url[i]);
    assert u[..] == url;
    var i: nat := Strcspn(u);
    while i < u.Length
      invariant fresh(u) && Escape(u[..]) == Escape(url)
      invariant i <= u.Length && (i < u.Length ==> Unsafe(u[i])) && forall k :: 0 <= k < i ==> !Unsafe(u[..][k])
      decreases CountUnsafe(u[..])
    {
      EscapeStep(u[..], i);
      u := EscapeAt(u, i);
      i := Strcspn(u);
    }
    EscapeNothing(u[..]);
  }

  // ---- Unescaping in place ----

  /** `urlUnescape`: what is written never gets ahead of what is read. */
  method UnescapeInPlace(s: array<char>, n: nat) returns (length: nat)
    requires n <= s.Length
    modifies s
    ensures length <= n && s[..length] == Unescape(old(s[..n]))
  {
    hide Unescape, Decode;
    ghost var text, goal := s[..n], Unescape(s[..n]);
    var u: nat := 0;
    length := 0;
    assert text[0..] == text && s[..0] == "" && s[0..n] == text;
    while u < n
      invariant length <= u <= n && s[u..n] == text[u..]
      invariant s[..length] + Unescape(text[u..]) == goal
    {
      ghost var written := s[..length];
      var ch, next := DecodeAt(s, n, u);
      UnescapeNext(text, u, written);
      KeepsRest(s[..], n, length, u, next, ch);
      s[length] := ch;
      length := length + 1;
      assert s[..length] == written + [ch];
      u := next;
    }
    NothingLeft();
    assert text[u..] == "" && s[..length] + "" == s[..length];
  }

  lemma NothingLeft()
    ensures Unescape("") == ""
  {
  }

  lemma UnescapeNext(text: string, u: nat, written: string)
    requires u < |text|
    ensures var (ch, n) := Decode(text[u..]);
            written + Unescape(text[u..]) == written + [ch] + Unescape(text[u + n..])
  {
    var (ch, n) := Decode(text[u..]);
    assert text[u..][n..] == text[u + n..];
    assert written + ([ch] + Unescape(text[u + n..])) == written + [ch] + Unescape(text[u + n..]);
  }

  /** What is still to be read is behind what has just been written. */
  lemma KeepsRest(s: string, n: nat, length: nat, u: nat, next: nat, ch: char)
    requires length <= u < next <= n <= |s|
    ensures s[length := ch][next..n] == s[u..n][next - u..]
  {
  }

  method DecodeAt(s: array<char>, n: nat, start: nat) returns (ch: char, u: nat)
    requires start < n <= s.Length
    ensures start < u <= n && Decode(s[start..n]) == (ch, u - start)
  {
    u := start;
    ch := s[u];
    u := u + 1;
    if ch == '+' {
      ch := ' ';
    } else if ch == '%' {
      var c1 := if u < n then HexValue(s[u]) else -1;
      if c1 >= 0 {
        ch := c1 as char;
        u := u + 1;
        var c2 := if u < n then HexValue(s[u]) else -1;
        if c2 >= 0 {
          ch := (16 * c1 + c2) as char;
          u := u + 1;
        }
      }
    }
  }

  // ---- Query strings ----

  /** What is seen of a text by functions that stop at NUL. */
  function CString(s: string): string
  {
    s[..Find(s, NUL)]
  }

  function WithPair(m: map<string, Option<string>>, key: string, value: Option<string>): map<string, Option<string>>
  {
    m[CString(Unescape(key)) := match value case None => None case Some(v) => Some(CString(Unescape(v)))]
  }

  /** One field: a key, and a value if there is an equals sign. Fields without a key are ignored. */
  function WithField(m: map<string, Option<string>>, field: string): map<string, Option<string>>
  {
    if KeyOf(field) == "" then m else WithPair(m, KeyOf(field), ValueOf(field))
  }

  /** The end of the field that starts at `i`: an ampersand, a NUL, or the end. */
  function FieldEnd(q: string, i: nat): (end: nat)
    requires i <= |q|
    ensures i <= end <= |q| && (end < |q| ==> q[end] == '&' || q[end] == NUL)
    ensures forall k :: i <= k < end ==> q[k] != '&' && q[k] != NUL
    decreases |q| - i
  {
    if i == |q| || q[i] == '&' || q[i] == NUL then i else FieldEnd(q, i + 1)
  }

  /** All the fields in turn; a later one replaces an earlier one with the same key. A field that is followed
      by NUL is dropped, and so is everything behind it. */
  function WithQuery(m: map<string, Option<string>>, q: string, start: nat): map<string, Option<string>>
    requires start <= |q|
    decreases |q| - start
  {
    var end := FieldEnd(q, start);
    if end == |q| then WithField(m, q[start..])
    else if q[end] == '&' then WithQuery(WithField(m, q[start..end]), q, end + 1)
    else m
  }

  /** `urlParseQueryString`: adds the fields of a query to a hash map, which is represented by the map that it
      stands for (see `HashMap`). */
  method ParseQueryString(hashmap: map<string, Option<string>>, query: string) returns (m: map<string, Option<string>>)
    ensures m == WithQuery(hashmap, query, 0)
  {
    hide WithQuery;
    m := hashmap;
    var key: nat, ampersand: nat := 0, 0;
    var value: Option<nat> := None;   // the position behind the equals sign
    ghost var goal := WithQuery(hashmap, query, 0);
    var more := true;
    while more
      invariant more ==> InField(query, key, ampersand, value) && WithQuery(m, query, key) == goal
      invariant !more ==> m == goal
      decreases if more then 1 + |query| - ampersand else 0
    {
      m, key, value := NextChar(m, query, key, ampersand, value);
      more := ampersand < |query| && query[ampersand] != NUL;
      ampersand := ampersand + 1;
    }
  }

  /** Looks at one character. */
  method NextChar(before: map<string, Option<string>>, query: string, start: nat, ampersand: nat, seen: Option<nat>)
    returns (m: map<string, Option<string>>, key: nat, value: Option<nat>)
    requires InField(query, start, ampersand, seen)
    ensures if ampersand < |query| && query[ampersand] != NUL then
              InField(query, key, ampersand + 1, value) && WithQuery(m, query, key) == WithQuery(before, query, start)
            else m == WithQuery(before, query, start)
  {
    QueryStep(before, query, start, ampersand, seen);
    m, key, value := before, start, seen;
    if ampersand < |query| && query[ampersand] == '=' && value == None {
      value := Some(ampersand + 1);
    } else if ampersand == |query| || query[ampersand] == '&' {
      m := AddField(m, query, key, ampersand, value);
      key := ampersand + 1;
      value := None;
    }
  }

  lemma QueryStep(m: map<string, Option<string>>, query: string, key: nat, end: nat, value: Option<nat>)
    requires InField(query, key, end, value)
    ensures end == |query| ==> WithQuery(m, query, key) == WithField(m, query[key..end])
    ensures end < |query| && query[end] == '&' ==>
              WithQuery(m, query, key) == WithQuery(WithField(m, query[key..end]), query, end + 1)
              && InField(query, end + 1, end + 1, None)
    ensures end < |query| && query[end] == NUL ==> WithQuery(m, query, key) == m
    ensures end < |query| && query[end] == '=' && value == None ==> InField(query, key, end + 1, Some(end + 1))
    ensures end < |query| && query[end] != '&' && query[end] != NUL && !(query[end] == '=' && value == None) ==>
              InField(query, key, end + 1, value)
  {
    hide WithField;
    if end == |query| || query[end] == '&' || query[end] == NUL {
      assert FieldEnd(query, key) == end;
      assert end == |query| ==> query[key..end] == query[key..];
    } else {
      FieldGrows(query, key, end, value);
    }
  }

  lemma FieldGrows(query: string, key: nat, end: nat, value: Option<nat>)
    requires end < |query| && InField(query, key, end, value) && query[end] != '&' && query[end] != NUL
    ensures query[end] == '=' && value == None ==> InField(query, key, end + 1, Some(end + 1))
    ensures !(query[end] == '=' && value == None) ==> InField(query, key, end + 1, value)
  {
    assert query[key..end + 1] == query[key..end] + [query[end]];
  }

  /** The current field has no separator up to `end`, and its first equals sign is in front of `value`. */
  ghost predicate InField(query: string, key: nat, end: nat, value: Option<nat>)
  {
    && key <= end <= |query|
    && (forall k :: key <= k < end ==> query[k] != '&' && query[k] != NUL)
    && match value
       case None => '=' !in query[key..end]
       case Some(v) => key < v <= end && query[v - 1] == '=' && '=' !in query[key..v - 1]
  }

  lemma FieldParts(query: string, key: nat, end: nat, value: Option<nat>)
    requires InField(query, key, end, value)
    ensures var field := query[key..end];
            match value
            case None => Find(field, '=') == |field| && field[..|field|] == field
            case Some(v) => && Find(field, '=') == v - 1 - key < |field|
                            && field[..v - 1 - key] == query[key..v - 1] && field[v - key..] == query[v..end]
  {
    var field := query[key..end];
    match value {
      case None => FindIs(field, '=', |field|);
      case Some(v) =>
        assert field[..v - 1 - key] == query[key..v - 1];
        FindIs(field, '=', v - 1 - key);
    }
  }

  /** The key and the value of a field. */
  function KeyOf(field: string): string
  {
    field[..Find(field, '=')]
  }

  function ValueOf(field: string): Option<string>
  {
    var k := Find(field, '=');
    if k < |field| then Some(field[k + 1..]) else None
  }

  method SplitField(query: string, key: nat, end: nat, value: Option<nat>) returns (k: string, v: Option<string>)
    requires InField(query, key, end, value)
    ensures k == KeyOf(query[key..end]) && v == ValueOf(query[key..end])
  {
    FieldParts(query, key, end, value);
    k := query[key..if value.Some? then value.value - 1 else end];
    v := if value.Some? then Some(query[value.value..end]) else None;
  }

  method AddField(m: map<string, Option<string>>, query: string, key: nat, end: nat, value: Option<nat>)
    returns (m': map<string, Option<string>>)
    requires InField(query, key, end, value)
    ensures m' == WithField(m, query[key..end])
  {
    var k, v := SplitField(query, key, end, value);
    m' := m;
    if k != "" {
      var unescaped := Unescaped(k);
      if v.Some? {
        var u := Unescaped(v.value);
        m' := m'[unescaped := Some(u)];
      } else {
        m' := m'[unescaped := None];
      }
    }
  }

  /** A copy of a piece of text, unescaped, up to the first NUL. */
  method Unescaped(piece: string) returns (s: string)
    ensures s == CString(Unescape(piece))
  {
    var buf := new char[|piece|](i requires 0 <= i < |piece| => piece[i]);
    assert buf[..|piece|] == piece;
    var n := UnescapeInPlace(buf, |piece|);
    s := buf[..n];
    s := s[..Find(s, NUL)];
  }
}
