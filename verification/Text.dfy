/**
 Lines of text, hexadecimal digits, and memmove.
 */
module Text {
  /** The length of the first line, with its newline. */
  function LineLength(text: string): (n: nat)
    ensures n <= |text| && (text != "" ==> 0 < n)
    ensures forall i :: 0 <= i < n - 1 ==> text[i] != '\n'
    ensures 0 < n < |text| ==> text[n - 1] == '\n'
  {
    if text == "" then 0
    else if text[0] == '\n' then 1
    else
      var n := 1 + LineLength(text[1..]);
      assert forall i :: 1 <= i < n ==> text[i] == text[1..][i - 1];
      n
  }

  lemma LineLengthIs(text: string, n: nat)
    requires 0 < n <= |text| && (forall i :: 0 <= i < n - 1 ==> text[i] != '\n')
    requires n < |text| ==> text[n - 1] == '\n'
    ensures LineLength(text) == n
  {
    var m := LineLength(text);
    assert text[n - 1] == '\n' || n == |text|;
  }

  /** The end of the line at `start`: memchr for its newline. */
  method LineEnd(a: array<char>, start: nat, length: nat) returns (end: nat)
    requires start < length <= a.Length
    ensures start < end <= length && end - start == LineLength(a[..length][start..])
  {
    end := start;
    ghost var rest := a[..length][start..];
    while end < length && a[end] != '\n'
      invariant start <= end <= length && forall i :: 0 <= i < end - start ==> rest[i] != '\n'
    {
      end := end + 1;
    }
    if end < length {
      assert rest[end - start] == '\n';
      end := end + 1;
    }
    LineLengthIs(rest, end - start);
  }

  /** The position of a character, or the length of the string. */
  function Find(s: string, c: char): (i: nat)
    ensures i <= |s| && (i < |s| ==> s[i] == c) && c !in s[..i]
  {
    if s == "" || s[0] == c then 0
    else
      var i := 1 + Find(s[1..], c);
      assert s[..i] == [s[0]] + s[1..][..i - 1];
      i
  }

  lemma FindIs(s: string, c: char, i: nat)
    requires i <= |s| && c !in s[..i] && (i < |s| ==> s[i] == c)
    ensures Find(s, c) == i
  {
    assert forall k :: 0 <= k < i ==> s[k] in s[..i];
    forall m | i < m <= |s|
      ensures c in s[..m]
    {
      assert s[..m][i] == c;
    }
  }

  /** A hexadecimal digit. */
  function HexDigit(n: int): char
    requires 0 <= n < 16
  {
    if n < 10 then n as char + '0' else (n - 10) as char + 'A'
  }

  /** The value of a hexadecimal digit, or -1. Clearing bit 5 makes a letter upper case. */
  function HexValue(c: char): (v: int)
    ensures -1 <= v < 16
  {
    if '0' <= c <= '9' then c as int - '0' as int
    else if 'A' <= c <= 'F' then c as int - 'A' as int + 10
    else if 'a' <= c <= 'f' then c as int - 'a' as int + 10
    else -1
  }

  lemma HexDigitValue(n: int)
    requires 0 <= n < 16
    ensures HexValue(HexDigit(n)) == n
  {
  }

  function Moved<T>(s: seq<T>, dst: nat, src: nat, n: nat): (moved: seq<T>)
    requires dst + n <= |s| && src + n <= |s|
    ensures |moved| == |s|
  {
    s[..dst] + s[src..src + n] + s[dst + n..]
  }

  /** memmove within a buffer. */
  method MemMove<T>(a: array<T>, dst: nat, src: nat, n: nat)
    requires dst + n <= a.Length && src + n <= a.Length
    modifies a
    ensures a[..] == Moved(old(a[..]), dst, src, n)
  {
    var piece := a[src..src + n];
    forall i | dst <= i < dst + n {
      a[i] := piece[i - dst];
    }
  }

  /** Closes the gap at `i` by moving up what is behind it, up to `n`. */
  method MoveUp<T>(a: array<T>, i: nat, n: nat)
    requires i < n <= a.Length
    modifies a
    ensures forall k :: 0 <= k < n - 1 ==> a[k] == old(a[..])[if k < i then k else k + 1]
    ensures forall k :: n - 1 <= k < a.Length ==> a[k] == old(a[..])[k]
  {
    ghost var all := a[..];
    MemMove(a, i, i + 1, n - i - 1);
    MovedUp(all, i, n);
    assert forall k :: 0 <= k < a.Length ==> a[k] == a[..][k];
  }

  lemma MovedUp<T>(s: seq<T>, i: nat, n: nat)
    requires i < n <= |s|
    ensures var t := Moved(s, i, i + 1, n - i - 1);
            |t| == |s| && forall k :: 0 <= k < |s| ==> t[k] == s[if i <= k < n - 1 then k + 1 else k]
  {
  }
}
