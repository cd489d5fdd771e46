/**
 Rewriting the header of a reply that has been compressed: header lines are removed in place, and others
 added in front of the blank line.
 */
module Headers {
  import opened Bytes
  import opened Text

  const CRLF: string := "\r\n"

  /** The length of a header line together with the lines that continue it, which start with a space. */
  function LogicalLength(s: string): (n: nat)
    ensures n <= |s| && (s != "" ==> 0 < n)
    ensures 0 < n < |s| ==> s[n - 1] == '\n' && s[n] != ' '
  {
    var n := LineLength(s);
    if n < |s| && s[n] == ' ' then n + LogicalLength(s[n..]) else n
  }

  function LogicalLines(s: string): seq<string>
  {
    if s == "" then [] else [s[..LogicalLength(s)]] + LogicalLines(s[LogicalLength(s)..])
  }

  function Lower(c: char): char
  {
    if 'A' <= c <= 'Z' then c - 'A' + 'a' else c
  }

  /** strncasecmp: the first characters are those of the name, in upper or lower case. */
  predicate HasId(s: string, id: string)
  {
    |id| <= |s| && forall i :: 0 <= i < |id| ==> Lower(s[i]) == Lower(id[i])
  }

  function Kept(lines: seq<string>, id: string): seq<string>
  {
    if lines == [] then [] else (if HasId(lines[0], id) then [] else [lines[0]]) + Kept(lines[1..], id)
  }

  /** What `removeHeader` leaves of a text. */
  function Removed(s: string, id: string): string
  {
    if s == "" then ""
    else
      var n := LogicalLength(s);
      (if HasId(s, id) then "" else s[..n]) + Removed(s[n..], id)
  }

  /** A name can only be found at the start of a logical line, and not across its end. */
  lemma IdInLine(s: string, id: string)
    requires s != "" && '\n' !in id
    ensures HasId(s, id) <==> HasId(s[..LogicalLength(s)], id)
  {
    assert forall i :: 0 <= i < |id| ==> id[i] in id && Lower(id[i]) != '\n';
  }

  lemma {:induction false} RemovedIsFilter(s: string, id: string)
    requires '\n' !in id
    ensures Removed(s, id) == Flatten(Kept(LogicalLines(s), id))
    decreases |s|
  {
    if s != "" {
      var n := LogicalLength(s);
      IdInLine(s, id);
      RemovedIsFilter(s[n..], id);
      KeptStep(s[..n], LogicalLines(s[n..]), id);
      assert LogicalLines(s) == [s[..n]] + LogicalLines(s[n..]);
    }
  }

  lemma KeptStep(line: string, lines: seq<string>, id: string)
    ensures Flatten(Kept([line] + lines, id)) == (if HasId(line, id) then "" else line) + Flatten(Kept(lines, id))
  {
    assert ([line] + lines)[1..] == lines;
    assert ([line] + Kept(lines, id))[1..] == Kept(lines, id);
    assert [] + Kept(lines, id) == Kept(lines, id);
    assert "" + Flatten(Kept(lines, id)) == Flatten(Kept(lines, id));
  }

  lemma Halves(s: string, n: nat)
    requires n <= |s|
    ensures s[..n] + s[n..] == s
  {
  }

  /** There is no need to look at what is shorter than the name. */
  lemma {:induction false} TooShort(s: string, id: string)
    requires |s| < |id|
    ensures Removed(s, id) == s
    decreases |s|
  {
    hide LogicalLength;
    if s != "" {
      var n := LogicalLength(s);
      TooShort(s[n..], id);
      FirstRemoved(s, n, id);
      Halves(s, n);
    }
  }

  /** What is in front of `ptr` is final. */
  ghost predicate Stands(text: string, ptr: nat, id: string, result: string)
  {
    ptr <= |text| && text[..ptr] + Removed(text[ptr..], id) == result
  }

  /** Removes the header lines of a name, in place. */
  method RemoveHeader(header: array<char>, length: nat, id: string) returns (headerLength: nat)
    requires length <= header.Length && ':' in id && '\n' !in id
    modifies header
    ensures headerLength <= length && header[..headerLength] == Removed(old(header[..length]), id)
  {
    hide Removed, LogicalLength;
    headerLength := length;
    var ptr: nat := 0;
    ghost var result := Removed(header[..length], id);
    Begins(header[..length], id);
    while headerLength - ptr >= |id|
      invariant ptr <= headerLength <= length && Stands(header[..headerLength], ptr, id, result)
      decreases headerLength - ptr
    {
      ghost var text := header[..headerLength];
      var end := EndOfLine(header, ptr, headerLength);
      var same := SameId(header, ptr, headerLength, id);
      StandsNext(text, ptr, end, id, result);
      if same {
        Drop(header, ptr, end, headerLength);
        headerLength := headerLength - (end - ptr);
      } else {
        ptr := end;
      }
    }
    Ends(header[..headerLength], ptr, id, result);
  }

  method Drop(header: array<char>, ptr: nat, end: nat, length: nat)
    requires ptr <= end <= length <= header.Length
    modifies header
    ensures header[..length - (end - ptr)] == old(header[..length])[..ptr] + old(header[..length])[end..]
  {
    ghost var all := header[..];
    MemMove(header, ptr, end, length - end);
    CloseGap(all, ptr, end, length);
  }

  method SameId(header: array<char>, ptr: nat, length: nat, id: string) returns (same: bool)
    requires ptr + |id| <= length <= header.Length
    ensures same <==> HasId(header[..length][ptr..], id)
  {
    ghost var rest := header[..length][ptr..];
    var i: nat := 0;
    while i < |id|
      invariant i <= |id| && forall k :: 0 <= k < i ==> Lower(rest[k]) == Lower(id[k])
    {
      assert rest[i] == header[ptr + i];
      if Lower(header[ptr + i]) != Lower(id[i]) {
        return false;
      }
      i := i + 1;
    }
    return true;
  }

  /** The end of a header line and of its continuations. */
  method EndOfLine(header: array<char>, ptr: nat, length: nat) returns (end: nat)
    requires ptr < length <= header.Length
    ensures ptr < end <= length && end - ptr == LogicalLength(header[..length][ptr..])
  {
    ghost var text := header[..length];
    end := NextLine(header, ptr, length);
    while end < length && header[end] == ' '
      invariant ptr < end <= length
      invariant LogicalLength(text[ptr..])
             == end - ptr + if end < length && header[end] == ' ' then LogicalLength(text[end..]) else 0
      decreases length - end
    {
      end := NextLine(header, end, length);
    }
  }

  method NextLine(header: array<char>, start: nat, length: nat) returns (end: nat)
    requires start < length <= header.Length
    ensures start < end <= length
    ensures LogicalLength(header[..length][start..])
         == end - start + if end < length && header[end] == ' ' then LogicalLength(header[..length][end..]) else 0
  {
    end := LineEnd(header, start, length);
    assert header[..length][start..][end - start..] == header[..length][end..];
  }

  lemma Begins(text: string, id: string)
    ensures Stands(text, 0, id, Removed(text, id))
  {
    assert text[0..] == text && text[..0] + Removed(text, id) == Removed(text, id);
  }

  lemma StandsNext(text: string, ptr: nat, end: nat, id: string, result: string)
    requires ptr < end <= |text| && end - ptr == LogicalLength(text[ptr..]) && Stands(text, ptr, id, result)
    ensures if HasId(text[ptr..], id) then Stands(text[..ptr] + text[end..], ptr, id, result)
            else Stands(text, end, id, result)
  {
    var rest := text[ptr..];
    Parts(text, ptr, end);
    FirstRemoved(rest, end - ptr, id);
    KeepOrDrop(text, ptr, end, Removed(text[end..], id));
  }

  lemma Parts(text: string, ptr: nat, end: nat)
    requires ptr <= end <= |text|
    ensures text[ptr..][end - ptr..] == text[end..] && text[ptr..][..end - ptr] == text[ptr..end]
    ensures var t := text[..ptr] + text[end..]; t[..ptr] == text[..ptr] && t[ptr..] == text[end..]
  {
  }

  lemma Ends(text: string, ptr: nat, id: string, result: string)
    requires Stands(text, ptr, id, result) && |text| - ptr < |id|
    ensures text == result
  {
    TooShort(text[ptr..], id);
    assert text == text[..ptr] + text[ptr..];
  }

  lemma FirstRemoved(s: string, n: nat, id: string)
    requires s != "" && n == LogicalLength(s)
    ensures Removed(s, id) == (if HasId(s, id) then "" else s[..n]) + Removed(s[n..], id)
  {
  }

  lemma KeepOrDrop(s: string, ptr: nat, end: nat, tail: string)
    requires ptr <= end <= |s|
    ensures s[..ptr] + ("" + tail) == s[..ptr] + tail
    ensures s[..ptr] + (s[ptr..end] + tail) == s[..end] + tail
  {
    assert s[..ptr] + s[ptr..end] == s[..end];
  }

  lemma CloseGap(s: string, ptr: nat, end: nat, length: nat)
    requires ptr <= end <= length <= |s|
    ensures Moved(s, ptr, end, length - end)[..length - (end - ptr)] == s[..length][..ptr] + s[..length][end..]
  {
  }

  // ---- Adding header lines ----

  /** What `addHeader` makes of a text: the new line goes in front of the blank line. */
  function Added(s: string, line: string): string
  {
    (if |s| >= 2 && s[|s| - 2..] == CRLF then s[..|s| - 2] else s) + line + CRLF
  }

  method AddHeader(header: array<char>, length: nat, line: string) returns (grown: array<char>, headerLength: nat)
    requires length <= header.Length
    ensures fresh(grown) && grown.Length == headerLength && grown[..] == Added(header[..length], line)
  {
    headerLength := length;
    if headerLength >= 2 && header[headerLength - 2] == '\r' && header[headerLength - 1] == '\n' {
      headerLength := headerLength - 2;
      assert header[..length][length - 2..] == CRLF;
    }
    assert header[..headerLength] == header[..length][..headerLength];
    var all := header[..headerLength] + line + CRLF;
    headerLength := |all|;
    grown := new char[headerLength](i requires 0 <= i < |all| => all[i]);
    assert grown[..] == all;
  }

  /** A header line with its continuations. */
  predicate IsLogical(l: string)
  {
    && l != "" && l[0] != ' ' && l[|l| - 1] == '\n'
    && forall i :: 0 <= i < |l| - 1 && l[i] == '\n' ==> l[i + 1] == ' '
  }

  /** A header: its lines, and a blank line. */
  function Block(lines: seq<string>): string
  {
    Flatten(lines) + CRLF
  }

  lemma DropFront(a: string, b: string, n: nat)
    requires n <= |a|
    ensures (a + b)[n..] == a[n..] + b
  {
  }

  lemma {:induction false} LogicalLengthOf(l: string, rest: string)
    requires l != "" && l[|l| - 1] == '\n' && (forall i :: 0 <= i < |l| - 1 && l[i] == '\n' ==> l[i + 1] == ' ')
    requires rest != "" ==> rest[0] != ' '
    ensures LogicalLength(l + rest) == |l|
    decreases |l|
  {
    var s := l + rest;
    var n := LineLength(s);
    assert s[|l| - 1] == '\n';
    assert n <= |l|;
    assert s[n - 1] == l[n - 1] == '\n';
    if n < |l| {
      assert s[n] == l[n] == ' ';
      DropFront(l, rest, n);
      LogicalLengthOf(l[n..], rest);
    }
  }

  lemma {:induction false} LinesOf(lines: seq<string>)
    requires forall i :: 0 <= i < |lines| ==> IsLogical(lines[i])
    ensures LogicalLines(Flatten(lines)) == lines
    ensures Flatten(lines) != "" ==> Flatten(lines)[0] != ' '
  {
    if lines != [] {
      var l, rest := lines[0], Flatten(lines[1..]);
      LinesOf(lines[1..]);
      LogicalLengthOf(l, rest);
      assert (l + rest)[..|l|] == l && (l + rest)[|l|..] == rest;
      assert lines == [l] + lines[1..];
    }
  }

  lemma BlockLines(lines: seq<string>)
    requires forall i :: 0 <= i < |lines| ==> IsLogical(lines[i])
    ensures LogicalLines(Block(lines)) == lines + [CRLF]
  {
    FlattenAppend(lines, CRLF);
    LinesOf(lines + [CRLF]);
  }

  lemma {:induction false} KeptAppend(lines: seq<string>, line: string, id: string)
    ensures Kept(lines + [line], id) == Kept(lines, id) + (if HasId(line, id) then [] else [line])
  {
    if lines == [] {
      assert lines + [line] == [line];
    } else {
      assert (lines + [line])[1..] == lines[1..] + [line];
      KeptAppend(lines[1..], line, id);
    }
  }

  lemma {:induction false} KeptAre(lines: seq<string>, id: string)
    ensures forall l :: l in Kept(lines, id) <==> l in lines && !HasId(l, id)
  {
    if lines != [] {
      KeptAre(lines[1..], id);
      assert lines == [lines[0]] + lines[1..];
    }
  }

  lemma NotNamed(line: string, id: string, i: nat)
    requires i < |id| && (i < |line| ==> Lower(line[i]) != Lower(id[i]))
    ensures !HasId(line, id)
  {
  }

  /** Removing a name from a header filters its lines, and leaves the blank line alone. */
  lemma RemovedBlock(lines: seq<string>, id: string)
    requires ':' in id && '\n' !in id && forall i :: 0 <= i < |lines| ==> IsLogical(lines[i])
    ensures Removed(Block(lines), id) == Block(Kept(lines, id))
    ensures forall i :: 0 <= i < |Kept(lines, id)| ==> IsLogical(Kept(lines, id)[i])
  {
    RemovedIsFilter(Block(lines), id);
    BlockLines(lines);
    KeptAppend(lines, CRLF, id);
    var i :| 0 <= i < |id| && id[i] == ':';
    NotNamed(CRLF, id, i);
    FlattenAppend(Kept(lines, id), CRLF);
    KeptAre(lines, id);
    forall i | 0 <= i < |Kept(lines, id)|
      ensures IsLogical(Kept(lines, id)[i])
    {
      assert Kept(lines, id)[i] in lines;
    }
  }

  lemma AddedBlock(lines: seq<string>, line: string)
    ensures Added(Block(lines), line) == Block(lines + [line])
  {
    FlattenAppend(lines, line);
    var s := Block(lines);
    assert s[|s| - 2..] == CRLF && s[..|s| - 2] == Flatten(lines);
  }

  // ---- The header of a compressed reply ----

  const LENGTH: string := "content-length:"
  const ENCODING: string := "content-encoding:"

  function Decimal(n: nat): string
  {
    if n < 10 then [n as char + '0'] else Decimal(n / 10) + [(n % 10) as char + '0']
  }

  function LengthLine(n: nat): string
  {
    "Content-Length: " + Decimal(n) + CRLF
  }

  const GZIP: string := "Content-Encoding: gzip\r\n"

  function Rewritten(header: string, n: nat): string
  {
    Added(Added(Removed(Removed(header, LENGTH), ENCODING), LengthLine(n)), GZIP)
  }

  /** The calls in `httpTransfer` for a reply that has been compressed to `n` bytes. */
  method Rewrite(header: array<char>, length: nat, n: nat) returns (grown: array<char>, headerLength: nat)
    requires length <= header.Length
    modifies header
    ensures fresh(grown) && grown.Length == headerLength && grown[..] == Rewritten(old(header[..length]), n)
  {
    headerLength := RemoveHeader(header, length, LENGTH);
    headerLength := RemoveHeader(header, headerLength, ENCODING);
    grown, headerLength := AddHeader(header, headerLength, LengthLine(n));
    assert grown[..headerLength] == grown[..];
    grown, headerLength := AddHeader(grown, headerLength, GZIP);
  }

  /** The lines with a name. */
  function Named(lines: seq<string>, id: string): seq<string>
  {
    if lines == [] then [] else (if HasId(lines[0], id) then [lines[0]] else []) + Named(lines[1..], id)
  }

  lemma {:induction false} NamedAppend(a: seq<string>, b: seq<string>, id: string)
    ensures Named(a + b, id) == Named(a, id) + Named(b, id)
  {
    if a == [] {
      assert a + b == b;
    } else {
      assert (a + b)[1..] == a[1..] + b;
      NamedAppend(a[1..], b, id);
    }
  }

  lemma {:induction false} NoneNamed(lines: seq<string>, id: string)
    requires forall l :: l in lines ==> !HasId(l, id)
    ensures Named(lines, id) == []
  {
    if lines != [] {
      NoneNamed(lines[1..], id);
    }
  }

  lemma LengthNamed(n: nat)
    ensures HasId(LengthLine(n), LENGTH) && !HasId(LengthLine(n), ENCODING)
  {
    var name := "Content-Length: ";
    assert name <= LengthLine(n);
    assert forall i :: 0 <= i < |LENGTH| ==> LengthLine(n)[i] == name[i];
    assert Lower(name[8]) == 'l';
    NotNamed(LengthLine(n), ENCODING, 8);
  }

  lemma GzipNamed()
    ensures HasId(GZIP, ENCODING) && !HasId(GZIP, LENGTH)
  {
    NotNamed(GZIP, LENGTH, 8);
  }

  function NewLines(lines: seq<string>, n: nat): seq<string>
  {
    Kept(Kept(lines, LENGTH), ENCODING) + [LengthLine(n), GZIP]
  }

  lemma ReplaceLines(lines: seq<string>, id1: string, id2: string, a: string, b: string)
    requires ':' in id1 && '\n' !in id1 && ':' in id2 && '\n' !in id2
    requires forall i :: 0 <= i < |lines| ==> IsLogical(lines[i])
    ensures Added(Added(Removed(Removed(Block(lines), id1), id2), a), b) == Block(Kept(Kept(lines, id1), id2) + [a, b])
  {
    hide Kept, Removed, Added, Block, IsLogical;
    var kept := Kept(Kept(lines, id1), id2);
    RemovedBlock(lines, id1);
    RemovedBlock(Kept(lines, id1), id2);
    AddedBlock(kept, a);
    AddedBlock(kept + [a], b);
    assert kept + [a] + [b] == kept + [a, b];
  }

  /** No other line gets lost. */
  lemma KeptTwice(lines: seq<string>, id1: string, id2: string)
    ensures forall l :: l in Kept(Kept(lines, id1), id2) <==> l in lines && !HasId(l, id1) && !HasId(l, id2)
  {
    KeptAre(lines, id1);
    KeptAre(Kept(lines, id1), id2);
  }

  /** The header that goes out is a header again: the lines with other names, in their order, the new length
      and the encoding, and a blank line. */
  lemma RewrittenHeader(lines: seq<string>, n: nat)
    requires forall i :: 0 <= i < |lines| ==> IsLogical(lines[i])
    ensures Rewritten(Block(lines), n) == Block(NewLines(lines, n))
  {
    ProperNames();
    ReplaceLines(lines, LENGTH, ENCODING, LengthLine(n), GZIP);
  }

  lemma ProperNames()
    ensures ':' in LENGTH && '\n' !in LENGTH && ':' in ENCODING && '\n' !in ENCODING
  {
    assert LENGTH[14] == ':' && ENCODING[16] == ':';
  }

  lemma NamedPair(a: string, b: string, id: string)
    ensures Named([a, b], id) == (if HasId(a, id) then [a] else []) + (if HasId(b, id) then [b] else [])
  {
    assert [a, b][1..] == [b] && [b][1..] == [];
    assert Named([b], id) == (if HasId(b, id) then [b] else []) + Named([], id);
  }

  /** There is exactly one length, which is the new one, and exactly one encoding. */
  lemma OneLength(lines: seq<string>, n: nat)
    ensures Named(NewLines(lines, n), LENGTH) == [LengthLine(n)]
    ensures Named(NewLines(lines, n), ENCODING) == [GZIP]
  {
    var kept1 := Kept(lines, LENGTH);
    var kept := Kept(kept1, ENCODING);
    KeptAre(lines, LENGTH);
    KeptAre(kept1, ENCODING);
    NoneNamed(kept, LENGTH);
    NoneNamed(kept, ENCODING);
    NamedAppend(kept, [LengthLine(n), GZIP], LENGTH);
    NamedAppend(kept, [LengthLine(n), GZIP], ENCODING);
    NamedPair(LengthLine(n), GZIP, LENGTH);
    NamedPair(LengthLine(n), GZIP, ENCODING);
    LengthNamed(n);
    GzipNamed();
  }

  function DecimalValue(s: string): int
  {
    if s == "" then 0 else 10 * DecimalValue(s[..|s| - 1]) + (s[|s| - 1] as int - '0' as int)
  }

  /** The length that is written down is the length. */
  lemma {:induction false} DecimalDenotes(n: nat)
    ensures DecimalValue(Decimal(n)) == n
    ensures forall i :: 0 <= i < |Decimal(n)| ==> '0' <= Decimal(n)[i] <= '9'
  {
    if n >= 10 {
      DecimalDenotes(n / 10);
      assert Decimal(n)[..|Decimal(n)| - 1] == Decimal(n / 10);
    } else {
      assert Decimal(n)[..0] == "";
    }
  }
}
