/**
 The conditionals in served text files: lines "[if TAG]", "[else TAG]" and "[endif TAG]" choose which
 lines a browser gets. First what they mean, line by line; then the expansion in place.
 */
module Conditionals {
  import opened Bytes
  import opened Text

  type Truth = string -> bool

  const IF: string := "[if "
  const ELSE: string := "[else "
  const ENDIF: string := "[endif "

  /** The tag of a line that opens a conditional. */
  function IfTag(line: string): Option<string>
  {
    if IF <= line then
      var n := Find(line[4..], ']');
      if 0 < n < |line| - 4 then Some(line[4..4 + n]) else None
    else None
  }

  predicate IsElse(line: string, tag: string)
  {
    ELSE + tag + "]" <= line
  }

  predicate IsEndif(line: string, tag: string)
  {
    ENDIF + tag + "]" <= line
  }

  /** Whether a tag holds: it is a list of conditions, separated by commas, of which one has to hold. If
      the evaluation gets to a comma at the very end, that comma is lost from the tag. */
  function EvalTag(seen: string, rest: string, truth: Truth): (bool, string)
    decreases |rest|
  {
    if rest == "" then (false, seen)
    else
      var i := Find(rest, ',');
      if i == |rest| then (truth(rest), seen + rest)
      else if i + 1 == |rest| then (truth(rest[..i]), seen + rest[..i])
      else if truth(rest[..i]) then (true, seen + rest)
      else EvalTag(seen + rest[..i + 1], rest[i + 1..], truth)
  }

  /** The conditions of a tag. */
  function Conditions(tag: string): seq<string>
  {
    if tag == "" then []
    else
      var i := Find(tag, ',');
      [tag[..i]] + (if i < |tag| then Conditions(tag[i + 1..]) else [])
  }

  /** A tag holds exactly if one of its conditions does. */
  lemma {:induction false} EvalTagIsAny(seen: string, rest: string, truth: Truth)
    ensures EvalTag(seen, rest, truth).0 <==> exists c :: c in Conditions(rest) && truth(c)
    decreases |rest|
  {
    if rest != "" {
      var i := Find(rest, ',');
      if i < |rest| {
        EvalTagIsAny(seen + rest[..i + 1], rest[i + 1..], truth);
      }
      assert i == |rest| ==> rest[..i] == rest;
      assert i + 1 == |rest| ==> rest[i + 1..] == "";
      var first, others := rest[..i], if i < |rest| then Conditions(rest[i + 1..]) else [];
      assert Conditions(rest) == [first] + others;
      assert first in Conditions(rest);
      assert forall c :: c in Conditions(rest) <==> c == first || c in others;
    }
  }

  lemma EvalFirst(seen: string, rest: string, truth: Truth)
    requires rest != "" && rest[|rest| - 1] != ','
    ensures var i := Find(rest, ',');
            if i + 1 < |rest| && !truth(rest[..i]) then
              EvalTag(seen, rest, truth) == EvalTag(seen + rest[..i + 1], rest[i + 1..], truth)
            else EvalTag(seen, rest, truth).1 == seen + rest
  {
  }

  lemma Parted(seen: string, rest: string, k: nat)
    requires k < |rest|
    ensures seen + rest[..k] + rest[k..] == seen + rest && rest[k..][|rest[k..]| - 1] == rest[|rest| - 1]
  {
  }

  /** A tag that does not end in a comma is kept as it is. */
  lemma {:induction false} EvalTagKeeps(seen: string, rest: string, truth: Truth)
    requires rest == "" || rest[|rest| - 1] != ','
    ensures EvalTag(seen, rest, truth).1 == seen + rest
    decreases |rest|
  {
    if rest == "" {
      assert seen + rest == seen;
    } else {
      EvalFirst(seen, rest, truth);
      hide Find, EvalTag;
      var i := Find(rest, ',');
      if i + 1 < |rest| && !truth(rest[..i]) {
        Parted(seen, rest, i + 1);
        EvalTagKeeps(seen + rest[..i + 1], rest[i + 1..], truth);
      }
    }
  }

  /** Outside of conditionals, or behind an opening line, or behind an else line. */
  datatype State =
    | Outside
    | Then(tag: string, holds: bool, ifLine: string, yes: string)
    | Else(tag: string, holds: bool, ifLine: string, yes: string, elseLine: string, no: string)

  /** The text that is on hold, as it was. */
  function Held(st: State): string
  {
    match st
    case Outside => ""
    case Then(_, _, ifLine, yes) => ifLine + yes
    case Else(_, _, ifLine, yes, elseLine, no) => ifLine + yes + (elseLine + no)
  }

  /** The part of the text on hold that is chosen. */
  function Chosen(st: State): string
  {
    match st
    case Outside => ""
    case Then(_, holds, _, yes) => if holds then yes else ""
    case Else(_, holds, _, yes, _, no) => if holds then yes else no
  }

  function Open(line: string, truth: Truth): State
    requires IfTag(line).Some?
  {
    var (holds, tag) := EvalTag("", IfTag(line).value, truth);
    Then(tag, holds, line, "")
  }

  /** What a line makes of the state, and what it lets out. */
  function Turn(line: string, st: State, truth: Truth): (string, State)
  {
    if IfTag(line).Some? then (Held(st), Open(line, truth))
    else if st.Outside? then (line, st)
    else if st.Then? && IsElse(line, st.tag) then
      ("", Else(st.tag, st.holds, st.ifLine, st.yes, line, ""))
    else if IsEndif(line, st.tag) then (Chosen(st), Outside)
    else ("", AddTo(st, line))
  }

  /** Text that is added to the current branch. */
  function AddTo(st: State, text: string): State
    requires !st.Outside?
  {
    match st
    case Then(tag, holds, ifLine, yes) => Then(tag, holds, ifLine, yes + text)
    case Else(tag, holds, ifLine, yes, elseLine, no) => Else(tag, holds, ifLine, yes, elseLine, no + text)
  }

  /** The expansion of a text, line by line. A conditional that is not closed stays as it is. */
  function Expand(text: string, st: State, truth: Truth): string
    decreases |text|
  {
    if text == "" then Held(st)
    else
      var n := LineLength(text);
      var (out, st') := Turn(text[..n], st, truth);
      out + Expand(text[n..], st', truth)
  }

  /** Whether the position of an else line that the server remembers belongs to an earlier conditional: it is
      forgotten only when a conditional is closed, and not when one is opened behind an else line. */
  predicate Stale(line: string, st: State, stale: bool, truth: Truth)
  {
    !Turn(line, st, truth).1.Outside? && (stale || (st.Else? && IfTag(line).Some?))
  }

  /** No conditional is closed while that position belongs to another one: what is to be kept would then begin or
      end in front of the conditional. */
  predicate Sound(text: string, st: State, stale: bool, truth: Truth)
    decreases |text|
  {
    text == "" ||
    (var n := LineLength(text);
     var st' := Turn(text[..n], st, truth).1;
     (stale ==> !st'.Outside?) && Sound(text[n..], st', Stale(text[..n], st, stale, truth), truth))
  }

  // ---- Well-formed texts ----

  /** A line that is not part of any conditional, or a conditional. */
  datatype Item =
    | Plain(line: string)
    | Choice(tag: string, yes: seq<string>, otherwise: Option<seq<string>>)

  function Print(item: Item): string
  {
    match item
    case Plain(line) => line
    case Choice(tag, yes, None) =>
      IF + tag + "]\n" + Flatten(yes) + (ENDIF + tag + "]\n")
    case Choice(tag, yes, Some(no)) =>
      IF + tag + "]\n" + Flatten(yes) + (ELSE + tag + "]\n" + Flatten(no) + (ENDIF + tag + "]\n"))
  }

  function PrintAll(items: seq<Item>): string
  {
    if items == [] then "" else Print(items[0]) + PrintAll(items[1..])
  }

  function Pick(item: Item, truth: Truth): string
  {
    match item
    case Plain(line) => line
    case Choice(tag, yes, otherwise) =>
      if exists c :: c in Conditions(tag) && truth(c) then Flatten(yes)
      else if otherwise.Some? then Flatten(otherwise.value) else ""
  }

  function PickAll(items: seq<Item>, truth: Truth): string
  {
    if items == [] then "" else Pick(items[0], truth) + PickAll(items[1..], truth)
  }

  /** A complete line that does not open a conditional. */
  predicate PlainLine(line: string)
  {
    line != "" && line[|line| - 1] == '\n' && '\n' !in line[..|line| - 1] && IfTag(line) == None
  }

  predicate PlainLines(lines: seq<string>, tag: string)
  {
    forall i :: 0 <= i < |lines| ==> PlainLine(lines[i]) && !IsElse(lines[i], tag) && !IsEndif(lines[i], tag)
  }

  predicate ProperTag(tag: string)
  {
    tag != "" && ']' !in tag && '\n' !in tag && tag[|tag| - 1] != ','
  }

  predicate WellFormed(item: Item)
  {
    match item
    case Plain(line) => PlainLine(line)
    case Choice(tag, yes, otherwise) =>
      && ProperTag(tag) && PlainLines(yes, tag) && (otherwise.Some? ==> PlainLines(otherwise.value, tag))
  }

  lemma LineLengthOf(line: string, rest: string)
    requires line != "" && line[|line| - 1] == '\n' && '\n' !in line[..|line| - 1]
    ensures LineLength(line + rest) == |line| && (line + rest)[..|line|] == line && (line + rest)[|line|..] == rest
  {
    var n := LineLength(line + rest);
    assert forall i :: 0 <= i < |line| - 1 ==> (line + rest)[i] == line[..|line| - 1][i];
    assert (line + rest)[|line| - 1] == '\n';
  }

  /** One complete line in front of a text. */
  lemma ExpandLine(line: string, rest: string, st: State, truth: Truth)
    requires line != "" && line[|line| - 1] == '\n' && '\n' !in line[..|line| - 1]
    ensures Expand(line + rest, st, truth) == Turn(line, st, truth).0 + Expand(rest, Turn(line, st, truth).1, truth)
    ensures (Sound(line + rest, st, false, truth)
             <==> Sound(rest, Turn(line, st, truth).1, Stale(line, st, false, truth), truth))
  {
    LineLengthOf(line, rest);
  }

  lemma SoundLine(line: string, rest: string, st: State, stale: bool, truth: Truth)
    requires line != "" && line[|line| - 1] == '\n' && '\n' !in line[..|line| - 1]
    ensures var st' := Turn(line, st, truth).1;
            Sound(line + rest, st, stale, truth)
            <==> (stale ==> !st'.Outside?) && Sound(rest, st', Stale(line, st, stale, truth), truth)
  {
    LineLengthOf(line, rest);
  }

  lemma AddTwice(st: State, a: string, b: string)
    requires !st.Outside?
    ensures AddTo(AddTo(st, a), b) == AddTo(st, a + b) && AddTo(st, "") == st
  {
    if st.Then? {
      assert st.yes + a + b == st.yes + (a + b);
    } else {
      assert st.no + a + b == st.no + (a + b);
    }
  }

  lemma BranchLine(line: string, rest: string, st: State, truth: Truth)
    requires !st.Outside? && PlainLine(line) && !IsElse(line, st.tag) && !IsEndif(line, st.tag)
    ensures Expand(line + rest, st, truth) == Expand(rest, AddTo(st, line), truth)
    ensures Sound(line + rest, st, false, truth) <==> Sound(rest, AddTo(st, line), false, truth)
  {
    ExpandLine(line, rest, st, truth);
    assert "" + Expand(rest, AddTo(st, line), truth) == Expand(rest, AddTo(st, line), truth);
  }

  /** Lines inside of a branch. */
  lemma {:induction false} ExpandBranch(lines: seq<string>, rest: string, st: State, truth: Truth)
    requires !st.Outside? && PlainLines(lines, st.tag)
    ensures Expand(Flatten(lines) + rest, st, truth) == Expand(rest, AddTo(st, Flatten(lines)), truth)
    ensures Sound(Flatten(lines) + rest, st, false, truth) <==> Sound(rest, AddTo(st, Flatten(lines)), false, truth)
    decreases |lines|
  {
    if lines == [] {
      assert Flatten(lines) + rest == rest;
      AddTwice(st, "", "");
    } else {
      var line, more := lines[0], Flatten(lines[1..]);
      assert Flatten(lines) + rest == line + (more + rest);
      BranchLine(line, more + rest, st, truth);
      assert PlainLines(lines[1..], st.tag);
      ExpandBranch(lines[1..], rest, AddTo(st, line), truth);
      AddTwice(st, line, more);
    }
  }

  lemma DirectiveLine(opening: string, tag: string)
    requires '\n' !in opening && '\n' !in tag
    ensures var line := opening + tag + "]\n";
            && line[|line| - 1] == '\n' && '\n' !in line[..|line| - 1] && opening + tag + "]" <= line
  {
    var line := opening + tag + "]\n";
    assert line[..|line| - 1] == opening + tag + "]";
  }

  lemma IfLine(tag: string, truth: Truth)
    requires ProperTag(tag)
    ensures var line := IF + tag + "]\n";
            && IfTag(line) == Some(tag)
            && Open(line, truth) == Then(tag, exists c :: c in Conditions(tag) && truth(c), line, "")
  {
    var line := IF + tag + "]\n";
    assert line[4..] == tag + "]\n";
    var n := Find(line[4..], ']');
    assert forall i :: 0 <= i < |tag| ==> line[4..][i] in tag;
    forall m | |tag| < m <= |line| - 4
      ensures ']' in line[4..][..m]
    {
      assert line[4..][..m][|tag|] == ']';
    }
    assert line[4..4 + n] == tag;
    EvalTagIsAny("", tag, truth);
    EvalTagKeeps("", tag, truth);
    assert "" + tag == tag;
  }

  lemma ElseOrEndifLine(line: string)
    requires ELSE <= line || ENDIF <= line
    ensures IfTag(line) == None
  {
    assert line[1] == 'e';
    assert IF[1] == 'i';
  }

  lemma EndifTurn(line: string, st: State, truth: Truth)
    requires !st.Outside? && ENDIF + st.tag + "]" <= line
    ensures Turn(line, st, truth) == (Chosen(st), Outside) && IfTag(line) == None
  {
    ElseOrEndifLine(line);
    assert line[2] == 'n' && ELSE[2] == 'l';
  }

  /** The end of a conditional. */
  lemma ExpandEndif(rest: string, st: State, truth: Truth)
    requires !st.Outside? && '\n' !in st.tag
    ensures var line := ENDIF + st.tag + "]\n";
            && Expand(line + rest, st, truth) == Chosen(st) + Expand(rest, Outside, truth)
            && (Sound(line + rest, st, false, truth) <==> Sound(rest, Outside, false, truth))
  {
    var line := ENDIF + st.tag + "]\n";
    DirectiveLine(ENDIF, st.tag);
    EndifTurn(line, st, truth);
    ExpandLine(line, rest, st, truth);
  }

  lemma ExpandElse(rest: string, st: State, truth: Truth)
    requires st.Then? && '\n' !in st.tag
    ensures var line := ELSE + st.tag + "]\n";
            var st' := Else(st.tag, st.holds, st.ifLine, st.yes, line, "");
            && Expand(line + rest, st, truth) == Expand(rest, st', truth)
            && (Sound(line + rest, st, false, truth) <==> Sound(rest, st', false, truth))
  {
    var line := ELSE + st.tag + "]\n";
    DirectiveLine(ELSE, st.tag);
    ElseOrEndifLine(line);
    ExpandLine(line, rest, st, truth);
    var st' := Else(st.tag, st.holds, st.ifLine, st.yes, line, "");
    assert "" + Expand(rest, st', truth) == Expand(rest, st', truth);
  }

  lemma ExpandOpening(tag: string, yes: seq<string>, tail: string, truth: Truth)
    requires ProperTag(tag) && PlainLines(yes, tag)
    ensures var ifLine := IF + tag + "]\n";
            var st := Then(tag, exists c :: c in Conditions(tag) && truth(c), ifLine, Flatten(yes));
            && Expand(ifLine + (Flatten(yes) + tail), Outside, truth) == Expand(tail, st, truth)
            && (Sound(ifLine + (Flatten(yes) + tail), Outside, false, truth) <==> Sound(tail, st, false, truth))
  {
    var ifLine := IF + tag + "]\n";
    var holds := exists c :: c in Conditions(tag) && truth(c);
    DirectiveLine(IF, tag);
    IfLine(tag, truth);
    ExpandLine(ifLine, Flatten(yes) + tail, Outside, truth);
    hide Expand, Sound, IfTag, EvalTag, Conditions, Flatten;
    var st0 := Then(tag, holds, ifLine, "");
    ExpandBranch(yes, tail, st0, truth);
    assert "" + Flatten(yes) == Flatten(yes);
    assert "" + Expand(Flatten(yes) + tail, st0, truth) == Expand(Flatten(yes) + tail, st0, truth);
  }

  lemma ExpandOtherwise(st: State, no: seq<string>, rest: string, truth: Truth)
    requires st.Then? && '\n' !in st.tag && PlainLines(no, st.tag)
    ensures var tail := ELSE + st.tag + "]\n" + (Flatten(no) + (ENDIF + st.tag + "]\n" + rest));
            && Expand(tail, st, truth) == (if st.holds then st.yes else Flatten(no)) + Expand(rest, Outside, truth)
            && (Sound(tail, st, false, truth) <==> Sound(rest, Outside, false, truth))
  {
    var endif := ENDIF + st.tag + "]\n" + rest;
    ExpandElse(Flatten(no) + endif, st, truth);
    var st2 := Else(st.tag, st.holds, st.ifLine, st.yes, ELSE + st.tag + "]\n", "");
    ExpandBranch(no, endif, st2, truth);
    assert "" + Flatten(no) == Flatten(no);
    ExpandEndif(rest, st2.(no := Flatten(no)), truth);
  }

  /** One item of a well-formed text. */
  lemma ExpandItem(item: Item, rest: string, truth: Truth)
    requires WellFormed(item)
    ensures Expand(Print(item) + rest, Outside, truth) == Pick(item, truth) + Expand(rest, Outside, truth)
    ensures Sound(Print(item) + rest, Outside, false, truth) <==> Sound(rest, Outside, false, truth)
  {
    match item {
      case Plain(line) =>
        ExpandLine(line, rest, Outside, truth);
      case Choice(tag, yes, otherwise) =>
        if otherwise.Some? {
          ExpandBoth(tag, yes, otherwise.value, rest, truth);
        } else {
          ExpandOne(tag, yes, rest, truth);
        }
    }
  }

  lemma ExpandBoth(tag: string, yes: seq<string>, no: seq<string>, rest: string, truth: Truth)
    requires WellFormed(Choice(tag, yes, Some(no)))
    ensures var item := Choice(tag, yes, Some(no));
            && Expand(Print(item) + rest, Outside, truth) == Pick(item, truth) + Expand(rest, Outside, truth)
            && (Sound(Print(item) + rest, Outside, false, truth) <==> Sound(rest, Outside, false, truth))
  {
    var ifLine, elseLine, endif := IF + tag + "]\n", ELSE + tag + "]\n", ENDIF + tag + "]\n";
    var st := Then(tag, exists c :: c in Conditions(tag) && truth(c), ifLine, Flatten(yes));
    Reassociate(ifLine, Flatten(yes), elseLine, Flatten(no), endif, rest);
    ExpandOpening(tag, yes, elseLine + (Flatten(no) + (endif + rest)), truth);
    ExpandOtherwise(st, no, rest, truth);
  }

  lemma ExpandOne(tag: string, yes: seq<string>, rest: string, truth: Truth)
    requires WellFormed(Choice(tag, yes, None))
    ensures var item := Choice(tag, yes, None);
            && Expand(Print(item) + rest, Outside, truth) == Pick(item, truth) + Expand(rest, Outside, truth)
            && (Sound(Print(item) + rest, Outside, false, truth) <==> Sound(rest, Outside, false, truth))
  {
    var ifLine, endif := IF + tag + "]\n", ENDIF + tag + "]\n";
    var st := Then(tag, exists c :: c in Conditions(tag) && truth(c), ifLine, Flatten(yes));
    assert ifLine + Flatten(yes) + endif + rest == ifLine + (Flatten(yes) + (endif + rest));
    ExpandOpening(tag, yes, endif + rest, truth);
    ExpandEndif(rest, st, truth);
  }

  lemma Reassociate(a: string, b: string, c: string, d: string, e: string, rest: string)
    ensures a + b + (c + d + e) + rest == a + (b + (c + (d + (e + rest))))
  {
  }

  /** A well-formed text becomes exactly its lines and the chosen branches of its conditionals. */
  lemma {:induction false} ExpandWellFormed(items: seq<Item>, truth: Truth)
    requires forall i :: 0 <= i < |items| ==> WellFormed(items[i])
    ensures Expand(PrintAll(items), Outside, truth) == PickAll(items, truth)
    ensures Sound(PrintAll(items), Outside, false, truth)
    decreases |items|
  {
    if items != [] {
      ExpandItem(items[0], PrintAll(items[1..]), truth);
      ExpandWellFormed(items[1..], truth);
    }
  }

  lemma SoundIf(tag: string, rest: string, st: State, stale: bool, truth: Truth)
    requires ProperTag(tag)
    ensures IfTag(IF + tag + "]\n") == Some(tag)
    ensures var line := IF + tag + "]\n";
            && Open(line, truth).Then? && Open(line, truth).tag == tag
            && (Sound(line + rest, st, stale, truth) <==> Sound(rest, Open(line, truth), stale || st.Else?, truth))
  {
    hide Sound;
    DirectiveLine(IF, tag);
    IfLine(tag, truth);
    SoundLine(IF + tag + "]\n", rest, st, stale, truth);
  }

  lemma SoundElse(rest: string, st: State, truth: Truth)
    requires st.Then? && '\n' !in st.tag
    ensures var line := ELSE + st.tag + "]\n";
            Sound(line + rest, st, false, truth)
            <==> Sound(rest, Else(st.tag, st.holds, st.ifLine, st.yes, line, ""), false, truth)
  {
    hide Sound;
    DirectiveLine(ELSE, st.tag);
    ElseOrEndifLine(ELSE + st.tag + "]\n");
    SoundLine(ELSE + st.tag + "]\n", rest, st, false, truth);
  }

  lemma UnsoundEndif(rest: string, st: State, truth: Truth)
    requires !st.Outside? && '\n' !in st.tag
    ensures !Sound(ENDIF + st.tag + "]\n" + rest, st, true, truth)
  {
    hide Sound;
    DirectiveLine(ENDIF, st.tag);
    EndifTurn(ENDIF + st.tag + "]\n", st, truth);
    SoundLine(ENDIF + st.tag + "]\n", rest, st, true, truth);
  }

  /** A conditional that is opened behind an else line, and closed. */
  lemma ReopenedAndClosed(a: string, b: string, rest: string, truth: Truth)
    requires ProperTag(a) && ProperTag(b)
    ensures !Sound(IF + a + "]\n" + (ELSE + a + "]\n" + (IF + b + "]\n" + (ENDIF + b + "]\n" + rest))),
                   Outside, false, truth)
  {
    hide Sound, Open;
    var inner := IF + b + "]\n" + (ENDIF + b + "]\n" + rest);
    SoundIf(a, ELSE + a + "]\n" + inner, Outside, false, truth);
    var st1 := Open(IF + a + "]\n", truth);
    SoundElse(inner, st1, truth);
    var st2 := Else(a, st1.holds, st1.ifLine, st1.yes, ELSE + a + "]\n", "");
    SoundIf(b, ENDIF + b + "]\n" + rest, st2, false, truth);
    UnsoundEndif(rest, Open(IF + b + "]\n", truth), truth);
  }
}
