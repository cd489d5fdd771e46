/**
 The expansion of conditionals as `serveStaticFile` performs it: in place, in a copy of the file, moving
 what is kept over what is not. The fields are the local variables of that loop; positions are indices
 and -1 stands for NULL.
 */
module Expander {
  import opened Bytes
  import opened Text
  import opened Conditionals

  /** A line: its only newline, if any, is its last character. */
  predicate IsLine(line: string)
  {
    line != "" && '\n' !in line[..|line| - 1]
  }

  predicate Ended(line: string)
  {
    line != "" && line[|line| - 1] == '\n'
  }

  /** What a file has to become, and whether the loop can do that. If it has gone wrong, then there is too much. */
  datatype Goal = Goal(text: string, sound: bool, surplus: nat)

  function GoalOf(text: string, truth: Truth): Goal
  {
    Goal(Expand(text, Outside, truth), Sound(text, Outside, false, truth), 0)
  }

  /** What a file is going to become. */
  ghost predicate Meets(whole: string, sound: bool, goal: Goal)
  {
    && |whole| == |goal.text| + goal.surplus
    && if goal.surplus == 0 then whole == goal.text && (sound <==> goal.sound) else !goal.sound
  }

  /** The else line at `elsePtr`, in front of the conditional. */
  ghost predicate Marked(text: string, elsePtr: int, ifPtr: int, mark: string)
  {
    && 0 <= elsePtr && elsePtr + |mark| <= ifPtr <= |text| && IsLine(mark) && Ended(mark)
    && text[elsePtr..elsePtr + |mark|] == mark
  }

  class Expander {
    const truth: Truth
    const body: array<char>
    var bodyEnd: nat
    var ptr: nat
    var tag: string
    var condTrue: bool
    var ifPtr: int
    var elsePtr: int

    ghost var st: State
    ghost var stale: bool       // `elsePtr` belongs to an earlier conditional
    ghost var mark: string      // that else line
    ghost var goal: Goal        // what the file has to become

    ghost predicate Valid()
      reads this, body
    {
      && ptr <= bodyEnd <= body.Length
      && Consistent(ptr, tag, condTrue, ifPtr, elsePtr, st, stale)
      && Stands(body[..bodyEnd], ptr, ifPtr, st, stale, goal, truth)
      && (stale ==> Marked(body[..bodyEnd], elsePtr, ifPtr, mark))
    }

    constructor (text: string, truth: Truth)
      ensures Valid() && fresh(body) && ptr == 0 && goal == GoalOf(text, truth) && this.truth == truth
    {
      var copy := new char[|text|](i requires 0 <= i < |text| => text[i]);
      body, bodyEnd, ptr, tag, condTrue, ifPtr, elsePtr := copy, |text|, 0, "", false, -1, -1;
      this.truth, st, stale, mark, goal := truth, Outside, false, "", GoalOf(text, truth);
      new;
      assert body[..bodyEnd] == text;
      Begins(text, truth);
    }

    /** An opening line: remembers where the conditional starts. */
    method OpenIf(eol: nat, line: string, newTag: string)
      requires Valid() && IsNextLine(body[..bodyEnd], ptr, eol, line) && IfTag(line) == Some(newTag)
      modifies this
      ensures Valid() && goal == old(goal) && bodyEnd == old(bodyEnd) && ptr == eol
    {
      hide Expand, Sound, IfTag, EvalTag, Meets, Marked, LineLength, Stands;
      NextMark(body[..], ptr, bodyEnd, ifPtr, elsePtr, st, stale, mark, goal, truth);
      AdvanceIf(body[..bodyEnd], ptr, eol, line, ifPtr, st, stale, goal, truth);
      condTrue, tag := Evaluate(newTag);
      mark := if stale then mark else if st.Else? then st.elseLine else "";
      ifPtr := ptr;
      stale := stale || st.Else?;
      st := Open(line, truth);
      ptr := eol;
    }

    /** Evaluates the conditions of a tag, one after the other. */
    method Evaluate(newTag: string) returns (holds: bool, kept: string)
      ensures (holds, kept) == EvalTag("", newTag, truth)
    {
      hide EvalTag, Find;
      var tagPtr: nat := 0;
      holds, kept := false, newTag;
      assert newTag[..0] == "" && newTag[0..] == newTag;
      while tagPtr < |newTag|
        invariant tagPtr <= |newTag| && !holds && kept == newTag
        invariant EvalTag("", newTag, truth) == EvalTag(newTag[..tagPtr], newTag[tagPtr..], truth)
        decreases |newTag| - tagPtr
      {
        var e := tagPtr + Find(newTag[tagPtr..], ',');
        holds := truth(newTag[tagPtr..e]);
        EvalStep(newTag, tagPtr, e, truth);
        if e < |newTag| {
          e := e + 1;
          if e == |newTag| {
            kept := newTag[..e - 1];  // the comma at the very end is not put back
          }
        }
        if holds || e == |newTag| {
          return;
        }
        tagPtr := e;
      }
      assert newTag[tagPtr..] == "" && newTag[..tagPtr] == newTag;
      EvalEnd(newTag, truth);
    }

    /** An else line: remembers where it is. */
    method MarkElse(eol: nat, line: string)
      requires Valid() && IsNextLine(body[..bodyEnd], ptr, eol, line)
      requires st.Then? && !stale && IfTag(line) == None && IsElse(line, tag)
      modifies this
      ensures Valid() && goal == old(goal) && bodyEnd == old(bodyEnd) && ptr == eol
    {
      hide Expand, Sound, IfTag, IsElse, Meets, LineLength;
      AdvanceElse(body[..bodyEnd], ptr, eol, line, ifPtr, st, stale, goal, truth);
      elsePtr := ptr;
      st := Else(st.tag, st.holds, st.ifLine, st.yes, line, "");
      ptr := eol;
    }

    /** Any other line stays where it is. That is so for an else line as well if an earlier one has not been
        forgotten. */
    method Pass(eol: nat, line: string)
      requires Valid() && IsNextLine(body[..bodyEnd], ptr, eol, line)
      requires IfTag(line) == None && (st.Then? && IsElse(line, tag) ==> stale) && (st.Outside? || !IsEndif(line, tag))
      modifies this
      ensures Valid() && goal == old(goal) && bodyEnd == old(bodyEnd) && ptr == eol
    {
      hide Expand, Sound, IfTag, IsElse, IsEndif, Stands;
      if st.Outside? {
        AdvanceOutside(body[..bodyEnd], ptr, eol, line, goal, truth);
      } else if st.Then? && IsElse(line, tag) {
        AdvanceElse(body[..bodyEnd], ptr, eol, line, ifPtr, st, stale, goal, truth);
        st := Else(st.tag, st.holds, st.ifLine, st.yes, line, "");
      } else {
        AdvanceBranch(body[..bodyEnd], ptr, eol, line, ifPtr, st, stale, goal, truth);
        st := AddTo(st, line);
      }
      ptr := eol;
    }

    /** The end of a line that is on hold: the first newline behind its start. */
    method FindNewline(start: nat, ghost line: string) returns (p: nat)
      requires IsLine(line) && Ended(line) && start + |line| <= body.Length && body[start..start + |line|] == line
      ensures p + 1 == start + |line|
    {
      p := start;
      ghost var last := start + |line| - 1;
      assert body[last] == line[|line| - 1];
      while body[p] != '\n'
        invariant start <= p <= last
        decreases last - p
      {
        p := p + 1;
      }
      assert body[p] == line[p - start];
      assert forall i :: 0 <= i < |line| - 1 ==> line[i] == line[..|line| - 1][i];
    }

    /** The part of the text on hold that is kept: `[s..e)`. */
    method Kept() returns (s: nat, e: nat)
      requires ptr <= bodyEnd <= body.Length && Consistent(ptr, tag, condTrue, ifPtr, elsePtr, st, false)
      requires !st.Outside? && body[..bodyEnd][ifPtr..ptr] == Held(st)
      requires IsLine(st.ifLine) && Ended(st.ifLine) && (st.Else? ==> IsLine(st.elseLine) && Ended(st.elseLine))
      ensures ifPtr <= s <= e <= ptr && body[s..e] == Chosen(st)
    {
      HeldParts(body[..], ptr, bodyEnd, ifPtr, st);
      if condTrue {
        var nl := FindNewline(ifPtr, st.ifLine);
        s := nl + 1;
        e := if elsePtr >= 0 then elsePtr else ptr;
      } else if elsePtr >= 0 {
        var nl := FindNewline(elsePtr, st.elseLine);
        s := nl + 1;
        e := ptr;
      } else {
        s, e := ifPtr, ifPtr;
      }
    }

    /** Moves the part that is kept, and then everything behind the conditional, to the front. */
    method Remove(s: nat, e: nat, eol: nat)
      requires 0 <= ifPtr && s <= e <= eol <= bodyEnd <= body.Length && ifPtr + (e - s) <= eol
      modifies this`bodyEnd, body
      ensures bodyEnd == old(bodyEnd) - ((s - ifPtr) + (eol - e)) && ifPtr + (e - s) <= bodyEnd <= body.Length
      ensures body[..bodyEnd] == old(body[..bodyEnd])[..ifPtr] + old(body[s..e]) + old(body[..bodyEnd])[eol..]
    {
      hide Moved;
      ghost var a := body[..];
      MemMove(body, ifPtr, s, e - s);
      MemMove(body, ifPtr + (e - s), eol, bodyEnd - eol);
      TwoMoves(a, bodyEnd, ifPtr, s, e, eol);
      bodyEnd := bodyEnd - ((s - ifPtr) + (eol - e));
    }

    /** Leaves of the conditional only what is chosen. */
    method Cut(eol: nat)
      requires ptr < eol <= bodyEnd <= body.Length && Consistent(ptr, tag, condTrue, ifPtr, elsePtr, st, false)
      requires !st.Outside? && body[..bodyEnd][ifPtr..ptr] == Held(st)
      requires IsLine(st.ifLine) && Ended(st.ifLine) && (st.Else? ==> IsLine(st.elseLine) && Ended(st.elseLine))
      modifies this`bodyEnd, this`ptr, this`ifPtr, this`elsePtr, body
      ensures bodyEnd <= body.Length && ifPtr == -1 && elsePtr == -1 && ptr == old(ifPtr) + |Chosen(st)|
      ensures body[..bodyEnd] == old(body[..bodyEnd])[..old(ifPtr)] + Chosen(st) + old(body[..bodyEnd])[eol..]
    {
      var s, e := Kept();
      Remove(s, e, eol);
      ptr := ifPtr + (e - s);
      ifPtr, elsePtr := -1, -1;
    }

    /** The closing line: removes what does not apply, and the opening, else and closing lines. */
    method Close(eol: nat, line: string)
      requires Valid() && IsNextLine(body[..bodyEnd], ptr, eol, line)
      requires !st.Outside? && !stale && IfTag(line) == None && IsEndif(line, tag)
      modifies this, body
      ensures Valid() && goal == old(goal) && bodyEnd - ptr == old(bodyEnd) - eol
    {
      hide Expand, Sound, LineLength, IfTag, IsElse, IsEndif, Stale;
      ghost var text, ptr0, ifPtr0 := body[..bodyEnd], ptr, ifPtr;
      NotBoth(line, st.tag);
      Cut(eol);
      AdvanceEndif(text, ptr0, eol, line, ifPtr0, st, goal, truth, body[..bodyEnd]);
      st := Outside;
    }

    /** Where the branch behind the else line that is remembered begins. */
    method BehindMark() returns (s: nat)
      requires ptr <= bodyEnd <= body.Length && Marked(body[..bodyEnd], elsePtr, ifPtr, mark)
      ensures s <= ifPtr
    {
      WithinPrefix(body[..], bodyEnd, elsePtr, elsePtr + |mark|);
      var nl := FindNewline(elsePtr, mark);
      s := nl + 1;
    }

    /** The closing line of a conditional that does not hold and was opened behind an else line: everything behind
        that line is kept, unless it would overlap what is still to be read. */
    method CloseLate(eol: nat, line: string) returns (broken: bool)
      requires Valid() && IsNextLine(body[..bodyEnd], ptr, eol, line)
      requires stale && !condTrue && IfTag(line) == None && IsEndif(line, tag)
      modifies this, body
      ensures Valid() && !goal.sound && !old(goal).sound && goal.text == old(goal.text)
      ensures if broken then goal == old(goal) else goal.surplus > 0 && bodyEnd - ptr == old(bodyEnd) - eol
    {
      hide Expand, Sound, LineLength, IfTag, IsElse, IsEndif, Stale, Stands, Moved, IsLine, Ended, Held, Chosen, Meets,
           Marked;
      ghost var text, ptr0, ifPtr0 := body[..bodyEnd], ptr, ifPtr;
      Misplaced(text, ptr, eol, line, ifPtr, st, goal, truth);
      var s := BehindMark();
      var e := ptr;
      broken := ifPtr + (e - s) > eol;
      if !broken {
        WithinPrefix(body[..], bodyEnd, s, e);
        AdvanceLate(text, ptr0, eol, line, ifPtr0, s, st, goal, truth, text[..ifPtr] + text[s..e] + text[eol..]);
        Remove(s, e, eol);
        ptr := ifPtr + (e - s);
        goal := goal.(surplus := goal.surplus + (e - s) - |Chosen(st)|);
        ifPtr, elsePtr, stale, st := -1, -1, false, Outside;
      }
    }

    /** One turn of the loop. At the end of a conditional, the else line that is remembered may be in front of it. If
        the conditional holds, then the length of what is kept is negative; the loop cannot go on. */
    method Turn() returns (broken: bool)
      requires Valid() && 6 <= bodyEnd - ptr
      modifies this, body
      ensures Valid() && goal.text == old(goal.text) && goal.sound == old(goal.sound)
      ensures if broken then !goal.sound else bodyEnd - ptr < old(bodyEnd - ptr)
    {
      hide IfTag, IsElse, IsEndif, Expand, Sound, Meets, Marked;
      broken := false;
      var eol := LineEnd(body, ptr, bodyEnd);
      var line := body[ptr..eol];
      assert forall k :: 0 <= k < eol - ptr ==> line[k] == body[ptr + k] == body[..bodyEnd][ptr..eol][k];
      assert line == body[..bodyEnd][ptr..eol];
      match IfTag(line)
      case Some(newTag) => OpenIf(eol, line, newTag);
      case None =>
        if ifPtr >= 0 && elsePtr < 0 && IsElse(line, tag) {
          MarkElse(eol, line);
        } else if ifPtr >= 0 && IsEndif(line, tag) {
          if !(0 <= elsePtr < ifPtr) {
            Close(eol, line);
          } else if condTrue {
            broken := true;
            Misplaced(body[..bodyEnd], ptr, eol, line, ifPtr, st, goal, truth);
          } else {
            broken := CloseLate(eol, line);
          }
        } else {
          Pass(eol, line);
        }
    }
  }

  /** Expands the conditionals of a file. The text becomes what it has to become exactly if no conditional is closed
      that was opened behind an else line. Otherwise it becomes longer, or the loop breaks: it would have to
      move a negative number of characters, or to write over what it has not read. */
  method ExpandFile(text: string, truth: Truth) returns (expanded: string, broken: bool)
    ensures !broken && expanded == Expand(text, Outside, truth) <==> Sound(text, Outside, false, truth)
    ensures !broken && !Sound(text, Outside, false, truth) ==> |Expand(text, Outside, truth)| < |expanded|
  {
    var x := new Expander(text, truth);
    broken := false;
    while x.bodyEnd - x.ptr >= 6 && !broken
      invariant x.Valid() && x.truth == truth && fresh(x) && fresh(x.body)
      invariant x.goal == GoalOf(text, truth).(surplus := x.goal.surplus) && (broken ==> !x.goal.sound)
      decreases !broken, x.bodyEnd - x.ptr
    {
      broken := x.Turn();
    }
    expanded := x.body[..x.bodyEnd];
    if !broken {
      Ends(expanded, x.ptr, x.ifPtr, x.st, x.stale, x.goal, truth);
    }
  }

  /** The variables of the loop agree with the state they stand for. */
  ghost predicate Consistent(ptr: nat, tag: string, condTrue: bool, ifPtr: int, elsePtr: int, st: State,
                             stale: bool)
  {
    && -1 <= ifPtr <= ptr && -1 <= elsePtr <= ptr
    && (ifPtr < 0 <==> st.Outside?)
    && (!st.Outside? ==> tag == st.tag && condTrue == st.holds)
    && if stale then 0 <= elsePtr < ifPtr
       else (elsePtr < 0 <==> !st.Else?) && (st.Else? ==> elsePtr == ifPtr + |st.ifLine + st.yes|)
  }

  /** Everything in front of this is final. */
  function Final(ptr: nat, ifPtr: int): nat
  {
    if ifPtr < 0 then ptr else ifPtr
  }

  /** The buffer: what is final, what is on hold, and what is still to be read. */
  ghost predicate Stands(text: string, ptr: nat, ifPtr: int, st: State, stale: bool, goal: Goal, truth: Truth)
  {
    && ptr <= |text| && ifPtr <= ptr
    && text[Final(ptr, ifPtr)..ptr] == Held(st)
    && Meets(text[..Final(ptr, ifPtr)] + Expand(text[ptr..], st, truth), Sound(text[ptr..], st, stale, truth), goal)
    && (stale ==> !st.Outside?)
    && (st.Then? || st.Else? ==> IsLine(st.ifLine) && (ptr < |text| || st.Else? ==> Ended(st.ifLine)))
    && (st.Else? ==> IsLine(st.elseLine) && (ptr < |text| ==> Ended(st.elseLine)))
  }

  lemma Begins(text: string, truth: Truth)
    ensures Stands(text, 0, -1, Outside, false, GoalOf(text, truth), truth)
  {
    assert text[0..] == text && text[..0] == "" && text[0..0] == "";
    EmptyOut(Expand(text, Outside, truth));
  }

  /** The next line of a text. */
  ghost predicate IsNextLine(text: string, ptr: nat, eol: nat, line: string)
  {
    ptr < eol <= |text| && line == text[ptr..eol] && |line| == LineLength(text[ptr..])
  }

  lemma NextTurn(text: string, ptr: nat, eol: nat, line: string, st: State, stale: bool, truth: Truth)
    requires IsNextLine(text, ptr, eol, line)
    ensures Expand(text[ptr..], st, truth)
         == Turn(line, st, truth).0 + Expand(text[eol..], Turn(line, st, truth).1, truth)
    ensures Sound(text[ptr..], st, stale, truth)
       <==> (stale ==> !Turn(line, st, truth).1.Outside?)
            && Sound(text[eol..], Turn(line, st, truth).1, Stale(line, st, stale, truth), truth)
    ensures IsLine(line) && (eol < |text| ==> Ended(line))
  {
    hide Expand, Sound, Turn, Stale;
    assert text[ptr..][..eol - ptr] == line && text[ptr..][eol - ptr..] == text[eol..];
    NextLine(text[ptr..], eol - ptr, st, stale, truth);
  }

  /** Text that goes from the unread part to the final part. */
  lemma Release(text: string, start: nat, ptr: nat, eol: nat, out: string, tail: string)
    requires start <= ptr <= eol <= |text|
    ensures out == text[start..ptr] ==> text[..start] + (out + tail) == text[..ptr] + tail
    ensures text[start..eol] == text[start..ptr] + text[ptr..eol]
    ensures text[..start] + ("" + tail) == text[..start] + tail
    ensures text[eol..eol] == ""
  {
    Piece(text, 0, start, ptr);
    Piece(text, start, ptr, eol);
    Split3(text[0..start], text[start..ptr], tail);
    assert text[0..start] == text[..start] && text[0..ptr] == text[..ptr];
    EmptyOut(tail);
  }

  lemma Piece(text: string, i: nat, j: nat, k: nat)
    requires i <= j <= k <= |text|
    ensures text[i..k] == text[i..j] + text[j..k]
  {
  }

  lemma AdvanceIf(text: string, ptr: nat, eol: nat, line: string, ifPtr: int, st: State, stale: bool, goal: Goal,
                  truth: Truth)
    requires Stands(text, ptr, ifPtr, st, stale, goal, truth) && IsNextLine(text, ptr, eol, line)
    requires IfTag(line).Some?
    ensures Stands(text, eol, ptr, Open(line, truth), stale || st.Else?, goal, truth)
  {
    hide Expand, Sound, LineLength, EvalTag, IfTag, Meets;
    NextTurn(text, ptr, eol, line, st, stale, truth);
    IfTurn(line, st, stale, truth);
    hide Conditionals.Turn, Stale, Open;
    Release(text, Final(ptr, ifPtr), ptr, eol, Held(st), Expand(text[eol..], Open(line, truth), truth));
  }

  lemma IfTurn(line: string, st: State, stale: bool, truth: Truth)
    requires IfTag(line).Some?
    ensures Turn(line, st, truth) == (Held(st), Open(line, truth))
    ensures Stale(line, st, stale, truth) <==> stale || st.Else?
    ensures Open(line, truth).Then? && Open(line, truth).ifLine == line && Held(Open(line, truth)) == line
  {
    assert line + "" == line;
  }

  lemma AdvanceElse(text: string, ptr: nat, eol: nat, line: string, ifPtr: int, st: State, stale: bool, goal: Goal,
                    truth: Truth)
    requires Stands(text, ptr, ifPtr, st, stale, goal, truth) && IsNextLine(text, ptr, eol, line) && 0 <= ifPtr
    requires st.Then? && IfTag(line) == None && IsElse(line, st.tag)
    ensures Stands(text, eol, ifPtr, Else(st.tag, st.holds, st.ifLine, st.yes, line, ""), stale, goal, truth)
    ensures ptr == ifPtr + |st.ifLine + st.yes|
  {
    var st' := Else(st.tag, st.holds, st.ifLine, st.yes, line, "");
    NextTurn(text, ptr, eol, line, st, stale, truth);
    Release(text, ifPtr, ptr, eol, "", Expand(text[eol..], st', truth));
    HeldElse(st, line);
  }

  lemma AdvanceBranch(text: string, ptr: nat, eol: nat, line: string, ifPtr: int,
                      st: State, stale: bool, goal: Goal, truth: Truth)
    requires Stands(text, ptr, ifPtr, st, stale, goal, truth) && IsNextLine(text, ptr, eol, line) && 0 <= ifPtr
    requires !st.Outside? && IfTag(line) == None && !(st.Then? && IsElse(line, st.tag)) && !IsEndif(line, st.tag)
    ensures Stands(text, eol, ifPtr, AddTo(st, line), stale, goal, truth)
  {
    NextTurn(text, ptr, eol, line, st, stale, truth);
    Release(text, ifPtr, ptr, eol, "", Expand(text[eol..], AddTo(st, line), truth));
    HeldAdd(st, line);
  }

  lemma AdvanceOutside(text: string, ptr: nat, eol: nat, line: string, goal: Goal, truth: Truth)
    requires Stands(text, ptr, -1, Outside, false, goal, truth) && IsNextLine(text, ptr, eol, line)
    requires IfTag(line) == None
    ensures Stands(text, eol, -1, Outside, false, goal, truth)
  {
    NextTurn(text, ptr, eol, line, Outside, false, truth);
    Release(text, ptr, eol, eol, line, Expand(text[eol..], Outside, truth));
  }

  /** A closing line is no else line. */
  lemma NotBoth(line: string, tag: string)
    requires IsEndif(line, tag)
    ensures !IsElse(line, tag)
  {
    assert (ELSE + tag + "]")[2] == 'l' && (ENDIF + tag + "]")[2] == line[2] == 'n';
  }

  /** A conditional is closed while the else line that is remembered belongs to an earlier one. */
  lemma Misplaced(text: string, ptr: nat, eol: nat, line: string, ifPtr: int, st: State, goal: Goal, truth: Truth)
    requires Stands(text, ptr, ifPtr, st, true, goal, truth) && IsNextLine(text, ptr, eol, line)
    requires IfTag(line) == None && IsEndif(line, st.tag)
    ensures !goal.sound
  {
    NotBoth(line, st.tag);
    NextTurn(text, ptr, eol, line, st, true, truth);
  }

  lemma EvalEnd(seen: string, truth: Truth)
    ensures EvalTag(seen, "", truth) == (false, seen)
  {
  }

  lemma EvalStep(tag: string, i: nat, e: nat, truth: Truth)
    requires i < |tag| && e == i + Find(tag[i..], ',')
    ensures var next := EvalTag(tag[..i], tag[i..], truth);
            if e == |tag| then next == (truth(tag[i..e]), tag)
            else if e + 1 == |tag| then next == (truth(tag[i..e]), tag[..e])
            else if truth(tag[i..e]) then next == (true, tag)
            else next == EvalTag(tag[..e + 1], tag[e + 1..], truth)
  {
    var rest := tag[i..];
    assert rest[..e - i] == tag[i..e];
    assert tag[..i] + rest == tag;
    assert e == |tag| ==> rest == tag[i..e];
    assert tag[..i] + rest[..e - i] == tag[..e];
    if e + 1 < |tag| {
      assert tag[..i] + rest[..e - i + 1] == tag[..e + 1] && rest[e - i + 1..] == tag[e + 1..];
    }
  }

  lemma EmptyOut(s: string)
    ensures "" + s == s
  {
  }

  /** How the next line of a text continues its expansion. */
  lemma NextLine(text: string, n: nat, st: State, stale: bool, truth: Truth)
    requires 0 < n <= |text| && n == LineLength(text)
    ensures Expand(text, st, truth)
         == Turn(text[..n], st, truth).0 + Expand(text[n..], Turn(text[..n], st, truth).1, truth)
    ensures Sound(text, st, stale, truth)
       <==> (stale ==> !Turn(text[..n], st, truth).1.Outside?)
            && Sound(text[n..], Turn(text[..n], st, truth).1, Stale(text[..n], st, stale, truth), truth)
    ensures IsLine(text[..n]) && (n < |text| ==> Ended(text[..n]))
  {
  }

  lemma HeldElse(st: State, line: string)
    requires st.Then?
    ensures Held(Else(st.tag, st.holds, st.ifLine, st.yes, line, "")) == Held(st) + line
  {
    assert line + "" == line;
  }

  lemma HeldAdd(st: State, line: string)
    requires !st.Outside?
    ensures Held(AddTo(st, line)) == Held(st) + line
  {
    if st.Then? {
      assert st.ifLine + (st.yes + line) == st.ifLine + st.yes + line;
    } else {
      assert st.ifLine + st.yes + (st.elseLine + (st.no + line)) == st.ifLine + st.yes + (st.elseLine + st.no) + line;
    }
  }

  /** How the text on hold is divided. */
  lemma HeldParts(body: string, ptr: nat, bodyEnd: nat, ifPtr: nat, st: State)
    requires ifPtr <= ptr <= bodyEnd <= |body| && body[..bodyEnd][ifPtr..ptr] == Held(st) && !st.Outside?
    ensures var a := ifPtr + |st.ifLine|;
            var b := a + |st.yes|;
            && b <= ptr && body[ifPtr..a] == st.ifLine && body[a..b] == st.yes
            && (st.Then? ==> b == ptr)
            && (st.Else? ==> b + |st.elseLine| <= ptr && body[b..b + |st.elseLine|] == st.elseLine
                             && body[b + |st.elseLine|..ptr] == st.no)
  {
    assert body[ifPtr..ptr] == body[..bodyEnd][ifPtr..ptr];
    if st.Then? {
      Divide(body, ifPtr, ptr, st.ifLine, st.yes);
    } else {
      Divide(body, ifPtr, ptr, st.ifLine + st.yes, st.elseLine + st.no);
      var b := ifPtr + |st.ifLine + st.yes|;
      Divide(body, ifPtr, b, st.ifLine, st.yes);
      Divide(body, b, ptr, st.elseLine, st.no);
    }
  }

  lemma Divide(s: string, from: nat, to: nat, a: string, b: string)
    requires from <= to <= |s| && s[from..to] == a + b
    ensures from + |a| + |b| == to && s[from..from + |a|] == a && s[from + |a|..to] == b
  {
    assert |s[from..to]| == |a + b|;
    assert s[from..from + |a|] == s[from..to][..|a|] == a;
    assert s[from + |a|..to] == s[from..to][|a|..] == b;
  }

  /** Moving the part that is kept, and then everything behind the conditional, to the front. */
  lemma TwoMoves(a: string, end: nat, ifPtr: nat, s: nat, e: nat, eol: nat)
    requires s <= e <= eol <= end <= |a| && ifPtr + (e - s) <= eol
    ensures var k := ifPtr + (e - s);
            Moved(Moved(a, ifPtr, s, e - s), k, eol, end - eol)[..k + (end - eol)]
            == a[..end][..ifPtr] + a[s..e] + a[..end][eol..]
  {
    var k := ifPtr + (e - s);
    var b := Moved(a, ifPtr, s, e - s);
    assert a[..end][..ifPtr] == a[..ifPtr] && a[..end][eol..] == a[eol..end];
    assert b[..k] == a[..ifPtr] + a[s..e] && b[eol..end] == a[eol..end];
  }

  lemma AdvanceEndif(text: string, ptr: nat, eol: nat, line: string, ifPtr: int,
                     st: State, goal: Goal, truth: Truth, text': string)
    requires Stands(text, ptr, ifPtr, st, false, goal, truth) && IsNextLine(text, ptr, eol, line) && 0 <= ifPtr
    requires !st.Outside? && IfTag(line) == None && !(st.Then? && IsElse(line, st.tag)) && IsEndif(line, st.tag)
    requires text' == text[..ifPtr] + Chosen(st) + text[eol..]
    ensures Stands(text', ifPtr + |Chosen(st)|, -1, Outside, false, goal, truth)
  {
    hide Expand, Sound, LineLength, IfTag;
    NextTurn(text, ptr, eol, line, st, false, truth);
    var ptr' := ifPtr + |Chosen(st)|;
    assert text'[..ptr'] == text[..ifPtr] + Chosen(st);
    assert text'[ptr'..] == text[eol..];
    Split3(text[..ifPtr], Chosen(st), Expand(text[eol..], Outside, truth));
  }

  lemma NextMark(body: string, ptr: nat, bodyEnd: nat, ifPtr: int, elsePtr: int, st: State, stale: bool, mark: string,
                 goal: Goal, truth: Truth)
    requires ptr < bodyEnd <= |body| && Stands(body[..bodyEnd], ptr, ifPtr, st, stale, goal, truth)
    requires (ifPtr < 0 <==> st.Outside?) && (stale ==> Marked(body[..bodyEnd], elsePtr, ifPtr, mark))
    requires !stale && st.Else? ==> elsePtr == ifPtr + |st.ifLine + st.yes|
    ensures stale ==> Marked(body[..bodyEnd], elsePtr, ptr, mark) && 0 <= elsePtr < ptr
    ensures !stale && st.Else? ==> Marked(body[..bodyEnd], elsePtr, ptr, st.elseLine) && 0 <= elsePtr < ptr
  {
    hide Expand, Sound, Meets;
    if !stale && st.Else? {
      MarkedElse(body, ptr, bodyEnd, ifPtr, elsePtr, st);
    }
  }

  lemma WithinPrefix(s: string, n: nat, i: nat, j: nat)
    requires i <= j <= n <= |s|
    ensures s[..n][i..j] == s[i..j]
  {
  }

  /** Everything from the wrong else line on has been kept. */
  lemma AdvanceLate(text: string, ptr: nat, eol: nat, line: string, ifPtr: int, s: nat, st: State, goal: Goal,
                    truth: Truth, text': string)
    requires Stands(text, ptr, ifPtr, st, true, goal, truth) && IsNextLine(text, ptr, eol, line) && 0 <= ifPtr
    requires IfTag(line) == None && IsEndif(line, st.tag) && s <= ifPtr && !st.holds && !goal.sound
    requires text' == text[..ifPtr] + text[s..ptr] + text[eol..]
    ensures |Chosen(st)| < ptr - s
    ensures var goal' := goal.(surplus := goal.surplus + (ptr - s) - |Chosen(st)|);
            Stands(text', ifPtr + (ptr - s), -1, Outside, false, goal', truth)
  {
    hide Expand, Sound, LineLength, IfTag;
    NotBoth(line, st.tag);
    NextTurn(text, ptr, eol, line, st, true, truth);
    var ptr' := ifPtr + (ptr - s);
    assert text'[..ptr'] == text[..ifPtr] + text[s..ptr];
    assert text'[ptr'..] == text[eol..];
    assert |text[ifPtr..ptr]| == |Held(st)|;
  }

  /** Where the else line is that is remembered when the next conditional is opened. */
  lemma MarkedElse(body: string, ptr: nat, bodyEnd: nat, ifPtr: nat, elsePtr: int, st: State)
    requires ifPtr <= ptr <= bodyEnd <= |body| && body[..bodyEnd][ifPtr..ptr] == Held(st) && st.Else?
    requires IsLine(st.elseLine) && Ended(st.elseLine) && elsePtr == ifPtr + |st.ifLine + st.yes|
    ensures Marked(body[..bodyEnd], elsePtr, ptr, st.elseLine)
  {
    HeldParts(body, ptr, bodyEnd, ifPtr, st);
  }

  lemma Split3(a: string, b: string, c: string)
    ensures a + (b + c) == a + b + c
  {
  }

  /** Less than six characters hold no line that matters. */
  lemma {:induction false} Short(text: string, st: State, truth: Truth)
    requires |text| < 6
    ensures Expand(text, st, truth) == Held(st) + text
    decreases |text|
  {
    if text == "" {
      assert Held(st) + text == Held(st);
    } else {
      var n := LineLength(text);
      var (out, st') := Conditionals.Turn(text[..n], st, truth);
      NextLine(text, n, st, false, truth);
      ShortLine(text[..n], st, truth);
      Short(text[n..], st', truth);
      Glue(out, Held(st'), Held(st), text, n);
    }
  }

  lemma Glue(out: string, behind: string, held: string, text: string, n: nat)
    requires n <= |text| && out + behind == held + text[..n]
    ensures out + (behind + text[n..]) == held + text
  {
    assert out + (behind + text[n..]) == held + text[..n] + text[n..];
  }

  /** Less than six characters are no opening line with a tag, no else line, and no closing line. */
  lemma ShortLine(line: string, st: State, truth: Truth)
    requires |line| < 6
    ensures Conditionals.Turn(line, st, truth).0 + Held(Conditionals.Turn(line, st, truth).1) == Held(st) + line
  {
    if st.Outside? {
      assert "" + line == line;
    } else {
      HeldAdd(st, line);
      EmptyOut(Held(AddTo(st, line)));
    }
  }

  lemma {:induction false} ShortSound(text: string, st: State, stale: bool, truth: Truth)
    requires |text| < 6 && (stale ==> !st.Outside?)
    ensures Sound(text, st, stale, truth)
    decreases |text|
  {
    if text != "" {
      var n := LineLength(text);
      var st' := Conditionals.Turn(text[..n], st, truth).1;
      NextLine(text, n, st, stale, truth);
      assert st'.Outside? <==> st.Outside?;
      ShortSound(text[n..], st', Stale(text[..n], st, stale, truth), truth);
    }
  }

  lemma Ends(text: string, ptr: nat, ifPtr: int, st: State, stale: bool, goal: Goal, truth: Truth)
    requires Stands(text, ptr, ifPtr, st, stale, goal, truth) && |text| - ptr < 6
    requires ifPtr < 0 ==> st.Outside?
    ensures Meets(text, true, goal)
  {
    hide Expand, Sound, Held;
    Short(text[ptr..], st, truth);
    ShortSound(text[ptr..], st, stale, truth);
    ThreePieces(text, Final(ptr, ifPtr), ptr);
  }

  lemma ThreePieces(text: string, i: nat, j: nat)
    requires i <= j <= |text|
    ensures text[..i] + (text[i..j] + text[j..]) == text
  {
  }
}
