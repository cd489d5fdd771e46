/** What a service's command line means: a tokenizer that reads it once, from left to right. */
module CommandLine {
  import opened Bytes

  datatype Quote = NONE | SINGLE | DOUBLE

  /** The word being read; it has a value once an equal sign has been seen that counts. */
  datatype Word = Word(key: string, value: Option<string>)

  /** Everything read so far. `args` says that the leading assignments are over. */
  datatype Tokens = Tokens(word: Option<Word>, args: bool, argv: seq<string>, env: seq<string>)

  type Vars = map<string, string>

  /** Starts a word if there is none. */
  function Touch(t: Tokens): Tokens
  {
    if t.word.Some? then t else t.(word := Some(Word("", None)))
  }

  /** Adds characters to the current word. */
  function Append(t: Tokens, s: string): Tokens
  {
    var w := Touch(t).word.value;
    t.(word := Some(if w.value.Some? then w.(value := Some(w.value.value + s)) else w.(key := w.key + s)))
  }

  function IsAssignment(entry: string, key: string): bool
  {
    key + "=" <= entry
  }

  /** Overrides the first assignment of a variable, or adds one. */
  function SetEnv(env: seq<string>, key: string, value: string): seq<string>
  {
    if env == [] then [key + "=" + value]
    else if IsAssignment(env[0], key) then [key + "=" + value] + env[1..]
    else [env[0]] + SetEnv(env[1..], key, value)
  }

  /** The end of a word: an assignment to the environment, or an argument. */
  function Flush(t: Tokens): Tokens
  {
    match t.word
    case None => t
    case Some(Word(key, value)) =>
      if !t.args && value.Some? then Tokens(None, t.args, t.argv, SetEnv(t.env, key, value.value))
      else Tokens(None, true, t.argv + [key], t.env)
  }

  /** The length of a variable name: up to a closing brace or to the end. */
  function NameLength(s: string): (n: nat)
    ensures n <= |s| && (n < |s| ==> s[n] == '}') && '}' !in s[..n]
  {
    if s == "" || s[0] == '}' then 0
    else
      var n := 1 + NameLength(s[1..]);
      assert s[..n] == [s[0]] + s[1..][..n - 1];
      n
  }

  function Expansion(vars: Vars, name: string): string
  {
    if name in vars then vars[name] else ""
  }

  /** What is left behind a variable. */
  function AfterName(s: string): string
  {
    var n := NameLength(s);
    if n < |s| then s[n + 1..] else ""
  }

  function Parse(s: string, vars: Vars, quote: Quote, t: Tokens): Tokens
    decreases |s|
  {
    if s == "" then Flush(t)
    else if s[0] == '\'' && quote != DOUBLE then
      Parse(s[1..], vars, if quote == SINGLE then NONE else SINGLE, Touch(t))
    else if s[0] == '"' && quote != SINGLE then
      Parse(s[1..], vars, if quote == DOUBLE then NONE else DOUBLE, Touch(t))
    else if s[0] == '$' && quote != SINGLE && 1 < |s| && s[1] == '{' then
      Parse(AfterName(s[2..]), vars, quote, Append(t, Expansion(vars, s[2..][..NameLength(s[2..])])))
    else if s[0] == '\\' then
      if |s| == 1 then Flush(Touch(t)) else Parse(s[2..], vars, quote, Append(t, [s[1]]))
    else if s[0] == '=' && !t.args && quote == NONE && Touch(t).word.value.value == None then
      Parse(s[1..], vars, quote, Touch(t).(word := Some(Touch(t).word.value.(value := Some("")))))
    else if s[0] == ' ' && quote == NONE then
      Parse(s[1..], vars, quote, Flush(t))
    else if s[0] == ' ' && t.word == None then  // a word has started if there is a quote
      Parse(s[1..], vars, quote, t)
    else
      Parse(s[1..], vars, quote, Append(t, [s[0]]))
  }

  function Start(env: seq<string>): Tokens
  {
    Tokens(None, false, [], env)
  }

  // ---- Round trip ----

  /** A word as its author means it: characters to be taken literally, and variables. */
  datatype Piece = Lit(c: char) | Var(name: string)

  predicate Proper(p: Piece)
  {
    p.Var? ==> '}' !in p.name
  }

  predicate AllProper(pieces: seq<Piece>)
  {
    forall i :: 0 <= i < |pieces| ==> Proper(pieces[i])
  }

  function PrintPiece(p: Piece): string
  {
    match p
    case Lit(c) => ['\\', c]
    case Var(name) => ['$', '{'] + name + ['}']
  }

  function PrintPieces(pieces: seq<Piece>): string
  {
    if pieces == [] then "" else PrintPiece(pieces[0]) + PrintPieces(pieces[1..])
  }

  function ExpandPiece(p: Piece, vars: Vars): string
  {
    match p
    case Lit(c) => [c]
    case Var(name) => Expansion(vars, name)
  }

  function Expand(pieces: seq<Piece>, vars: Vars): string
  {
    if pieces == [] then "" else ExpandPiece(pieces[0], vars) + Expand(pieces[1..], vars)
  }

  /** A word as it is written: every character escaped, an empty word as two quotes. */
  function PrintWord(pieces: seq<Piece>): string
  {
    if pieces == [] then "''" else PrintPieces(pieces)
  }

  function PrintWords(words: seq<seq<Piece>>): string
  {
    if words == [] then "" else PrintWord(words[0]) + " " + PrintWords(words[1..])
  }

  function ExpandWords(words: seq<seq<Piece>>, vars: Vars): seq<string>
  {
    if words == [] then [] else [Expand(words[0], vars)] + ExpandWords(words[1..], vars)
  }

  datatype Assignment = Assignment(key: seq<Piece>, value: seq<Piece>)

  function PrintAssignment(a: Assignment): string
  {
    PrintPieces(a.key) + "=" + PrintPieces(a.value) + " "
  }

  function PrintAssignments(assigns: seq<Assignment>): string
  {
    if assigns == [] then ""
    else PrintAssignment(assigns[0]) + PrintAssignments(assigns[1..])
  }

  function ApplyAssignments(env: seq<string>, assigns: seq<Assignment>, vars: Vars): seq<string>
    decreases |assigns|
  {
    if assigns == [] then env
    else ApplyAssignments(SetEnv(env, Expand(assigns[0].key, vars), Expand(assigns[0].value, vars)), assigns[1..], vars)
  }

  lemma AppendTwice(t: Tokens, a: string, b: string)
    ensures Append(Append(t, a), b) == Append(t, a + b)
  {
    var w := Touch(t).word.value;
    if w.value.Some? {
      assert w.value.value + a + b == w.value.value + (a + b);
    } else {
      assert w.key + a + b == w.key + (a + b);
    }
  }

  lemma NameLengthOf(name: string, rest: string)
    requires '}' !in name
    ensures NameLength(name + "}" + rest) == |name|
  {
    var s := name + "}" + rest;
    var n := NameLength(s);
    assert s[..|name|] == name;
    assert forall i :: 0 <= i < |name| ==> s[i] in name;
    forall m | |name| < m <= |s|
      ensures '}' in s[..m]
    {
      assert s[..m][|name|] == '}';
    }
  }

  /** One piece is taken as it is meant, whatever its characters are. The value of a variable in
      particular is never looked at again. */
  lemma ParsePiece(p: Piece, rest: string, vars: Vars, t: Tokens)
    requires Proper(p)
    ensures Parse(PrintPiece(p) + rest, vars, NONE, t) == Parse(rest, vars, NONE, Append(t, ExpandPiece(p, vars)))
  {
    var s := PrintPiece(p) + rest;
    match p {
      case Lit(c) =>
        assert s[2..] == rest;
      case Var(name) =>
        assert s[2..] == name + "}" + rest;
        NameLengthOf(name, rest);
        assert s[2..][..|name|] == name && s[2..][|name| + 1..] == rest;
    }
  }

  lemma {:induction false} ParsePieces(pieces: seq<Piece>, rest: string, vars: Vars, t: Tokens)
    requires AllProper(pieces)
    ensures Parse(PrintPieces(pieces) + rest, vars, NONE, t)
         == Parse(rest, vars, NONE, if pieces == [] then t else Append(t, Expand(pieces, vars)))
    decreases |pieces|
  {
    if pieces == [] {
      assert "" + rest == rest;
    } else {
      var p, more := pieces[0], pieces[1..];
      assert PrintPieces(pieces) + rest == PrintPiece(p) + (PrintPieces(more) + rest);
      ParsePiece(p, PrintPieces(more) + rest, vars, t);
      var t1 := Append(t, ExpandPiece(p, vars));
      ParsePieces(more, rest, vars, t1);
      AppendTwice(t, ExpandPiece(p, vars), Expand(more, vars));
      if more == [] {
        assert ExpandPiece(p, vars) + "" == ExpandPiece(p, vars);
      }
    }
  }

  lemma ParseSpace(rest: string, vars: Vars, t: Tokens)
    ensures Parse(" " + rest, vars, NONE, t) == Parse(rest, vars, NONE, Flush(t))
  {
    assert (" " + rest)[1..] == rest;
  }

  lemma ParseEquals(rest: string, vars: Vars, t: Tokens)
    requires !t.args && Touch(t).word.value.value == None
    ensures Parse("=" + rest, vars, NONE, t)
         == Parse(rest, vars, NONE, t.(word := Some(Touch(t).word.value.(value := Some("")))))
  {
    assert ("=" + rest)[1..] == rest;
  }

  lemma ParseEmptyWord(rest: string, vars: Vars, t: Tokens)
    ensures Parse("''" + rest, vars, NONE, t) == Parse(rest, vars, NONE, Touch(t))
  {
    var s := "''" + rest;
    assert s[1..] == "'" + rest && s[1..][1..] == rest;
    assert Parse(s, vars, NONE, t) == Parse(s[1..], vars, SINGLE, Touch(t));
  }

  /** One argument and the space behind it. */
  lemma ParseWord(pieces: seq<Piece>, rest: string, vars: Vars, t: Tokens)
    requires AllProper(pieces) && t.word == None
    ensures Parse(PrintWord(pieces) + " " + rest, vars, NONE, t)
         == Parse(rest, vars, NONE, Tokens(None, true, t.argv + [Expand(pieces, vars)], t.env))
  {
    assert PrintWord(pieces) + " " + rest == PrintWord(pieces) + (" " + rest);
    if pieces == [] {
      ParseEmptyWord(" " + rest, vars, t);
      ParseSpace(rest, vars, Touch(t));
    } else {
      ParsePieces(pieces, " " + rest, vars, t);
      ParseSpace(rest, vars, Append(t, Expand(pieces, vars)));
      assert "" + Expand(pieces, vars) == Expand(pieces, vars);
    }
  }

  lemma {:induction false} ParseWords(words: seq<seq<Piece>>, vars: Vars, t: Tokens)
    requires t.word == None && forall i :: 0 <= i < |words| ==> AllProper(words[i])
    ensures Parse(PrintWords(words), vars, NONE, t)
         == Tokens(None, t.args || words != [], t.argv + ExpandWords(words, vars), t.env)
    decreases |words|
  {
    if words == [] {
      assert t.argv + [] == t.argv;
    } else {
      ParseWord(words[0], PrintWords(words[1..]), vars, t);
      ParseWords(words[1..], vars, Tokens(None, true, t.argv + [Expand(words[0], vars)], t.env));
      WordsStep(t.argv, words, vars);
    }
  }

  lemma WordsStep(argv: seq<string>, words: seq<seq<Piece>>, vars: Vars)
    requires words != []
    ensures argv + [Expand(words[0], vars)] + ExpandWords(words[1..], vars) == argv + ExpandWords(words, vars)
  {
  }

  lemma ParseKey(key: seq<Piece>, behind: string, vars: Vars, t: Tokens)
    requires AllProper(key) && t.word == None && !t.args
    ensures Parse(PrintPieces(key) + ("=" + behind), vars, NONE, t)
         == Parse(behind, vars, NONE, t.(word := Some(Word(Expand(key, vars), Some("")))))
  {
    ParsePieces(key, "=" + behind, vars, t);
    assert "" + Expand(key, vars) == Expand(key, vars);
    ParseEquals(behind, vars, if key == [] then t else Append(t, Expand(key, vars)));
  }

  lemma ParseValue(key: string, value: seq<Piece>, rest: string, vars: Vars, t: Tokens)
    requires AllProper(value) && t.word == Some(Word(key, Some(""))) && !t.args
    ensures Parse(PrintPieces(value) + (" " + rest), vars, NONE, t)
         == Parse(rest, vars, NONE, t.(word := None, env := SetEnv(t.env, key, Expand(value, vars))))
  {
    ParsePieces(value, " " + rest, vars, t);
    assert "" + Expand(value, vars) == Expand(value, vars);
    ParseSpace(rest, vars, t.(word := Some(Word(key, Some(Expand(value, vars))))));
  }

  /** One leading assignment and the space behind it. */
  lemma ParseAssignment(a: Assignment, rest: string, vars: Vars, t: Tokens)
    requires AllProper(a.key) && AllProper(a.value) && t.word == None && !t.args
    ensures Parse(PrintAssignment(a) + rest, vars, NONE, t)
         == Parse(rest, vars, NONE, t.(env := SetEnv(t.env, Expand(a.key, vars), Expand(a.value, vars))))
  {
    var behind := PrintPieces(a.value) + (" " + rest);
    Reassociate(PrintPieces(a.key), PrintPieces(a.value), rest);
    ParseKey(a.key, behind, vars, t);
    ParseValue(Expand(a.key, vars), a.value, rest, vars, t.(word := Some(Word(Expand(a.key, vars), Some("")))));
  }

  lemma Reassociate(key: string, value: string, rest: string)
    ensures key + "=" + value + " " + rest == key + ("=" + (value + (" " + rest)))
  {
  }

  lemma {:induction false} ParseAssignments(assigns: seq<Assignment>, rest: string, vars: Vars, t: Tokens)
    requires t.word == None && !t.args
    requires forall i :: 0 <= i < |assigns| ==> AllProper(assigns[i].key) && AllProper(assigns[i].value)
    ensures Parse(PrintAssignments(assigns) + rest, vars, NONE, t)
         == Parse(rest, vars, NONE, t.(env := ApplyAssignments(t.env, assigns, vars)))
    decreases |assigns|
  {
    if assigns == [] {
      assert "" + rest == rest;
    } else {
      var a, more := assigns[0], PrintAssignments(assigns[1..]) + rest;
      assert PrintAssignments(assigns) + rest == PrintAssignment(a) + more;
      ParseAssignment(a, more, vars, t);
      ParseAssignments(assigns[1..], rest, vars,
                       t.(env := SetEnv(t.env, Expand(a.key, vars), Expand(a.value, vars))));
    }
  }

  /** Writing down any assignments and any arguments, every character escaped, and reading them back gives
      exactly those assignments and arguments, with every variable replaced by its value. */
  lemma RoundTrip(assigns: seq<Assignment>, words: seq<seq<Piece>>, vars: Vars, env: seq<string>)
    requires forall i :: 0 <= i < |assigns| ==> AllProper(assigns[i].key) && AllProper(assigns[i].value)
    requires forall i :: 0 <= i < |words| ==> AllProper(words[i])
    ensures Parse(PrintAssignments(assigns) + PrintWords(words), vars, NONE, Start(env))
         == Tokens(None, words != [], ExpandWords(words, vars), ApplyAssignments(env, assigns, vars))
  {
    var text, t := PrintWords(words), Start(ApplyAssignments(env, assigns, vars));
    ParseAssignments(assigns, text, vars, Start(env));
    assert Parse(text, vars, NONE, t) == Tokens(None, words != [], ExpandWords(words, vars), t.env) by {
      ParseWords(words, vars, t);
      assert [] + ExpandWords(words, vars) == ExpandWords(words, vars);
    }
  }
}
