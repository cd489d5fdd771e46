/**
 The tokenizer of `execService`: one pass over a buffer that is rewritten on the way. The fields are the
 local variables of that loop; positions in the buffer are indices, -1 stands for NULL, and the
 terminating NUL is the position behind the last character.
 */
module Tokenizer {
  import opened Bytes
  import opened CommandLine

  /** The NUL-terminated string at a position of the buffer. */
  function CString(buf: string, i: nat): string
    decreases |buf| - i
  {
    if |buf| <= i || buf[i] == NUL then "" else [buf[i]] + CString(buf, i + 1)
  }

  lemma {:induction false} CStringIs(buf: string, i: nat, end: nat)
    requires i <= end <= |buf| && NUL !in buf[i..end] && (end < |buf| ==> buf[end] == NUL)
    ensures CString(buf, i) == buf[i..end]
    decreases end - i
  {
    if i < end {
      assert buf[i] in buf[i..end];
      assert buf[i..end] == [buf[i]] + buf[i + 1..end];
      CStringIs(buf, i + 1, end);
    }
  }

  class Tokenizer {
    const vars: Vars
    var cmdline: string
    var ptr: int
    var key: int
    var value: int
    var quote: Quote
    var args: bool
    var argv: seq<string>
    var environment: seq<string>

    ghost predicate Valid()
      reads this
    {
      && 0 <= ptr <= |cmdline| && NUL !in cmdline[ptr..]
      && -1 <= key <= ptr && -1 <= value <= ptr && (key < 0 ==> value < 0)
      && (0 <= key && value < 0 ==> NUL !in cmdline[key..ptr])
      && (0 <= value ==>
            key < value && cmdline[value - 1] == NUL && NUL !in cmdline[key..value - 1] && NUL !in cmdline[value..ptr])
      && (forall name :: name in vars ==> NUL !in vars[name])
    }

    /** The word that lies in the buffer in front of `ptr`. */
    ghost function CurrentWord(): Option<Word>
      reads this
      requires Valid()
    {
      if key < 0 then None
      else if value < 0 then Some(Word(cmdline[key..ptr], None))
      else Some(Word(cmdline[key..value - 1], Some(cmdline[value..ptr])))
    }

    ghost function Read(): Tokens
      reads this
      requires Valid()
    {
      Tokens(CurrentWord(), args, argv, environment)
    }

    /** What the rest of the pass will make of it. */
    ghost function Meaning(): Tokens
      reads this
      requires Valid()
    {
      Parse(cmdline[ptr..], vars, quote, Read())
    }

    constructor (cmdline: string, vars: Vars, environment: seq<string>)
      requires NUL !in cmdline && forall name :: name in vars ==> NUL !in vars[name]
      ensures Valid() && Meaning() == Parse(cmdline, vars, NONE, Start(environment))
      ensures this.vars == vars
    {
      this.cmdline, this.vars, this.environment := cmdline, vars, environment;
      ptr, key, value, quote, args, argv := 0, -1, -1, NONE, false, [];
      new;
      assert cmdline[0..] == cmdline;
    }

    /** The first character of a word marks where it starts. */
    method Mark()
      requires Valid()
      modifies `key
      ensures Valid() && (key == old(key) || key == ptr) && Meaning() == old(Meaning())
      ensures ptr < |cmdline| && cmdline[ptr] != ' ' ==> Read() == Touch(old(Read()))
      ensures !(ptr < |cmdline| && cmdline[ptr] != ' ') ==> key == old(key)
    {
      if key < 0 && ptr < |cmdline| && cmdline[ptr] != ' ' {
        assert cmdline[ptr..ptr] == "";
        key := ptr;
      }
    }

    /** Removes the character at `ptr`. The character behind it moves there. */
    method RemoveHere()
      requires Valid() && ptr < |cmdline|
      modifies `cmdline
      ensures Valid() && cmdline == old(cmdline[..ptr] + cmdline[ptr + 1..])
      ensures cmdline[ptr..] == old(cmdline[ptr..])[1..] && Read() == old(Read())
    {
      ghost var was := cmdline;
      cmdline := cmdline[..ptr] + cmdline[ptr + 1..];
      assert cmdline[ptr..] == was[ptr + 1..] == was[ptr..][1..];
      assert forall i, j :: 0 <= i <= j <= ptr ==> cmdline[i..j] == was[i..j];
    }

    /** Steps over the character at `ptr`, which belongs to the current word. */
    method Keep()
      requires Valid() && ptr < |cmdline| && 0 <= key
      modifies `ptr
      ensures Valid() && ptr == old(ptr) + 1
      ensures cmdline[ptr..] == old(cmdline[ptr..])[1..] && Read() == Append(old(Read()), [cmdline[old(ptr)]])
    {
      ghost var c := cmdline[ptr];
      assert c in cmdline[ptr..];
      assert cmdline[ptr..][1..] == cmdline[ptr + 1..];
      assert cmdline[key..ptr + 1] == cmdline[key..ptr] + [c];
      assert 0 <= value ==> cmdline[value..ptr + 1] == cmdline[value..ptr] + [c];
      ptr := ptr + 1;
    }

    /** A quotation mark that opens or closes. */
    method Toggle(q: Quote)
      requires Valid() && ptr < |cmdline| && 0 <= key && (quote == q || quote == NONE)
      requires (q == SINGLE && cmdline[ptr] == '\'') || (q == DOUBLE && cmdline[ptr] == '"')
      modifies `cmdline, `quote
      ensures Valid() && Meaning() == old(Meaning()) && |cmdline| < old(|cmdline|)
    {
      RemoveHere();
      quote := if quote == q then NONE else q;
    }

    /** A backslash: the next character is taken as it is; at the end, the backslash is dropped. */
    method Escape()
      requires Valid() && ptr < |cmdline| && cmdline[ptr] == '\\' && 0 <= key
      modifies `cmdline, `ptr
      ensures Valid() && Meaning() == old(Meaning()) && |cmdline| - ptr < old(|cmdline| - ptr)
    {
      ghost var rest := cmdline[ptr..];
      RemoveHere();
      assert rest[0] == '\\';
      if ptr < |cmdline| {
        assert rest[1..][0] == rest[1] && rest[1..][1..] == rest[2..];
        Keep();
      } else {
        assert |rest| == 1;
        assert cmdline[ptr..] == "";
      }
    }

    /** The equal sign between the name and the value of an environment variable. */
    method Separate()
      requires Valid() && ptr < |cmdline| && cmdline[ptr] == '=' && 0 <= key && value < 0 && !args && quote == NONE
      modifies `cmdline, `ptr, `value
      ensures Valid() && Meaning() == old(Meaning()) && |cmdline| - ptr < old(|cmdline| - ptr)
    {
      ghost var was, rest := cmdline, cmdline[ptr..];
      cmdline := cmdline[ptr := NUL];
      assert cmdline[ptr + 1..] == was[ptr + 1..] == rest[1..];
      assert cmdline[key..ptr] == was[key..ptr];
      assert cmdline[ptr + 1..ptr + 1] == "";
      value, ptr := ptr + 1, ptr + 1;
    }

    /** The closing brace of a variable, or the end of the buffer. */
    method FindBrace() returns (end: int)
      requires 0 <= ptr && ptr + 2 <= |cmdline|
      ensures ptr + 2 <= end <= |cmdline| && end - (ptr + 2) == NameLength(cmdline[ptr + 2..])
    {
      end := ptr + 2;
      ghost var rest := cmdline[ptr + 2..];
      assert rest[..0] == "";
      while end < |cmdline| && cmdline[end] != '}'
        invariant ptr + 2 <= end <= |cmdline| && '}' !in rest[..end - (ptr + 2)]
      {
        ghost var n := end - (ptr + 2);
        assert rest[..n + 1] == rest[..n] + [cmdline[end]];
        end := end + 1;
      }
      NameEnds(rest, rest[..end - (ptr + 2)]);
    }

    /** A variable is replaced by its value, and the pass goes on behind the value. */
    method ExpandVariable()
      requires Valid() && ptr + 1 < |cmdline| && cmdline[ptr] == '$' && cmdline[ptr + 1] == '{'
      requires 0 <= key && quote != SINGLE
      modifies `cmdline, `ptr
      ensures Valid() && Meaning() == old(Meaning()) && |cmdline| - ptr < old(|cmdline| - ptr)
    {
      ghost var rest := cmdline[ptr..];
      var end := FindBrace();
      var name := cmdline[ptr + 2..end];
      var repl := if name in vars then vars[name] else "";
      assert rest[2..] == cmdline[ptr + 2..] && rest[2..][..|name|] == name;
      assert rest[0] == '$' && rest[1] == '{';
      if end < |cmdline| {
        end := end + 1;
        assert rest[2..][|name| + 1..] == cmdline[end..];
      }
      assert AfterName(rest[2..]) == cmdline[end..];
      Splice(end, repl);
    }

    /** Puts a string in the place of the characters from `ptr` to `end`, and steps over it. */
    method Splice(end: int, repl: string)
      requires Valid() && ptr <= end <= |cmdline| && 0 <= key && NUL !in repl
      modifies `cmdline, `ptr
      ensures Valid() && cmdline[ptr..] == old(cmdline)[end..] && Read() == Append(old(Read()), repl)
    {
      ghost var was := cmdline;
      var next := ptr + |repl|;
      cmdline := cmdline[..ptr] + repl + cmdline[end..];
      Spliced(was, cmdline, ptr, end, repl);
      if value < 0 {
        SpliceWord(was, cmdline, key, ptr, repl);
      } else {
        SpliceWord(was, cmdline, value, ptr, repl);
        SamePart(was, cmdline, ptr, key, value - 1);
      }
      ptr := next;
    }

    /** Overrides an existing environment variable, or adds a new one. */
    method SetVariable(name: string, text: string)
      modifies `environment
      ensures environment == SetEnv(old(environment), name, text)
    {
      var e: nat := 0;
      ghost var goal := SetEnv(environment, name, text);
      assert environment[0..] == environment && environment[..0] == [];
      while e < |environment|
        invariant e <= |environment| && environment == old(environment)
        invariant goal == environment[..e] + SetEnv(environment[e..], name, text)
      {
        SetEnvNext(environment, e, name, text);
        if IsAssignment(environment[e], name) {
          environment := environment[e := environment[e][..|name| + 1] + text];
          return;
        }
        e := e + 1;
      }
      environment := environment + [name + "=" + text];
    }

    /** The word in the buffer is complete: it becomes an assignment or an argument. */
    method TakeWord()
      requires Valid() && 0 <= key && (ptr < |cmdline| ==> cmdline[ptr] == ' ')
      modifies this
      ensures Valid() && Read() == Flush(old(Read()))
      ensures key < 0 && value < 0 && ptr == old(ptr) + (if old(ptr) < |cmdline| then 1 else 0) && quote == old(quote)
      ensures |cmdline| == old(|cmdline|) && cmdline[ptr..] == old(cmdline)[ptr..]
    {
      ghost var was := cmdline;
      if ptr < |cmdline| {
        cmdline := cmdline[ptr := NUL];
      }
      SamePart(was, cmdline, ptr, key, if 0 <= value then value - 1 else ptr);
      if 0 <= value {
        SamePart(was, cmdline, ptr, value, ptr);
      }
      StoreWord();
      key, value := -1, -1;
      if ptr < |cmdline| {
        ptr := ptr + 1;
        assert cmdline[ptr..] == was[ptr..] == was[ptr - 1..][1..];
      }
    }

    /** Stores the word, which NUL now separates from what is behind it. */
    method StoreWord()
      requires 0 <= key <= ptr <= |cmdline| && (ptr < |cmdline| ==> cmdline[ptr] == NUL) && -1 <= value <= ptr
      requires value < 0 ==> NUL !in cmdline[key..ptr]
      requires 0 <= value ==> key < value && cmdline[value - 1] == NUL && NUL !in cmdline[key..value - 1]
                              && NUL !in cmdline[value..ptr]
      modifies `args, `argv, `environment
      ensures var word := Word(cmdline[key..if 0 <= value then value - 1 else ptr],
                               if 0 <= value then Some(cmdline[value..ptr]) else None);
              Tokens(None, args, argv, environment) == Flush(Tokens(Some(word), old(args), old(argv), old(environment)))
    {
      CStringIs(cmdline, key, if 0 <= value then value - 1 else ptr);
      if !args && 0 <= value {
        CStringIs(cmdline, value, ptr);
        SetVariable(CString(cmdline, key), CString(cmdline, value));
      } else {
        args := true;
        argv := argv + [CString(cmdline, key)];
      }
    }

    /** An unquoted space, or the end. */
    method EndWord()
      requires Valid() && (ptr < |cmdline| ==> cmdline[ptr] == ' ' && quote == NONE)
      modifies this
      ensures Valid() && quote == old(quote)
      ensures old(ptr < |cmdline|) ==> Meaning() == old(Meaning()) && |cmdline| - ptr < old(|cmdline| - ptr)
      ensures old(ptr == |cmdline|) ==> Read() == old(Meaning())
    {
      ghost var rest := cmdline[ptr..];
      if 0 <= key {
        TakeWord();
      } else if ptr < |cmdline| {
        ptr := ptr + 1;
      }
      assert rest != "" ==> cmdline[ptr..] == rest[1..];
    }

    /** One character of the command line. */
    method Next()
      requires Valid() && ptr < |cmdline|
      modifies this
      ensures Valid() && Meaning() == old(Meaning()) && |cmdline| - ptr < old(|cmdline| - ptr)
    {
      Mark();
      var c := cmdline[ptr];
      assert c == cmdline[ptr..][0];
      if c == '\'' && quote != DOUBLE {
        Toggle(SINGLE);
      } else if c == '"' && quote != SINGLE {
        Toggle(DOUBLE);
      } else if c == '$' && quote != SINGLE && ptr + 1 < |cmdline| && cmdline[ptr + 1] == '{' {
        ExpandVariable();
      } else if c == '\\' {
        Escape();
      } else if c == '=' && !args && quote == NONE && value < 0 {
        Separate();
      } else if c == ' ' && quote == NONE {
        EndWord();
      } else {
        Literal();
      }
    }

    /** Any other character. */
    method Literal()
      requires Valid() && ptr < |cmdline|
      requires cmdline[ptr] != ' ' ==> 0 <= key
      requires var c := cmdline[ptr];
               && !(c == '\'' && quote != DOUBLE) && !(c == '"' && quote != SINGLE) && c != '\\'
               && !(c == '$' && quote != SINGLE && ptr + 1 < |cmdline| && cmdline[ptr + 1] == '{')
               && !(c == '=' && !args && quote == NONE && value < 0) && !(c == ' ' && quote == NONE)
      modifies `ptr
      ensures Valid() && Meaning() == old(Meaning()) && ptr == old(ptr) + 1
    {
      ghost var rest := cmdline[ptr..];
      assert 1 < |rest| ==> rest[1] == cmdline[ptr + 1];
      if 0 <= key {
        Keep();
      } else {
        ptr := ptr + 1;
        assert cmdline[ptr..] == rest[1..];
      }
    }
  }

  /** The tokenizer of execService. */
  method Tokenize(cmdline: string, vars: Vars, environment: seq<string>) returns (argv: seq<string>, env: seq<string>)
    requires NUL !in cmdline && forall name :: name in vars ==> NUL !in vars[name]
    ensures var t := Parse(cmdline, vars, NONE, Start(environment)); argv == t.argv && env == t.env
  {
    var t := new Tokenizer(cmdline, vars, environment);
    while t.ptr < |t.cmdline|
      invariant t.Valid() && fresh(t) && t.Meaning() == Parse(cmdline, vars, NONE, Start(environment))
      decreases |t.cmdline| - t.ptr
    {
      t.Next();
    }
    t.EndWord();
    argv, env := t.argv, t.environment;
  }

  /** What becomes of the entries from `e` on. */
  lemma SetEnvNext(env: seq<string>, e: nat, name: string, text: string)
    requires e < |env|
    ensures env[..e] + SetEnv(env[e..], name, text)
         == if IsAssignment(env[e], name) then env[e := env[e][..|name| + 1] + text]
            else env[..e + 1] + SetEnv(env[e + 1..], name, text)
  {
    var rest := env[e..];
    assert rest[0] == env[e] && rest[1..] == env[e + 1..];
    if IsAssignment(env[e], name) {
      var entry := env[e][..|name| + 1] + text;
      assert entry == name + "=" + text;
      assert env[e := entry] == env[..e] + ([entry] + env[e + 1..]);
    } else {
      assert env[..e + 1] == env[..e] + [env[e]];
      assert env[..e] + ([env[e]] + SetEnv(env[e + 1..], name, text))
          == env[..e + 1] + SetEnv(env[e + 1..], name, text);
    }
  }

  lemma Spliced(was: string, now: string, ptr: nat, end: nat, repl: string)
    requires ptr <= end <= |was| && now == was[..ptr] + repl + was[end..]
    ensures now[..ptr] == was[..ptr] && now[..ptr + |repl|] == was[..ptr] + repl
    ensures now[ptr + |repl|..] == was[end..] == was[ptr..][end - ptr..]
  {
  }

  lemma SamePart(was: string, now: string, n: nat, a: nat, b: nat)
    requires a <= b <= n <= |was| && n <= |now| && now[..n] == was[..n]
    ensures now[a..b] == was[a..b]
  {
    assert now[a..b] == now[..n][a..b] && was[a..b] == was[..n][a..b];
  }

  lemma SpliceWord(was: string, now: string, start: nat, ptr: nat, repl: string)
    requires start <= ptr <= |was| && ptr + |repl| <= |now| && now[..ptr + |repl|] == was[..ptr] + repl
    ensures now[start..ptr + |repl|] == was[start..ptr] + repl
  {
    assert now[start..ptr + |repl|] == now[..ptr + |repl|][start..];
  }

  lemma NameEnds(s: string, name: string)
    requires name <= s && '}' !in name && (|name| < |s| ==> s[|name|] == '}')
    ensures NameLength(s) == |name|
  {
    var n := NameLength(s);
    assert forall i :: 0 <= i < |name| ==> s[i] in name;
    forall m | |name| < m <= |s|
      ensures '}' in s[..m]
    {
      assert s[..m][|name|] == '}';
    }
  }
}
