/** How a command line is shown to the user (src/ghost/perms/permexec.c, lines 88-147,
    and src/ghost/strings.c, lines 53-97). */
module CmdLine {
  import opened Basics

  // ---------- the text ----------

  function Escape(c: char): (r: string)
    ensures 1 <= |r| <= 2
  {
    if c == '\\' then "\\\\"
    else if c == '"' then "\\\""
    else if c == '\n' then "\\n"
    else if c == '\t' then "\\t"
    else [c]
  }

  function EscapeAll(s: string): string {
    if s == "" then "" else EscapeAll(s[..|s| - 1]) + Escape(s[|s| - 1])
  }

  function Quote(s: string): string {
    "\"" + EscapeAll(s) + "\""
  }

  /** The arguments behind the program, each after a space. */
  function QuoteArgs(args: seq<string>): string {
    if args == [] then "" else QuoteArgs(args[..|args| - 1]) + " " + Quote(args[|args| - 1])
  }

  /** `permexec_buildcmdline`: the program's path as it is, then the other arguments; without any
      `argv` there is no zero at the end. */
  function CmdLineText(exe: string, argv: seq<string>): string {
    if argv == [] then exe else exe + QuoteArgs(argv[1..]) + [NUL]
  }

  function QuoteEnv(env: seq<string>): string {
    if env == [] then "" else QuoteEnv(env[..|env| - 1]) + (if |env| > 1 then " " else "") + Quote(env[|env| - 1])
  }

  /** `permexec_buildenv` */
  function EnvText(env: seq<string>): string {
    QuoteEnv(env) + [NUL]
  }

  // ---------- reading it back ----------

  function Unescape(c: char): Option<char> {
    if c == '\\' || c == '"' then Some(c)
    else if c == 'n' then Some('\n')
    else if c == 't' then Some('\t')
    else None
  }

  datatype Unquoted = Unquoted(text: string, rest: string) | NotQuoted

  /** Reads behind an opening quote, up to the closing one. */
  function Unquote(s: string): (r: Unquoted)
    ensures r.Unquoted? ==> |r.rest| < |s|
    decreases |s|
  {
    if s == "" then NotQuoted
    else if s[0] == '"' then Unquoted("", s[1..])
    else if s[0] == '\\' then
      if |s| == 1 || Unescape(s[1]).None? then NotQuoted
      else
        var r := Unquote(s[2..]);
        if r.NotQuoted? then NotQuoted else Unquoted([Unescape(s[1]).value] + r.text, r.rest)
    else
      var r := Unquote(s[1..]);
      if r.NotQuoted? then NotQuoted else Unquoted([s[0]] + r.text, r.rest)
  }

  /** Reads quoted strings, each behind a space, up to a zero. */
  function Decode(s: string): Option<seq<string>>
    decreases |s|
  {
    if s == [NUL] then Some([])
    else if |s| < 2 || s[0] != ' ' || s[1] != '"' then None
    else
      var r := Unquote(s[2..]);
      if r.NotQuoted? then None
      else
        var rest := Decode(r.rest);
        if rest.None? then None else Some([r.text] + rest.value)
  }

  lemma {:induction false} EscapeAllCons(c: char, s: string)
    ensures EscapeAll([c] + s) == Escape(c) + EscapeAll(s)
  {
    hide Escape;
    var all := [c] + s;
    if s == "" {
      assert all == [c] && all[..0] == "";
      assert EscapeAll(all) == EscapeAll("") + Escape(c);
    } else {
      var last := |s| - 1;
      var front, end := EscapeAll(s[..last]), Escape(s[last]);
      EscapeAllCons(c, s[..last]);
      assert all[..|all| - 1] == [c] + s[..last] && all[|all| - 1] == s[last];
      assert EscapeAll(all) == (Escape(c) + front) + end;
      assert EscapeAll(s) == front + end;
    }
  }

  lemma {:induction false} UnquoteInverts(s: string, rest: string)
    ensures Unquote(EscapeAll(s) + "\"" + rest) == Unquoted(s, rest)
  {
    if s == "" {
      var q := EscapeAll(s) + "\"" + rest;
      assert q[0] == '"' && q[1..] == rest;
    } else {
      var c, tail := s[0], s[1..];
      var q := EscapeAll(tail) + "\"" + rest;
      assert s == [c] + tail;
      EscapeAllCons(c, tail);
      UnquoteInverts(tail, rest);
      assert EscapeAll(s) + "\"" + rest == Escape(c) + q;
      UnquoteChar(c, q);
    }
  }

  lemma {:induction false} UnquoteChar(c: char, q: string)
    requires Unquote(q).Unquoted?
    ensures Unquote(Escape(c) + q) == Unquoted([c] + Unquote(q).text, Unquote(q).rest)
  {
  }

  lemma {:induction false} QuoteArgsCons(arg: string, args: seq<string>)
    ensures QuoteArgs([arg] + args) == " " + Quote(arg) + QuoteArgs(args)
  {
    hide Quote;
    var all := [arg] + args;
    if args == [] {
      assert all == [arg] && all[..0] == [];
      assert QuoteArgs(all) == QuoteArgs([]) + " " + Quote(arg);
    } else {
      var last := |args| - 1;
      QuoteArgsCons(arg, args[..last]);
      assert all[..|all| - 1] == [arg] + args[..last] && all[|all| - 1] == args[last];
      var front := QuoteArgs(args[..last]);
      assert QuoteArgs(all) == " " + Quote(arg) + (front + " " + Quote(args[last]));
    }
  }

  /** The arguments can be read back from what is shown of them. */
  lemma {:induction false} DecodeInverts(args: seq<string>)
    ensures Decode(QuoteArgs(args) + [NUL]) == Some(args)
  {
    hide Quote, Decode, QuoteArgs;
    if args == [] {
      DecodeNothing();
    } else {
      var arg, rest := args[0], args[1..];
      var tail := QuoteArgs(rest) + [NUL];
      assert args == [arg] + rest;
      QuoteArgsCons(arg, rest);
      DecodeInverts(rest);
      DecodeStep(arg, tail);
      assert QuoteArgs(args) + [NUL] == " " + Quote(arg) + tail;
    }
  }

  lemma {:induction false} DecodeNothing()
    ensures Decode(QuoteArgs([]) + [NUL]) == Some([])
  {
    assert QuoteArgs([]) + [NUL] == [NUL];
  }

  lemma {:induction false} DecodeStep(arg: string, tail: string)
    requires Decode(tail).Some?
    ensures Decode(" " + Quote(arg) + tail) == Some([arg] + Decode(tail).value)
  {
    hide Unquote, EscapeAll;
    var s, inner := " " + Quote(arg) + tail, EscapeAll(arg) + "\"" + tail;
    UnquoteInverts(arg, tail);
    assert s[0] == ' ' && s[1] == '"' && s[2..] == inner;
  }

  /** For one program, the text determines all the other arguments. */
  lemma {:induction false} CmdLineDeterminesArgs(exe: string, argv: seq<string>, argv': seq<string>)
    requires CmdLineText(exe, argv) == CmdLineText(exe, argv') && NUL !in exe
    ensures argv == [] <==> argv' == []
    ensures argv != [] ==> argv[1..] == argv'[1..]
  {
    assert argv != [] ==> |CmdLineText(exe, argv)| > |exe|;
    assert argv' != [] ==> |CmdLineText(exe, argv')| > |exe|;
    if argv != [] && argv' != [] {
      var a, b := QuoteArgs(argv[1..]) + [NUL], QuoteArgs(argv'[1..]) + [NUL];
      assert CmdLineText(exe, argv) == exe + a && CmdLineText(exe, argv') == exe + b;
      assert (exe + a)[|exe|..] == a && (exe + b)[|exe|..] == b;
      DecodeInverts(argv[1..]);
      DecodeInverts(argv'[1..]);
    }
  }

  /** The path is shown as it is: a program with a quote in its name can look like
      another program with an argument. */
  lemma {:induction false} QuoteInPathMisleads()
    ensures CmdLineText("/a \"b\"", ["x"]) == CmdLineText("/a", ["x", "b"])
  {
  }

  // ---------- when two command lines look the same ----------

  /** Within a quoted argument, every quote stands behind a backslash. */
  lemma {:induction false} QuotesAreEscaped(s: string, i: nat)
    requires i < |EscapeAll(s)| && EscapeAll(s)[i] == '"'
    ensures i > 0 && EscapeAll(s)[i - 1] == '\\'
    decreases |s|
  {
    var front := EscapeAll(s[..|s| - 1]);
    if i < |front| {
      QuotesAreEscaped(s[..|s| - 1], i);
    }
  }

  /** Two texts that end in a quoted argument each end in the same one. */
  lemma {:induction false} SameLastArg(s: string, a: string, s': string, a': string)
    requires s + " " + Quote(a) == s' + " " + Quote(a') && |EscapeAll(a)| <= |EscapeAll(a')|
    ensures s == s' && EscapeAll(a) == EscapeAll(a')
  {
    hide EscapeAll;
    var e, e' := EscapeAll(a), EscapeAll(a');
    var t, t' := s + " \"" + e + "\"", s' + " \"" + e' + "\"";
    assert t == s + " " + Quote(a) && t' == s' + " " + Quote(a');
    if |e| < |e'| {
      var i := |e'| - |e| - 1;
      assert t[|s| + 1] == '"' && t[|s|] == ' ';
      assert |s| + 1 == |s'| + 2 + i;
      assert t'[|s'| + 2 + i] == e'[i];
      assert i > 0 ==> t'[|s'| + 2 + (i - 1)] == e'[i - 1];
      QuotesAreEscaped(a', i);
    }
    assert |s| == |s'|;
    assert s == t[..|s|] && s' == t'[..|s|];
    assert e == t[|s| + 2..|t| - 1] && e' == t'[|s| + 2..|t| - 1];
  }

  lemma {:induction false} EscapeInjective(a: string, b: string)
    requires EscapeAll(a) == EscapeAll(b)
    ensures a == b
  {
    UnquoteInverts(a, "");
    UnquoteInverts(b, "");
  }

  /** The arguments that a text of quoted arguments ends in are its last ones. */
  lemma {:induction false} EndOfArgs(args: seq<string>, x: string, args': seq<string>)
    requires QuoteArgs(args) == x + QuoteArgs(args')
    ensures |args'| <= |args|
    ensures var k := |args| - |args'|; x == QuoteArgs(args[..k]) && args' == args[k..]
    decreases |args'|
  {
    hide QuoteArgs, Quote, EscapeAll;
    if args' == [] {
      NoArgs();
      assert args[..|args|] == args && x + "" == x;
    } else {
      SomethingQuoted(args');
      NoArgs();
      var front, last, front', last' := args[..|args| - 1], args[|args| - 1], args'[..|args'| - 1], args'[|args'| - 1];
      LastQuoted(args);
      LastQuoted(args');
      assert x + (QuoteArgs(front') + " " + Quote(last')) == (x + QuoteArgs(front')) + " " + Quote(last');
      SameLast(QuoteArgs(front), last, x + QuoteArgs(front'), last');
      EndOfArgs(front, x, front');
      TakeLast(args, args');
    }
  }

  lemma {:induction false} SameLast(s: string, a: string, s': string, a': string)
    requires s + " " + Quote(a) == s' + " " + Quote(a')
    ensures s == s' && a == a'
  {
    hide Quote, EscapeAll;
    if |EscapeAll(a)| <= |EscapeAll(a')| {
      SameLastArg(s, a, s', a');
    } else {
      SameLastArg(s', a', s, a);
    }
    EscapeInjective(a, a');
  }

  lemma {:induction false} TakeLast(args: seq<string>, args': seq<string>)
    requires 0 < |args'| <= |args| && args[|args| - 1] == args'[|args'| - 1]
    requires args'[..|args'| - 1] == args[..|args| - 1][|args| - |args'|..]
    ensures args' == args[|args| - |args'|..] && args[..|args| - 1][..|args| - |args'|] == args[..|args| - |args'|]
  {
    var k := |args| - |args'|;
    assert args[k..] == args[..|args| - 1][k..] + [args[|args| - 1]];
  }

  lemma {:induction false} SomethingQuoted(args: seq<string>)
    requires args != []
    ensures QuoteArgs(args) != ""
  {
  }

  lemma {:induction false} LastQuoted(args: seq<string>)
    requires args != []
    ensures QuoteArgs(args) == QuoteArgs(args[..|args| - 1]) + " " + Quote(args[|args| - 1])
  {
  }

  lemma {:induction false} QuoteArgsConcat(a: seq<string>, b: seq<string>)
    ensures QuoteArgs(a + b) == QuoteArgs(a) + QuoteArgs(b)
    decreases |b|
  {
    hide QuoteArgs, Quote;
    if b == [] {
      NoArgs();
      assert a + b == a;
    } else {
      LastQuoted(a + b);
      LastQuoted(b);
      QuoteArgsConcat(a, b[..|b| - 1]);
      assert (a + b)[..|a + b| - 1] == a + b[..|b| - 1];
      var front, last := QuoteArgs(b[..|b| - 1]), Quote(b[|b| - 1]);
      assert (QuoteArgs(a) + front) + " " + last == QuoteArgs(a) + (front + " " + last);
    }
  }

  lemma {:induction false} CmdLineIs(exe: string, argv: seq<string>)
    ensures argv == [] ==> CmdLineText(exe, argv) == exe
    ensures argv != [] ==> CmdLineText(exe, argv) == exe + QuoteArgs(argv[1..]) + [NUL]
  {
  }

  /** The longer path is the shorter one with some quoted arguments behind it, and they are
      arguments of the shorter one, ahead of the others. */
  ghost predicate TakesArgs(exe: string, args: seq<string>, shorter: string, args': seq<string>) {
    |args| <= |args'| && var k := |args'| - |args|; exe == shorter + QuoteArgs(args'[..k]) && args == args'[k..]
  }

  /** Two command lines read the same if and only if one path takes arguments of the other. */
  lemma {:induction false} LookTheSameIff(exe: string, argv: seq<string>, exe': string, argv': seq<string>)
    requires argv != [] && argv' != [] && |exe'| <= |exe|
    ensures CmdLineText(exe, argv) == CmdLineText(exe', argv') <==> TakesArgs(exe, argv[1..], exe', argv'[1..])
  {
    hide QuoteArgs, CmdLineText;
    var args, args' := argv[1..], argv'[1..];
    CmdLineIs(exe, argv);
    CmdLineIs(exe', argv');
    if CmdLineText(exe, argv) == CmdLineText(exe', argv') {
      var t := exe + QuoteArgs(args);
      assert t == (t + [NUL])[..|t|] && exe' + QuoteArgs(args') == (t + [NUL])[..|t|];
      var x := exe[|exe'|..];
      assert exe' == t[..|exe'|] == exe[..|exe'|] && exe == exe' + x;
      assert QuoteArgs(args') == t[|exe'|..] == x + QuoteArgs(args);
      EndOfArgs(args', x, args);
    }
    if TakesArgs(exe, args, exe', args') {
      var k := |args'| - |args|;
      QuoteArgsConcat(args'[..k], args);
      assert args' == args'[..k] + args;
      assert exe' + (QuoteArgs(args'[..k]) + QuoteArgs(args)) == exe + QuoteArgs(args);
    }
  }

  /** The path ends in something that reads as quoted arguments. */
  predicate EndsInArgs(exe: string) {
    exists k | 0 <= k < |exe| :: ReadsAsArgs(exe[k..])
  }

  predicate ReadsAsArgs(s: string) {
    var args := Decode(s + [NUL]);
    args.Some? && QuoteArgs(args.value) == s
  }

  lemma {:induction false} ReadsAsArgsIff(s: string)
    ensures ReadsAsArgs(s) <==> exists args :: QuoteArgs(args) == s
  {
    if args :| QuoteArgs(args) == s {
      DecodeInverts(args);
    }
  }

  /** No program with a shorter path, whatever its arguments, reads the same. */
  ghost predicate ToldFromShorter(exe: string, argv: seq<string>) {
    forall exe', argv' | argv' != [] && |exe'| < |exe| :: CmdLineText(exe', argv') != CmdLineText(exe, argv)
  }

  /** The text tells a program from all those with shorter paths if and only if its path does
      not end in quoted arguments. */
  lemma {:induction false} TextDeterminesProgramIff(exe: string, argv: seq<string>)
    requires argv != []
    ensures ToldFromShorter(exe, argv) <==> !EndsInArgs(exe)
  {
    hide CmdLineText, QuoteArgs, ReadsAsArgs;
    var args := argv[1..];
    if EndsInArgs(exe) {
      var k :| 0 <= k < |exe| && ReadsAsArgs(exe[k..]);
      ReadsAsArgsIff(exe[k..]);
      var more :| QuoteArgs(more) == exe[k..];
      var argv' := [argv[0]] + (more + args);
      assert argv'[1..] == more + args && (more + args)[..|more|] == more && (more + args)[|more|..] == args;
      assert exe == exe[..k] + exe[k..];
      LookTheSameIff(exe, argv, exe[..k], argv');
    } else {
      forall exe', argv' | argv' != [] && |exe'| < |exe| ensures CmdLineText(exe', argv') != CmdLineText(exe, argv) {
        LookTheSameIff(exe, argv, exe', argv');
        if TakesArgs(exe, args, exe', argv'[1..]) {
          var k := |argv'[1..]| - |args|;
          assert exe[|exe'|..] == QuoteArgs(argv'[1..][..k]);
          ReadsAsArgsIff(exe[|exe'|..]);
        }
      }
    }
  }

  /** For paths that do not end in quoted arguments, the text determines path and arguments. */
  lemma {:induction false} CmdLineDeterminesAll(exe: string, argv: seq<string>, exe': string, argv': seq<string>)
    requires CmdLineText(exe, argv) == CmdLineText(exe', argv') && argv != [] && argv' != []
    requires !EndsInArgs(exe) && !EndsInArgs(exe')
    ensures exe == exe' && argv[1..] == argv'[1..]
  {
    hide CmdLineText, EndsInArgs;
    TextDeterminesProgramIff(exe, argv);
    TextDeterminesProgramIff(exe', argv');
    if |exe| == |exe'| {
      LookTheSameIff(exe, argv, exe', argv');
      SameLengthSameArgs(exe, argv[1..], exe', argv'[1..]);
    }
  }

  lemma {:induction false} SameLengthSameArgs(exe: string, args: seq<string>, exe': string, args': seq<string>)
    requires TakesArgs(exe, args, exe', args') && |exe| == |exe'|
    ensures exe == exe' && args == args'
  {
    var k := |args'| - |args|;
    if k > 0 {
      SomethingQuoted(args'[..k]);
    }
  }

  /** A path without a quote does not end in quoted arguments; nor do some with one. */
  lemma {:induction false} QuotesThatDoNotMislead(exe: string)
    requires '"' !in exe || (exe != "" && exe[|exe| - 1] != '"')
    ensures !EndsInArgs(exe)
  {
    forall k | 0 <= k < |exe| ensures !ReadsAsArgs(exe[k..]) {
      var s := exe[k..];
      assert s[|s| - 1] == exe[|exe| - 1] && exe[|exe| - 1] in exe;
      EndsInQuote(Decode(s + [NUL]), s);
    }
  }

  lemma {:induction false} EndsInQuote(args: Option<seq<string>>, s: string)
    requires s != ""
    ensures args.Some? && QuoteArgs(args.value) == s ==> s[|s| - 1] == '"'
  {
  }

  lemma {:induction false} EnvLooksLikeArgs(env: seq<string>)
    requires env != []
    ensures QuoteArgs(env) == " " + QuoteEnv(env) && QuoteEnv(env) != ""
    decreases |env|
  {
    hide Quote;
    var last := |env| - 1;
    if last == 0 {
      assert env[..0] == [];
      assert QuoteArgs(env) == "" + " " + Quote(env[0]) && QuoteEnv(env) == "" + "" + Quote(env[0]);
      assert Quote(env[0]) != "" by { QuoteIsSomething(env[0]); }
    } else {
      EnvLooksLikeArgs(env[..last]);
      var front := QuoteEnv(env[..last]);
      assert QuoteArgs(env) == (" " + front) + " " + Quote(env[last]);
      assert QuoteEnv(env) == front + " " + Quote(env[last]);
    }
  }

  lemma {:induction false} QuoteIsSomething(s: string)
    ensures Quote(s) != ""
  {
  }

  /** The text determines the environment. */
  lemma {:induction false} EnvTextDeterminesEnv(env: seq<string>, env': seq<string>)
    requires EnvText(env) == EnvText(env')
    ensures env == env'
  {
    var a, b := (if env == [] then "" else " ") + EnvText(env), (if env' == [] then "" else " ") + EnvText(env');
    DecodeInverts(env);
    DecodeInverts(env');
    if env != [] {
      EnvLooksLikeArgs(env);
      assert a == QuoteArgs(env) + [NUL];
      assert |EnvText(env)| > 1;
    }
    if env' != [] {
      EnvLooksLikeArgs(env');
      assert b == QuoteArgs(env') + [NUL];
      assert |EnvText(env')| > 1;
    }
    assert env == [] ==> EnvText(env) == [NUL];
    assert env' == [] ==> EnvText(env') == [NUL];
  }

  // ---------- the buffer ----------

  class Str {
    const buffer: array<char>
    var size: nat

    ghost predicate Valid()
      reads this
    {
      size <= buffer.Length
    }

    ghost function Contents(): string
      reads this, buffer
      requires Valid()
    {
      buffer[..size]
    }

    constructor (capacity: nat)
      ensures Valid() && fresh(buffer) && buffer.Length == capacity && Contents() == ""
    {
      buffer := new char[capacity];
      size := 0;
    }

    /** `gh_str_appendchar` */
    method AppendChar(c: char) returns (ok: bool)
      requires Valid()
      modifies this, buffer
      ensures Valid() && (ok <==> old(size) < buffer.Length)
      ensures Contents() == if ok then old(Contents()) + [c] else old(Contents())
    {
      if buffer.Length - size < 1 {
        return false;
      }
      buffer[size] := c;
      size := size + 1;
      return true;
    }

    /** `gh_str_appendc`: what does not fit is cut off, or nothing is appended at all. */
    method Append(s: string, allowTrunc: bool) returns (ok: bool)
      requires Valid() && NUL !in s
      modifies this, buffer
      ensures Valid() && (ok <==> old(size) + |s| <= buffer.Length)
      ensures Contents() == old(Contents()) + if ok then s else if allowTrunc
              then s[..buffer.Length - old(size)] else ""
    {
      var count := |s|;
      var trunc := false;
      if buffer.Length - size < count {
        count := buffer.Length - size;
        if allowTrunc {
          trunc := true;
        } else {
          assert Contents() + "" == Contents();
          return false;
        }
      }
      forall k | 0 <= k < count {
        buffer[size + k] := s[k];
      }
      size := size + count;
      return !trunc;
    }

    /** One round of the loop of `append_escaped`. */
    method AppendEscape(c: char) returns (ok: bool)
      requires Valid() && c != NUL
      modifies this, buffer
      ensures Valid() && (ok <==> old(size) + |Escape(c)| <= buffer.Length)
      ensures ok ==> Contents() == old(Contents()) + Escape(c)
    {
      if c == '\\' || c == '"' || c == '\n' || c == '\t' {
        ok := Append(Escape(c), false);
      } else {
        ok := AppendChar(c);
      }
    }

    /** `append_escaped` */
    method AppendEscaped(s: string) returns (ok: bool)
      requires Valid() && NUL !in s
      modifies this, buffer
      ensures Valid() && (ok <==> old(size) + |EscapeAll(s)| <= buffer.Length)
      ensures ok ==> Contents() == old(Contents()) + EscapeAll(s)
    {
      hide Escape, EscapeAll;
      assert EscapeAll("") == "" by { NothingEscaped(); }
      var i := 0;
      while i < |s|
        invariant i <= |s| && Valid() && Contents() == old(Contents()) + EscapeAll(s[..i])
      {
        EscapeAllStep(s, i);
        EscapedPrefix(s, i + 1);
        ok := AppendEscape(s[i]);
        if !ok {
          return false;
        }
        i := i + 1;
      }
      assert s[..i] == s;
      return true;
    }

    /** The escaped string and the closing quote. */
    method AppendToQuote(s: string) returns (ok: bool)
      requires Valid() && NUL !in s
      modifies this, buffer
      ensures Valid() && (ok <==> old(size) + |EscapeAll(s)| + 1 <= buffer.Length)
      ensures ok ==> Contents() == old(Contents()) + (EscapeAll(s) + "\"")
    {
      hide EscapeAll;
      ok := AppendEscaped(s);
      if !ok {
        return false;
      }
      ok := AppendChar('"');
    }

    /** One round of the loop of `permexec_buildcmdline`. */
    method AppendArg(s: string) returns (ok: bool)
      requires Valid() && NUL !in s
      modifies this, buffer
      ensures Valid() && (ok <==> old(size) + |" " + Quote(s)| <= buffer.Length)
      ensures ok ==> Contents() == old(Contents()) + (" " + Quote(s))
    {
      hide EscapeAll;
      ok := Append(" \"", false);
      if !ok {
        return false;
      }
      ok := AppendToQuote(s);
      assert " \"" + (EscapeAll(s) + "\"") == " " + Quote(s);
    }
  }

  lemma {:induction false} NothingEscaped()
    ensures EscapeAll("") == ""
  {
  }

  lemma {:induction false} EscapeAllStep(s: string, i: nat)
    requires i < |s|
    ensures EscapeAll(s[..i + 1]) == EscapeAll(s[..i]) + Escape(s[i])
  {
    assert s[..i + 1][..i] == s[..i];
  }

  lemma {:induction false} EscapedPrefix(s: string, i: nat)
    requires i <= |s|
    ensures |EscapeAll(s[..i])| <= |EscapeAll(s)|
    decreases |s| - i
  {
    if i < |s| {
      EscapedPrefix(s, i + 1);
      assert s[..i + 1][..i] == s[..i];
    } else {
      assert s[..i] == s;
    }
  }

  lemma {:induction false} QuotedPrefix(args: seq<string>, i: nat)
    requires i <= |args|
    ensures |QuoteArgs(args[..i])| <= |QuoteArgs(args)| && |QuoteEnv(args[..i])| <= |QuoteEnv(args)|
    decreases |args| - i
  {
    if i < |args| {
      QuotedPrefix(args, i + 1);
      assert args[..i + 1][..i] == args[..i];
    } else {
      assert args[..i] == args;
    }
  }

  lemma {:induction false} NoArgs()
    ensures QuoteArgs([]) == "" && QuoteEnv([]) == ""
  {
  }

  lemma {:induction false} QuoteEnvStep(env: seq<string>, i: nat)
    requires i < |env|
    ensures QuoteEnv(env[..i + 1]) ==
            QuoteEnv(env[..i]) + (if i == 0 then "" else " ") + "\"" + (EscapeAll(env[i]) + "\"")
  {
    hide EscapeAll;
    assert env[..i + 1][..i] == env[..i];
    var front, inner := QuoteEnv(env[..i]) + (if i == 0 then "" else " "), EscapeAll(env[i]);
    assert front + ("\"" + inner + "\"") == front + "\"" + (inner + "\"");
  }

  lemma {:induction false} QuoteArgsStep(args: seq<string>, i: nat)
    requires i < |args|
    ensures QuoteArgs(args[..i + 1]) == QuoteArgs(args[..i]) + (" " + Quote(args[i]))
  {
    hide Quote;
    assert args[..i + 1][..i] == args[..i];
  }

  ghost predicate CStrings(args: seq<string>) {
    forall i | 0 <= i < |args| :: NUL !in args[i]
  }

  /** `permexec_buildcmdline`: succeeds exactly when the text fits. */
  method BuildCmdLine(str: Str, exe: string, argv: seq<string>) returns (ok: bool)
    requires str.Valid() && str.size == 0 && NUL !in exe && CStrings(argv)
    modifies str, str.buffer
    ensures str.Valid() && (ok <==> |CmdLineText(exe, argv)| <= str.buffer.Length)
    ensures ok ==> str.Contents() == CmdLineText(exe, argv)
  {
    hide Escape, EscapeAll, Quote, QuoteArgs, CmdLineText;
    assert QuoteArgs([]) == "" by { NoArgs(); }
    CmdLineIs(exe, argv);
    ok := str.Append(exe, false);
    if !ok {
      return false;
    }
    if argv == [] {
      return true;
    }
    var i := 1;
    ghost var args := argv[1..];
    while i < |argv|
      invariant 1 <= i <= |argv| && str.Valid() && str.Contents() == exe + QuoteArgs(args[..i - 1])
    {
      QuoteArgsStep(args, i - 1);
      QuotedPrefix(args, i);
      ok := str.AppendArg(argv[i]);
      if !ok {
        return false;
      }
      i := i + 1;
    }
    assert args[..i - 1] == args;
    ok := str.AppendChar(NUL);
  }

  /** `permexec_buildenv`: succeeds exactly when the text fits. */
  method BuildEnv(str: Str, env: seq<string>) returns (ok: bool)
    requires str.Valid() && str.size == 0 && CStrings(env)
    modifies str, str.buffer
    ensures str.Valid() && (ok <==> |EnvText(env)| <= str.buffer.Length)
    ensures ok ==> str.Contents() == EnvText(env)
  {
    hide Escape, EscapeAll, Quote, QuoteArgs, QuoteEnv;
    assert QuoteEnv([]) == "" by { NoArgs(); }
    var first := true;
    var i := 0;
    while i < |env|
      invariant i <= |env| && str.Valid() && str.Contents() == QuoteEnv(env[..i]) && (first <==> i == 0)
    {
      QuoteEnvStep(env, i);
      QuotedPrefix(env, i + 1);
      if !first {
        ok := str.AppendChar(' ');
        if !ok {
          return false;
        }
      }
      first := false;
      ok := str.AppendChar('"');
      if !ok {
        return false;
      }
      ok := str.AppendToQuote(env[i]);
      if !ok {
        return false;
      }
      i := i + 1;
    }
    assert env[..i] == env;
    ok := str.AppendChar(NUL);
  }
}
