/** The GHPERM parser as the program runs it (src/ghost/perms/parser.c). */
module GhpermParser {
  import opened Basics
  import opened GhpermLexer
  import opened PermFs
  import opened Ghperm
  import PermExec

  /** Result of asking for a token. */
  datatype Got = Got(token: Token) | AtEof | Fails(error: LexError)

  ghost function Head(ts: Stream): Got {
    match ts
    case End => AtEof
    case Broken(e) => Fails(e)
    case More(t, _) => Got(t)
  }

  ghost function Rest(ts: Stream): Stream {
    if ts.More? then ts.rest else ts
  }

  class Parser {
    const data: string
    const fs: Engine
    const exec: PermExec.HashList
    var idx: nat
    var peek: Option<Token>

    /** The tokens still to be handed out. */
    ghost function Pending(): Stream
      reads this
    {
      if peek.Some? then More(peek.value, Tokens(data, idx)) else Tokens(data, idx)
    }

    ghost function Now(): Store
      reads fs, exec
    {
      Store(fs.entries, exec.entries, exec.defaultMode)
    }

    constructor (data: string, fs: Engine, exec: PermExec.HashList)
      ensures this.data == data && this.fs == fs && this.exec == exec && Pending() == Lex(data)
    {
      this.data, this.fs, this.exec := data, fs, exec;
      idx, peek := 0, None;
      new;
      SkipWhitespace();
    }

    // ---------- characters ----------

    method NextCharacter() returns (c: char)
      modifies this`idx
      ensures Scan(c, idx) == NextChar(data, old(idx))
      decreases |data| - idx
    {
      if idx >= |data| {
        return NUL;
      }
      idx := idx + 1;
      c := CharAt(data, idx);
      if c == '#' {
        while c != '\n' && c != NUL
          invariant old(idx) < idx <= |data|
          invariant SkipComment(data, c, idx) == SkipComment(data, '#', old(idx) + 1)
          decreases |data| - idx, if EndsComment(c) then 0 else 1
        {
          c := NextCharacter();
        }
        var skipped := NextCharacter();
      }
    }

    method SkipWhitespace()
      modifies this`idx
      ensures idx == SkipSpace(data, old(idx))
    {
      var c := CharAt(data, idx);
      while IsSpace(c)
        invariant SkipSpaceFrom(data, c, idx) == SkipSpace(data, old(idx))
        decreases |data| - idx, if IsSpace(c) then 1 else 0
      {
        c := NextCharacter();
      }
    }

    // ---------- tokens ----------

    method ReadIdentifier() returns (token: Token)
      modifies this`idx
      ensures Lexed(token, idx) == ReadWordFrom(data, CharAt(data, old(idx)), old(idx), "")
    {
      var c := CharAt(data, idx);
      var text := "";
      while IsWordChar(c)
        invariant ReadWordFrom(data, c, idx, text) == ReadWordFrom(data, CharAt(data, old(idx)), old(idx), "")
        decreases |data| - idx, if IsWordChar(c) then 1 else 0
      {
        text := text + [c];
        c := NextCharacter();
      }
      return Identifier(text);
    }

    method ReadString() returns (got: Got)
      modifies this`idx
      ensures var n := NextChar(data, old(idx));
              match ReadTextFrom(data, n.c, n.i, false, "")
              case Lexed(token, i) => got == Got(token) && idx == i
              case Bad(error, _) => got == Fails(error)
              case AtEnd => false
    {
      var c := NextCharacter();
      var text := "";
      var escape := false;
      ghost var whole := ReadTextFrom(data, c, idx, false, "");
      while c != NUL
        invariant ReadTextFrom(data, c, idx, escape, text) == whole
        decreases |data| - idx, if c == NUL then 0 else if escape then 1 else 2
      {
        if escape {
          text := text + [c];
        } else {
          if c == '\\' {
            escape := true;
            continue;
          }
          if c == '"' {
            break;
          }
          text := text + [c];
        }
        c := NextCharacter();
      }
      if c == NUL {
        return Fails(UnterminatedString);
      }
      var skipped := NextCharacter();
      return Got(Text(text));
    }

    /** Hands out the first pending token, and consumes input for every token that was
        not peeked at. */
    method NextToken() returns (got: Got)
      modifies this`idx, this`peek
      ensures got == Head(old(Pending()))
      ensures !got.Fails? ==> Pending() == Rest(old(Pending())) && peek.None?
      ensures got.Got? && old(peek).None? ==> old(idx) < idx <= |data|
    {
      if peek.Some? {
        got := Got(peek.value);
        peek := None;
        return;
      }
      var c := CharAt(data, idx);
      if c == NUL {
        got := AtEof;
        NothingLeft(data, idx);
      } else if c == '{' {
        var skipped := NextCharacter();
        got := Got(LBrace);
      } else if c == '}' {
        var skipped := NextCharacter();
        got := Got(RBrace);
      } else if c == '"' {
        got := ReadString();
      } else if IsWordChar(c) {
        var token := ReadIdentifier();
        got := Got(token);
      } else {
        return Fails(UnexpectedToken);
      }
      SkipWhitespace();
    }

    /** Looking ahead changes nothing of what is pending. */
    method PeekToken() returns (got: Got)
      modifies this`idx, this`peek
      ensures got == Head(old(Pending()))
      ensures !got.Fails? ==> Pending() == old(Pending())
    {
      if peek.None? {
        got := NextToken();
        if got.Got? {
          peek := Some(got.token);
        }
        return;
      }
      return Got(peek.value);
    }

    /** `gh_permparser_nextidentifier` and `gh_permparser_nextstring` */
    method NextOfKind(identifier: bool) returns (got: Got, found: bool)
      modifies this`idx, this`peek
      ensures got == Head(old(Pending())) && (found <==>
              got.Got? && if identifier then got.token.Identifier? else got.token.Text?)
      ensures !got.Fails? ==> Pending() == if found then Rest(old(Pending())) else old(Pending())
    {
      got := PeekToken();
      found := got.Got? && if identifier then got.token.Identifier? else got.token.Text?;
      if found {
        got := NextToken();
      }
    }

    // ---------- resources ----------

    /** The outcome a spec result describes: its status and store, and what is left to read
        when the status is good. */
    ghost predicate Ends(status: ParseStatus, r: Parsed)
      reads this, fs, exec
    {
      status == r.status && Now() == r.store && (status == Good ==> Pending() == r.rest)
    }

    /** The loop of `permfsparser_setfield` */
    method ReadFlags(index: nat, scope: Scope, verdict: Verdict) returns (status: ParseStatus)
      requires index < |fs.entries|
      modifies this`idx, this`peek, fs
      ensures Ends(status, ParseFlags(old(Pending()), old(Now()), index, scope, verdict))
    {
      ghost var r := ParseFlags(Pending(), Now(), index, scope, verdict);
      while true
        invariant index < |fs.entries| && ParseFlags(Pending(), Now(), index, scope, verdict) == r
        decreases Pending()
      {
        var got, found := NextOfKind(false);
        if got.Fails? {
          return Lexical(got.error);
        }
        if !found {
          return Good;
        }
        var flag := FlagOf(got.token.text);
        if flag.None? {
          return ResourceError;
        }
        fs.entries := fs.entries[index := SetField(fs.entries[index], scope, verdict, {flag.value})];
      }
    }

    method ReadFsField(index: nat, field: string) returns (status: ParseStatus)
      requires index < |fs.entries|
      modifies this`idx, this`peek, fs
      ensures Ends(status, ParseFsField(old(Pending()), old(Now()), index, field))
    {
      if field != "self" && field != "children" {
        return UnknownField;
      }
      var scope := if field == "self" then Self else Children;
      var got, found := NextOfKind(true);
      if got.Fails? {
        return Lexical(got.error);
      }
      if !found {
        return ExpectedIdentifier;
      }
      var verdict := VerdictOf(got.token.text);
      if verdict.None? {
        return ResourceError;
      }
      status := ReadFlags(index, scope, verdict.value);
    }

    method ReadExecField(index: nat, field: string) returns (status: ParseStatus)
      requires index < |exec.entries|
      modifies this`idx, this`peek, exec`entries
      ensures Ends(status, ParseExecField(old(Pending()), old(Now()), index, field))
    {
      if field != "mode" {
        return UnknownField;
      }
      var got, found := NextOfKind(true);
      if got.Fails? {
        return Lexical(got.error);
      }
      if !found {
        return ExpectedIdentifier;
      }
      var verdict := VerdictOf(got.token.text);
      if verdict.None? {
        return ResourceError;
      }
      exec.entries := exec.entries[index := exec.entries[index].(mode := ExecModeOf(verdict.value))];
      return Good;
    }

    method ReadFields(resource: Resource, index: nat) returns (status: ParseStatus)
      requires Indexes(resource, Now(), index)
      modifies this`idx, this`peek, fs, exec`entries
      ensures Ends(status, ParseFields(resource, old(Pending()), old(Now()), index))
    {
      ghost var r := ParseFields(resource, Pending(), Now(), index);
      var got := NextToken();
      if got.Fails? {
        return Lexical(got.error);
      }
      while got.Got? && got.token != RBrace
        invariant !got.Fails? && Indexes(resource, Now(), index)
        invariant got.Got? ==> ParseFields(resource, More(got.token, Pending()), Now(), index) == r
        invariant got.AtEof? ==> r == Parsed(ExpectedEntryEnd, Now(), End)
        decreases Length(Pending()), if got.Got? then 1 else 0
      {
        if !got.token.Identifier? {
          return ExpectedField;
        }
        var field := got.token.text;
        if |field| >= ID_MAX {
          return LargeField;
        }
        match resource {
          case Filesystem => status := ReadFsField(index, field);
          case Exec => status := ReadExecField(index, field);
        }
        if status != Good {
          return;
        }
        got := NextToken();
        if got.Fails? {
          return Lexical(got.error);
        }
      }
      if got.AtEof? {
        return ExpectedEntryEnd;
      }
      return Good;
    }

    /** The `newentry` callbacks */
    method NewEntry(resource: Resource, key: string) returns (ok: bool, index: nat)
      modifies fs, exec`entries
      ensures match OpenEntry(resource, old(Now()), key)
              case Entered(store, i) => ok && index == i && Now() == store
              case NoHash => !ok && Now() == old(Now())
    {
      match resource
      case Filesystem =>
        index := fs.Add(key, EMPTY, EMPTY);
        return true, index;
      case Exec =>
        var hash := ReadHash(key);
        if hash.None? {
          return false, 0;
        }
        exec.entries := exec.entries + [ExecEntry(exec.defaultMode, hash.value)];
        return true, |exec.entries| - 1;
    }

    /** The entries of a resource. */
    method ReadEntries(resource: Resource) returns (status: ParseStatus)
      modifies this`idx, this`peek, fs, exec`entries
      ensures Ends(status, ParseEntries(resource, old(Pending()), old(Now())))
    {
      hide Pending, ParseFields, OpenEntry;
      ghost var r := ParseEntries(resource, Pending(), Now());
      while true
        invariant ParseEntries(resource, Pending(), Now()) == r
        decreases Length(Pending())
      {
        ghost var before := Pending();
        var got := PeekToken();
        if got.Fails? {
          return Lexical(got.error);
        }
        if got == Got(RBrace) {
          break;
        }
        got := NextToken();  // the token peeked at: this cannot fail
        if !got.Got? || !got.token.Text? {
          return ExpectedEntry;
        }
        var ok, index := NewEntry(resource, got.token.text);
        if !ok {
          return NotHash;
        }
        got := NextToken();
        if got.Fails? {
          return Lexical(got.error);
        }
        if got != Got(LBrace) {
          return ExpectedEntryBegin;
        }
        assert before.rest == More(LBrace, Pending());
        assert Length(before) == 1 + Length(before.rest) && Length(before.rest) == 1 + Length(Pending());
        status := ReadFields(resource, index);
        if status != Good {
          return;
        }
      }
      var closing := NextToken();
      return Good;
    }

    /** `permparser_parsenextresource` */
    method ReadResource() returns (eof: bool, status: ParseStatus)
      modifies this`idx, this`peek, fs, exec`entries
      ensures eof <==> old(Pending()).End?
      ensures eof ==> status == Good && Now() == old(Now()) && Pending() == End
      ensures old(Pending()).Broken? ==> status == Lexical(old(Pending()).error) && Now() == old(Now())
      ensures old(Pending()).More? ==> Ends(status, ParseResource(old(Pending()), old(Now())))
    {
      eof := false;
      var got := NextToken();
      if got.Fails? {
        return false, Lexical(got.error);
      }
      if got.AtEof? {
        return true, Good;
      }
      if !got.token.Identifier? {
        return false, ExpectedGroupId;
      }
      var group := got.token.text;
      if |group| >= ID_MAX {
        return false, LargeGroupId;
      }
      got := NextToken();
      if got.Fails? {
        return false, Lexical(got.error);
      }
      if !got.Got? || !got.token.Identifier? {
        return false, ExpectedResourceId;
      }
      var name := got.token.text;
      if |name| >= ID_MAX {
        return false, LargeResourceId;
      }
      got := NextToken();
      if got.Fails? {
        return false, Lexical(got.error);
      }
      if got != Got(LBrace) {
        return false, ExpectedResourceBegin;
      }
      var resource := ResourceOf(group, name);
      if resource.None? {
        return false, UnknownResource;
      }
      status := ReadEntries(resource.value);
    }

    /** `gh_permparser_parse`, which ends on every text */
    method Parse() returns (status: ParseStatus)
      modifies this`idx, this`peek, fs, exec`entries
      ensures Ends(status, ParseAll(old(Pending()), old(Now())))
    {
      ghost var r := ParseAll(Pending(), Now());
      while true
        invariant ParseAll(Pending(), Now()) == r
        decreases Length(Pending())
      {
        var eof, status := ReadResource();
        if eof || status != Good {
          return status;
        }
      }
    }
  }

  lemma {:induction false} NothingLeft(data: string, i: nat)
    requires CharAt(data, i) == NUL
    ensures Tokens(data, i) == End && (i <= |data| ==> SkipSpace(data, i) == i)
  {
  }

  /** Loading a file through the parser. */
  method LoadFile(text: string, fs: Engine, exec: PermExec.HashList) returns (status: ParseStatus)
    modifies fs, exec`entries
    ensures var r := Load(text, Store(old(fs.entries), old(exec.entries), exec.defaultMode));
            status == r.status && Store(fs.entries, exec.entries, exec.defaultMode) == r.store
  {
    var parser := new Parser(text, fs, exec);
    status := parser.Parse();
  }
}
