/** Type names that stand for derived types, such as `int*`, `char[]` and
    `float[4]` (typesystem.c, lines 266-340; strings.c, lines 40-72). */
module TypeNames {
  import opened Basics
  import opened TypeTable

  const UINTMAX: nat := 0xFFFF_FFFF_FFFF_FFFF

  // ---------- trimming ----------

  function Count(s: string, c: char): (n: nat)
    ensures n <= |s|
  {
    if s == "" then 0 else Count(s[..|s| - 1], c) + if s[|s| - 1] == c then 1 else 0
  }

  /** `gh_str_trimrightchar`: drops as many characters as there are `c` anywhere in the string. */
  function TrimRightChar(s: string, c: char): (r: string)
    ensures r <= s
  {
    s[..|s| - Count(s, c)]
  }

  /** The loop of `gh_str_trimrightchar`, from the last character to the first. */
  method TrimRight(s: string, c: char) returns (r: string)
    ensures r == TrimRightChar(s, c)
  {
    var size := |s|;
    assert s[..|s|] == s;
    for i := 0 to |s|
      invariant size + Count(s, c) == |s| + Count(s[..|s| - i], c)
    {
      var j := |s| - i - 1;
      assert s[..j + 1][..j] == s[..j];
      if s[j] == c {
        size := size - 1;
      }
    }
    r := s[..size];
  }

  /** The string without the `c` at its end. */
  function TrimTrailing(s: string, c: char): (r: string)
    ensures r <= s
  {
    if s != "" && s[|s| - 1] == c then TrimTrailing(s[..|s| - 1], c) else s
  }

  /** Behind a `c` there are only further `c`. */
  predicate OnlyTrailing(s: string, c: char) {
    forall i | 0 <= i < |s| - 1 :: s[i] == c ==> s[i + 1] == c
  }

  lemma {:induction false} CountZero(s: string, c: char)
    ensures Count(s, c) == 0 <==> c !in s
  {
    if s != "" {
      CountZero(s[..|s| - 1], c);
      assert s == s[..|s| - 1] + [s[|s| - 1]];
    }
  }

  lemma {:induction false} TrimCounts(s: string, c: char)
    ensures Count(s, c) == |s| - |TrimTrailing(s, c)| + Count(TrimTrailing(s, c), c)
  {
    if s != "" && s[|s| - 1] == c {
      TrimCounts(s[..|s| - 1], c);
    }
  }

  lemma {:induction false} OnlyTrailingRuns(s: string, c: char, i: nat, j: nat)
    requires OnlyTrailing(s, c) && i <= j < |s| && s[i] == c
    ensures s[j] == c
    decreases j - i
  {
    if i < j {
      OnlyTrailingRuns(s, c, i + 1, j);
    }
  }

  lemma {:induction false} TrimmedEnd(s: string, c: char)
    ensures var t := TrimTrailing(s, c); t != "" ==> t[|t| - 1] != c
    ensures forall i | |TrimTrailing(s, c)| <= i < |s| :: s[i] == c
  {
    if s != "" && s[|s| - 1] == c {
      TrimmedEnd(s[..|s| - 1], c);
    }
  }

  /** Trimming removes exactly the trailing characters if and only if none stands
      before another character. */
  lemma {:induction false} TrimRightIsTrailingIffNoneInside(s: string, c: char)
    ensures TrimRightChar(s, c) == TrimTrailing(s, c) <==> OnlyTrailing(s, c)
  {
    var t := TrimTrailing(s, c);
    TrimCounts(s, c);
    CountZero(t, c);
    TrimmedEnd(s, c);
    assert TrimRightChar(s, c) == t <==> c !in t;
    if OnlyTrailing(s, c) && c in t {
      var i :| 0 <= i < |t| && t[i] == c;
      OnlyTrailingRuns(s, c, i, |t| - 1);
      assert false;
    }
    if c !in t {
      forall i | 0 <= i < |s| - 1 && s[i] == c ensures s[i + 1] == c {
        assert s[..|t|] == t;
      }
    }
  }

  /** A space inside a name eats the end of it. */
  lemma {:induction false} InnerSpaceEatsTheName()
    ensures TrimRightChar("unsigned int", ' ') == "unsigned in"
  {
    var s := "unsigned int";
    assert s[..11] == "unsigned in" && s[..10] == "unsigned i" && s[..9] == "unsigned ";
    CountZero("unsigned", ' ');
    assert s[..9][..8] == "unsigned";
    assert Count(s[..9], ' ') == 1;
    assert s[..10][..9] == s[..9] && s[..11][..10] == s[..10];
    assert Count(s[..10], ' ') == 1;
    assert Count(s[..11], ' ') == 1;
    assert Count(s, ' ') == 1;
  }

  // ---------- the length between brackets ----------

  predicate IsSpace(c: char) {
    c == ' ' || c == '\t' || c == '\n' || c == '\r' || c as int == 11 || c as int == 12
  }

  predicate IsDigit(c: char) {
    '0' <= c <= '9'
  }

  function Decimal(s: string, value: nat): nat {
    if s == "" || !IsDigit(s[0]) then value else Decimal(s[1..], 10 * value + (s[0] as int - '0' as int))
  }

  /** `strtoumax` in base ten; none if the number is out of range. */
  function ParseLength(s: string): Option<nat> {
    if s != "" && IsSpace(s[0]) then ParseLength(s[1..])
    else
      var negative := s != "" && s[0] == '-';
      var value := Decimal(if s != "" && (s[0] == '-' || s[0] == '+') then s[1..] else s, 0);
      if value > UINTMAX then None
      else Some(if negative && value > 0 then UINTMAX + 1 - value else value)
  }

  // ---------- derivation ----------

  /** Position of the last `c`. */
  function RPos(s: string, c: char): (r: Option<nat>)
    ensures r.Some? ==> r.value < |s| && s[r.value] == c && c !in s[r.value + 1..]
    ensures r.None? ==> c !in s
  {
    if s == "" then None
    else if s[|s| - 1] == c then Some(|s| - 1)
    else
      var r := RPos(s[..|s| - 1], c);
      assert s == s[..|s| - 1] + [s[|s| - 1]];
      assert r.Some? ==> s[r.value + 1..] == s[..|s| - 1][r.value + 1..] + [s[|s| - 1]];
      r
  }

  predicate EndsWith(s: string, suffix: string) {
    |suffix| <= |s| && s[|s| - |suffix|..] == suffix
  }

  /** The first `n` characters, trimmed. */
  function Stem(name: string, n: nat): (r: string)
    requires n <= |name|
    ensures r <= name && |r| <= n
  {
    TrimRightChar(name[..n], ' ')
  }

  /** The kind a type name denotes by its suffix. */
  function Derive(name: string): (r: Option<Kind>)
    ensures r.Some? ==> r.value.Pointer? || r.value.ArrayPointer? || r.value.StaticArray?
    ensures r.Some? ==> r.value.element <= name && |r.value.element| < |name|
  {
    if EndsWith(name, "*") then Some(Pointer(Stem(name, |name| - 1)))
    else if EndsWith(name, "[]") then Some(ArrayPointer(Stem(name, |name| - 2)))
    else if EndsWith(name, "]") then
      var brace := RPos(name, '[');
      if brace.None? || brace.value + 1 >= |name| then None
      else
        var length := ParseLength(name[brace.value + 1..|name| - 1]);
        if length.None? then None
        else Some(StaticArray(length.value, Stem(name, brace.value)))
    else None
  }

  // ---------- from kinds to names and back ----------

  /** How a number is written. */
  function Digits(n: nat): (s: string)
    ensures s != "" && forall c | c in s :: IsDigit(c)
  {
    var last := [('0' as int + n % 10) as char];
    if n < 10 then last else Digits(n / 10) + last
  }

  predicate NoDigitFirst(s: string) {
    s == "" || !IsDigit(s[0])
  }

  lemma {:induction false} DecimalConcat(a: string, b: string, value: nat)
    requires forall c | c in a :: IsDigit(c)
    ensures Decimal(a + b, value) == Decimal(b, Decimal(a, value))
  {
    if a == "" {
      assert a + b == b;
    } else {
      assert IsDigit(a[0]) && (a + b)[1..] == a[1..] + b;
      DecimalConcat(a[1..], b, 10 * value + (a[0] as int - '0' as int));
    }
  }

  lemma {:induction false} DecimalOfDigits(n: nat, rest: string)
    requires NoDigitFirst(rest)
    ensures Decimal(Digits(n) + rest, 0) == n
  {
    var last := [('0' as int + n % 10) as char];
    assert last[1..] == "";
    DecimalConcat(Digits(n), rest, 0);
    if n < 10 {
      assert Decimal(last, 0) == Decimal(last[1..], n) == n;
    } else {
      DecimalOfDigits(n / 10, "");
      assert Digits(n / 10) + "" == Digits(n / 10);
      DecimalConcat(Digits(n / 10), last, 0);
      assert Decimal(last, n / 10) == Decimal(last[1..], n) == n;
    }
  }

  /** The length in brackets is the number at the start of what is in them, behind white space; what
      follows it does not matter, no number is zero, and a negative one wraps around. Only a number
      that is no machine word is refused. */
  lemma {:induction false} LengthIsTheNumber(blank: string, n: nat, rest: string)
    requires (forall c | c in blank :: IsSpace(c)) && NoDigitFirst(rest)
    ensures ParseLength(blank + Digits(n) + rest) == if n <= UINTMAX then Some(n) else None
    ensures ParseLength(blank + "+" + Digits(n) + rest) == if n <= UINTMAX then Some(n) else None
    ensures ParseLength(blank + "-" + Digits(n) + rest) ==
            if n > UINTMAX then None else if n == 0 then Some(0) else Some(UINTMAX + 1 - n)
    ensures rest == "" || (!IsSpace(rest[0]) && rest[0] != '-' && rest[0] != '+') ==>
              ParseLength(blank + rest) == Some(0)
  {
    hide ParseLength, Digits;
    var d := Digits(n) + rest;
    NumberIs(n, rest);
    BlanksSkipped(blank, d);
    BlanksSkipped(blank, "+" + d);
    BlanksSkipped(blank, "-" + d);
    BlanksSkipped(blank, rest);
    assert blank + Digits(n) + rest == blank + d;
    assert blank + "+" + Digits(n) + rest == blank + ("+" + d);
    assert blank + "-" + Digits(n) + rest == blank + ("-" + d);
  }

  lemma {:induction false} NumberIs(n: nat, rest: string)
    requires NoDigitFirst(rest)
    ensures var d := Digits(n) + rest;
            && ParseLength(d) == ParseLength("+" + d) == (if n <= UINTMAX then Some(n) else None)
            && ParseLength("-" + d) == if n > UINTMAX then None else if n == 0 then Some(0) else Some(UINTMAX + 1 - n)
    ensures rest == "" || (!IsSpace(rest[0]) && rest[0] != '-' && rest[0] != '+') ==> ParseLength(rest) == Some(0)
  {
    hide Digits;
    var d := Digits(n) + rest;
    assert d[0] == Digits(n)[0] && Digits(n)[0] in Digits(n);
    assert ("+" + d)[1..] == d && ("-" + d)[1..] == d;
    DecimalOfDigits(n, rest);
    hide Decimal;
  }

  lemma {:induction false} BlanksSkipped(blank: string, s: string)
    requires forall c | c in blank :: IsSpace(c)
    ensures ParseLength(blank + s) == ParseLength(s)
  {
    if blank == "" {
      assert blank + s == s;
    } else {
      assert IsSpace(blank[0]) && (blank + s)[1..] == blank[1..] + s;
      BlanksSkipped(blank[1..], s);
    }
  }

  lemma {:induction false} LastAt(a: string, c: char, b: string)
    requires c !in b
    ensures RPos(a + [c] + b, c) == Some(|a|)
  {
    if b == "" {
      assert a + [c] + b == a + [c];
    } else {
      var last := |b| - 1;
      assert (a + [c] + b)[..|a| + 1 + last] == a + [c] + b[..last];
      LastAt(a, c, b[..last]);
    }
  }

  /** A derived type is named after its element: `*` makes a pointer, `[]` an array pointer, and a
      number in brackets a static array of that length. Blanks before the suffix go, if there are
      none elsewhere in the name. */
  lemma {:induction false} DeriveMeans(e: string, n: nat)
    requires OnlyTrailing(e, ' ')
    ensures Derive(e + "*") == Some(Pointer(TrimTrailing(e, ' ')))
    ensures Derive(e + "[]") == Some(ArrayPointer(TrimTrailing(e, ' ')))
    ensures Derive(e + "[" + Digits(n) + "]") ==
            if n <= UINTMAX then Some(StaticArray(n, TrimTrailing(e, ' '))) else None
  {
    hide TrimRightChar, ParseLength, Digits;
    TrimRightIsTrailingIffNoneInside(e, ' ');
    PointerName(e);
    SliceName(e);
    LengthName(e, Digits(n));
    LengthIsTheNumber("", n, "");
    assert "" + Digits(n) + "" == Digits(n);
  }

  /** Its name tells what the type is. */
  ghost predicate NameTells(t: TsType) {
    forall e, n: nat | OnlyTrailing(e, ' ') ::
      var element := TrimTrailing(e, ' ');
      && (t.name == e + "*" ==> t.kind == Pointer(element))
      && (t.name == e + "[]" ==> t.kind == ArrayPointer(element))
      && (t.name == e + "[" + Digits(n) + "]" ==> n <= UINTMAX && t.kind == StaticArray(n, element))
  }

  lemma {:induction false} DerivedTells(t: TsType)
    requires Derive(t.name) == Some(t.kind)
    ensures NameTells(t)
  {
    forall e, n: nat | OnlyTrailing(e, ' ')
      ensures var element := TrimTrailing(e, ' ');
              && (t.name == e + "*" ==> t.kind == Pointer(element))
              && (t.name == e + "[]" ==> t.kind == ArrayPointer(element))
              && (t.name == e + "[" + Digits(n) + "]" ==> n <= UINTMAX && t.kind == StaticArray(n, element))
    {
      hide Derive, Digits, TrimTrailing;
      DeriveMeans(e, n);
    }
  }

  lemma {:induction false} PointerName(e: string)
    ensures Derive(e + "*") == Some(Pointer(TrimRightChar(e, ' ')))
  {
    hide TrimRightChar;
    var name := e + "*";
    assert name[..|name| - 1] == e && name[|e|..] == "*";
  }

  lemma {:induction false} SliceName(e: string)
    ensures Derive(e + "[]") == Some(ArrayPointer(TrimRightChar(e, ' ')))
  {
    hide TrimRightChar;
    var name := e + "[]";
    assert name[..|name| - 2] == e && name[|e|..] == "[]" && name[|name| - 1..][0] == ']';
  }

  /** Whatever is in the brackets, and it is not another one. */
  lemma {:induction false} LengthName(e: string, inside: string)
    requires inside != "" && '[' !in inside
    ensures var length := ParseLength(inside);
            Derive(e + "[" + inside + "]") ==
            if length.None? then None else Some(StaticArray(length.value, TrimRightChar(e, ' ')))
  {
    hide TrimRightChar, ParseLength, RPos, EndsWith;
    var name := e + "[" + inside + "]";
    assert name == e + ['['] + (inside + "]");
    LastAt(e, '[', inside + "]");
    BracketedEnds(e, inside);
    assert name[..|e|] == e && name[|e| + 1..|name| - 1] == inside;
  }

  lemma {:induction false} BracketedEnds(e: string, inside: string)
    requires inside != "" && '[' !in inside
    ensures var name := e + "[" + inside + "]";
            !EndsWith(name, "*") && !EndsWith(name, "[]") && EndsWith(name, "]")
  {
    var name := e + "[" + inside + "]";
    assert name[|name| - 1..] == "]" && name[|name| - 1..][0] == ']';
    assert name[|name| - 2] == inside[|inside| - 1];
    assert name[|name| - 2..][0] == name[|name| - 2] != '[';
  }

  /** No other name stands for a derived type. */
  lemma {:induction false} UnderivableIff(name: string)
    ensures Derive(name).None? <==>
            || name == "" || (name[|name| - 1] != '*' && name[|name| - 1] != ']')
            || (name[|name| - 1] == ']' && '[' !in name)
            || (exists e, inside :: Unsized(name, e, inside))
  {
    hide TrimRightChar, ParseLength;
    if name != "" && name[|name| - 1] == ']' && '[' in name {
      var brace := RPos(name, '[').value;
      var e, inside := name[..brace], name[brace + 1..|name| - 1];
      assert name == e + "[" + inside + "]";
      assert '[' !in inside by {
        assert forall c | c in inside :: c in name[brace + 1..];
      }
      if inside == "" {
        assert name == e + "[]";
        SliceName(e);
      } else {
        LengthName(e, inside);
      }
      forall e', inside' | Unsized(name, e', inside') ensures Derive(name).None? {
        LengthName(e', inside');
      }
      if Derive(name).None? {
        assert Unsized(name, e, inside);
      }
    } else if name != "" && name[|name| - 1] == '*' {
      assert name == name[..|name| - 1] + "*";
      PointerName(name[..|name| - 1]);
    } else {
      Unmarked(name);
    }
  }

  lemma {:induction false} Unmarked(name: string)
    requires name == "" || (name[|name| - 1] != '*' && (name[|name| - 1] != ']' || '[' !in name))
    ensures Derive(name).None?
    ensures forall e, inside :: !Unsized(name, e, inside)
  {
    hide TrimRightChar, ParseLength;
    if name != "" {
      assert name[|name| - 1..][0] == name[|name| - 1];
    }
    if |name| > 1 {
      assert name[|name| - 2..][0] == name[|name| - 2] && name[|name| - 2..][1] == name[|name| - 1];
    }
    forall e, inside ensures !Unsized(name, e, inside) {
      var whole := e + "[" + inside + "]";
      assert whole[|e|] == '[' && whole[|whole| - 1] == ']';
    }
  }

  /** What is in the last brackets is too large a number. */
  ghost predicate Unsized(name: string, e: string, inside: string) {
    name == e + "[" + inside + "]" && inside != "" && '[' !in inside && ParseLength(inside).None?
  }

  /** The names of the types a kind refers to. */
  function References(k: Kind): seq<string> {
    match k
    case StaticArray(_, element) => [element]
    case Struct(_, fields) => seq(|fields|, i requires 0 <= i < |fields| => fields[i].typeName)
    case TaggedUnion(_, cases) => seq(|cases|, i requires 0 <= i < |cases| => cases[i].typeName)
    case Pointer(element) => [element]
    case ArrayPointer(element) => [element]
    case _ => []
  }

  /** Taking suffixes off `name` leads to one of the names. */
  ghost predicate Derivable(names: set<string>, name: string)
    decreases |name|
  {
    name != "" && (name in names || (Derive(name).Some? && Derivable(names, Derive(name).value.element)))
  }

  lemma {:induction false} DerivableWithLonger(names: set<string>, longer: string, name: string)
    requires |name| < |longer|
    ensures Derivable(names + {longer}, name) <==> Derivable(names, name)
    decreases |name|
  {
    if Derive(name).Some? {
      DerivableWithLonger(names, longer, Derive(name).value.element);
    }
  }

  /** Names that are derivable already make nothing else derivable. */
  lemma {:induction false} DerivableClosure(names: set<string>, more: set<string>, name: string)
    requires names <= more && forall n | n in more :: Derivable(names, n)
    ensures Derivable(more, name) <==> Derivable(names, name)
    decreases |name|
  {
    if Derive(name).Some? {
      DerivableClosure(names, more, Derive(name).value.element);
    }
  }

  /** What becomes of making a name: the error is for the first stem that is empty, or stands for
      nothing. */
  ghost function Fate(names: set<string>, name: string): (r: Status)
    ensures r == Good <==> Derivable(names, name)
    ensures r == Good || r == EmptyName || r == MissingType
    decreases |name|
  {
    if name == "" then EmptyName
    else if name in names then Good
    else if Derive(name).None? then MissingType
    else Fate(names, Derive(name).value.element)
  }

  lemma {:induction false} FateWithLonger(names: set<string>, longer: string, name: string)
    requires |name| < |longer|
    ensures Fate(names + {longer}, name) == Fate(names, name)
    decreases |name|
  {
    if Derive(name).Some? {
      FateWithLonger(names, longer, Derive(name).value.element);
    }
  }

  lemma {:induction false} FateClosure(names: set<string>, more: set<string>, name: string)
    requires names <= more && forall n | n in more :: Derivable(names, n)
    ensures Fate(more, name) == Fate(names, name)
    decreases |name|
  {
    if name != "" && name !in more && Derive(name).Some? {
      FateClosure(names, more, Derive(name).value.element);
    }
  }

  /** The first of these names that cannot be made decides. */
  ghost function FateOfAll(names: set<string>, refs: seq<string>): (r: Status)
    ensures r == Good <==> forall n | n in refs :: Derivable(names, n)
  {
    if refs == [] then Good
    else
      assert refs[0] in refs && forall n | n in refs :: n == refs[0] || n in refs[1..];
      assert forall n | n in refs[1..] :: n in refs;
      var first := Fate(names, refs[0]);
      if first != Good then first else FateOfAll(names, refs[1..])
  }

  lemma {:induction false} FateOfAllClosure(names: set<string>, more: set<string>, refs: seq<string>)
    requires names <= more && forall n | n in more :: Derivable(names, n)
    ensures FateOfAll(more, refs) == FateOfAll(names, refs)
  {
    if refs != [] {
      FateClosure(names, more, refs[0]);
      FateOfAllClosure(names, more, refs[1..]);
    }
  }

  lemma {:induction false} FirstFate(names: set<string>, refs: seq<string>, i: nat)
    requires i < |refs| && Fate(names, refs[i]) != Good && forall j | 0 <= j < i :: Derivable(names, refs[j])
    ensures FateOfAll(names, refs) == Fate(names, refs[i])
  {
    if i > 0 {
      FirstFate(names, refs[1..], i - 1);
    }
  }

  /** All that the kinds of the types refer to, from the first type to the last. */
  ghost function FateOfTypes(names: set<string>, types: seq<TsType>): Status {
    if types == [] then Good
    else if types[0].kind.Invalid? then InvalidType
    else if FateOfAll(names, References(types[0].kind)) != Good then FateOfAll(names, References(types[0].kind))
    else FateOfTypes(names, types[1..])
  }

  lemma {:induction false} FirstType(names: set<string>, types: seq<TsType>, i: nat)
    requires i < |types|
    requires forall j | 0 <= j < i ::
               !types[j].kind.Invalid? && FateOfAll(names, References(types[j].kind)) == Good
    ensures FateOfTypes(names, types) ==
            var k := types[i].kind;
            if k.Invalid? then InvalidType
            else if FateOfAll(names, References(k)) != Good then FateOfAll(names, References(k))
            else FateOfTypes(names, types[i + 1..])
  {
    if i > 0 {
      FirstType(names, types[1..], i - 1);
      assert types[1..][i..] == types[i + 1..];
    }
  }

  lemma {:induction false} PrefixStep(p: string, s: string)
    requires s != ""
    ensures p <= s <==> p <= s[..|s| - 1] || p == s
  {
  }

  ghost function Prefixes(s: string): (r: set<string>)
    ensures forall p :: p in r <==> p <= s
  {
    if s == "" then {""}
    else
      var r := Prefixes(s[..|s| - 1]) + {s};
      assert forall p :: p in r <==> p <= s by {
        forall p: string ensures p in r <==> p <= s { PrefixStep(p, s); }
      }
      r
  }

  /** Every name that can be derived while making the types these refer to. */
  ghost function Universe(types: seq<TsType>): set<string> {
    set t, n, p | t in types && n in References(t.kind) && p in Prefixes(n) :: p
  }

  // ---------- in-place algorithms ----------

  /** `gh_str_rpos` */
  method FindLast(s: string, c: char) returns (r: Option<nat>)
    ensures r == RPos(s, c)
  {
    assert s[..|s|] == s;
    for i := 0 to |s|
      invariant RPos(s, c) == RPos(s[..|s| - i], c)
    {
      var j := |s| - i - 1;
      assert s[..j + 1][..j] == s[..j];
      if s[j] == c {
        return Some(j);
      }
    }
    return None;
  }

  /** The suffix analysis of `ts_makederivatives_fromtypename`. */
  method DeriveKind(name: string) returns (r: Option<Kind>)
    ensures r == Derive(name)
  {
    if EndsWith(name, "*") {
      var element := TrimRight(name[..|name| - 1], ' ');
      r := Some(Pointer(element));
    } else if EndsWith(name, "[]") {
      var element := TrimRight(name[..|name| - 2], ' ');
      r := Some(ArrayPointer(element));
    } else if EndsWith(name, "]") {
      var brace := FindLast(name, '[');
      if brace.None? || brace.value + 1 >= |name| {
        return None;
      }
      var length := ParseLength(name[brace.value + 1..|name| - 1]);
      if length.None? {
        return None;
      }
      var element := TrimRight(name[..brace.value], ' ');
      r := Some(StaticArray(length.value, element));
    } else {
      r := None;
    }
  }
}
