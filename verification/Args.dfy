/** Command arguments and the value grammar of the command line. */
module Args {
  import opened Wrappers
  import opened Json
  import opened Text
  import opened Tokenizer

  // ---------------------------------------------------------- command arguments

  datatype CommandArgs = CommandArgs(positionals: seq<string>, flags: map<string, string>)

  predicate IsQuoted(s: string) {
    |s| >= 2 && s[0] == '\"' && s[|s| - 1] == '\"'
  }

  function Unquoted(raw: string): string {
    var s := Trim(raw);
    if IsQuoted(s) then Unescaped(s[1..|s| - 1]) else s
  }

  /** Position of the first equals sign, or the length if there is none. */
  function EqualsSign(token: string): (i: nat)
    ensures i <= |token|
    ensures i < |token| ==> token[i] == '='
    ensures forall j :: 0 <= j < i ==> token[j] != '='
  {
    if token == "" || token[0] == '=' then 0 else 1 + EqualsSign(token[1..])
  }

  function FlagsOf(tokens: seq<string>, flags: map<string, string>): Result<map<string, string>, CliError>
    decreases |tokens|
  {
    if tokens == [] then Ok(flags)
    else
      var token := tokens[0];
      var i := EqualsSign(token);
      if i == |token| then Err(NotKeyValue(token))
      else if token[..i] in flags then Err(DuplicateFlag(token[..i]))
      else FlagsOf(tokens[1..], flags[token[..i] := token[i + 1..]])
  }

  function UnquotedAll(tokens: seq<string>): seq<string> {
    seq(|tokens|, i requires 0 <= i < |tokens| => Unquoted(tokens[i]))
  }

  function ParsedArgs(tokens: seq<string>, nPositional: nat): Result<CommandArgs, CliError> {
    if |tokens| < nPositional then Err(MissingPositionals(nPositional, |tokens|))
    else
      match FlagsOf(tokens[nPositional..], map[])
      case Err(error) => Err(error)
      case Ok(flags) => Ok(CommandArgs(UnquotedAll(tokens[..nPositional]), flags))
  }

  method ParseCommandArgs(tokens: seq<string>, nPositional: nat) returns (r: Result<CommandArgs, CliError>)
    ensures r == ParsedArgs(tokens, nPositional)
  {
    if |tokens| < nPositional {
      return Err(MissingPositionals(nPositional, |tokens|));
    }
    var positionals := [];
    for i := 0 to nPositional
      invariant positionals == UnquotedAll(tokens[..i])
    {
      positionals := positionals + [Unquoted(tokens[i])];
    }
    var flags := map[];
    var i := nPositional;
    assert FlagsOf(tokens[i..], flags) == FlagsOf(tokens[nPositional..], map[]);
    while i < |tokens|
      invariant nPositional <= i <= |tokens|
      invariant FlagsOf(tokens[i..], flags) == FlagsOf(tokens[nPositional..], map[])
    {
      var token := tokens[i];
      assert tokens[i..][1..] == tokens[i + 1..];
      var split := EqualsSign(token);
      if split == |token| {
        return Err(NotKeyValue(token));
      }
      if token[..split] in flags {
        return Err(DuplicateFlag(token[..split]));
      }
      flags := flags[token[..split] := token[split + 1..]];
      i := i + 1;
    }
    r := Ok(CommandArgs(positionals, flags));
  }

  // ------------------------------------------------ what the flags are read as

  /** What stands before the first equals sign, and what follows it. */
  function KeyOf(token: string): string {
    token[..EqualsSign(token)]
  }

  function RawOf(token: string): string
    requires '=' in token
  {
    token[EqualsSign(token) + 1..]
  }

  ghost predicate Earlier(tokens: seq<string>, n: nat, key: string)
    requires n <= |tokens|
  {
    exists j :: 0 <= j < n && KeyOf(tokens[j]) == key
  }

  /** The token at `i` is no flag, or one whose key an earlier token has. */
  ghost predicate Wrong(tokens: seq<string>, i: nat, error: CliError)
    requires i < |tokens|
  {
    if '=' !in tokens[i] then error == NotKeyValue(tokens[i])
    else Earlier(tokens, i, KeyOf(tokens[i])) && error == DuplicateFlag(KeyOf(tokens[i]))
  }

  ghost predicate Right(tokens: seq<string>, i: nat)
    requires i < |tokens|
  {
    '=' in tokens[i] && !Earlier(tokens, i, KeyOf(tokens[i]))
  }

  ghost predicate AllRight(tokens: seq<string>, n: nat)
    requires n <= |tokens|
  {
    forall i :: 0 <= i < n ==> Right(tokens, i)
  }

  ghost predicate FirstWrong(tokens: seq<string>, i: nat, error: CliError) {
    i < |tokens| && AllRight(tokens, i) && Wrong(tokens, i, error)
  }

  /** The keys of the first `n` tokens, and no others, stand for what follows them. */
  ghost predicate Collects(tokens: seq<string>, n: nat, flags: map<string, string>)
    requires n <= |tokens| && AllRight(tokens, n)
  {
    && (forall key :: key in flags <==> Earlier(tokens, n, key))
    && (forall i :: 0 <= i < n ==> Collected(tokens[i], flags))
  }

  ghost predicate Collected(token: string, flags: map<string, string>) {
    '=' in token && KeyOf(token) in flags && flags[KeyOf(token)] == RawOf(token)
  }

  lemma SignIffFound(token: string)
    ensures '=' in token <==> EqualsSign(token) < |token|
  {
  }

  lemma EarlierStep(tokens: seq<string>, i: nat, key: string)
    requires i < |tokens|
    ensures Earlier(tokens, i + 1, key) <==> Earlier(tokens, i, key) || KeyOf(tokens[i]) == key
  {
    assert KeyOf(tokens[i]) == key ==> Earlier(tokens, i + 1, key);
  }

  lemma CollectsOneMore(tokens: seq<string>, i: nat, flags: map<string, string>)
    requires i < |tokens| && AllRight(tokens, i) && Right(tokens, i) && Collects(tokens, i, flags)
    ensures Collects(tokens, i + 1, flags[KeyOf(tokens[i]) := RawOf(tokens[i])])
  {
    var more := flags[KeyOf(tokens[i]) := RawOf(tokens[i])];
    forall key ensures key in more <==> Earlier(tokens, i + 1, key) {
      EarlierStep(tokens, i, key);
    }
    forall j | 0 <= j < i + 1 ensures Collected(tokens[j], more) {
      if j < i {
        assert Collected(tokens[j], flags);
        assert Earlier(tokens, i, KeyOf(tokens[j]));
      }
    }
  }

  lemma FlagsStep(tokens: seq<string>, i: nat, seen: map<string, string>)
    requires i < |tokens|
    ensures FlagsOf(tokens[i..], seen) ==
            if '=' !in tokens[i] then Err(NotKeyValue(tokens[i]))
            else if KeyOf(tokens[i]) in seen then Err(DuplicateFlag(KeyOf(tokens[i])))
            else FlagsOf(tokens[i + 1..], seen[KeyOf(tokens[i]) := RawOf(tokens[i])])
  {
    assert tokens[i..][0] == tokens[i] && tokens[i..][1..] == tokens[i + 1..];
    SignIffFound(tokens[i]);
  }

  /** What the flags are read as: the error at the first wrong one, or all they spell. */
  ghost predicate ReadsAs(tokens: seq<string>, r: Result<map<string, string>, CliError>) {
    match r
    case Ok(flags) => AllRight(tokens, |tokens|) && Collects(tokens, |tokens|, flags)
    case Err(error) => exists k :: FirstWrong(tokens, k, error)
  }

  lemma {:induction false} FlagsFrom(tokens: seq<string>, i: nat, seen: map<string, string>)
    requires i <= |tokens| && AllRight(tokens, i) && Collects(tokens, i, seen)
    ensures ReadsAs(tokens, FlagsOf(tokens[i..], seen))
    decreases |tokens| - i
  {
    if i < |tokens| {
      FlagsStep(tokens, i, seen);
      if Right(tokens, i) {
        CollectsOneMore(tokens, i, seen);
        FlagsFrom(tokens, i + 1, seen[KeyOf(tokens[i]) := RawOf(tokens[i])]);
      } else {
        assert FirstWrong(tokens, i, FlagsOf(tokens[i..], seen).error);
      }
    } else {
      assert tokens[i..] == [];
    }
  }

  /** Parsing arguments fails exactly if there are too few of them, or else at the first one
      that is no flag or repeats a key, with that error; otherwise it yields the positionals,
      unquoted, and exactly the keys and raw values that the others spell. */
  lemma ParsedArgsIff(tokens: seq<string>, nPositional: nat)
    ensures var r := ParsedArgs(tokens, nPositional);
            if |tokens| < nPositional then r == Err(MissingPositionals(nPositional, |tokens|))
            else
              var rest := tokens[nPositional..];
              match r
              case Err(error) => ReadsAs(rest, Err(error))
              case Ok(args) =>
                && ReadsAs(rest, Ok(args.flags))
                && |args.positionals| == nPositional
                && forall i :: 0 <= i < nPositional ==> args.positionals[i] == Unquoted(tokens[i])
  {
    if nPositional <= |tokens| {
      var rest := tokens[nPositional..];
      assert rest[0..] == rest;
      FlagsFrom(rest, 0, map[]);
    }
  }

  // ------------------------------------------------------------------- values

  function DepthAfter(c: char, depth: int): int {
    if c == '[' then depth + 1 else if c == ']' then depth - 1 else depth
  }

  /** The substrings between commas outside brackets; `depth` may go negative. */
  function Split(s: string, depth: int): (parts: seq<string>)
    ensures parts != []
  {
    if s == "" then [""]
    else if s[0] == ',' && depth == 0 then [""] + Split(s[1..], depth)
    else
      var rest := Split(s[1..], DepthAfter(s[0], depth));
      [[s[0]] + rest[0]] + rest[1..]
  }

  lemma {:induction false} PartsFit(s: string, depth: int)
    ensures forall p :: p in Split(s, depth) ==> |p| <= |s|
  {
    if s != "" {
      PartsFit(s[1..], if s[0] == ',' && depth == 0 then depth else DepthAfter(s[0], depth));
    }
  }

  /** `prefix` put in front of the first part. */
  function OntoFirst(prefix: string, parts: seq<string>): seq<string>
    requires parts != []
  {
    [prefix + parts[0]] + parts[1..]
  }

  lemma SplitStep(part: string, rest: string, depth: int)
    requires rest != ""
    ensures OntoFirst(part, Split(rest, depth)) ==
            if rest[0] == ',' && depth == 0 then [part] + OntoFirst("", Split(rest[1..], depth))
            else OntoFirst(part + [rest[0]], Split(rest[1..], DepthAfter(rest[0], depth)))
  {
    var c, tail := rest[0], Split(rest[1..], DepthAfter(rest[0], depth));
    assert part + "" == part && "" + tail[0] == tail[0];
    assert part + ([c] + tail[0]) == part + [c] + tail[0];
  }

  /** `parts` are complete, the part begun at `start` is open, and the rest is to be split. */
  ghost predicate Splitting(s: string, parts: seq<string>, start: nat, i: nat, depth: int) {
    start <= i <= |s| && Split(s, 0) == parts + OntoFirst(s[start..i], Split(s[i..], depth))
  }

  lemma Regrouped<T>(a: seq<T>, x: T, b: seq<T>)
    ensures a + ([x] + b) == a + [x] + b
  {
  }

  lemma SplittingAdvances(s: string, parts: seq<string>, start: nat, i: nat, depth: int)
    requires Splitting(s, parts, start, i, depth) && i < |s|
    ensures if s[i] == ',' && depth == 0 then Splitting(s, parts + [s[start..i]], i + 1, i + 1, depth)
            else Splitting(s, parts, start, i + 1, DepthAfter(s[i], depth))
  {
    assert s[i..][1..] == s[i + 1..] && s[i..][0] == s[i];
    SplitStep(s[start..i], s[i..], depth);
    if s[i] == ',' && depth == 0 {
      assert s[i + 1..i + 1] == "";
      Regrouped(parts, s[start..i], OntoFirst("", Split(s[i + 1..], depth)));
    } else {
      SliceExtends(s, start, i);
    }
  }

  method SplitTopLevelCommas(s: string) returns (parts: seq<string>)
    ensures parts == Split(s, 0)
  {
    parts := [];
    var depth, start := 0, 0;
    assert s[0..] == s && "" + Split(s, 0)[0] == Split(s, 0)[0];
    for i := 0 to |s|
      invariant Splitting(s, parts, start, i, depth)
    {
      SplittingAdvances(s, parts, start, i, depth);
      var c := s[i];
      if c == '[' {
        depth := depth + 1;
      } else if c == ']' {
        depth := depth - 1;
      } else if c == ',' && depth == 0 {
        parts := parts + [s[start..i]];
        start := i + 1;
      }
    }
    assert s[start..|s|] + "" == s[start..];
    parts := parts + [s[start..]];
  }

  const I64_MIN := -0x8000_0000_0000_0000
  const I64_MAX := 0x7fff_ffff_ffff_ffff

  predicate IsDigit(c: char) { '0' <= c <= '9' }

  function Digits(s: string): Option<nat> {
    if s == "" then Some(0)
    else
      var front := Digits(s[..|s| - 1]);
      var c := s[|s| - 1];
      if front.Some? && IsDigit(c) then Some(10 * front.value + (c as int - '0' as int)) else None
  }

  /** A signed 64-bit decimal integer. */
  function ParsedInt(s: string): Option<int> {
    var signed := s != "" && (s[0] == '-' || s[0] == '+');
    var digits := if signed then s[1..] else s;
    if digits == "" || Digits(digits).None? then None
    else
      var n: int := if signed && s[0] == '-' then 0 - Digits(digits).value else Digits(digits).value as int;
      if I64_MIN <= n <= I64_MAX then Some(n) else None
  }

  /** No text starts with one bracket and ends with the other on a single character. */
  predicate IsBracketed(s: string) {
    |s| >= 2 && s[0] == '[' && s[|s| - 1] == ']'
  }

  /** How floating-point literals read, if they do: left to a parameter. */
  type Floats = string -> Option<Value>

  /** The value that `raw` stands for; there is always one. */
  function Parsed(raw: string, floats: Floats): Value
    decreases |raw|, 0
  {
    var s := Trim(raw);
    if s == "" || s == "\"\"" then Str("")
    else if IsQuoted(s) then Str(Unquoted(s))
    else if IsBracketed(s) then
      PartsFit(s[1..|s| - 1], 0);
      Array(ParsedItems(Split(s[1..|s| - 1], 0), |s| - 2, floats))
    else if ParsedInt(s).Some? then Int(ParsedInt(s).value)
    else if floats(s).Some? then floats(s).value
    else Str(s)
  }

  function ParsedItems(parts: seq<string>, limit: nat, floats: Floats): seq<Value>
    requires forall p :: p in parts ==> |p| <= limit
    decreases limit, 1 + |parts|
  {
    if parts == [] then []
    else
      var item := Trim(parts[0]);
      assert parts[0] in parts;
      (if item == "" then [] else [Parsed(item, floats)]) + ParsedItems(parts[1..], limit, floats)
  }

  method ParseValue(raw: string, floats: Floats) returns (v: Value)
    ensures v == Parsed(raw, floats)
    decreases |raw|, 0
  {
    var s := Trim(raw);
    if s == "" || s == "\"\"" {
      return Str("");
    }
    if IsQuoted(s) {
      return Str(Unquoted(s));
    }
    if IsBracketed(s) {
      var parts := SplitTopLevelCommas(s[1..|s| - 1]);
      PartsFit(s[1..|s| - 1], 0);
      var values := ParseItems(parts, |s| - 2, floats);
      return Array(values);
    }
    var i := ParsedInt(s);
    if i.Some? {
      return Int(i.value);
    }
    var f := floats(s);
    v := if f.Some? then f.value else Str(s);
  }

  lemma ItemsFrom(parts: seq<string>, i: nat, limit: nat, floats: Floats)
    requires i < |parts| && forall p :: p in parts[i..] ==> |p| <= limit
    ensures |parts[i]| <= limit && forall p :: p in parts[i + 1..] ==> |p| <= limit
    ensures ParsedItems(parts[i..], limit, floats)
            == (if Trim(parts[i]) == "" then [] else [Parsed(Trim(parts[i]), floats)])
               + ParsedItems(parts[i + 1..], limit, floats)
  {
    var rest := parts[i..];
    assert rest[0] == parts[i] && rest[1..] == parts[i + 1..];
    assert rest[0] in rest;
    forall p | p in parts[i + 1..] ensures |p| <= limit {
      assert p in rest[1..];
    }
  }

  method ParseItems(parts: seq<string>, limit: nat, floats: Floats) returns (values: seq<Value>)
    requires forall p :: p in parts ==> |p| <= limit
    ensures values == ParsedItems(parts, limit, floats)
    decreases limit, 1
  {
    values := [];
    assert parts[0..] == parts;
    for i := 0 to |parts|
      invariant forall p :: p in parts[i..] ==> |p| <= limit
      invariant values + ParsedItems(parts[i..], limit, floats) == ParsedItems(parts, limit, floats)
    {
      ItemsFrom(parts, i, limit, floats);
      ghost var rest := ParsedItems(parts[i + 1..], limit, floats);
      var item := Trim(parts[i]);
      if item != "" {
        var value := ParseValue(item, floats);
        assert values + ([value] + rest) == (values + [value]) + rest;
        values := values + [value];
      } else {
        assert [] + rest == rest;
      }
    }
  }
}
