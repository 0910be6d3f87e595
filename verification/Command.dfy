/** A whole command line: printed, scanned, split into arguments, and read back. */
module Command {
  import opened Wrappers
  import opened Json
  import opened Text
  import opened Tokenizer
  import opened Args
  import opened Printer

  /** What a flag is given: a printed value, or a bare word. */
  datatype Typed = Literal(value: Value) | Bare(word: string)

  datatype Flag = Flag(key: string, typed: Typed)

  /** A positional text, in quotes or as it stands. */
  datatype Positional = InQuotes(text: string) | AsIs(text: string)

  /** Keys are bare and hold no equals sign. */
  predicate IsKey(key: string) {
    forall c :: c in key ==> IsBare(c) && c != '='
  }

  /** Text that both the scanner and the unquoting leave intact. */
  predicate Plain(s: string) {
    !EndsWithBackslash(s) && !HasEscapedQuote(s)
  }

  /** A value that survives being typed as a flag: a plain string, or a list that the scanner
      keeps as printed and whose strings splitting spares. */
  predicate Typable(v: Value)
    requires Printable(v)
  {
    match v
    case Str(s) => Plain(s)
    case Array(_) => ListSafe(v, false) && Verbatim(Printed(v), Normal)
    case _ => true
  }

  predicate Expressible(t: Typed) {
    t.Literal? ==> Printable(t.value)
  }

  predicate Fits(t: Typed)
    requires Expressible(t)
  {
    match t
    case Literal(v) => Typable(v)
    case Bare(word) => forall c :: c in word ==> IsBare(c)
  }

  predicate Writes(p: Positional) {
    match p
    case InQuotes(text) => Plain(text)
    case AsIs(text) => text != "" && forall c :: c in text ==> IsBare(c)
  }

  function FlagPieces(f: Flag): seq<Piece>
    requires Expressible(f.typed)
  {
    match f.typed
    case Bare(word) => [Word(f.key + "=" + word)]
    case Literal(v) =>
      if v.Str? then [Word(f.key + "="), Quote(v.s)]
      else if v.Array? then [Word(f.key + "="), Group(Joined(v.items))]
      else [Word(f.key + "=" + Printed(v))]
  }

  /** What the scanner hands over for a value: strings come out unescaped. */
  function Raw(v: Value): string
    requires Printable(v)
  {
    if v.Str? then "\"" + v.s + "\"" else Printed(v)
  }

  function RawTyped(t: Typed): string
    requires Expressible(t)
  {
    match t
    case Literal(v) => Raw(v)
    case Bare(word) => word
  }

  function Spelled(t: Typed): string
    requires Expressible(t)
  {
    match t
    case Literal(v) => Printed(v)
    case Bare(word) => word
  }

  /** What the typed text stands for: a bare word is an integer if it spells one, else a
      float if it spells one, else itself. */
  function Meant(t: Typed, floats: Floats): Value {
    match t
    case Literal(v) => v
    case Bare(word) => if ParsedInt(word).Some? then Int(ParsedInt(word).value)
                       else if word == "" then Str("") else WordValue(word, floats)
  }

  lemma OnePiece(p: Piece)
    ensures Rendered([p]) == RenderedPiece(p) && Denoted([p]) == DenotedPiece(p)
  {
    assert [p][1..] == [];
  }

  lemma TwoPieces(p: Piece, q: Piece)
    ensures Rendered([p, q]) == RenderedPiece(p) + RenderedPiece(q)
    ensures Denoted([p, q]) == DenotedPiece(p) + DenotedPiece(q)
  {
    assert [p, q][1..] == [q];
    OnePiece(q);
  }

  /** The pieces spell `key=value` and stand for `key=raw`. */
  lemma FlagPiecesSpell(f: Flag)
    requires Expressible(f.typed)
    ensures Rendered(FlagPieces(f)) == f.key + "=" + Spelled(f.typed)
    ensures Denoted(FlagPieces(f)) == f.key + "=" + RawTyped(f.typed)
  {
    match f.typed
    case Bare(word) => OnePiece(Word(f.key + "=" + word));
    case Literal(v) =>
      if v.Str? {
        TwoPieces(Word(f.key + "="), Quote(v.s));
      } else if v.Array? {
        TwoPieces(Word(f.key + "="), Group(Joined(v.items)));
      } else {
        OnePiece(Word(f.key + "=" + Printed(v)));
      }
  }

  // ------------------------------------------------------------ bracket groups

  /** Strings inside lists: brackets balanced, and no comma outside them. */
  predicate Enclosed(v: Value) {
    match v
    case Str(s) => Balanced(s, 0) && Uncut(s, 0)
    case Array(items) => forall item :: item in items ==> Enclosed(item)
    case _ => true
  }

  lemma {:induction false} BalancedConcat(a: string, b: string, d: nat, e: nat)
    requires Balanced(a, d) && Balanced(b, e)
    ensures Balanced(a + b, d + e)
  {
    if a == "" {
      assert a + b == b;
    } else {
      assert (a + b)[1..] == a[1..] + b;
      BalancedConcat(a[1..], b, if a[0] == '[' then d + 1 else if a[0] == ']' then d - 1 else d, e);
    }
  }

  lemma {:induction false} BalancedUncut(s: string, d: nat, rel: int)
    requires Balanced(s, d) && Uncut(s, d) && rel == d
    ensures Sheltered(s, rel)
  {
    if s != "" {
      BalancedUncut(s[1..], if s[0] == '[' then d + 1 else if s[0] == ']' then d - 1 else d, DepthAfter(s[0], rel));
    }
  }

  lemma {:induction false} EscapingBalances(s: string, d: nat)
    requires Balanced(s, d)
    ensures Balanced(Escaped(s), d)
  {
    if s != "" {
      var e := Escaped(s[1..]);
      EscapingBalances(s[1..], if s[0] == '[' then d + 1 else if s[0] == ']' then d - 1 else d);
      if s[0] == '\"' {
        assert Escaped(s) == ['\\', '\"'] + e;
        assert Escaped(s)[1..] == ['\"'] + e && (['\"'] + e)[1..] == e;
      } else {
        assert Escaped(s) == [s[0]] + e && Escaped(s)[1..] == e;
      }
    }
  }

  lemma {:induction false} PlainTextBalanced(s: string)
    requires forall c :: c in s ==> c != '[' && c != ']'
    ensures Balanced(s, 0)
  {
    if s != "" {
      assert s[0] in s && forall c :: c in s[1..] ==> c in s;
      PlainTextBalanced(s[1..]);
    }
  }

  lemma {:induction false} PrintedIsBalanced(v: Value)
    requires Printable(v) && Enclosed(v)
    ensures Balanced(Printed(v), 0) && ListSafe(v, true)
    decreases v
  {
    match v
    case Int(i) =>
      IntIsSpelled(i);
      PlainTextBalanced(PrintedInt(i));
    case Str(s) =>
      BalancedUncut(s, 0, 0);
      EscapingBalances(s, 0);
      PlainTextBalanced("\"");
      BalancedConcat("\"", Escaped(s), 0, 0);
      BalancedConcat("\"" + Escaped(s), "\"", 0, 0);
    case Array(items) =>
      JoinedIsBalanced(items);
      var j := Joined(items);
      assert "]"[1..] == "" && Balanced("]", 1);
      BalancedConcat(j, "]", 0, 1);
      assert ("[" + j + "]")[1..] == j + "]";
  }

  lemma {:induction false} JoinedIsBalanced(items: seq<Value>)
    requires forall item :: item in items ==> Printable(item) && Enclosed(item)
    ensures Balanced(Joined(items), 0) && forall item :: item in items ==> ListSafe(item, true)
    decreases items
  {
    if items != [] {
      PrintedIsBalanced(items[0]);
      assert items == [items[0]] + items[1..];
      JoinedIsBalanced(items[1..]);
      if |items| > 1 {
        PlainTextBalanced(", ");
        BalancedConcat(Printed(items[0]), ", ", 0, 0);
        BalancedConcat(Printed(items[0]) + ", ", Joined(items[1..]), 0, 0);
      }
    }
  }

  /** Lists are typable, in particular, whose strings are enclosed. */
  lemma EnclosedIsTypable(v: Value)
    requires Printable(v) && Enclosed(v) && v.Array?
    ensures Typable(v)
  {
    JoinedIsBalanced(v.items);
    BalancedGroupIsWritable(Joined(v.items));
  }

  // ------------------------------------------------------------- reading back

  lemma QuotedReadsAs(s: string, floats: Floats)
    ensures Unquoted("\"" + s + "\"") == Unescaped(s)
    ensures Parsed("\"" + s + "\"", floats) == Str(Unescaped(s))
  {
    var q := "\"" + s + "\"";
    TightIsTrimmed(q);
    assert q[1..|q| - 1] == s;
    if q == "\"\"" {
      assert s == q[1..1];
    }
  }

  lemma RawReadsBack(v: Value, floats: Floats)
    requires Printable(v) && Typable(v)
    ensures Parsed(Raw(v), floats) == v
  {
    if v.Str? {
      QuotedReadsAs(v.s, floats);
      UnescapeFixesIff(v.s);
    } else {
      ParseUndoesPrint(v, false, floats);
    }
  }

  lemma BareReadsBack(word: string, floats: Floats)
    requires forall c :: c in word ==> IsBare(c)
    ensures Parsed(word, floats) == Meant(Bare(word), floats)
    ensures Unquoted(word) == word
  {
    if word != "" {
      assert word[0] in word && word[|word| - 1] in word;
      TightIsTrimmed(word);
      if ParsedInt(word).None? {
        WordAlone(word, floats);
      }
    }
  }

  lemma TypedReadsBack(t: Typed, floats: Floats)
    requires Expressible(t) && Fits(t)
    ensures Parsed(RawTyped(t), floats) == Meant(t, floats)
  {
    match t
    case Literal(v) => RawReadsBack(v, floats);
    case Bare(word) => BareReadsBack(word, floats);
  }

  lemma FlagIsWritable(f: Flag)
    requires IsKey(f.key) && Expressible(f.typed) && Fits(f.typed)
    ensures FlagPieces(f) != [] && forall p :: p in FlagPieces(f) ==> Writable(p)
  {
    if f.typed.Literal? && f.typed.value.Int? {
      IntIsSpelled(f.typed.value.i);
    }
  }

  /** Tokens, each followed by a space. */
  function Spaced(tokens: seq<seq<Piece>>): seq<Item> {
    seq(|tokens|, i requires 0 <= i < |tokens| => Item(tokens[i], " "))
  }

  lemma {:induction false} SpacedDenotes(tokens: seq<seq<Piece>>, raw: seq<string>)
    requires |raw| == |tokens| && forall i :: 0 <= i < |tokens| ==> Denoted(tokens[i]) == raw[i]
    ensures DenotedLine(Spaced(tokens)) == raw
  {
    if tokens != [] {
      assert Spaced(tokens)[1..] == Spaced(tokens[1..]);
      SpacedDenotes(tokens[1..], raw[1..]);
      assert raw == [raw[0]] + raw[1..];
    }
  }

  function FlagTokens(flags: seq<Flag>): seq<seq<Piece>>
    requires forall f :: f in flags ==> Expressible(f.typed)
  {
    if flags == [] then [] else [FlagPieces(flags[0])] + FlagTokens(flags[1..])
  }

  function RawFlags(flags: seq<Flag>): seq<string>
    requires forall f :: f in flags ==> Expressible(f.typed)
  {
    if flags == [] then [] else [flags[0].key + "=" + RawTyped(flags[0].typed)] + RawFlags(flags[1..])
  }

  function PositionalPieces(p: Positional): seq<Piece> {
    match p
    case InQuotes(text) => [Quote(text)]
    case AsIs(text) => [Word(text)]
  }

  function RawPositional(p: Positional): string {
    match p
    case InQuotes(text) => "\"" + text + "\""
    case AsIs(text) => text
  }

  function PositionalTokens(ps: seq<Positional>): seq<seq<Piece>> {
    if ps == [] then [] else [PositionalPieces(ps[0])] + PositionalTokens(ps[1..])
  }

  function RawPositionals(ps: seq<Positional>): seq<string> {
    if ps == [] then [] else [RawPositional(ps[0])] + RawPositionals(ps[1..])
  }

  /** A command: positional texts, then flags. */
  function PrintedCommand(positionals: seq<Positional>, flags: seq<Flag>): string
    requires forall f :: f in flags ==> Expressible(f.typed)
  {
    RenderedLine(Spaced(PositionalTokens(positionals) + FlagTokens(flags)))
  }

  /** The token can be written, and stands for the raw text. */
  ghost predicate StandsFor(token: seq<Piece>, raw: string) {
    token != [] && (forall p :: p in token ==> Writable(p)) && Denoted(token) == raw
  }

  ghost predicate StandFor(tokens: seq<seq<Piece>>, raw: seq<string>) {
    |tokens| == |raw| && forall i :: 0 <= i < |tokens| ==> StandsFor(tokens[i], raw[i])
  }

  lemma StandForConcat(a: seq<seq<Piece>>, x: seq<string>, b: seq<seq<Piece>>, y: seq<string>)
    requires StandFor(a, x) && StandFor(b, y)
    ensures StandFor(a + b, x + y)
  {
    forall i | 0 <= i < |a + b| ensures StandsFor((a + b)[i], (x + y)[i]) {
      if i < |a| {
        assert (a + b)[i] == a[i] && (x + y)[i] == x[i];
      } else {
        assert (a + b)[i] == b[i - |a|] && (x + y)[i] == y[i - |a|];
      }
    }
  }

  lemma SpacedIsWellSpaced(tokens: seq<seq<Piece>>, raw: seq<string>)
    requires StandFor(tokens, raw)
    ensures WellSpaced(Spaced(tokens)) && forall i :: 0 <= i < |tokens| ==> Denoted(tokens[i]) == raw[i]
  {
    forall i | 0 <= i < |tokens| ensures StandsFor(tokens[i], raw[i]) {
    }
  }

  lemma OnePositionalStandsFor(p: Positional)
    requires Writes(p)
    ensures StandFor([PositionalPieces(p)], [RawPositional(p)])
  {
    OnePiece(if p.InQuotes? then Quote(p.text) else Word(p.text));
  }

  lemma {:induction false} PositionalsStandFor(ps: seq<Positional>)
    requires forall p :: p in ps ==> Writes(p)
    ensures StandFor(PositionalTokens(ps), RawPositionals(ps))
  {
    if ps != [] {
      assert ps[0] in ps && forall p :: p in ps[1..] ==> p in ps;
      OnePositionalStandsFor(ps[0]);
      PositionalsStandFor(ps[1..]);
      StandForConcat([PositionalPieces(ps[0])], [RawPositional(ps[0])],
                     PositionalTokens(ps[1..]), RawPositionals(ps[1..]));
    }
  }

  lemma OneFlagStandsFor(f: Flag)
    requires Expressible(f.typed) && IsKey(f.key) && Fits(f.typed)
    ensures StandFor([FlagPieces(f)], [f.key + "=" + RawTyped(f.typed)])
  {
    FlagIsWritable(f);
    FlagPiecesSpell(f);
  }

  lemma {:induction false} FlagsStandFor(flags: seq<Flag>)
    requires forall f :: f in flags ==> Expressible(f.typed)
    requires forall f :: f in flags ==> IsKey(f.key) && Fits(f.typed)
    ensures StandFor(FlagTokens(flags), RawFlags(flags))
  {
    if flags != [] {
      assert flags[0] in flags && forall f :: f in flags[1..] ==> f in flags;
      OneFlagStandsFor(flags[0]);
      FlagsStandFor(flags[1..]);
      StandForConcat([FlagPieces(flags[0])], [flags[0].key + "=" + RawTyped(flags[0].typed)],
                     FlagTokens(flags[1..]), RawFlags(flags[1..]));
    }
  }

  /** The scanner hands over one token per positional and per flag. */
  lemma CommandScans(positionals: seq<Positional>, flags: seq<Flag>)
    requires forall p :: p in positionals ==> Writes(p)
    requires forall f :: f in flags ==> Expressible(f.typed)
    requires forall f :: f in flags ==> IsKey(f.key) && Fits(f.typed)
    ensures Tokenized(PrintedCommand(positionals, flags)) == Ok(RawPositionals(positionals) + RawFlags(flags))
  {
    var tokens, raw := PositionalTokens(positionals) + FlagTokens(flags), RawPositionals(positionals) + RawFlags(flags);
    PositionalsStandFor(positionals);
    FlagsStandFor(flags);
    StandForConcat(PositionalTokens(positionals), RawPositionals(positionals), FlagTokens(flags), RawFlags(flags));
    SpacedIsWellSpaced(tokens, raw);
    TokenizeUndoesRendering("", Spaced(tokens));
    assert "" + RenderedLine(Spaced(tokens)) == RenderedLine(Spaced(tokens));
    SpacedDenotes(tokens, raw);
  }

  /** The raw text that each key stands for. */
  function RawMap(flags: seq<Flag>): map<string, string>
    requires forall f :: f in flags ==> Expressible(f.typed)
  {
    if flags == [] then map[] else map[flags[0].key := RawTyped(flags[0].typed)] + RawMap(flags[1..])
  }

  ghost predicate DistinctKeys(flags: seq<Flag>) {
    forall i, j :: 0 <= i < j < |flags| ==> flags[i].key != flags[j].key
  }

  lemma {:induction false} KeyEndsAtEquals(key: string, raw: string)
    requires IsKey(key)
    ensures EqualsSign(key + "=" + raw) == |key|
  {
    var token := key + "=" + raw;
    assert token[|key|] == '=';
    forall j | 0 <= j < |key| ensures token[j] != '=' { assert key[j] in key; }
  }

  lemma {:induction false} RawMapKeys(flags: seq<Flag>)
    requires forall f :: f in flags ==> Expressible(f.typed)
    ensures forall key :: key in RawMap(flags) <==> exists i :: 0 <= i < |flags| && flags[i].key == key
  {
    if flags != [] {
      RawMapKeys(flags[1..]);
      forall key ensures key in RawMap(flags) <==> exists i :: 0 <= i < |flags| && flags[i].key == key {
        if i :| 0 <= i < |flags[1..]| && flags[1..][i].key == key {
          assert flags[i + 1].key == key;
        }
        if i :| 0 <= i < |flags| && flags[i].key == key {
          if i > 0 { assert flags[1..][i - 1].key == key; }
        }
      }
    }
  }

  lemma {:induction false} FlagsReadBack(flags: seq<Flag>, seen: map<string, string>)
    requires forall f :: f in flags ==> Expressible(f.typed)
    requires forall f :: f in flags ==> IsKey(f.key)
    requires DistinctKeys(flags) && forall f :: f in flags ==> f.key !in seen
    ensures FlagsOf(RawFlags(flags), seen) == Ok(seen + RawMap(flags))
    decreases |flags|
  {
    if flags == [] {
      assert seen + map[] == seen;
    } else {
      var f, rest := flags[0], flags[1..];
      var raw := RawTyped(f.typed);
      assert f in flags && forall g :: g in rest ==> g in flags;
      OneFlagReads(f.key, raw, RawFlags(rest), seen);
      HeadKeyIsFresh(flags);
      FlagsReadBack(rest, seen[f.key := raw]);
      RawMapKeys(rest);
      Overlay(seen, f.key, raw, RawMap(rest));
    }
  }

  lemma Overlay(seen: map<string, string>, key: string, raw: string, rest: map<string, string>)
    requires key !in rest
    ensures seen[key := raw] + rest == seen + (map[key := raw] + rest)
  {
  }

  lemma HeadKeyIsFresh(flags: seq<Flag>)
    requires flags != [] && DistinctKeys(flags)
    ensures DistinctKeys(flags[1..]) && forall g :: g in flags[1..] ==> g.key != flags[0].key
  {
    forall g | g in flags[1..] ensures g.key != flags[0].key {
      var i :| 0 <= i < |flags[1..]| && flags[1..][i] == g;
      assert flags[i + 1] == g;
    }
  }

  lemma OneFlagReads(key: string, raw: string, rest: seq<string>, seen: map<string, string>)
    requires IsKey(key) && key !in seen
    ensures FlagsOf([key + "=" + raw] + rest, seen) == FlagsOf(rest, seen[key := raw])
  {
    var token := key + "=" + raw;
    KeyEndsAtEquals(key, raw);
    assert token[..|key|] == key && token[|key| + 1..] == raw;
    assert ([token] + rest)[1..] == rest;
  }

  lemma {:induction false} RawMapFinds(flags: seq<Flag>, i: nat)
    requires forall f :: f in flags ==> Expressible(f.typed)
    requires DistinctKeys(flags) && i < |flags|
    ensures flags[i].key in RawMap(flags) && RawMap(flags)[flags[i].key] == RawTyped(flags[i].typed)
  {
    RawMapKeys(flags);
    RawMapKeys(flags[1..]);
    if i > 0 {
      RawMapFinds(flags[1..], i - 1);
    } else {
      assert flags[0].key !in RawMap(flags[1..]);
    }
  }

  /** A command — positional texts quoted or bare, flags with distinct bare keys and either
      typable values or bare words — scans, splits and parses back to exactly what was meant. */
  lemma CommandReadsBack(positionals: seq<Positional>, flags: seq<Flag>, floats: Floats)
    requires forall p :: p in positionals ==> Writes(p)
    requires forall f :: f in flags ==> Expressible(f.typed)
    requires forall f :: f in flags ==> IsKey(f.key) && Fits(f.typed)
    requires DistinctKeys(flags)
    ensures var tokens := Tokenized(PrintedCommand(positionals, flags));
            && tokens.Ok?
            && var args := ParsedArgs(tokens.value, |positionals|);
               && args.Ok?
               && args.value.positionals == Texts(positionals)
               && (forall key :: key in args.value.flags <==> exists i :: 0 <= i < |flags| && flags[i].key == key)
               && (forall i :: 0 <= i < |flags| ==>
                     && flags[i].key in args.value.flags
                     && Parsed(args.value.flags[flags[i].key], floats) == Meant(flags[i].typed, floats))
  {
    CommandScans(positionals, flags);
    var n, tokens := |positionals|, RawPositionals(positionals) + RawFlags(flags);
    PositionalsReadBack(positionals, floats);
    assert tokens[n..] == RawFlags(flags) && tokens[..n] == RawPositionals(positionals);
    FlagsReadBack(flags, map[]);
    assert map[] + RawMap(flags) == RawMap(flags);
    RawMapKeys(flags);
    ValuesReadBack(flags, floats);
  }

  lemma ValuesReadBack(flags: seq<Flag>, floats: Floats)
    requires forall f :: f in flags ==> Expressible(f.typed)
    requires forall f :: f in flags ==> Fits(f.typed)
    requires DistinctKeys(flags)
    ensures forall i :: 0 <= i < |flags| ==>
              && flags[i].key in RawMap(flags)
              && Parsed(RawMap(flags)[flags[i].key], floats) == Meant(flags[i].typed, floats)
  {
    forall i | 0 <= i < |flags|
      ensures flags[i].key in RawMap(flags)
      ensures Parsed(RawMap(flags)[flags[i].key], floats) == Meant(flags[i].typed, floats) {
      assert flags[i] in flags;
      RawMapFinds(flags, i);
      TypedReadsBack(flags[i].typed, floats);
    }
  }

  function Texts(ps: seq<Positional>): seq<string> {
    seq(|ps|, i requires 0 <= i < |ps| => ps[i].text)
  }

  lemma {:induction false} RawPositionalsAt(ps: seq<Positional>, i: nat)
    requires i < |ps|
    ensures |RawPositionals(ps)| == |ps| && RawPositionals(ps)[i] == RawPositional(ps[i])
  {
    if |ps| > 1 {
      RawPositionalsAt(ps[1..], if i > 0 then i - 1 else 0);
    }
  }

  lemma OnePositionalReadsBack(p: Positional, floats: Floats)
    requires Writes(p)
    ensures Unquoted(RawPositional(p)) == p.text
  {
    match p
    case InQuotes(text) =>
      QuotedReadsAs(text, floats);
      UnescapeFixesIff(text);
    case AsIs(text) => BareReadsBack(text, floats);
  }

  lemma PositionalsReadBack(ps: seq<Positional>, floats: Floats)
    requires forall p :: p in ps ==> Writes(p)
    ensures |RawPositionals(ps)| == |ps| && UnquotedAll(RawPositionals(ps)) == Texts(ps)
  {
    forall i | 0 <= i < |ps|
      ensures |RawPositionals(ps)| == |ps| && Unquoted(RawPositionals(ps)[i]) == ps[i].text {
      RawPositionalsAt(ps, i);
      assert ps[i] in ps;
      OnePositionalReadsBack(ps[i], floats);
    }
    assert ps == [] ==> RawPositionals(ps) == [];
  }

  lemma UnclosedFlag(key: string, s: string)
    requires IsKey(key) && EndsWithBackslash(s)
    ensures Tokenized(key + "=" + Printed(Str(s))) == Err(UnclosedQuote)
  {
    var q, word := Printed(Str(s)), key + "=";
    ScanWord(word, q, [], "", false);
    assert "" + word == word && q[1..] == Escaped(s) + "\"" && word + [q[0]] == word + "\"";
    ScanQuotedTrailingBackslash(s, [], word + "\"");
  }

  lemma ClosedFlag(key: string, s: string)
    requires IsKey(key) && !EndsWithBackslash(s)
    ensures Tokenized(key + "=" + Printed(Str(s))) == Ok([key + "=" + Raw(Str(s))])
  {
    var flag, line, token := Flag(key, Literal(Str(s))), key + "=" + Printed(Str(s)), key + "=" + Raw(Str(s));
    var pieces := FlagPieces(flag);
    FlagPiecesSpell(flag);
    ScanPieces(pieces, "", [], "", false);
    assert line + "" == line && "" + token == token && [] + [token] == [token];
  }

  /** A string typed as a flag value reads back exactly when it neither ends with a
      backslash nor holds one right before a quote: quotes are unescaped twice. */
  lemma FlagStringReadsBackIff(key: string, s: string, floats: Floats)
    requires IsKey(key)
    ensures var tokens := Tokenized(key + "=" + Printed(Str(s)));
            (&& tokens.Ok?
             && var args := ParsedArgs(tokens.value, 0);
                args.Ok? && key in args.value.flags && Parsed(args.value.flags[key], floats) == Str(s))
            <==> Plain(s)
  {
    if EndsWithBackslash(s) {
      UnclosedFlag(key, s);
    } else {
      ClosedFlag(key, s);
      var tokens := [key + "=" + Raw(Str(s))];
      OneFlagReads(key, Raw(Str(s)), [], map[]);
      assert tokens + [] == tokens && tokens[0..] == tokens;
      QuotedReadsAs(s, floats);
      UnescapeFixesIff(s);
    }
  }

  /** A flag with a list is scanned into itself exactly if the printed list is verbatim;
      without that, or without sheltered strings, a list is not typable. */
  lemma ListFlagIsKeptIff(key: string, v: Value)
    requires IsKey(key) && Printable(v) && v.Array?
    ensures Tokenized(key + "=" + Printed(v)) == Ok([key + "=" + Printed(v)]) <==> Verbatim(Printed(v), Normal)
  {
    TokenIsKeptIff(key + "=" + Printed(v));
    BarePrefix(key + "=", Printed(v));
  }

  lemma {:induction false} BarePrefix(word: string, s: string)
    requires forall c :: c in word ==> IsBare(c)
    ensures Verbatim(word + s, Normal) <==> Verbatim(s, Normal)
  {
    if word == "" {
      assert word + s == s;
    } else {
      assert (word + s)[1..] == word[1..] + s && word[0] in word;
      BarePrefix(word[1..], s);
    }
  }

  /** Brackets in a string need not even be balanced: the scanner may step outside the
      list and back as long as it meets no whitespace or quote there. */
  lemma CrossedBracketsAreTypable()
    ensures Printable(Array([Str("][")])) && Typable(Array([Str("][")])) && !Enclosed(Array([Str("][")]))
  {
    var v := Array([Str("][")]);
    CrossedBracketsPrint();
    assert "]["[1..] == "[" && "["[1..] == "";
    assert Sheltered("[", -1) && Sheltered("][", 0) && !Balanced("][", 0);
    assert v.items[0] == Str("][") && v.items[0] in v.items;
    assert "[\"][\"]"[1..] == "\"][\"]" && "\"][\"]"[1..] == "][\"]" && "][\"]"[1..] == "[\"]";
    assert "[\"]"[1..] == "\"]" && "\"]"[1..] == "]" && "]"[1..] == "";
    assert Verbatim("]", Bracketed(1)) && Verbatim("\"]", Bracketed(1)) && Verbatim("[\"]", Normal);
    assert Verbatim("][\"]", Bracketed(1)) && Verbatim("\"][\"]", Bracketed(1));
  }

  lemma CrossedBracketsPrint()
    ensures Printable(Array([Str("][")])) && Printed(Array([Str("][")])) == "[\"][\"]"
  {
    assert "]["[1..] == "[" && "["[1..] == "";
    assert Escaped("[") == "[" && Escaped("][") == "][";
    assert Joined([Str("][")]) == Printed(Str("]["));
  }
}
