/** The command-line scanner: whitespace separates tokens, except inside quotes and
    brackets. */
module Tokenizer {
  import opened Wrappers
  import opened Text

  datatype CliError =
    | UnclosedQuote
    | UnclosedBracket
    | MissingPositionals(expected: nat, found: nat)
    | NotKeyValue(token: string)
    | DuplicateFlag(key: string)

  datatype Mode = Normal | Quoted | Bracketed(depth: nat)

  /** Scanning `rest` from a given state of the scanner. */
  function Scanned(rest: string, tokens: seq<string>, current: string, hasCurrent: bool,
                   mode: Mode): Result<seq<string>, CliError>
    decreases |rest|
  {
    if rest == "" then
      match mode
      case Quoted => Err(UnclosedQuote)
      case Bracketed(_) => Err(UnclosedBracket)
      case Normal => Ok(if hasCurrent then tokens + [current] else tokens)
    else
      var c := rest[0];
      match mode
      case Normal =>
        if IsWhitespace(c) then
          if hasCurrent then Scanned(rest[1..], tokens + [current], "", false, Normal)
          else Scanned(rest[1..], tokens, current, false, Normal)
        else
          var next := if c == '\"' then Quoted else if c == '[' then Bracketed(1) else Normal;
          Scanned(rest[1..], tokens, current + [c], true, next)
      case Quoted =>
        if c == '\\' && |rest| >= 2 && rest[1] == '\"' then
          Scanned(rest[2..], tokens, current + ['\"'], hasCurrent, Quoted)
        else Scanned(rest[1..], tokens, current + [c], hasCurrent, if c == '\"' then Normal else Quoted)
      case Bracketed(depth) =>
        Scanned(rest[1..], tokens, current + [c], hasCurrent,
          if c == '[' then Bracketed(depth + 1)
          else if c == ']' then (if depth <= 1 then Normal else Bracketed(depth - 1))
          else mode)
  }

  function Tokenized(line: string): Result<seq<string>, CliError> {
    Scanned(line, [], "", false, Normal)
  }

  method Tokenize(line: string) returns (r: Result<seq<string>, CliError>)
    ensures r == Tokenized(line)
  {
    var tokens: seq<string> := [];
    var current: string, hasCurrent, mode := "", false, Normal;
    var i := 0;
    while i < |line|
      invariant 0 <= i <= |line|
      invariant Scanned(line[i..], tokens, current, hasCurrent, mode) == Tokenized(line)
    {
      var c := line[i];
      assert line[i..][1..] == line[i + 1..];
      i := i + 1;
      match mode {
        case Normal =>
          if IsWhitespace(c) {
            if hasCurrent {
              tokens, current, hasCurrent := tokens + [current], "", false;
            }
          } else {
            current, hasCurrent := current + [c], true;
            if c == '\"' {
              mode := Quoted;
            } else if c == '[' {
              mode := Bracketed(1);
            }
          }
        case Quoted =>
          if c == '\\' && i < |line| && line[i] == '\"' {
            assert line[i - 1..][2..] == line[i + 1..];
            current := current + ['\"'];
            i := i + 1;
          } else {
            current := current + [c];
            if c == '\"' {
              mode := Normal;
            }
          }
        case Bracketed(depth) =>
          current := current + [c];
          if c == '[' {
            mode := Bracketed(depth + 1);
          } else if c == ']' {
            mode := if depth <= 1 then Normal else Bracketed(depth - 1);
          }
      }
    }
    match mode
    case Quoted => r := Err(UnclosedQuote);
    case Bracketed(_) => r := Err(UnclosedBracket);
    case Normal =>
      if hasCurrent {
        tokens := tokens + [current];
      }
      r := Ok(tokens);
  }

  // --------------------------------------------------------------- rendering

  /** What a token is made of: bare text, quoted text, or a bracketed group. */
  datatype Piece = Word(text: string) | Quote(text: string) | Group(inner: string)

  function RenderedPiece(p: Piece): string {
    match p
    case Word(text) => text
    case Quote(text) => "\"" + Escaped(text) + "\""
    case Group(inner) => "[" + inner + "]"
  }

  /** What the piece stands for inside a token: quoted text is unescaped, its quotes stay. */
  function DenotedPiece(p: Piece): string {
    match p
    case Word(text) => text
    case Quote(text) => "\"" + text + "\""
    case Group(inner) => "[" + inner + "]"
  }

  predicate IsBare(c: char) {
    !IsWhitespace(c) && c != '\"' && c != '['
  }

  predicate EndsWithBackslash(s: string) {
    s != "" && s[|s| - 1] == '\\'
  }

  /** Brackets match up without ever closing more than `depth` groups around them. */
  predicate Balanced(s: string, depth: nat) {
    if s == "" then depth == 0
    else if s[0] == '[' then Balanced(s[1..], depth + 1)
    else if s[0] == ']' then depth > 0 && Balanced(s[1..], depth - 1)
    else Balanced(s[1..], depth)
  }

  function ModeAfter(c: char, mode: Mode): Mode {
    match mode
    case Normal => if c == '\"' then Quoted else if c == '[' then Bracketed(1) else Normal
    case Quoted => if c == '\"' then Normal else Quoted
    case Bracketed(depth) =>
      if c == '[' then Bracketed(depth + 1)
      else if c == ']' then (if depth <= 1 then Normal else Bracketed(depth - 1))
      else mode
  }

  /** The scanner keeps the text as it stands and ends outside quotes and brackets: it
      meets no whitespace outside them and nothing to unescape inside quotes. */
  predicate Verbatim(s: string, mode: Mode) {
    if s == "" then mode.Normal?
    else
      && (mode.Normal? ==> !IsWhitespace(s[0]))
      && !(mode.Quoted? && s[0] == '\\' && |s| >= 2 && s[1] == '\"')
      && Verbatim(s[1..], ModeAfter(s[0], mode))
  }

  predicate Writable(p: Piece) {
    match p
    case Word(text) => text != "" && forall c :: c in text ==> IsBare(c)
    case Quote(text) => !EndsWithBackslash(text)
    case Group(inner) => Verbatim("[" + inner + "]", Normal)
  }

  lemma {:induction false} ScanWord(text: string, rest: string, tokens: seq<string>, current: string, hasCurrent: bool)
    requires forall c :: c in text ==> IsBare(c)
    ensures Scanned(text + rest, tokens, current, hasCurrent, Normal)
            == Scanned(rest, tokens, current + text, hasCurrent || text != "", Normal)
  {
    if text == "" {
      assert text + rest == rest && current + text == current;
    } else {
      assert text[0] in text;
      assert (text + rest)[1..] == text[1..] + rest;
      assert current + [text[0]] + text[1..] == current + text;
      ScanWord(text[1..], rest, tokens, current + [text[0]], true);
    }
  }

  lemma ScanEscapedQuote(rest: string, tokens: seq<string>, current: string)
    ensures Scanned("\\\"" + rest, tokens, current, true, Quoted)
            == Scanned(rest, tokens, current + ['\"'], true, Quoted)
  {
    assert ("\\\"" + rest)[2..] == rest;
  }

  lemma ScanQuotedChar(c: char, rest: string, tokens: seq<string>, current: string)
    requires c != '\"' && (c == '\\' ==> rest == "" || rest[0] != '\"')
    ensures Scanned([c] + rest, tokens, current, true, Quoted) == Scanned(rest, tokens, current + [c], true, Quoted)
  {
    assert ([c] + rest)[1..] == rest;
  }

  /** A step into escaped text, whatever follows it. */
  lemma ScanEscapedStep(text: string, after: string, tokens: seq<string>, current: string)
    requires text != "" && (text == "\\" ==> after == "" || after[0] != '\"')
    ensures Scanned(Escaped(text) + after, tokens, current, true, Quoted)
            == Scanned(Escaped(text[1..]) + after, tokens, current + [text[0]], true, Quoted)
  {
    var rest := Escaped(text[1..]) + after;
    EscapedStart(text[1..]);
    if text[0] == '\"' {
      assert Escaped(text) + after == "\\\"" + rest;
      ScanEscapedQuote(rest, tokens, current);
    } else {
      assert Escaped(text) + after == [text[0]] + rest;
      if text[0] == '\\' && text[1..] == "" {
        assert text == "\\" && rest == after;
      }
      ScanQuotedChar(text[0], rest, tokens, current);
    }
  }

  lemma {:induction false} ScanQuoted(text: string, rest: string, tokens: seq<string>, current: string)
    requires !EndsWithBackslash(text)
    ensures Scanned(Escaped(text) + "\"" + rest, tokens, current, true, Quoted)
            == Scanned(rest, tokens, current + text + "\"", true, Normal)
    decreases |text|
  {
    if text == "" {
      assert (Escaped(text) + "\"" + rest)[1..] == rest && current + text == current;
    } else {
      var tail := text[1..];
      assert !EndsWithBackslash(tail);
      assert Escaped(text) + "\"" + rest == Escaped(text) + ("\"" + rest);
      assert Escaped(tail) + "\"" + rest == Escaped(tail) + ("\"" + rest);
      ScanEscapedStep(text, "\"" + rest, tokens, current);
      ScanQuoted(tail, rest, tokens, current + [text[0]]);
      assert current + [text[0]] + tail == current + text;
    }
  }

  /** Quoted text that ends with a backslash swallows its closing quote. */
  lemma {:induction false} ScanQuotedTrailingBackslash(text: string, tokens: seq<string>, current: string)
    requires EndsWithBackslash(text)
    ensures Scanned(Escaped(text) + "\"", tokens, current, true, Quoted) == Err(UnclosedQuote)
    decreases |text|
  {
    var tail := text[1..];
    if tail == "" {
      assert Escaped(text) == [text[0]] + Escaped(tail);
      assert Escaped(text) + "\"" == "\\\"" + "";
      ScanEscapedQuote("", tokens, current);
    } else {
      ScanEscapedStep(text, "\"", tokens, current);
      ScanQuotedTrailingBackslash(tail, tokens, current + [text[0]]);
    }
  }

  lemma {:induction false} ScanVerbatim(s: string, rest: string, tokens: seq<string>, current: string,
                                        hasCurrent: bool, mode: Mode)
    requires Verbatim(s, mode) && (mode.Normal? || hasCurrent)
    ensures Scanned(s + rest, tokens, current, hasCurrent, mode)
            == Scanned(rest, tokens, current + s, hasCurrent || s != "", Normal)
    decreases |s|
  {
    if s == "" {
      assert s + rest == rest && current + s == current;
    } else {
      assert (s + rest)[1..] == s[1..] + rest;
      assert current + [s[0]] + s[1..] == current + s;
      if mode.Quoted? && |s| == 1 {
        assert Verbatim(s[1..], ModeAfter(s[0], mode));
        assert s[0] == '\"';
      }
      ScanVerbatim(s[1..], rest, tokens, current + [s[0]], true, ModeAfter(s[0], mode));
    }
  }

  /** Balanced brackets are one way for a group to be kept. */
  lemma {:induction false} BalancedIsVerbatim(inner: string, depth: nat)
    requires Balanced(inner, depth)
    ensures Verbatim(inner + "]", Bracketed(depth + 1))
    decreases |inner|
  {
    if inner == "" {
      assert (inner + "]")[1..] == "";
    } else {
      assert (inner + "]")[1..] == inner[1..] + "]";
      var next := if inner[0] == '[' then depth + 1 else if inner[0] == ']' then depth - 1 else depth;
      BalancedIsVerbatim(inner[1..], next);
    }
  }

  lemma BalancedGroupIsWritable(inner: string)
    requires Balanced(inner, 0)
    ensures Writable(Group(inner))
  {
    BalancedIsVerbatim(inner, 0);
    assert ("[" + inner + "]")[1..] == inner + "]";
  }

  lemma ScanQuotePiece(text: string, rest: string, tokens: seq<string>, current: string, hasCurrent: bool)
    requires Writable(Quote(text))
    ensures Scanned(RenderedPiece(Quote(text)) + rest, tokens, current, hasCurrent, Normal)
            == Scanned(rest, tokens, current + DenotedPiece(Quote(text)), true, Normal)
  {
    var s := RenderedPiece(Quote(text)) + rest;
    assert s[0] == '\"' && s[1..] == Escaped(text) + "\"" + rest;
    ScanQuoted(text, rest, tokens, current + "\"");
    assert current + "\"" + text + "\"" == current + DenotedPiece(Quote(text));
  }

  lemma ScanGroupPiece(inner: string, rest: string, tokens: seq<string>, current: string, hasCurrent: bool)
    requires Writable(Group(inner))
    ensures Scanned(RenderedPiece(Group(inner)) + rest, tokens, current, hasCurrent, Normal)
            == Scanned(rest, tokens, current + DenotedPiece(Group(inner)), true, Normal)
  {
    ScanVerbatim("[" + inner + "]", rest, tokens, current, hasCurrent, Normal);
  }

  lemma ScanPiece(p: Piece, rest: string, tokens: seq<string>, current: string, hasCurrent: bool)
    requires Writable(p)
    ensures Scanned(RenderedPiece(p) + rest, tokens, current, hasCurrent, Normal)
            == Scanned(rest, tokens, current + DenotedPiece(p), true, Normal)
  {
    match p
    case Word(text) => ScanWord(text, rest, tokens, current, hasCurrent);
    case Quote(text) => ScanQuotePiece(text, rest, tokens, current, hasCurrent);
    case Group(inner) => ScanGroupPiece(inner, rest, tokens, current, hasCurrent);
  }

  function Rendered(pieces: seq<Piece>): string {
    if pieces == [] then "" else RenderedPiece(pieces[0]) + Rendered(pieces[1..])
  }

  function Denoted(pieces: seq<Piece>): string {
    if pieces == [] then "" else DenotedPiece(pieces[0]) + Denoted(pieces[1..])
  }

  lemma {:induction false} ScanPieces(pieces: seq<Piece>, rest: string, tokens: seq<string>, current: string,
                                      hasCurrent: bool)
    requires forall p :: p in pieces ==> Writable(p)
    ensures Scanned(Rendered(pieces) + rest, tokens, current, hasCurrent, Normal)
            == Scanned(rest, tokens, current + Denoted(pieces), hasCurrent || pieces != [], Normal)
    decreases |pieces|
  {
    if pieces == [] {
      assert Rendered(pieces) + rest == rest && current + Denoted(pieces) == current;
    } else {
      var tail := Rendered(pieces[1..]) + rest;
      assert Rendered(pieces) + rest == RenderedPiece(pieces[0]) + tail;
      ScanPiece(pieces[0], tail, tokens, current, hasCurrent);
      ScanPieces(pieces[1..], rest, tokens, current + DenotedPiece(pieces[0]), true);
      assert current + DenotedPiece(pieces[0]) + Denoted(pieces[1..]) == current + Denoted(pieces);
    }
  }

  lemma {:induction false} ScanGap(gap: string, rest: string, tokens: seq<string>, current: string, hasCurrent: bool)
    requires Blank(gap) && (!hasCurrent ==> current == "")
    ensures Scanned(gap + rest, tokens, current, hasCurrent, Normal)
            == if hasCurrent && gap != "" then Scanned(rest, tokens + [current], "", false, Normal)
               else Scanned(rest, tokens, current, hasCurrent, Normal)
    decreases |gap|
  {
    if gap == "" {
      assert gap + rest == rest;
    } else {
      assert gap[0] in gap;
      assert (gap + rest)[1..] == gap[1..] + rest;
      ScanGap(gap[1..], rest, if hasCurrent then tokens + [current] else tokens, "", false);
    }
  }

  /** A token and the whitespace that follows it. */
  datatype Item = Item(pieces: seq<Piece>, gap: string)

  function RenderedLine(items: seq<Item>): string {
    if items == [] then "" else Rendered(items[0].pieces) + items[0].gap + RenderedLine(items[1..])
  }

  function DenotedLine(items: seq<Item>): seq<string> {
    if items == [] then [] else [Denoted(items[0].pieces)] + DenotedLine(items[1..])
  }

  /** Tokens are not empty and whitespace separates them; it may also end the line. */
  ghost predicate WellSpaced(items: seq<Item>) {
    && (forall i :: 0 <= i < |items| ==> items[i].pieces != [] && Blank(items[i].gap))
    && (forall i :: 0 <= i < |items| - 1 ==> items[i].gap != "")
    && (forall i :: 0 <= i < |items| ==> forall p :: p in items[i].pieces ==> Writable(p))
  }

  lemma {:induction false} ScanItems(items: seq<Item>, tokens: seq<string>)
    requires WellSpaced(items)
    ensures Scanned(RenderedLine(items), tokens, "", false, Normal) == Ok(tokens + DenotedLine(items))
    decreases |items|
  {
    if items == [] {
      assert tokens + DenotedLine(items) == tokens;
    } else {
      var item, token := items[0], Denoted(items[0].pieces);
      var tail := RenderedLine(items[1..]);
      assert RenderedLine(items) == Rendered(item.pieces) + (item.gap + tail);
      ScanPieces(item.pieces, item.gap + tail, tokens, "", false);
      assert "" + token == token;
      ScanGap(item.gap, tail, tokens, token, true);
      assert tokens + [token] + DenotedLine(items[1..]) == tokens + DenotedLine(items);
      if item.gap == "" {
        assert items[1..] == [] && item.gap + tail == "";
        assert DenotedLine(items) == [token];
      } else {
        ScanItems(items[1..], tokens + [token]);
      }
    }
  }

  /** What is still open at the end of a text; an escaped quote closes nothing. */
  function LeftOpen(s: string, mode: Mode): Mode
    decreases |s|
  {
    if s == "" then mode
    else if mode.Quoted? && s[0] == '\\' && |s| >= 2 && s[1] == '\"' then LeftOpen(s[2..], mode)
    else LeftOpen(s[1..], ModeAfter(s[0], mode))
  }

  lemma {:induction false} ScanFails(rest: string, tokens: seq<string>, current: string, hasCurrent: bool, mode: Mode)
    ensures var r, open := Scanned(rest, tokens, current, hasCurrent, mode), LeftOpen(rest, mode);
            if open.Normal? then r.Ok? else r == Err(if open.Quoted? then UnclosedQuote else UnclosedBracket)
    decreases |rest|
  {
    if rest != "" {
      if mode.Normal? && IsWhitespace(rest[0]) {
        ScanFails(rest[1..], if hasCurrent then tokens + [current] else tokens, if hasCurrent then "" else current,
                  false, Normal);
      } else if mode.Quoted? && rest[0] == '\\' && |rest| >= 2 && rest[1] == '\"' {
        ScanFails(rest[2..], tokens, current + ['\"'], hasCurrent, Quoted);
      } else {
        ScanFails(rest[1..], tokens, current + [rest[0]], mode.Normal? || hasCurrent, ModeAfter(rest[0], mode));
      }
    }
  }

  /** A line is refused exactly if it leaves a quote or a bracket open, and for that reason. */
  lemma TokenizedFailsIff(line: string)
    ensures var open := LeftOpen(line, Normal);
            && (Tokenized(line).Ok? <==> open.Normal?)
            && (Tokenized(line) == Err(UnclosedQuote) <==> open.Quoted?)
            && (Tokenized(line) == Err(UnclosedBracket) <==> open.Bracketed?)
  {
    ScanFails(line, [], "", false, Normal);
  }

  /** The characters in a list of tokens. */
  function Total(tokens: seq<string>): nat {
    if tokens == [] then 0 else Total(tokens[..|tokens| - 1]) + |tokens[|tokens| - 1]|
  }

  lemma TotalOfOneMore(tokens: seq<string>, token: string)
    ensures Total(tokens + [token]) == Total(tokens) + |token|
  {
    assert (tokens + [token])[..|tokens|] == tokens;
  }

  /** The scanner never adds a character, and loses none only from verbatim text. */
  lemma {:induction false} ScanningLoses(rest: string, tokens: seq<string>, current: string, hasCurrent: bool,
                                         mode: Mode)
    requires (!hasCurrent ==> current == "") && (mode.Normal? || hasCurrent)
    ensures var r := Scanned(rest, tokens, current, hasCurrent, mode);
            r.Ok? ==>
              && Total(r.value) <= Total(tokens) + |current| + |rest|
              && (Total(r.value) == Total(tokens) + |current| + |rest| ==> Verbatim(rest, mode))
    decreases |rest|
  {
    if rest == "" {
      TotalOfOneMore(tokens, current);
    } else if mode.Normal? && IsWhitespace(rest[0]) {
      TotalOfOneMore(tokens, current);
      ScanningLoses(rest[1..], if hasCurrent then tokens + [current] else tokens, "", false, Normal);
    } else if mode.Quoted? && rest[0] == '\\' && |rest| >= 2 && rest[1] == '\"' {
      ScanningLoses(rest[2..], tokens, current + ['\"'], hasCurrent, Quoted);
    } else {
      ScanningLoses(rest[1..], tokens, current + [rest[0]], true, ModeAfter(rest[0], mode));
    }
  }

  /** A text is scanned into itself, as a single token, exactly if it is verbatim. */
  lemma TokenIsKeptIff(text: string)
    ensures Tokenized(text) == Ok([text]) <==> text != "" && Verbatim(text, Normal)
  {
    if Verbatim(text, Normal) {
      ScanVerbatim(text, "", [], "", false, Normal);
      assert text + "" == text && "" + text == text && [] + [text] == [text];
    }
    if Tokenized(text) == Ok([text]) {
      ScanningLoses(text, [], "", false, Normal);
      TotalOfOneMore([], text);
      assert [] + [text] == [text];
    }
  }

  /** Scanning undoes rendering: a line of tokens built from bare text, escaped quoted text
      and verbatim groups, after any leading whitespace, scans back to those tokens. */
  lemma TokenizeUndoesRendering(lead: string, items: seq<Item>)
    requires Blank(lead) && WellSpaced(items)
    ensures Tokenized(lead + RenderedLine(items)) == Ok(DenotedLine(items))
  {
    ScanGap(lead, RenderedLine(items), [], "", false);
    ScanItems(items, []);
    assert [] + DenotedLine(items) == DenotedLine(items);
  }

  /** A quoted text survives scanning exactly when it does not end with a backslash. */
  lemma QuotedTextSurvivesIff(text: string)
    ensures Tokenized(RenderedPiece(Quote(text))) == Ok([DenotedPiece(Quote(text))]) <==> !EndsWithBackslash(text)
    ensures EndsWithBackslash(text) ==> Tokenized(RenderedPiece(Quote(text))) == Err(UnclosedQuote)
  {
    var s := RenderedPiece(Quote(text));
    if EndsWithBackslash(text) {
      assert s[1..] == Escaped(text) + "\"";
      assert "" + [s[0]] == "\"";
      ScanQuotedTrailingBackslash(text, [], "\"");
    } else {
      ScanPiece(Quote(text), "", [], "", false);
      assert s + "" == s && "" + DenotedPiece(Quote(text)) == DenotedPiece(Quote(text));
      assert [] + [DenotedPiece(Quote(text))] == [DenotedPiece(Quote(text))];
    }
  }
}
