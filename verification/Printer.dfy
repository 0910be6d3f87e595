/** The printer that the command line lacks, and what parsing recovers from it. */
module Printer {
  import opened Wrappers
  import opened Json
  import opened Text
  import opened Tokenizer
  import opened Args

  // ----------------------------------------------------------------- integers

  function DigitChar(d: nat): (c: char)
    requires d < 10
    ensures IsDigit(c) && c as int - '0' as int == d
  {
    ('0' as int + d) as char
  }

  function PrintedNat(n: nat): (s: string)
    ensures s != "" && forall c :: c in s ==> IsDigit(c)
  {
    if n < 10 then [DigitChar(n)] else PrintedNat(n / 10) + [DigitChar(n % 10)]
  }

  function PrintedInt(i: int): string {
    if i < 0 then "-" + PrintedNat(-i) else PrintedNat(i)
  }

  lemma {:induction false} DigitsReadBack(n: nat)
    ensures Digits(PrintedNat(n)) == Some(n)
  {
    if n >= 10 {
      DigitsReadBack(n / 10);
      assert PrintedNat(n)[..|PrintedNat(n)| - 1] == PrintedNat(n / 10);
    } else {
      assert PrintedNat(n)[..0] == "";
      assert Digits(PrintedNat(n)[..0]) == Some(0);
    }
  }

  lemma IntIsSpelled(i: int)
    ensures Tight(PrintedInt(i)) && PrintedInt(i)[0] != '\"' && PrintedInt(i)[0] != '['
    ensures forall c :: c in PrintedInt(i) ==> IsDigit(c) || c == '-'
  {
    var s := PrintedNat(if i < 0 then -i else i);
    assert s[0] in s && s[|s| - 1] in s;
  }

  lemma NatReadsBack(n: nat)
    requires n <= I64_MAX
    ensures ParsedInt(PrintedNat(n)) == Some(n as int)
  {
    var s := PrintedNat(n);
    DigitsReadBack(n);
    assert s[0] in s;
  }

  lemma NegativeReadsBack(n: nat)
    requires 0 < n <= -I64_MIN
    ensures ParsedInt("-" + PrintedNat(n)) == Some(0 - n as int)
  {
    DigitsReadBack(n);
    assert ("-" + PrintedNat(n))[1..] == PrintedNat(n);
  }

  lemma IntReadsBack(i: int)
    requires I64_MIN <= i <= I64_MAX
    ensures ParsedInt(PrintedInt(i)) == Some(i)
  {
    if i < 0 {
      NegativeReadsBack(-i);
    } else {
      NatReadsBack(i);
    }
  }

  // ------------------------------------------------------------------- values

  /** The values the grammar can express: 64-bit integers, strings, lists of such. */
  predicate Printable(v: Value) {
    match v
    case Int(i) => I64_MIN <= i <= I64_MAX
    case Str(_) => true
    case Array(items) => forall item :: item in items ==> Printable(item)
    case _ => false
  }

  function Printed(v: Value): string
    requires Printable(v)
    decreases v
  {
    match v
    case Int(i) => PrintedInt(i)
    case Str(s) => "\"" + Escaped(s) + "\""
    case Array(items) => "[" + Joined(items) + "]"
  }

  function Joined(items: seq<Value>): string
    requires forall item :: item in items ==> Printable(item)
    decreases items
  {
    if items == [] then ""
    else if |items| == 1 then Printed(items[0])
    else Printed(items[0]) + ", " + Joined(items[1..])
  }

  // ------------------------------------------------- text that splitting spares

  /** Splitting from `depth` does not cut inside `s`. */
  predicate Uncut(s: string, depth: int) {
    s == "" || (!(s[0] == ',' && depth == 0) && Uncut(s[1..], DepthAfter(s[0], depth)))
  }

  function DepthOver(s: string, depth: int): int {
    if s == "" then depth else DepthOver(s[1..], DepthAfter(s[0], depth))
  }

  /** Inside any number of lists, `s` is not cut and leaves the depth as it was. */
  ghost predicate SparedInLists(s: string) {
    forall k: nat :: Uncut(s, k) && DepthOver(s, k) == k
  }

  /** The same, read off the text: brackets match up in number, and no comma stands where
      at least as many brackets were closed as opened. */
  predicate Sheltered(s: string, rel: int) {
    if s == "" then rel == 0
    else (s[0] == ',' ==> rel > 0) && Sheltered(s[1..], DepthAfter(s[0], rel))
  }

  lemma {:induction false} ShelteredIsSpared(s: string, rel: int, k: nat)
    requires Sheltered(s, rel)
    ensures Uncut(s, rel + k) && DepthOver(s, rel + k) == k
  {
    if s != "" {
      ShelteredIsSpared(s[1..], DepthAfter(s[0], rel), k);
    }
  }

  /** Unsheltered text is cut inside some number of lists, or ends at another depth. */
  lemma {:induction false} UnshelteredIsNotSpared(s: string, rel: int) returns (k: nat)
    requires !Sheltered(s, rel)
    ensures !(Uncut(s, rel + k) && DepthOver(s, rel + k) == k)
  {
    if s == "" {
      k := 0;
    } else if s[0] == ',' && rel <= 0 {
      k := -rel;
    } else {
      k := UnshelteredIsNotSpared(s[1..], DepthAfter(s[0], rel));
    }
  }

  lemma ShelteredIff(s: string)
    ensures Sheltered(s, 0) <==> SparedInLists(s)
  {
    if Sheltered(s, 0) {
      forall k: nat ensures Uncut(s, k) && DepthOver(s, k) == k { ShelteredIsSpared(s, 0, k); }
    } else {
      var k := UnshelteredIsNotSpared(s, 0);
    }
  }

  lemma {:induction false} UncutConcat(a: string, b: string, depth: int)
    ensures Uncut(a + b, depth) <==> Uncut(a, depth) && Uncut(b, DepthOver(a, depth))
    ensures DepthOver(a + b, depth) == DepthOver(b, DepthOver(a, depth))
  {
    if a == "" {
      assert a + b == b;
    } else {
      assert (a + b)[1..] == a[1..] + b;
      UncutConcat(a[1..], b, DepthAfter(a[0], depth));
    }
  }

  lemma {:induction false} EscapingSpares(s: string, depth: int)
    ensures Uncut(Escaped(s), depth) <==> Uncut(s, depth)
    ensures DepthOver(Escaped(s), depth) == DepthOver(s, depth)
  {
    if s != "" {
      var e := Escaped(s[1..]);
      EscapingSpares(s[1..], DepthAfter(s[0], depth));
      if s[0] == '\"' {
        EscapedQuoteSpares(e, depth);
      } else {
        assert Escaped(s) == [s[0]] + e;
        assert Escaped(s)[1..] == e;
      }
    }
  }

  lemma EscapedQuoteSpares(rest: string, depth: int)
    ensures Uncut("\\\"" + rest, depth) <==> Uncut(rest, depth)
    ensures DepthOver("\\\"" + rest, depth) == DepthOver(rest, depth)
  {
    PlainTextUncut("\\\"", depth);
    UncutConcat("\\\"", rest, depth);
  }

  lemma {:induction false} PlainTextUncut(s: string, depth: int)
    requires forall c :: c in s ==> c != ',' && c != '[' && c != ']'
    ensures Uncut(s, depth) && DepthOver(s, depth) == depth
  {
    if s != "" {
      assert s[0] in s && forall c :: c in s[1..] ==> c in s;
      PlainTextUncut(s[1..], depth);
    }
  }

  /** Strings inside lists must be sheltered; strings elsewhere may be anything. */
  predicate ListSafe(v: Value, inList: bool) {
    match v
    case Str(s) => inList ==> Sheltered(s, 0)
    case Array(items) => forall item :: item in items ==> ListSafe(item, true)
    case _ => true
  }

  lemma {:induction false} QuotedUncut(s: string, k: nat)
    ensures Uncut(Printed(Str(s)), k) <==> Uncut(s, k)
    ensures DepthOver(Printed(Str(s)), k) == DepthOver(s, k)
  {
    var q := "\"" + Escaped(s) + "\"";
    assert Printed(Str(s)) == q;
    PlainTextUncut("\"", k);
    PlainTextUncut("\"", DepthOver(s, k));
    UncutConcat("\"", Escaped(s), k);
    UncutConcat("\"" + Escaped(s), "\"", k);
    EscapingSpares(s, k);
  }

  /** A printed list item is never cut and leaves the depth as it was. */
  lemma {:induction false} PrintedIsSpared(v: Value, k: nat)
    requires Printable(v) && ListSafe(v, true)
    ensures Uncut(Printed(v), k) && DepthOver(Printed(v), k) == k
    decreases v
  {
    match v
    case Int(i) =>
      IntReadsBack(i);
      PlainTextUncut(PrintedInt(i), k);
    case Str(s) =>
      QuotedUncut(s, k);
      ShelteredIsSpared(s, 0, k);
    case Array(items) =>
      JoinedIsSpared(items, k + 1);
      var j := Joined(items);
      assert ("[" + j)[1..] == j;
      UncutConcat("[" + j, "]", k);
      assert "]"[1..] == "";
  }

  /** Inside a list, the separator is not a cut of the enclosing list. */
  lemma SeparatorIsSpared(k: nat)
    requires k > 0
    ensures Uncut(", ", k) && DepthOver(", ", k) == k
  {
    assert ", "[1..] == " " && " "[1..] == "";
    assert DepthOver(" ", k) == DepthOver("", k);
    assert DepthOver(", ", k) == DepthOver(" ", k);
  }

  lemma {:induction false} JoinedIsSpared(items: seq<Value>, k: nat)
    requires forall item :: item in items ==> Printable(item) && ListSafe(item, true)
    requires k > 0
    ensures Uncut(Joined(items), k) && DepthOver(Joined(items), k) == k
    decreases items
  {
    if items != [] {
      PrintedIsSpared(items[0], k);
      if |items| > 1 {
        var first, rest := Printed(items[0]), Joined(items[1..]);
        JoinedIsSpared(items[1..], k);
        SeparatorIsSpared(k);
        UncutConcat(first, ", ", k);
        UncutConcat(first + ", ", rest, k);
      }
    }
  }

  // ------------------------------------------------------------- reading back

  lemma {:induction false} SplitOverUncut(s: string, rest: string, depth: int)
    requires Uncut(s, depth)
    ensures Split(s + rest, depth) == OntoFirst(s, Split(rest, DepthOver(s, depth)))
  {
    var parts := Split(rest, DepthOver(s, depth));
    if s == "" {
      assert s + rest == rest && s + parts[0] == parts[0];
    } else {
      var tail := s[1..];
      assert (s + rest)[1..] == tail + rest && [s[0]] + tail == s;
      SplitOverUncut(tail, rest, DepthAfter(s[0], depth));
      OntoFirstTwice([s[0]], tail, parts);
    }
  }

  lemma OntoFirstTwice(a: string, b: string, parts: seq<string>)
    requires parts != []
    ensures OntoFirst(a, OntoFirst(b, parts)) == OntoFirst(a + b, parts)
  {
    assert a + (b + parts[0]) == a + b + parts[0];
  }

  /** The part before the first top-level comma, and the rest. */
  lemma SplitAtComma(first: string, rest: string)
    requires Uncut(first, 0) && DepthOver(first, 0) == 0
    ensures Split(first + ", " + rest, 0) == [first] + OntoFirst(" ", Split(rest, 0))
  {
    var tail := " " + rest;
    assert first + ", " + rest == first + ("," + tail);
    SplitOverUncut(first, "," + tail, 0);
    assert ("," + tail)[1..] == tail;
    assert Split("," + tail, 0) == [""] + Split(tail, 0);
    assert tail[1..] == rest;
    assert Split(tail, 0) == OntoFirst(" ", Split(rest, 0));
    assert first + "" == first;
  }

  lemma SplitLone(first: string)
    requires Uncut(first, 0) && DepthOver(first, 0) == 0
    ensures Split(first, 0) == [first]
  {
    SplitOverUncut(first, "", 0);
    assert first + "" == first;
  }

  lemma SplitJoined(items: seq<Value>)
    requires items != [] && forall item :: item in items ==> Printable(item) && ListSafe(item, true)
    ensures Split(Joined(items), 0) ==
            if |items| == 1 then [Printed(items[0])]
            else [Printed(items[0])] + OntoFirst(" ", Split(Joined(items[1..]), 0))
  {
    PrintedIsSpared(items[0], 0);
    if |items| == 1 {
      SplitLone(Printed(items[0]));
    } else {
      SplitAtComma(Printed(items[0]), Joined(items[1..]));
    }
  }

  lemma PrintedIsTight(v: Value)
    requires Printable(v)
    ensures Tight(Printed(v))
  {
    match v
    case Int(i) => IntIsSpelled(i);
    case Str(s) =>
    case Array(items) =>
  }

  lemma TightIsTrimmed(s: string)
    requires Tight(s)
    ensures Trim(s) == s
  {
    TrimmedTight("", s);
    assert "" + s == s;
  }

  lemma StringReadsBack(s: string, floats: Floats)
    ensures Parsed(Printed(Str(s)), floats) == Str(s)
  {
    var p := Printed(Str(s));
    PrintedIsTight(Str(s));
    TightIsTrimmed(p);
    assert p[1..|p| - 1] == Escaped(s);
    UnescapeUndoesEscape(s);
    if p == "\"\"" {
      assert Escaped(s) == p[1..1];
      EscapedStart(s);
    }
  }

  /** What bracketed text with these parts reads as. */
  lemma BracketsReadAs(inner: string, floats: Floats)
    ensures forall p :: p in Split(inner, 0) ==> |p| <= |inner|
    ensures Parsed("[" + inner + "]", floats) == Array(ParsedItems(Split(inner, 0), |inner|, floats))
  {
    var p := "[" + inner + "]";
    TightIsTrimmed(p);
    PartsFit(inner, 0);
    assert p[1..|p| - 1] == inner;
    assert p != "\"\"" && !IsQuoted(p) && IsBracketed(p);
  }

  lemma IntLiteralReadsBack(i: int, floats: Floats)
    requires I64_MIN <= i <= I64_MAX
    ensures Parsed(PrintedInt(i), floats) == Int(i)
  {
    IntReadsBack(i);
    IntIsSpelled(i);
    TightIsTrimmed(PrintedInt(i));
  }

  /** Parsing undoes printing for every integer, every string, and every list, nested at
      will, whose strings are sheltered — whatever floating-point literals mean. */
  lemma {:induction false} ParseUndoesPrint(v: Value, inList: bool, floats: Floats)
    requires Printable(v) && ListSafe(v, inList)
    ensures Parsed(Printed(v), floats) == v
    decreases v
  {
    match v
    case Int(i) => IntLiteralReadsBack(i, floats);
    case Str(s) => StringReadsBack(s, floats);
    case Array(items) => ListReadsBack(items, floats);
  }

  lemma EmptyListReadsBack(floats: Floats)
    ensures Parsed("[" + "" + "]", floats) == Array([])
  {
    BracketsReadAs("", floats);
    assert [""][1..] == [];
  }

  lemma {:induction false} ListReadsBack(items: seq<Value>, floats: Floats)
    requires forall item :: item in items ==> Printable(item) && ListSafe(item, true)
    ensures Parsed("[" + Joined(items) + "]", floats) == Array(items)
    decreases items, 1
  {
    if items == [] {
      EmptyListReadsBack(floats);
    } else {
      var inner := Joined(items);
      var parts := Split(inner, 0);
      BracketsReadAs(inner, floats);
      assert OntoFirst("", parts) == parts by {
        assert "" + parts[0] == parts[0];
      }
      JoinedSplitsIntoItems(items, "");
      ItemsReadBack(items, parts, |inner|, floats);
    }
  }

  /** `parts` spell the items one by one, with whitespace around them. */
  predicate Spell(parts: seq<string>, items: seq<Value>) {
    |parts| == |items|
    && forall i :: 0 <= i < |items| ==> Printable(items[i]) && Trim(parts[i]) == Printed(items[i])
  }

  lemma SpellOneMore(part: string, rest: seq<string>, items: seq<Value>)
    requires items != [] && Printable(items[0]) && Trim(part) == Printed(items[0]) && Spell(rest, items[1..])
    ensures Spell([part] + rest, items)
  {
    forall i | 0 < i < |items| ensures Printable(items[i]) && Trim(([part] + rest)[i]) == Printed(items[i]) {
      assert items[i] == items[1..][i - 1] && ([part] + rest)[i] == rest[i - 1];
    }
  }

  lemma FirstPart(items: seq<Value>, gap: string)
    requires items != [] && forall item :: item in items ==> Printable(item) && ListSafe(item, true)
    requires Blank(gap)
    ensures Trim(gap + Printed(items[0])) == Printed(items[0])
    ensures OntoFirst(gap, Split(Joined(items), 0))
            == [gap + Printed(items[0])] + if |items| == 1 then [] else OntoFirst(" ", Split(Joined(items[1..]), 0))
  {
    SplitJoined(items);
    PrintedIsTight(items[0]);
    TrimmedTight(gap, Printed(items[0]));
  }

  lemma {:induction false} JoinedSplitsIntoItems(items: seq<Value>, gap: string)
    requires items != [] && forall item :: item in items ==> Printable(item) && ListSafe(item, true)
    requires Blank(gap)
    ensures Spell(OntoFirst(gap, Split(Joined(items), 0)), items)
  {
    FirstPart(items, gap);
    if |items| == 1 {
      SpellOneMore(gap + Printed(items[0]), [], items);
    } else {
      JoinedSplitsIntoItems(items[1..], " ");
      SpellOneMore(gap + Printed(items[0]), OntoFirst(" ", Split(Joined(items[1..]), 0)), items);
    }
  }

  lemma SpellRest(parts: seq<string>, items: seq<Value>, limit: nat)
    requires Spell(parts, items) && items != [] && forall p :: p in parts ==> |p| <= limit
    ensures Trim(parts[0]) == Printed(items[0]) && Printed(items[0]) != ""
    ensures Spell(parts[1..], items[1..]) && forall p :: p in parts[1..] ==> |p| <= limit
  {
    PrintedIsTight(items[0]);
    forall i | 0 <= i < |items[1..]| ensures Printable(items[1..][i]) && Trim(parts[1..][i]) == Printed(items[1..][i]) {
      assert items[1..][i] == items[i + 1] && parts[1..][i] == parts[i + 1];
    }
  }

  lemma ItemThenRest(items: seq<Value>, parts: seq<string>, limit: nat, floats: Floats)
    requires items != [] && parts != [] && forall p :: p in parts ==> |p| <= limit
    requires forall p :: p in parts[1..] ==> |p| <= limit
    requires Trim(parts[0]) != "" && Parsed(Trim(parts[0]), floats) == items[0]
    requires ParsedItems(parts[1..], limit, floats) == items[1..]
    ensures ParsedItems(parts, limit, floats) == items
  {
    assert items == [items[0]] + items[1..];
  }

  lemma {:induction false} ItemsReadBack(items: seq<Value>, parts: seq<string>, limit: nat, floats: Floats)
    requires forall item :: item in items ==> Printable(item) && ListSafe(item, true)
    requires Spell(parts, items) && forall p :: p in parts ==> |p| <= limit
    ensures ParsedItems(parts, limit, floats) == items
    decreases items, 0
  {
    if items != [] {
      assert items[0] in items;
      ParseUndoesPrint(items[0], true, floats);
      SpellRest(parts, items, limit);
      ItemsReadBack(items[1..], parts[1..], limit, floats);
      ItemThenRest(items, parts, limit, floats);
    }
  }

  // -------------------------------------------------- spellings of other kinds

  lemma {:induction false} LeadingZeros(zeros: string, s: string)
    requires forall i :: 0 <= i < |zeros| ==> zeros[i] == '0'
    ensures Digits(zeros + s) == Digits(s)
    decreases |zeros| + |s|
  {
    if s != "" {
      assert (zeros + s)[..|zeros + s| - 1] == zeros + s[..|s| - 1];
      LeadingZeros(zeros, s[..|s| - 1]);
    } else if zeros != "" {
      assert (zeros + s)[..|zeros + s| - 1] == zeros[..|zeros| - 1] + s;
      LeadingZeros(zeros[..|zeros| - 1], s);
    }
  }

  /** Integers may also be spelled with leading zeros and with a sign; beyond 64 bits no
      integer is read. */
  lemma IntSpellings(sign: string, zeros: string, n: nat)
    requires sign == "" || sign == "+" || sign == "-"
    requires forall i :: 0 <= i < |zeros| ==> zeros[i] == '0'
    ensures var i: int := if sign == "-" then 0 - n else n as int;
            ParsedInt(sign + (zeros + PrintedNat(n)))
            == if -0x8000_0000_0000_0000 <= i <= 0x7fff_ffff_ffff_ffff then Some(i) else None
  {
    var digits := zeros + PrintedNat(n);
    LeadingZeros(zeros, PrintedNat(n));
    DigitsReadBack(n);
    if sign == "" {
      assert sign + digits == digits;
      FirstDigit(zeros, n);
    } else {
      assert (sign + digits)[1..] == digits;
    }
  }

  lemma FirstDigit(zeros: string, n: nat)
    requires forall i :: 0 <= i < |zeros| ==> zeros[i] == '0'
    ensures IsDigit((zeros + PrintedNat(n))[0])
  {
    assert PrintedNat(n)[0] in PrintedNat(n);
  }

  lemma {:induction false} DigitsSpell(s: string) returns (zeros: string, n: nat)
    requires s != "" && Digits(s).Some?
    ensures s == zeros + PrintedNat(n) && forall i :: 0 <= i < |zeros| ==> zeros[i] == '0'
  {
    var front, last := s[..|s| - 1], s[|s| - 1];
    var d := last as int - '0' as int;
    if front == "" {
      zeros, n := "", d;
      assert s == [last] == "" + PrintedNat(d);
    } else {
      zeros, n := DigitsSpell(front);
      assert s == front + [last] == zeros + (PrintedNat(n) + [last]);
      if n == 0 {
        zeros, n := zeros + "0", d;
      } else {
        n := 10 * n + d;
      }
    }
  }

  /** Nothing else is read as an integer. */
  lemma OnlySpelledIntsParse(s: string) returns (sign: string, zeros: string, n: nat)
    requires ParsedInt(s).Some?
    ensures sign == "" || sign == "+" || sign == "-"
    ensures forall i :: 0 <= i < |zeros| ==> zeros[i] == '0'
    ensures s == sign + (zeros + PrintedNat(n))
  {
    if s[0] == '-' || s[0] == '+' {
      sign := s[..1];
      zeros, n := DigitsSpell(s[1..]);
      assert s == s[..1] + s[1..];
    } else {
      sign := "";
      zeros, n := DigitsSpell(s);
      assert s == "" + s;
    }
  }

  /** Text that is neither quoted nor bracketed nor an integer. */
  predicate IsWord(s: string) {
    Tight(s) && !IsQuoted(s) && !IsBracketed(s) && ParsedInt(s).None?
  }

  /** Whitespace around a value does not count, and alone it is the empty text. */
  lemma MarginsDoNotCount(before: string, s: string, after: string, floats: Floats)
    requires Blank(before) && Blank(after) && (s == "" || Tight(s))
    ensures Parsed(before + s + after, floats) == if s == "" then Str("") else Parsed(s, floats)
    ensures !IsQuoted(s) ==> Unquoted(before + s + after) == s
    ensures IsQuoted(s) ==> Unquoted(before + s + after) == Unescaped(s[1..|s| - 1])
  {
    TrimsBothEnds(before, s, after);
    if s != "" {
      TightIsTrimmed(s);
    }
  }

  function WordValue(s: string, floats: Floats): Value {
    if floats(s).Some? then floats(s).value else Str(s)
  }

  /** A bare word, whatever surrounds it, reads as itself unless it spells a float. */
  lemma WordReadsBack(before: string, s: string, after: string, floats: Floats)
    requires Blank(before) && Blank(after) && IsWord(s)
    ensures Parsed(before + s + after, floats) == WordValue(s, floats)
  {
    MarginsDoNotCount(before, s, after, floats);
    TightIsTrimmed(s);
  }

  /** Parts with commas between them. */
  function Listed(parts: seq<string>): string
    requires parts != []
  {
    if |parts| == 1 then parts[0] else parts[0] + ("," + Listed(parts[1..]))
  }

  /** Splitting leaves the part in one piece. */
  predicate Whole(part: string) {
    Uncut(part, 0) && DepthOver(part, 0) == 0
  }

  lemma {:induction false} ListedSplits(parts: seq<string>)
    requires parts != [] && forall i :: 0 <= i < |parts| ==> Whole(parts[i])
    ensures Split(Listed(parts), 0) == parts
  {
    if |parts| == 1 {
      SplitLone(parts[0]);
    } else {
      var rest := Listed(parts[1..]);
      ListedSplits(parts[1..]);
      SplitOverUncut(parts[0], "," + rest, 0);
      assert ("," + rest)[1..] == rest;
      assert parts[0] + "" == parts[0];
    }
  }

  /** What each part that is not blank reads as. */
  function ReadAll(parts: seq<string>, floats: Floats): seq<Value> {
    if parts == [] then []
    else (if Blank(parts[0]) then [] else [Parsed(parts[0], floats)]) + ReadAll(parts[1..], floats)
  }

  lemma PartReads(part: string, floats: Floats)
    ensures Trim(part) == "" <==> Blank(part)
    ensures Trim(part) != "" ==> Parsed(Trim(part), floats) == Parsed(part, floats)
  {
    var before, after := TrimSplits(part);
    if Trim(part) != "" {
      var i := |before|;
      assert part[i] == Trim(part)[0] && part[i] in part;
      MarginsDoNotCount(before, Trim(part), after, floats);
    } else {
      assert part == before + after;
    }
  }

  lemma {:induction false} ItemsReadAll(parts: seq<string>, limit: nat, floats: Floats)
    requires forall p :: p in parts ==> |p| <= limit
    ensures ParsedItems(parts, limit, floats) == ReadAll(parts, floats)
  {
    if parts != [] {
      PartReads(parts[0], floats);
      ItemsReadAll(parts[1..], limit, floats);
    }
  }

  /** A list reads as what its parts do, one by one, blank ones left out: bare words, numbers,
      quoted texts and lists alike. */
  lemma ListReadsAll(parts: seq<string>, floats: Floats)
    requires parts != [] && forall i :: 0 <= i < |parts| ==> Whole(parts[i])
    ensures Parsed("[" + Listed(parts) + "]", floats) == Array(ReadAll(parts, floats))
  {
    var inner := Listed(parts);
    BracketsReadAs(inner, floats);
    ListedSplits(parts);
    ItemsReadAll(parts, |inner|, floats);
  }

  lemma WordAlone(s: string, floats: Floats)
    requires IsWord(s)
    ensures !Blank(s) && Parsed(s, floats) == WordValue(s, floats)
  {
    assert s[0] in s;
    WordReadsBack("", s, "", floats);
    assert "" + s + "" == s;
  }

  /** Bare words are list items as they are flag values. */
  lemma {:induction false} WordsReadBack(words: seq<string>, floats: Floats)
    requires forall i :: 0 <= i < |words| ==> IsWord(words[i])
    ensures |ReadAll(words, floats)| == |words|
    ensures forall i :: 0 <= i < |words| ==> ReadAll(words, floats)[i] == WordValue(words[i], floats)
  {
    if words != [] {
      WordAlone(words[0], floats);
      WordsReadBack(words[1..], floats);
    }
  }

  // ----------------------------------------- strings that lists cannot hold

  /** A string inside `k` lists, and a string followed by another item. */
  function Nested(s: string, k: nat): Value {
    if k == 0 then Str(s) else Array([Nested(s, k - 1)])
  }

  function InPair(s: string): Value {
    Array([Str(s), Int(0)])
  }

  predicate NestsBack(s: string, k: nat, floats: Floats) {
    var v := Nested(s, k);
    Printable(v) && Parsed(Printed(v), floats) == v
  }

  predicate PairsBack(s: string, floats: Floats) {
    var v := InPair(s);
    Parsed(Printed(v), floats) == v
  }

  /** Text that splitting cuts: what stands before its first cut, and after. */
  lemma {:induction false} FirstCut(t: string, depth: int) returns (a: string, b: string)
    requires !Uncut(t, depth)
    ensures t == a + "," + b && Split(t, depth) == [a] + Split(b, 0)
  {
    if t[0] == ',' && depth == 0 {
      a, b := "", t[1..];
    } else {
      a, b := FirstCut(t[1..], DepthAfter(t[0], depth));
      assert t == [t[0]] + t[1..];
      var rest := Split(t[1..], DepthAfter(t[0], depth));
      assert rest[0] == a && rest[1..] == Split(b, 0);
      a := [t[0]] + a;
    }
  }

  /** Text that ends in ink leaves ink in some part. */
  lemma {:induction false} InkSurvivesSplit(s: string, depth: int) returns (i: nat, j: nat)
    requires s != "" && !IsWhitespace(s[|s| - 1]) && s[|s| - 1] != ','
    ensures i < |Split(s, depth)| && j < |Split(s, depth)[i]| && !IsWhitespace(Split(s, depth)[i][j])
  {
    if |s| == 1 {
      assert s[1..] == "";
      i, j := 0, 0;
    } else {
      i, j := InkSurvivesSplit(s[1..], if s[0] == ',' && depth == 0 then depth else DepthAfter(s[0], depth));
      if s[0] == ',' && depth == 0 {
        i := i + 1;
      } else if i == 0 {
        j := j + 1;
      }
    }
  }

  lemma {:induction false} InkGivesItem(parts: seq<string>, limit: nat, i: nat, j: nat, floats: Floats)
    requires forall p :: p in parts ==> |p| <= limit
    requires i < |parts| && j < |parts[i]| && !IsWhitespace(parts[i][j])
    ensures |ParsedItems(parts, limit, floats)| >= 1
  {
    if i == 0 {
      TrimKeepsInk(parts[0], j);
    } else {
      InkGivesItem(parts[1..], limit, i - 1, j, floats);
    }
  }

  /** Bracketed text that splitting cuts reads as at least two items. */
  lemma CutGivesTwoItems(t: string, floats: Floats)
    requires Tight(t) && t[0] != ',' && t[|t| - 1] != ',' && !Uncut(t, 0)
    ensures Parsed("[" + t + "]", floats).Array? && |Parsed("[" + t + "]", floats).items| >= 2
  {
    BracketsReadAs(t, floats);
    var a, b := FirstCut(t, 0);
    assert a != "" && b != "" && a[0] == t[0];
    var i, j := InkSurvivesSplit(b, 0);
    TrimKeepsInk(a, 0);
    var parts := Split(t, 0);
    assert parts[0..] == parts && parts[1..] == Split(b, 0);
    ItemsFrom(parts, 0, |t|, floats);
    InkGivesItem(parts[1..], |t|, i, j, floats);
  }

  /** Bracketed text that splitting spares reads as at most one item. */
  lemma SparedGivesOneItem(t: string, floats: Floats)
    requires Uncut(t, 0)
    ensures Parsed("[" + t + "]", floats).Array? && |Parsed("[" + t + "]", floats).items| <= 1
  {
    BracketsReadAs(t, floats);
    SplitOverUncut(t, "", 0);
    assert t + "" == t;
    assert Split(t, 0)[1..] == [];
  }

  lemma {:induction false} NestingKeepsCut(s: string, k: nat, d: nat)
    requires !Uncut(s, d + k)
    ensures Printable(Nested(s, k)) && !Uncut(Printed(Nested(s, k)), d)
    ensures var p := Printed(Nested(s, k)); Tight(p) && p[0] != ',' && p[|p| - 1] != ','
  {
    if k == 0 {
      QuotedUncut(s, d);
    } else {
      NestingKeepsCut(s, k - 1, d + 1);
      var inner := Printed(Nested(s, k - 1));
      assert Printed(Nested(s, k)) == "[" + inner + "]";
      UncutConcat("[" + inner, "]", d);
      assert ("[" + inner)[1..] == inner;
    }
  }

  lemma {:induction false} DepthShifts(s: string, depth: int, k: int)
    ensures DepthOver(s, depth + k) == DepthOver(s, depth) + k
  {
    if s != "" {
      DepthShifts(s[1..], DepthAfter(s[0], depth), k);
    }
  }

  lemma UnbalancedPairFails(s: string, floats: Floats)
    requires Uncut(s, 0) && DepthOver(s, 0) != 0
    ensures !PairsBack(s, floats)
  {
    var first, d := Printed(Str(s)), DepthOver(s, 0);
    QuotedUncut(s, 0);
    assert [Str(s), Int(0)][1..] == [Int(0)];
    assert Joined([Int(0)]) == Printed(Int(0)) == "0";
    var inner := first + ", " + "0";
    assert Printed(InPair(s)) == "[" + inner + "]";
    UncutConcat(first, ", ", 0);
    UncutConcat(first + ", ", "0", 0);
    assert ", "[1..] == " ";
    PlainTextUncut(" ", d);
    assert Uncut(", ", d) && DepthOver(", ", d) == DepthOver(" ", d);
    PlainTextUncut("0", d);
    SparedGivesOneItem(inner, floats);
  }

  lemma ShelteredReadsBack(s: string, k: nat, floats: Floats)
    requires Sheltered(s, 0)
    ensures NestsBack(s, k, floats)
  {
    NestedIsSafe(s, k);
    ParseUndoesPrint(Nested(s, k), false, floats);
  }

  /** Text that splitting cuts inside `m` lists breaks one list further out. */
  lemma CutStringFails(s: string, m: nat, floats: Floats)
    requires !Uncut(s, m)
    ensures !NestsBack(s, m + 1, floats)
  {
    NestingKeepsCut(s, m, 0);
    CutGivesTwoItems(Printed(Nested(s, m)), floats);
    assert Printed(Nested(s, m + 1)) == "[" + Printed(Nested(s, m)) + "]";
  }

  lemma UnshelteredBreaks(s: string) returns (k: nat)
    requires !Sheltered(s, 0)
    ensures !Uncut(s, k) || (Uncut(s, 0) && DepthOver(s, 0) != 0)
  {
    k := UnshelteredIsNotSpared(s, 0);
    DepthShifts(s, 0, k);
    k := if Uncut(s, 0) then k else 0;
  }

  lemma UnshelteredFails(s: string, floats: Floats) returns (m: nat)
    requires !Sheltered(s, 0)
    ensures !NestsBack(s, m, floats) || !PairsBack(s, floats)
  {
    var k := UnshelteredBreaks(s);
    if Uncut(s, k) {
      UnbalancedPairFails(s, floats);
    } else {
      CutStringFails(s, k, floats);
    }
    m := k + 1;
  }

  /** A string reads back from every depth of nesting and from beside another item exactly
      when it is sheltered. */
  lemma ListStringsReadBackIff(s: string, floats: Floats)
    ensures (forall k: nat :: NestsBack(s, k, floats)) && PairsBack(s, floats) <==> Sheltered(s, 0)
  {
    if Sheltered(s, 0) {
      forall k: nat ensures NestsBack(s, k, floats) { ShelteredReadsBack(s, k, floats); }
      ParseUndoesPrint(InPair(s), false, floats);
    } else {
      var m := UnshelteredFails(s, floats);
    }
  }

  lemma {:induction false} NestedIsSafe(s: string, k: nat)
    requires Sheltered(s, 0)
    ensures Printable(Nested(s, k)) && ListSafe(Nested(s, k), true)
  {
    if k > 0 {
      NestedIsSafe(s, k - 1);
    }
  }
}
