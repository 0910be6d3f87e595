/** The few string operations that the command line relies on. */
module Text {
  /** The Unicode White_Space property. */
  predicate IsWhitespace(c: char) {
    var n := c as int;
    0x9 <= n <= 0xD || n == 0x20 || n == 0x85 || n == 0xA0 || n == 0x1680 || 0x2000 <= n <= 0x200A
    || n == 0x2028 || n == 0x2029 || n == 0x202F || n == 0x205F || n == 0x3000
  }

  predicate Blank(s: string) {
    forall c :: c in s ==> IsWhitespace(c)
  }

  function TrimStart(s: string): (t: string)
    ensures |t| <= |s|
  {
    if s != "" && IsWhitespace(s[0]) then TrimStart(s[1..]) else s
  }

  function TrimEnd(s: string): (t: string)
    ensures |t| <= |s|
  {
    if s != "" && IsWhitespace(s[|s| - 1]) then TrimEnd(s[..|s| - 1]) else s
  }

  function Trim(s: string): (t: string)
    ensures |t| <= |s|
  {
    TrimEnd(TrimStart(s))
  }

  /** Neither end is whitespace, and there is something in between. */
  predicate Tight(s: string) {
    s != "" && !IsWhitespace(s[0]) && !IsWhitespace(s[|s| - 1])
  }

  lemma {:induction false} StartTrimmed(gap: string, s: string)
    requires Blank(gap) && (s == "" || !IsWhitespace(s[0]))
    ensures TrimStart(gap + s) == s
  {
    if gap == "" {
      assert gap + s == s;
    } else {
      assert (gap + s)[1..] == gap[1..] + s;
      assert gap[0] in gap;
      StartTrimmed(gap[1..], s);
    }
  }

  lemma {:induction false} EndTrimmed(s: string, gap: string)
    requires Blank(gap) && (s == "" || !IsWhitespace(s[|s| - 1]))
    ensures TrimEnd(s + gap) == s
  {
    if gap == "" {
      assert s + gap == s;
    } else {
      assert (s + gap)[..|s + gap| - 1] == s + gap[..|gap| - 1];
      assert gap[|gap| - 1] in gap;
      EndTrimmed(s, gap[..|gap| - 1]);
    }
  }

  /** Trimming takes whitespace off both ends and nothing else; of blank text it leaves
      nothing. */
  lemma TrimsBothEnds(before: string, s: string, after: string)
    requires Blank(before) && Blank(after) && (s == "" || Tight(s))
    ensures Trim(before + s + after) == s
  {
    assert before + s + after == before + (s + after);
    if s == "" {
      assert before + s + after == (before + after) + "";
      StartTrimmed(before + after, "");
    } else {
      StartTrimmed(before, s + after);
      EndTrimmed(s, after);
    }
  }

  /** Every text is what trimming leaves of it, between blanks. */
  lemma {:induction false} TrimSplits(s: string) returns (before: string, after: string)
    ensures Blank(before) && Blank(after) && s == before + Trim(s) + after
    ensures Trim(s) == "" || Tight(Trim(s))
  {
    before := StartSplits(s);
    var t := TrimStart(s);
    after := EndSplits(t);
    assert s == before + (Trim(s) + after) == before + Trim(s) + after;
    if Trim(s) != "" {
      assert Trim(s)[0] == t[0];
    }
  }

  lemma {:induction false} StartSplits(s: string) returns (gap: string)
    ensures Blank(gap) && s == gap + TrimStart(s)
    ensures TrimStart(s) == "" || !IsWhitespace(TrimStart(s)[0])
  {
    if s != "" && IsWhitespace(s[0]) {
      gap := StartSplits(s[1..]);
      assert s == [s[0]] + s[1..] == ([s[0]] + gap) + TrimStart(s);
      gap := [s[0]] + gap;
    } else {
      gap := "";
      assert s == gap + s;
    }
  }

  lemma {:induction false} EndSplits(s: string) returns (gap: string)
    ensures Blank(gap) && s == TrimEnd(s) + gap
    ensures TrimEnd(s) == "" || !IsWhitespace(TrimEnd(s)[|TrimEnd(s)| - 1])
  {
    if s != "" && IsWhitespace(s[|s| - 1]) {
      var front, last := s[..|s| - 1], s[|s| - 1];
      gap := EndSplits(front);
      assert s == front + [last] == TrimEnd(s) + (gap + [last]);
      gap := gap + [last];
    } else {
      gap := "";
      assert s == s + gap;
    }
  }

  lemma TrimmedTight(gap: string, s: string)
    requires Blank(gap) && Tight(s)
    ensures Trim(gap + s) == s
  {
    TrimsBothEnds(gap, s, "");
    assert gap + s + "" == gap + s;
  }

  /** Trimming leaves nothing only of blank text. */
  lemma TrimKeepsInk(s: string, i: nat)
    requires i < |s| && !IsWhitespace(s[i])
    ensures Trim(s) != ""
  {
    var before, after := TrimSplits(s);
    assert s[i] in before + Trim(s) + after;
  }

  lemma SliceExtends<T>(s: seq<T>, from: nat, to: nat)
    requires from <= to < |s|
    ensures s[from..to] + [s[to]] == s[from..to + 1]
  {
  }

  /** Every quote preceded by a backslash. */
  function Escaped(s: string): string {
    if s == "" then ""
    else (if s[0] == '\"' then "\\\"" else [s[0]]) + Escaped(s[1..])
  }

  /** Every backslash-quote pair, from left to right, replaced by a quote. */
  function Unescaped(s: string): string {
    if s == "" then ""
    else if |s| >= 2 && s[0] == '\\' && s[1] == '\"' then "\"" + Unescaped(s[2..])
    else [s[0]] + Unescaped(s[1..])
  }

  /** Unescaping undoes escaping, backslashes in the text included. */
  lemma {:induction false} UnescapeUndoesEscape(s: string)
    ensures Unescaped(Escaped(s)) == s
  {
    if s != "" {
      UnescapeUndoesEscape(s[1..]);
      var e := Escaped(s[1..]);
      if s[0] == '\"' {
        assert Escaped(s) == ['\\', '\"'] + e;
        assert Escaped(s)[2..] == e;
      } else {
        assert Escaped(s) == [s[0]] + e;
        assert Escaped(s)[1..] == e;
        EscapedStart(s[1..]);
      }
    }
  }

  /** Escaped text never starts with a bare quote. */
  lemma EscapedStart(s: string)
    ensures Escaped(s) != "" ==> Escaped(s)[0] != '\"'
    ensures s == "" <==> Escaped(s) == ""
  {
  }

  /** The text holds a backslash right before a quote. */
  predicate HasEscapedQuote(s: string) {
    exists i :: 0 <= i < |s| - 1 && s[i] == '\\' && s[i + 1] == '\"'
  }

  /** Text is left alone by unescaping exactly when it holds no backslash-quote pair. */
  lemma {:induction false} UnescapeFixesIff(s: string)
    ensures |Unescaped(s)| <= |s|
    ensures Unescaped(s) == s <==> !HasEscapedQuote(s)
  {
    if s != "" {
      var tail := s[1..];
      if |s| >= 2 && s[0] == '\\' && s[1] == '\"' {
        UnescapeFixesIff(s[2..]);
        assert |Unescaped(s)| < |s|;
      } else {
        UnescapeFixesIff(tail);
        assert Unescaped(s) == [s[0]] + Unescaped(tail);
        assert s == [s[0]] + tail;
        if HasEscapedQuote(s) {
          var i :| 0 <= i < |s| - 1 && s[i] == '\\' && s[i + 1] == '\"';
          assert tail[i - 1] == '\\' && tail[i] == '\"';
          assert HasEscapedQuote(tail);
          assert Unescaped(s)[1..] == Unescaped(tail);
        }
        if HasEscapedQuote(tail) {
          var i :| 0 <= i < |tail| - 1 && tail[i] == '\\' && tail[i + 1] == '\"';
          assert s[i + 1] == '\\' && s[i + 2] == '\"';
        }
      }
    }
  }
}
