/** The parts of Python's `str` that the narration parser relies on
    (`isspace`, `strip`, `splitlines`, `index`, `int`, the `\n{3,}`
    substitution), written out over `seq<char>`. */
module Text {
  import opened Wrappers

  /** `str.isspace()`; `\s` in a text pattern and an argument-less
      `strip()` use this same set of characters. */
  predicate IsSpace(c: char) {
    ('\t' <= c <= '\r') || ('\U{1C}' <= c <= ' ') || c == '\U{85}' || c == '\U{A0}'
    || c == '\U{1680}' || ('\U{2000}' <= c <= '\U{200A}') || c == '\U{2028}'
    || c == '\U{2029}' || c == '\U{202F}' || c == '\U{205F}' || c == '\U{3000}'
  }

  /** The characters at which `str.splitlines()` ends a line; the pair
      "\r\n" counts as one break. Every one of them is also a space. */
  predicate IsLineBreak(c: char) {
    ('\n' <= c <= '\r') || ('\U{1C}' <= c <= '\U{1E}') || c == '\U{85}'
    || c == '\U{2028}' || c == '\U{2029}'
  }

  predicate IsDigit(c: char) { '0' <= c <= '9' }

  /** A character of `\w`, as far as ASCII goes. */
  predicate IsWordChar(c: char) {
    IsDigit(c) || ('a' <= c <= 'z') || ('A' <= c <= 'Z') || c == '_'
  }

  function Lower(c: char): char {
    if 'A' <= c <= 'Z' then (c as int + 32) as char else c
  }

  predicate EqualsIgnoringCase(a: string, b: string) {
    |a| == |b| && forall i :: 0 <= i < |a| ==> Lower(a[i]) == Lower(b[i])
  }

  predicate AllDigits(s: string) {
    forall i :: 0 <= i < |s| ==> IsDigit(s[i])
  }

  predicate NoNewline(s: string) {
    forall i :: 0 <= i < |s| ==> s[i] != '\n'
  }

  /** No leading and no trailing whitespace. */
  predicate IsTrimmed(s: string) {
    s == [] || (!IsSpace(s[0]) && !IsSpace(s[|s| - 1]))
  }

  /** Three newlines in a row start at `i`. */
  predicate TripleNewlineAt(s: string, i: nat)
    requires i + 2 < |s|
  {
    s[i] == '\n' && s[i + 1] == '\n' && s[i + 2] == '\n'
  }

  predicate NoTripleNewline(s: string) {
    forall i: nat :: i + 2 < |s| ==> !TripleNewlineAt(s, i)
  }

  /** The character classes the scanning code looks for. */
  datatype CharClass = Whitespace | Digit | Newline | NotLineBreak

  predicate InClass(c: char, cls: CharClass) {
    match cls
    case Whitespace => IsSpace(c)
    case Digit => IsDigit(c)
    case Newline => c == '\n'
    case NotLineBreak => !IsLineBreak(c)
  }

  /** The end of the longest run of characters of class `cls` that starts
      at `from`. */
  function Span(s: string, from: nat, cls: CharClass): (j: nat)
    requires from <= |s|
    ensures from <= j <= |s|
    decreases |s| - from
  {
    if from == |s| || !InClass(s[from], cls) then from else Span(s, from + 1, cls)
  }

  /** The run is in the class and cannot be extended. */
  lemma {:induction false} SpanFacts(s: string, from: nat, cls: CharClass)
    requires from <= |s|
    ensures forall k :: from <= k < Span(s, from, cls) ==> InClass(s[k], cls)
    ensures Span(s, from, cls) == |s| || !InClass(s[Span(s, from, cls)], cls)
    decreases |s| - from
  {
    if from < |s| && InClass(s[from], cls) {
      SpanFacts(s, from + 1, cls);
    }
  }

  /** A run of class `cls` that cannot be extended is the one `Span` finds. */
  lemma {:induction false} SpanReaches(s: string, from: nat, cls: CharClass, e: nat)
    requires from <= e <= |s|
    requires forall k :: from <= k < e ==> InClass(s[k], cls)
    requires e == |s| || !InClass(s[e], cls)
    ensures Span(s, from, cls) == e
    decreases e - from
  {
    if from < e {
      SpanReaches(s, from + 1, cls, e);
    }
  }

  /** `s.index(c, from)`: the first position at or after `from` holding `c`;
      `None` where Python raises `ValueError`. */
  function IndexFrom(s: string, c: char, from: nat): (r: Option<nat>)
    ensures r.Some? ==> from <= r.value < |s| && s[r.value] == c
    decreases |s| - from
  {
    if from >= |s| then None
    else if s[from] == c then Some(from)
    else IndexFrom(s, c, from + 1)
  }

  /** Any `c` at or after `from` is found, at that position or earlier: the
      search stops at the first occurrence and fails only when there is none. */
  lemma {:induction false} IndexFromFinds(s: string, c: char, from: nat, k: nat)
    requires from <= k < |s| && s[k] == c
    ensures IndexFrom(s, c, from).Some? && IndexFrom(s, c, from).value <= k
    decreases k - from
  {
    if s[from] != c {
      IndexFromFinds(s, c, from + 1, k);
    }
  }

  /** `s[lo:hi]` for non-negative bounds: both are clamped to the length and
      a reversed range is empty. */
  function Slice(s: string, lo: nat, hi: nat): (r: string)
    ensures lo <= hi <= |s| ==> r == s[lo..hi]
    ensures hi <= lo ==> r == []
  {
    var a := if lo < |s| then lo else |s|;
    var b := if hi < |s| then hi else |s|;
    if a < b then s[a..b] else []
  }

  // ---------------------------------------------------------------- strip

  function TrimLeft(s: string): string
    decreases |s|
  {
    if s != [] && IsSpace(s[0]) then TrimLeft(s[1..]) else s
  }

  function TrimRight(s: string): string
    decreases |s|
  {
    if s != [] && IsSpace(s[|s| - 1]) then TrimRight(s[..|s| - 1]) else s
  }

  /** `lstrip()` removes a prefix made of whitespace, and all of it. */
  lemma {:induction false} TrimLeftFacts(s: string)
    ensures |TrimLeft(s)| <= |s| && TrimLeft(s) == s[|s| - |TrimLeft(s)|..]
    ensures forall k :: 0 <= k < |s| - |TrimLeft(s)| ==> IsSpace(s[k])
    ensures TrimLeft(s) == [] || !IsSpace(TrimLeft(s)[0])
    decreases |s|
  {
    if s != [] && IsSpace(s[0]) {
      TrimLeftFacts(s[1..]);
      assert s[1..][|s| - 1 - |TrimLeft(s[1..])|..] == s[|s| - |TrimLeft(s[1..])|..];
    }
  }

  /** `rstrip()` removes a suffix made of whitespace, and all of it. */
  lemma {:induction false} TrimRightFacts(s: string)
    ensures |TrimRight(s)| <= |s| && TrimRight(s) == s[..|TrimRight(s)|]
    ensures forall k :: |TrimRight(s)| <= k < |s| ==> IsSpace(s[k])
    ensures TrimRight(s) == [] || !IsSpace(TrimRight(s)[|TrimRight(s)| - 1])
    decreases |s|
  {
    if s != [] && IsSpace(s[|s| - 1]) {
      TrimRightFacts(s[..|s| - 1]);
      assert s[..|s| - 1][..|TrimRight(s[..|s| - 1])|] == s[..|TrimRight(s[..|s| - 1])|];
    }
  }

  /** `s.strip()`. */
  function Strip(s: string): string {
    TrimRight(TrimLeft(s))
  }

  /** `strip()` leaves a slice of `s`. */
  lemma {:induction false} StripSlice(s: string)
    ensures |TrimLeft(s)| <= |s|
    ensures var i := |s| - |TrimLeft(s)|;
              i + |Strip(s)| <= |s| && Strip(s) == s[i..i + |Strip(s)|]
  {
    var l := TrimLeft(s);
    TrimLeftFacts(s);
    var r := TrimRight(l);
    TrimRightFacts(l);
    var i := |s| - |l|;
    assert l == s[i..] && r == l[..|r|];
    assert Strip(s) == r;
    assert s[i..][..|r|] == s[i..i + |r|];
  }

  /** What `strip()` removes is whitespace. */
  lemma {:induction false} StripSpaces(s: string)
    ensures |TrimLeft(s)| <= |s|
    ensures var i := |s| - |TrimLeft(s)|;
              (forall k :: 0 <= k < i ==> IsSpace(s[k]))
              && (forall k :: i + |Strip(s)| <= k < |s| ==> IsSpace(s[k]))
  {
    var l := TrimLeft(s);
    TrimLeftFacts(s);
    TrimRightFacts(l);
    var i := |s| - |l|;
    forall k | i + |Strip(s)| <= k < |s| ensures IsSpace(s[k]) {
      assert s[k] == l[k - i];
    }
  }

  /** What `strip()` leaves has no whitespace at either end. */
  lemma {:induction false} StripTrimmed(s: string)
    ensures IsTrimmed(Strip(s))
  {
    var l := TrimLeft(s);
    TrimLeftFacts(s);
    TrimRightFacts(l);
    var r := TrimRight(l);
    if r != [] {
      assert r[0] == l[0];
    }
  }

  /** `strip()` leaves the slice of `s` between its leading and its
      trailing whitespace. */
  lemma {:induction false} StripFacts(s: string)
    ensures |TrimLeft(s)| <= |s|
    ensures IsTrimmed(Strip(s))
    ensures var i := |s| - |TrimLeft(s)|;
              i + |Strip(s)| <= |s| && Strip(s) == s[i..i + |Strip(s)|]
              && (forall k :: 0 <= k < i ==> IsSpace(s[k]))
              && (forall k :: i + |Strip(s)| <= k < |s| ==> IsSpace(s[k]))
    ensures NoNewline(s) ==> NoNewline(Strip(s))
  {
    StripSlice(s);
    StripSpaces(s);
    StripTrimmed(s);
    var i := |s| - |TrimLeft(s)|;
    var r := Strip(s);
    assert forall k :: 0 <= k < |r| ==> r[k] == s[i + k];
  }

  // ---------------------------------------------------------- splitlines

  /** `s.splitlines()`: the lines of `s` without their breaks; a break at
      the very end does not start another line. */
  function SplitLines(s: string): seq<string>
    decreases |s|
  {
    if s == [] then []
    else
      var i := Span(s, 0, NotLineBreak);
      if i == |s| then [s] else [s[..i]] + SplitLines(s[BreakEnd(s, i)..])
  }

  /** Where the break starting at `i` ends: "\r\n" is one break. */
  function BreakEnd(s: string, i: nat): (next: nat)
    requires i < |s|
    ensures i < next <= |s|
  {
    if s[i] == '\r' && i + 1 < |s| && s[i + 1] == '\n' then i + 2 else i + 1
  }

  /** The break after each line of `SplitLines(s)`; "" when the last line
      runs to the end of the text. */
  function LineBreaks(s: string): seq<string>
    decreases |s|
  {
    if s == [] then []
    else
      var i := Span(s, 0, NotLineBreak);
      if i == |s| then [""] else [s[i..BreakEnd(s, i)]] + LineBreaks(s[BreakEnd(s, i)..])
  }

  /** No line `splitlines()` returns holds a line break. */
  lemma {:induction false} SplitLinesFacts(s: string)
    ensures forall i :: 0 <= i < |SplitLines(s)| ==> NoNewline(SplitLines(s)[i])
    ensures forall i, k :: 0 <= i < |SplitLines(s)| && 0 <= k < |SplitLines(s)[i]| ==> !IsLineBreak(SplitLines(s)[i][k])
    decreases |s|
  {
    if s != [] {
      var i := Span(s, 0, NotLineBreak);
      SpanFacts(s, 0, NotLineBreak);
      if i < |s| {
        SplitLinesFacts(s[BreakEnd(s, i)..]);
      }
    }
  }

  /** One line break as `splitlines()` reads it: "\r\n", or a single
      break character. */
  predicate IsBreak(b: string) {
    b == "\r\n" || (|b| == 1 && IsLineBreak(b[0]))
  }

  /** Each line followed by its break, all concatenated. */
  function Interleave(lines: seq<string>, breaks: seq<string>): string
    requires |lines| == |breaks|
    decreases |lines|
  {
    if lines == [] then "" else lines[0] + breaks[0] + Interleave(lines[1..], breaks[1..])
  }

  lemma InterleaveCons(x: string, b: string, lines: seq<string>, breaks: seq<string>)
    requires |lines| == |breaks|
    ensures Interleave([x] + lines, [b] + breaks) == x + b + Interleave(lines, breaks)
  {
    assert ([x] + lines)[1..] == lines && ([b] + breaks)[1..] == breaks;
  }

  lemma {:induction false} LineBreaksLength(s: string)
    ensures |LineBreaks(s)| == |SplitLines(s)|
    decreases |s|
  {
    if s != [] && Span(s, 0, NotLineBreak) < |s| {
      LineBreaksLength(s[BreakEnd(s, Span(s, 0, NotLineBreak))..]);
    }
  }

  /** There is one break per line; each is a break, except that the last
      may be missing. */
  lemma {:induction false} LineBreaksAreBreaks(s: string)
    ensures |LineBreaks(s)| == |SplitLines(s)|
    ensures forall j :: 0 <= j < |LineBreaks(s)| - 1 ==> IsBreak(LineBreaks(s)[j])
    ensures LineBreaks(s) != [] ==> IsBreak(Last(LineBreaks(s))) || Last(LineBreaks(s)) == ""
    decreases |s|
  {
    if s != [] {
      var i := Span(s, 0, NotLineBreak);
      SpanFacts(s, 0, NotLineBreak);
      if i < |s| {
        var t := s[BreakEnd(s, i)..];
        LineBreaksAreBreaks(t);
        var b := s[i..BreakEnd(s, i)];
        assert IsBreak(b);
        assert LineBreaks(s) == [b] + LineBreaks(t);
        if t == [] {
          assert LineBreaks(s) == [b];
        }
      }
    }
  }

  function Last(xs: seq<string>): string
    requires xs != []
  {
    xs[|xs| - 1]
  }

  /** `splitlines()` loses only the breaks: the lines, each followed by its
      break, make up the text again. */
  lemma {:induction false} SplitLinesRoundTrip(s: string)
    ensures |LineBreaks(s)| == |SplitLines(s)|
    ensures Interleave(SplitLines(s), LineBreaks(s)) == s
    decreases |s|
  {
    LineBreaksLength(s);
    if s != [] {
      var i := Span(s, 0, NotLineBreak);
      if i == |s| {
        assert SplitLines(s) == [s] && LineBreaks(s) == [""];
        InterleaveCons(s, "", [], []);
      } else {
        var t := s[BreakEnd(s, i)..];
        SplitLinesRoundTrip(t);
        RoundTripStep(s, i);
      }
    }
  }

  lemma {:induction false} RoundTripStep(s: string, i: nat)
    requires i == Span(s, 0, NotLineBreak) < |s|
    requires |LineBreaks(s[BreakEnd(s, i)..])| == |SplitLines(s[BreakEnd(s, i)..])|
    requires Interleave(SplitLines(s[BreakEnd(s, i)..]), LineBreaks(s[BreakEnd(s, i)..])) == s[BreakEnd(s, i)..]
    ensures |LineBreaks(s)| == |SplitLines(s)|
    ensures Interleave(SplitLines(s), LineBreaks(s)) == s
  {
    var next := BreakEnd(s, i);
    var t := s[next..];
    var lines, breaks := SplitLines(t), LineBreaks(t);
    assert SplitLines(s) == [s[..i]] + lines;
    assert LineBreaks(s) == [s[i..next]] + breaks;
    calc {
      Interleave(SplitLines(s), LineBreaks(s));
      Interleave([s[..i]] + lines, [s[i..next]] + breaks);
      { InterleaveCons(s[..i], s[i..next], lines, breaks); }
      s[..i] + s[i..next] + t;
      { assert s[..i] + s[i..next] == s[..next]; }
      s;
    }
  }

  /** The edges of `splitlines()`: the empty text has no line, any other
      text has one; and a break at the very end does not start another
      line, so a last line without a break is never empty. Together with
      the round trip and the greedy reading of "\r\n", this fixes the
      split uniquely. */
  lemma {:induction false} SplitLinesEdges(s: string)
    ensures SplitLines(s) == [] <==> s == []
    ensures |LineBreaks(s)| == |SplitLines(s)|
    ensures LineBreaks(s) != [] && Last(LineBreaks(s)) == "" ==> Last(SplitLines(s)) != ""
    decreases |s|
  {
    LineBreaksLength(s);
    if s != [] {
      var i := Span(s, 0, NotLineBreak);
      if i == |s| {
        assert SplitLines(s) == [s] && LineBreaks(s) == [""];
      } else {
        var next := BreakEnd(s, i);
        var t := s[next..];
        SplitLinesEdges(t);
        var lines, breaks := SplitLines(s), LineBreaks(s);
        assert lines == [s[..i]] + SplitLines(t);
        assert breaks == [s[i..next]] + LineBreaks(t);
        if t != [] {
          assert Last(breaks) == Last(LineBreaks(t)) && Last(lines) == Last(SplitLines(t));
        }
      }
    }
  }

  /** A line of `SplitLines(s)` that is empty at the start means `s`
      starts with its break. */
  lemma {:induction false} LineBreaksFirst(s: string)
    requires SplitLines(s) != [] && SplitLines(s)[0] == ""
    ensures |LineBreaks(s)| == |SplitLines(s)|
    ensures LineBreaks(s)[0] != "" && LineBreaks(s)[0][0] == s[0]
  {
    LineBreaksAreBreaks(s);
    SpanFacts(s, 0, NotLineBreak);
  }

  /** "\r" followed by "\n" is read as one break: a lone "\r" break is
      never followed by an empty line ended by "\n". */
  lemma {:induction false} LineBreaksGreedy(s: string)
    ensures |LineBreaks(s)| == |SplitLines(s)|
    ensures forall j :: 0 <= j < |LineBreaks(s)| - 1 && LineBreaks(s)[j] == "\r" && SplitLines(s)[j + 1] == ""
              ==> LineBreaks(s)[j + 1] != "\n"
    decreases |s|
  {
    LineBreaksAreBreaks(s);
    if s != [] {
      var i := Span(s, 0, NotLineBreak);
      SpanFacts(s, 0, NotLineBreak);
      if i < |s| {
        var next := BreakEnd(s, i);
        var t := s[next..];
        LineBreaksGreedy(t);
        var lines, breaks := SplitLines(s), LineBreaks(s);
        assert lines[1..] == SplitLines(t) && breaks[1..] == LineBreaks(t);
        if breaks[0] == "\r" && |breaks| > 1 && lines[1] == "" {
          LineBreaksFirst(t);
          assert s[next] != '\n';
        }
        forall j | 1 <= j < |breaks| - 1 && breaks[j] == "\r" && lines[j + 1] == ""
          ensures breaks[j + 1] != "\n"
        {
          assert breaks[j] == LineBreaks(t)[j - 1] && lines[j + 1] == SplitLines(t)[j];
        }
      }
    }
  }

  // ------------------------------------------------------ \n{3,} -> \n\n

  lemma NoTripleConcat(a: string, b: string)
    requires NoTripleNewline(a) && NoTripleNewline(b)
    requires a == [] || b == [] || a[|a| - 1] != '\n' || b[0] != '\n'
    ensures NoTripleNewline(a + b)
  {
    var s := a + b;
    forall i: nat | i + 2 < |s|
      ensures !TripleNewlineAt(s, i)
    {
      if i + 2 < |a| {
        assert s[i] == a[i] && s[i + 1] == a[i + 1] && s[i + 2] == a[i + 2];
        assert !TripleNewlineAt(a, i);
      } else if i >= |a| {
        assert s[i] == b[i - |a|] && s[i + 1] == b[i - |a| + 1] && s[i + 2] == b[i - |a| + 2];
        assert !TripleNewlineAt(b, i - |a|);
      } else if i + 1 == |a| {
        assert s[i] == a[|a| - 1] && s[i + 1] == b[0];
      } else {
        assert s[i + 1] == a[|a| - 1] && s[i + 2] == b[0];
      }
    }
  }

  /** `re.sub(r"\n{3,}", "\n\n", s)`: scanning left to right, every maximal
      run of three or more newlines becomes exactly two. */
  function CollapseNewlines(s: string): string
    decreases |s|
  {
    if s == [] then []
    else if s[0] != '\n' then [s[0]] + CollapseNewlines(s[1..])
    else
      var n := Span(s, 0, Newline);
      (if n >= 3 then "\n\n" else s[..n]) + CollapseNewlines(s[n..])
  }

  /** After the substitution no three newlines are adjacent. */
  lemma {:induction false} CollapseNoTriple(s: string)
    ensures NoTripleNewline(CollapseNewlines(s))
    decreases |s|
  {
    if s != [] {
      if s[0] != '\n' {
        CollapseNoTriple(s[1..]);
        NoTripleConcat([s[0]], CollapseNewlines(s[1..]));
      } else {
        var n := Span(s, 0, Newline);
        SpanFacts(s, 0, Newline);
        var head := if n >= 3 then "\n\n" else s[..n];
        var rest := CollapseNewlines(s[n..]);
        CollapseNoTriple(s[n..]);
        CollapseKeepsEnds(s[n..]);
        assert n < |s| ==> s[n..][0] == s[n];
        NoTripleConcat(head, rest);
      }
    }
  }

  /** A first or last character that is not a newline stays in place. */
  lemma {:induction false} CollapseKeepsEnds(s: string)
    ensures s != [] && s[0] != '\n' ==> CollapseNewlines(s) != [] && CollapseNewlines(s)[0] == s[0]
    ensures s != [] && s[|s| - 1] != '\n' ==>
              CollapseNewlines(s) != [] && CollapseNewlines(s)[|CollapseNewlines(s)| - 1] == s[|s| - 1]
    decreases |s|
  {
    if s != [] {
      if s[0] != '\n' {
        CollapseKeepsEnds(s[1..]);
        if |s| > 1 {
          assert s[1..][|s[1..]| - 1] == s[|s| - 1];
        }
      } else {
        var n := Span(s, 0, Newline);
        SpanFacts(s, 0, Newline);
        CollapseKeepsEnds(s[n..]);
        if n < |s| {
          assert s[n..][|s[n..]| - 1] == s[|s| - 1];
        }
      }
    }
  }

  /** A text without newlines is left alone. */
  lemma {:induction false} CollapseWithoutNewlines(s: string)
    requires NoNewline(s)
    ensures CollapseNewlines(s) == s
    decreases |s|
  {
    if s != [] {
      CollapseWithoutNewlines(s[1..]);
      assert [s[0]] + s[1..] == s;
    }
  }

  // ------------------------------------------------------------- numbers

  function DigitValue(c: char): nat
    requires IsDigit(c)
  {
    c as int - '0' as int
  }

  function DigitChar(d: nat): (c: char)
    requires d < 10
    ensures IsDigit(c) && DigitValue(c) == d
  {
    ('0' as int + d) as char
  }

  /** `int(s)` for a string of decimal digits (leading zeros allowed). */
  function DecimalValue(s: string): nat
    requires AllDigits(s)
    decreases |s|
  {
    if s == [] then 0 else DecimalValue(s[..|s| - 1]) * 10 + DigitValue(s[|s| - 1])
  }

  /** `str(n)`: the shortest decimal spelling of `n`. */
  function DecimalString(n: nat): (r: string)
    ensures |r| >= 1 && AllDigits(r)
    ensures n >= 10 <==> |r| >= 2
    ensures r[0] == '0' ==> n == 0
    decreases n
  {
    if n < 10 then [DigitChar(n)] else DecimalString(n / 10) + [DigitChar(n % 10)]
  }

  /** Reading back what `str` wrote gives the number again. */
  lemma {:induction false} DecimalRoundTrip(n: nat)
    ensures DecimalValue(DecimalString(n)) == n
    decreases n
  {
    var r := DecimalString(n);
    if n >= 10 {
      DecimalRoundTrip(n / 10);
      assert r[..|r| - 1] == DecimalString(n / 10);
    } else {
      assert r[..|r| - 1] == [];
    }
  }
}
