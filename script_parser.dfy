/** `parse_script` (create_video.py:91-150), on the text of the script file
    once it has been read. The regular expression `^SLIDE\s+(\d+)\b` is
    written out as a test at each position; the section loop and the line
    loop are methods checked against the functions that specify them. */
module ScriptParser {
  import opened Wrappers
  import opened Text
  import opened Lines

  /** One match of the header pattern: where it starts and the slide number
      its digits spell. */
  datatype Marker = Marker(start: nat, num: nat)

  datatype ParseError =
    | NoMarkers                        // no header in the whole text
    | HeaderWithoutNewline(slide: nat) // `text.index("\n", ...)` found no newline

  // ------------------------------------------------------------ headers

  /** `^` under MULTILINE: the start of the text or just after a "\n". */
  predicate IsLineStart(text: string, p: nat) {
    p == 0 || (p <= |text| && text[p - 1] == '\n')
  }

  /** Where the `\d+` of a header that starts at `p` begins and ends. */
  function DigitsStart(text: string, p: nat): nat
    requires p + 5 <= |text|
  {
    Span(text, p + 5, Whitespace)
  }

  function MatchEnd(text: string, p: nat): nat
    requires p + 5 <= |text|
  {
    Span(text, DigitsStart(text, p), Digit)
  }

  /** `SLIDE` under IGNORECASE, at `p`. */
  predicate SlideWordAt(text: string, p: nat)
    requires p + 5 <= |text|
  {
    (text[p] == 'S' || text[p] == 's') && (text[p + 1] == 'L' || text[p + 1] == 'l')
    && (text[p + 2] == 'I' || text[p + 2] == 'i') && (text[p + 3] == 'D' || text[p + 3] == 'd')
    && (text[p + 4] == 'E' || text[p + 4] == 'e')
  }

  /** The slide number when `^SLIDE\s+(\d+)\b` (MULTILINE, IGNORECASE)
      matches at `p`. Both runs are maximal: `\s` and `\d` share no
      character, and a shorter digit run would end between two word
      characters, where `\b` fails. */
  function MarkerAt(text: string, p: nat): (r: Option<nat>)
    ensures r.Some? ==> IsLineStart(text, p) && p + 5 <= |text| && SlideWordAt(text, p)
  {
    if IsLineStart(text, p) && p + 5 <= |text| && SlideWordAt(text, p) then
      var w := DigitsStart(text, p);
      var d := MatchEnd(text, p);
      if p + 5 < w && w < d && (d == |text| || !IsWordChar(text[d])) then
        SpanFacts(text, w, Digit);
        assert AllDigits(text[w..d]);
        Some(DecimalValue(text[w..d]))
      else None
    else None
  }

  /** `^SLIDE\s+(\d+)\b` matches at `p` with its whitespace run `p + 5 .. w`
      and its digit run `w .. d`, and the digits spell `n`. */
  predicate HeaderMatch(text: string, p: nat, w: nat, d: nat, n: nat) {
    IsLineStart(text, p) && p + 5 < w < d <= |text| && SlideWordAt(text, p)
    && (forall k :: p + 5 <= k < w ==> IsSpace(text[k]))
    && AllDigits(text[w..d]) && (d == |text| || !IsWordChar(text[d]))
    && DecimalValue(text[w..d]) == n
  }

  /** What the scan finds is a match of the pattern: its runs are those
      `DigitsStart` and `MatchEnd` delimit. */
  lemma {:induction false} MarkerAtMatches(text: string, p: nat)
    requires MarkerAt(text, p).Some?
    ensures HeaderMatch(text, p, DigitsStart(text, p), MatchEnd(text, p), MarkerAt(text, p).value)
  {
    SpanFacts(text, p + 5, Whitespace);
    SpanFacts(text, DigitsStart(text, p), Digit);
  }

  /** Every match of the pattern is found by the scan, with its number. */
  lemma {:induction false} MatchIsMarker(text: string, p: nat, w: nat, d: nat, n: nat)
    requires HeaderMatch(text, p, w, d, n)
    ensures DigitsStart(text, p) == w && MatchEnd(text, p) == d
    ensures MarkerAt(text, p) == Some(n)
  {
    assert text[w..d][0] == text[w];
    assert IsDigit(text[w]);
    SpanReaches(text, p + 5, Whitespace, w);
    forall k | w <= k < d ensures IsDigit(text[k]) {
      assert text[k] == text[w..d][k - w];
    }
    SpanReaches(text, w, Digit, d);
  }

  /** The scan at `p` finds slide `n` exactly when the header pattern
      matches there with digits that spell `n`. */
  lemma {:induction false} MarkerAtIsHeaderMatch(text: string, p: nat, n: nat)
    ensures MarkerAt(text, p) == Some(n) <==> exists w: nat, d: nat :: HeaderMatch(text, p, w, d, n)
  {
    if MarkerAt(text, p) == Some(n) {
      MarkerAtMatches(text, p);
    }
    if exists w: nat, d: nat :: HeaderMatch(text, p, w, d, n) {
      var w: nat, d: nat :| HeaderMatch(text, p, w, d, n);
      MatchIsMarker(text, p, w, d, n);
    }
  }

  /** No match can start inside another: the only line starts inside a
      match follow a newline of its `\s+`, and there the next character is
      a space or a digit, not an `S`. So `finditer`, which resumes after
      each match, finds a match at every position where one starts. */
  lemma MatchesDoNotOverlap(text: string, p: nat, q: nat)
    requires MarkerAt(text, p).Some?
    requires p < q < MatchEnd(text, p)
    ensures MarkerAt(text, q).None?
  {
    var w := DigitsStart(text, p);
    SpanFacts(text, p + 5, Whitespace);
    SpanFacts(text, w, Digit);
    if IsLineStart(text, q) && q + 5 <= |text| {
      assert text[q - 1] == '\n';
      assert q - 1 >= p + 5;
      assert q <= w;
      assert IsSpace(text[q]) || IsDigit(text[q]);
    }
  }

  /** The matches at or after `from`, in order. */
  function MarkersFrom(text: string, from: nat): seq<Marker>
    requires from <= |text|
    decreases |text| - from
  {
    if from == |text| then []
    else
      var rest := MarkersFrom(text, from + 1);
      match MarkerAt(text, from)
      case Some(n) => [Marker(from, n)] + rest
      case None => rest
  }

  /** A match `m` of the header pattern in `text`. */
  predicate IsMatch(text: string, m: Marker) {
    m.start < |text| && MarkerAt(text, m.start) == Some(m.num)
  }

  /** Only matches are listed, each at or after `from`. */
  lemma {:induction false} MarkersFromSound(text: string, from: nat)
    requires from <= |text|
    ensures forall i :: 0 <= i < |MarkersFrom(text, from)| ==>
              from <= MarkersFrom(text, from)[i].start && IsMatch(text, MarkersFrom(text, from)[i])
    decreases |text| - from
  {
    if from < |text| {
      MarkersFromSound(text, from + 1);
    }
  }

  /** The matches are listed in increasing order of position, each at the
      start of a line. */
  lemma {:induction false} MarkersFromOrdered(text: string, from: nat)
    requires from <= |text|
    ensures forall i :: 0 <= i < |MarkersFrom(text, from)| ==>
              from <= MarkersFrom(text, from)[i].start < |text| && IsLineStart(text, MarkersFrom(text, from)[i].start)
    ensures forall i, j :: 0 <= i < j < |MarkersFrom(text, from)| ==>
              MarkersFrom(text, from)[i].start < MarkersFrom(text, from)[j].start
    decreases |text| - from
  {
    if from < |text| {
      MarkersFromOrdered(text, from + 1);
    }
  }

  /** Every match at or after `from` is listed. */
  lemma {:induction false} MarkersFromComplete(text: string, from: nat, p: nat)
    requires from <= p < |text| && MarkerAt(text, p).Some?
    ensures Marker(p, MarkerAt(text, p).value) in MarkersFrom(text, from)
    decreases p - from
  {
    if from < p {
      MarkersFromComplete(text, from + 1, p);
    }
  }

  /** `list(slide_re.finditer(text))`. */
  function Markers(text: string): seq<Marker> {
    MarkersFrom(text, 0)
  }

  /** `finditer` yields every match of the pattern in the text, each once, in
      order of position, and nothing else. */
  lemma MarkersAreAllMatches(text: string)
    ensures forall i, j :: 0 <= i < j < |Markers(text)| ==> Markers(text)[i].start < Markers(text)[j].start
    ensures forall i :: 0 <= i < |Markers(text)| ==> IsMatch(text, Markers(text)[i])
    ensures forall p :: 0 <= p < |text| && MarkerAt(text, p).Some? ==> Marker(p, MarkerAt(text, p).value) in Markers(text)
  {
    MarkersFromSound(text, 0);
    MarkersFromOrdered(text, 0);
    forall p | 0 <= p < |text| && MarkerAt(text, p).Some?
      ensures Marker(p, MarkerAt(text, p).value) in Markers(text)
    {
      MarkersFromComplete(text, 0, p);
    }
  }

  /** The scan for headers, one position at a time. */
  method FindMarkers(text: string) returns (ms: seq<Marker>)
    ensures ms == Markers(text)
  {
    ms := [];
    var p := 0;
    while p < |text|
      invariant p <= |text|
      invariant ms + MarkersFrom(text, p) == Markers(text)
    {
      match MarkerAt(text, p) {
        case Some(n) =>
          ms := ms + [Marker(p, n)];
        case None =>
      }
      p := p + 1;
    }
    assert MarkersFrom(text, p) == [];
    assert ms == ms + [];
  }

  // -------------------------------------------------------- body cleaning

  /** `re.fullmatch(r"[=\-]{3,}", line)`. */
  predicate IsSeparator(line: string) {
    |line| >= 3 && forall k :: 0 <= k < |line| ==> line[k] == '=' || line[k] == '-'
  }

  /** `line.upper() in ("END OF SCRIPT", "END OF NARRATION")`. */
  predicate IsFooter(line: string) {
    EqualsIgnoringCase(line, "END OF SCRIPT") || EqualsIgnoringCase(line, "END OF NARRATION")
  }

  /** What every line of a returned body is. */
  predicate IsBodyLine(line: string) {
    IsTrimmed(line) && NoNewline(line) && !IsSeparator(line) && !IsFooter(line)
  }

  /** A body as `parse_script` promises it: no whitespace at either end, no
      three newlines in a row, and every line trimmed, neither a separator
      nor a footer. */
  predicate IsCleanBody(body: string) {
    IsTrimmed(body) && NoTripleNewline(body)
    && forall i :: 0 <= i < |SplitNewlines(body)| ==> IsBodyLine(SplitNewlines(body)[i])
  }

  /** The `cleaned_lines` the line loop collects. */
  function KeptLines(lines: seq<string>): seq<string>
    decreases |lines|
  {
    if lines == [] then []
    else
      var front := KeptLines(lines[..|lines| - 1]);
      var line := Strip(lines[|lines| - 1]);
      if IsSeparator(line) || IsFooter(line) then front else front + [line]
  }

  /** Every kept line is stripped and is neither a separator nor a footer. */
  lemma {:induction false} KeptLinesAreBodyLines(lines: seq<string>)
    requires AllNoNewline(lines)
    ensures forall i :: 0 <= i < |KeptLines(lines)| ==> IsBodyLine(KeptLines(lines)[i])
    decreases |lines|
  {
    if lines != [] {
      var front := lines[..|lines| - 1];
      assert AllNoNewline(front) by {
        forall i | 0 <= i < |front| ensures NoNewline(front[i]) {
          assert front[i] == lines[i];
        }
      }
      KeptLinesAreBodyLines(front);
      StripFacts(lines[|lines| - 1]);
    }
  }

  /** The lines of a section, kept or not, hold no line break. */
  lemma KeptLinesOfSection(raw: string)
    ensures AllNoNewline(SplitLines(raw))
    ensures forall i :: 0 <= i < |KeptLines(SplitLines(raw))| ==> IsBodyLine(KeptLines(SplitLines(raw))[i])
  {
    SplitLinesFacts(raw);
    KeptLinesAreBodyLines(SplitLines(raw));
  }

  /** Whether the line loop keeps a line: once stripped, it is neither a
      separator nor a footer. */
  predicate KeepsLine(line: string) {
    !IsSeparator(Strip(line)) && !IsFooter(Strip(line))
  }

  /** The positions, among `lines`, of the lines the loop keeps. */
  function KeptPositions(lines: seq<string>): seq<nat>
    decreases |lines|
  {
    if lines == [] then []
    else
      var front := KeptPositions(lines[..|lines| - 1]);
      if KeepsLine(lines[|lines| - 1]) then front + [|lines| - 1] else front
  }

  lemma {:induction false} KeptPositionsBounded(lines: seq<string>)
    ensures forall k :: 0 <= k < |KeptPositions(lines)| ==> KeptPositions(lines)[k] < |lines|
    ensures forall k, k' :: 0 <= k < k' < |KeptPositions(lines)| ==>
              KeptPositions(lines)[k] < KeptPositions(lines)[k']
    decreases |lines|
  {
    if lines != [] {
      var n := |lines| - 1;
      var front := KeptPositions(lines[..n]);
      KeptPositionsBounded(lines[..n]);
      assert |lines[..n]| == n;
      if KeepsLine(lines[n]) {
        var pos := front + [n];
        assert KeptPositions(lines) == pos;
        assert forall k :: 0 <= k < |front| ==> pos[k] == front[k];
      } else {
        assert KeptPositions(lines) == front;
      }
    }
  }

  lemma {:induction false} KeptPositionsLines(lines: seq<string>)
    ensures var kept, pos := KeptLines(lines), KeptPositions(lines);
            |pos| == |kept|
            && forall k :: 0 <= k < |pos| ==> pos[k] < |lines| && kept[k] == Strip(lines[pos[k]])
    decreases |lines|
  {
    if lines != [] {
      var n := |lines| - 1;
      var front := lines[..n];
      KeptPositionsLines(front);
      var kept, pos := KeptLines(front), KeptPositions(front);
      assert forall k :: 0 <= k < |pos| ==> front[pos[k]] == lines[pos[k]];
    }
  }

  lemma {:induction false} KeptPositionAt(lines: seq<string>, i: nat)
    requires i < |lines|
    ensures i in KeptPositions(lines) <==> KeepsLine(lines[i])
    decreases |lines|
  {
    var n := |lines| - 1;
    var front := lines[..n];
    var pos := KeptPositions(front);
    assert KeptPositions(lines) == if KeepsLine(lines[n]) then pos + [n] else pos;
    if i == n {
      KeptPositionsBounded(front);
      assert |front| == n;
      assert n !in pos;
    } else {
      KeptPositionAt(front, i);
      assert front[i] == lines[i];
      assert i in pos + [n] <==> i in pos;
    }
  }

  lemma {:induction false} KeptPositionsExact(lines: seq<string>)
    ensures forall i :: 0 <= i < |lines| ==> (i in KeptPositions(lines) <==> KeepsLine(lines[i]))
  {
    forall i | 0 <= i < |lines|
      ensures i in KeptPositions(lines) <==> KeepsLine(lines[i])
    {
      KeptPositionAt(lines, i);
    }
  }

  /** The kept lines are, in order, the stripped lines the loop keeps, and
      the loop keeps every line that is neither a separator nor a footer. */
  lemma {:induction false} KeptLinesPositions(lines: seq<string>)
    ensures var kept, pos := KeptLines(lines), KeptPositions(lines);
            |pos| == |kept|
            && (forall k :: 0 <= k < |pos| ==> pos[k] < |lines| && kept[k] == Strip(lines[pos[k]]))
            && (forall k, k' :: 0 <= k < k' < |pos| ==> pos[k] < pos[k'])
            && (forall i :: 0 <= i < |lines| ==> (i in pos <==> KeepsLine(lines[i])))
  {
    KeptPositionsBounded(lines);
    KeptPositionsLines(lines);
    KeptPositionsExact(lines);
  }

  /** The body made of one section's raw text (lines 132-143). */
  function CleanedBody(raw: string): string {
    CollapseNewlines(Strip(JoinLines(KeptLines(SplitLines(raw)))))
  }

  /** The body is the kept lines without blank lines at either end and with
      each run of blank lines reduced to one. */
  lemma CleanedBodyLines(raw: string)
    ensures CleanedBody(raw) == JoinLines(SquashBlankRuns(DropBlankEnds(KeptLines(SplitLines(raw)))))
  {
    var kept := KeptLines(SplitLines(raw));
    KeptLinesOfSection(raw);
    StripJoin(kept);
    var n := DropBlankEnds(kept);
    DropBlankEndsFacts(kept);
    if n != [] {
      assert AllNoNewline(n) by {
        forall i | 0 <= i < |n| ensures NoNewline(n[i]) {
          assert n[i] in kept;
        }
      }
      CollapseJoin(n);
    }
  }

  lemma CleanedBodyEnds(raw: string)
    ensures IsTrimmed(CleanedBody(raw)) && NoTripleNewline(CleanedBody(raw))
  {
    var s := Strip(JoinLines(KeptLines(SplitLines(raw))));
    StripFacts(JoinLines(KeptLines(SplitLines(raw))));
    CollapseNoTriple(s);
    CollapseKeepsEnds(s);
    assert s != [] ==> s[0] != '\n' && s[|s| - 1] != '\n';
  }

  /** The lines of the body all come from the kept lines. */
  lemma BodyLinesAreKept(raw: string)
    ensures var sq := SquashBlankRuns(DropBlankEnds(KeptLines(SplitLines(raw))));
            forall i :: 0 <= i < |sq| ==> sq[i] in KeptLines(SplitLines(raw)) && IsBodyLine(sq[i])
  {
    var kept := KeptLines(SplitLines(raw));
    KeptLinesOfSection(raw);
    var n := DropBlankEnds(kept);
    DropBlankEndsFacts(kept);
    var sq := SquashBlankRuns(n);
    SquashFacts(n);
    forall i | 0 <= i < |sq| ensures sq[i] in kept && IsBodyLine(sq[i]) {
      assert sq[i] in n;
      var j :| 0 <= j < |n| && n[j] == sq[i];
      assert n[j] in kept;
    }
  }

  lemma CleanedBodyIsClean(raw: string)
    ensures IsCleanBody(CleanedBody(raw))
  {
    var body := CleanedBody(raw);
    var sq := SquashBlankRuns(DropBlankEnds(KeptLines(SplitLines(raw))));
    CleanedBodyEnds(raw);
    CleanedBodyLines(raw);
    BodyLinesAreKept(raw);
    assert body == JoinLines(sq);
    if sq == [] {
      assert SplitNewlines(body) == [""];
    } else {
      SplitJoin(sq);
      assert SplitNewlines(body) == sq;
    }
  }

  /** The narration lines of a section, in order: each line stripped, when
      it is not blank, not a separator and not a footer. */
  function NarrationLines(lines: seq<string>): seq<string>
    decreases |lines|
  {
    if lines == [] then [] else NarrationOf(lines[0]) + NarrationLines(lines[1..])
  }

  /** One line's narration: the line stripped, or nothing. */
  function NarrationOf(line: string): seq<string> {
    if Strip(line) != "" && KeepsLine(line) then [Strip(line)] else []
  }

  lemma {:induction false} NarrationLinesConcat(a: seq<string>, b: seq<string>)
    ensures NarrationLines(a + b) == NarrationLines(a) + NarrationLines(b)
    decreases |a|
  {
    if a == [] {
      assert a + b == b;
    } else {
      assert (a + b)[0] == a[0] && (a + b)[1..] == a[1..] + b;
      NarrationLinesConcat(a[1..], b);
      var h := NarrationOf(a[0]);
      assert NarrationLines(a + b) == h + NarrationLines(a[1..] + b);
      assert h + (NarrationLines(a[1..]) + NarrationLines(b))
          == (h + NarrationLines(a[1..])) + NarrationLines(b);
    }
  }

  /** The non-blank kept lines are the narration lines. */
  lemma {:induction false} KeptNarration(lines: seq<string>)
    ensures NonBlank(KeptLines(lines)) == NarrationLines(lines)
    decreases |lines|
  {
    if lines != [] {
      var n := |lines| - 1;
      var front := lines[..n];
      var t := Strip(lines[n]);
      KeptNarration(front);
      assert lines == front + [lines[n]];
      NarrationLinesConcat(front, [lines[n]]);
      assert NarrationLines([lines[n]]) == NarrationOf(lines[n]) + [];
      if KeepsLine(lines[n]) {
        NonBlankConcat(KeptLines(front), [t]);
      }
    }
  }

  /** Cleaning loses no narration: the non-blank lines of the body are, in
      order, the section's non-blank lines once stripped, separators and
      footers left out. */
  lemma {:induction false} CleanedBodyNarration(raw: string)
    ensures NonBlank(SplitNewlines(CleanedBody(raw))) == NarrationLines(SplitLines(raw))
  {
    var kept := KeptLines(SplitLines(raw));
    var sq := SquashBlankRuns(DropBlankEnds(kept));
    CleanedBodyLines(raw);
    BodyLinesAreKept(raw);
    NonBlankSquash(DropBlankEnds(kept));
    NonBlankDropBlankEnds(kept);
    KeptNarration(SplitLines(raw));
    if sq == [] {
      assert SplitNewlines(CleanedBody(raw)) == [""];
    } else {
      SplitJoin(sq);
    }
  }

  /** The line loop of lines 132-139, then the join, strip and
      substitution of lines 142-143. */
  method CleanBody(raw: string) returns (body: string)
    ensures body == CleanedBody(raw)
    ensures IsCleanBody(body)
  {
    var lines := SplitLines(raw);
    var kept: seq<string> := [];
    var i := 0;
    while i < |lines|
      invariant 0 <= i <= |lines|
      invariant kept == KeptLines(lines[..i])
    {
      var stripped := Strip(lines[i]);
      assert lines[..i + 1][..i] == lines[..i];
      if !IsSeparator(stripped) && !IsFooter(stripped) {
        kept := kept + [stripped];
      }
      i := i + 1;
    }
    assert lines[..i] == lines;
    body := CollapseNewlines(Strip(JoinLines(kept)));
    CleanedBodyIsClean(raw);
  }

  // ------------------------------------------------------------ sections

  /** Where a section's body ends: the next match, or the end of the text. */
  function SectionEnd(text: string, ms: seq<Marker>, i: nat): nat
    requires i < |ms|
  {
    if i + 1 < |ms| then ms[i + 1].start else |text|
  }

  /** `text[body_start:body_end]` once the header's newline is known. */
  function RawSection(text: string, ms: seq<Marker>, i: nat): string
    requires i < |ms| && IndexFrom(text, '\n', ms[i].start).Some?
  {
    Slice(text, IndexFrom(text, '\n', ms[i].start).value + 1, SectionEnd(text, ms, i))
  }

  /** The loop of lines 119-148 from match `i` on, recording for each slide
      number the raw text of its section; `sections` holds what the earlier
      matches recorded. */
  function ParseFrom(text: string, ms: seq<Marker>, i: nat, sections: map<nat, string>)
    : Result<map<nat, string>, ParseError>
    decreases |ms| - i
  {
    if i >= |ms| then Success(sections)
    else
      match IndexFrom(text, '\n', ms[i].start)
      case None => Failure(HeaderWithoutNewline(ms[i].num))
      case Some(_) => ParseFrom(text, ms, i + 1, sections[ms[i].num := RawSection(text, ms, i)])
  }

  /** Each recorded section replaced by its cleaned body. */
  function CleanAll(sections: map<nat, string>): map<nat, string> {
    map k | k in sections :: CleanedBody(sections[k])
  }

  lemma CleanAllIsClean(sections: map<nat, string>)
    ensures CleanAll(sections).Keys == sections.Keys
    ensures forall k :: k in CleanAll(sections) ==> IsCleanBody(CleanAll(sections)[k])
  {
    forall k | k in sections ensures IsCleanBody(CleanedBody(sections[k])) {
      CleanedBodyIsClean(sections[k]);
    }
  }

  /** Recording a section and then cleaning is cleaning and then storing
      its body, as the source does. */
  lemma CleanAllStore(sections: map<nat, string>, k: nat, raw: string)
    ensures CleanAll(sections[k := raw]) == CleanAll(sections)[k := CleanedBody(raw)]
  {
  }

  /** `parse_script`: slide number to cleaned narration, or what it raises.
      Cleaning a body does not depend on the other sections, so cleaning
      each section as it is reached, as the source does, and cleaning the
      recorded sections afterwards give the same map. */
  function Parse(text: string): Result<map<nat, string>, ParseError> {
    var ms := Markers(text);
    if ms == [] then Failure(NoMarkers)
    else
      match ParseFrom(text, ms, 0, map[])
      case Failure(e) => Failure(e)
      case Success(sections) => Success(CleanAll(sections))
  }

  /** No later match repeats the slide number of match `j`. */
  predicate IsLastOccurrence(ms: seq<Marker>, j: nat)
    requires j < |ms|
  {
    forall j' :: j < j' < |ms| ==> ms[j'].num != ms[j].num
  }

  /** The numbers of the matches from `i` on. */
  function NumsFrom(ms: seq<Marker>, i: nat): set<nat>
    decreases |ms| - i
  {
    if i >= |ms| then {} else {ms[i].num} + NumsFrom(ms, i + 1)
  }

  lemma {:induction false} NumsFromAll(ms: seq<Marker>, i: nat)
    requires i <= |ms|
    ensures NumsFrom(ms, i) == set j | i <= j < |ms| :: ms[j].num
    decreases |ms| - i
  {
    if i < |ms| {
      NumsFromAll(ms, i + 1);
      assert (set j | i <= j < |ms| :: ms[j].num) == {ms[i].num} + (set j | i + 1 <= j < |ms| :: ms[j].num);
    }
  }

  lemma {:induction false} ParseFromSucceeds(text: string, ms: seq<Marker>, i: nat, sections: map<nat, string>)
    requires i <= |ms|
    requires forall j :: i <= j < |ms| ==> IndexFrom(text, '\n', ms[j].start).Some?
    ensures ParseFrom(text, ms, i, sections).Success?
    ensures ParseFrom(text, ms, i, sections).value.Keys == sections.Keys + NumsFrom(ms, i)
    decreases |ms| - i
  {
    if i < |ms| {
      ParseFromSucceeds(text, ms, i + 1, sections[ms[i].num := RawSection(text, ms, i)]);
    }
  }

  lemma {:induction false} ParseFromLast(text: string, ms: seq<Marker>, i: nat, sections: map<nat, string>, j: nat)
    requires i <= j < |ms| && IsLastOccurrence(ms, j)
    requires forall j :: i <= j < |ms| ==> IndexFrom(text, '\n', ms[j].start).Some?
    ensures ParseFrom(text, ms, i, sections).Success?
    ensures ms[j].num in ParseFrom(text, ms, i, sections).value
    ensures ParseFrom(text, ms, i, sections).value[ms[j].num] == RawSection(text, ms, j)
    decreases |ms| - i
  {
    var next := sections[ms[i].num := RawSection(text, ms, i)];
    if i < j {
      ParseFromLast(text, ms, i + 1, next, j);
    } else {
      ParseFromKeeps(text, ms, i + 1, next, ms[j].num);
    }
  }

  lemma {:induction false} ParseFromKeeps(text: string, ms: seq<Marker>, i: nat, sections: map<nat, string>, k: nat)
    requires i <= |ms| && k in sections
    requires forall j :: i <= j < |ms| ==> ms[j].num != k
    requires forall j :: i <= j < |ms| ==> IndexFrom(text, '\n', ms[j].start).Some?
    ensures ParseFrom(text, ms, i, sections).Success?
    ensures k in ParseFrom(text, ms, i, sections).value
    ensures ParseFrom(text, ms, i, sections).value[k] == sections[k]
    decreases |ms| - i
  {
    if i < |ms| {
      ParseFromKeeps(text, ms, i + 1, sections[ms[i].num := RawSection(text, ms, i)], k);
    }
  }

  lemma {:induction false} ParseFromFails(text: string, ms: seq<Marker>, i: nat, sections: map<nat, string>, f: nat)
    requires i <= f < |ms|
    requires forall j :: i <= j < f ==> IndexFrom(text, '\n', ms[j].start).Some?
    requires IndexFrom(text, '\n', ms[f].start).None?
    ensures ParseFrom(text, ms, i, sections) == Failure(HeaderWithoutNewline(ms[f].num))
    decreases |ms| - i
  {
    if i < f {
      ParseFromFails(text, ms, i + 1, sections[ms[i].num := RawSection(text, ms, i)], f);
    }
  }

  /** Every header but the last has a newline after it: the next header
      starts a line. */
  lemma NewlineAfterEarlierHeaders(text: string)
    ensures forall j :: 0 <= j < |Markers(text)| - 1 ==> IndexFrom(text, '\n', Markers(text)[j].start).Some?
  {
    var ms := Markers(text);
    MarkersFromOrdered(text, 0);
    forall j | 0 <= j < |ms| - 1
      ensures IndexFrom(text, '\n', ms[j].start).Some?
    {
      var q := ms[j + 1].start;
      assert ms[j].start < q;
      assert IsLineStart(text, q);
      IndexFromFinds(text, '\n', ms[j].start, q - 1);
    }
  }

  /** `parse_script` raises exactly when the text has no header, or when
      the last header has no newline after it. */
  lemma ParseFailsExactly(text: string)
    ensures Parse(text) == Failure(NoMarkers) <==> Markers(text) == []
    ensures Parse(text).Failure? <==>
              Markers(text) == [] || IndexFrom(text, '\n', Markers(text)[|Markers(text)| - 1].start).None?
    ensures Markers(text) != [] && IndexFrom(text, '\n', Markers(text)[|Markers(text)| - 1].start).None? ==>
              Parse(text) == Failure(HeaderWithoutNewline(Markers(text)[|Markers(text)| - 1].num))
  {
    var ms := Markers(text);
    if ms != [] {
      NewlineAfterEarlierHeaders(text);
      var last := |ms| - 1;
      if IndexFrom(text, '\n', ms[last].start).None? {
        ParseFromFails(text, ms, 0, map[], last);
      } else {
        ParseFromSucceeds(text, ms, 0, map[]);
      }
    }
  }

  /** After a successful parse every header had a newline after it. */
  lemma ParsedHeadersHaveNewlines(text: string)
    requires Parse(text).Success?
    ensures forall j :: 0 <= j < |Markers(text)| ==> IndexFrom(text, '\n', Markers(text)[j].start).Some?
  {
    ParseFailsExactly(text);
    NewlineAfterEarlierHeaders(text);
  }

  /** A successful parse has one key per slide number among the headers. */
  lemma ParsedKeys(text: string)
    requires Parse(text).Success?
    ensures Parse(text).value.Keys == set j | 0 <= j < |Markers(text)| :: Markers(text)[j].num
  {
    var ms := Markers(text);
    ParsedHeadersHaveNewlines(text);
    ParseFromSucceeds(text, ms, 0, map[]);
    NumsFromAll(ms, 0);
    CleanAllIsClean(ParseFrom(text, ms, 0, map[]).value);
  }

  /** For a slide number that repeats, the last header's section wins. */
  lemma ParsedLastSection(text: string, j: nat)
    requires Parse(text).Success?
    requires j < |Markers(text)| && IsLastOccurrence(Markers(text), j)
    ensures IndexFrom(text, '\n', Markers(text)[j].start).Some?
    ensures Markers(text)[j].num in Parse(text).value
    ensures Parse(text).value[Markers(text)[j].num] == CleanedBody(RawSection(text, Markers(text), j))
  {
    var ms := Markers(text);
    ParsedHeadersHaveNewlines(text);
    ParseFromLast(text, ms, 0, map[], j);
  }

  /** Every body of a successful parse is clean. */
  lemma ParsedBodiesAreClean(text: string)
    requires Parse(text).Success?
    ensures forall k :: k in Parse(text).value ==> IsCleanBody(Parse(text).value[k])
  {
    var ms := Markers(text);
    CleanAllIsClean(ParseFrom(text, ms, 0, map[]).value);
  }

  /** A section's raw text runs from just after its header line to the
      next header, or to the end of the text. */
  lemma SectionRange(text: string, i: nat)
    requires i < |Markers(text)| && IndexFrom(text, '\n', Markers(text)[i].start).Some?
    ensures var ms := Markers(text);
            var bodyStart := IndexFrom(text, '\n', ms[i].start).value + 1;
            ms[i].start < bodyStart <= SectionEnd(text, ms, i) <= |text|
            && RawSection(text, ms, i) == text[bodyStart..SectionEnd(text, ms, i)]
  {
    var ms := Markers(text);
    MarkersFromOrdered(text, 0);
    if i + 1 < |ms| {
      var q := ms[i + 1].start;
      assert ms[i].start < q && text[q - 1] == '\n';
      IndexFromFinds(text, '\n', ms[i].start, q - 1);
    }
  }

  /** No header begins inside a section's raw text. */
  lemma NoHeaderInSection(text: string, i: nat, p: nat)
    requires i < |Markers(text)| && IndexFrom(text, '\n', Markers(text)[i].start).Some?
    requires IndexFrom(text, '\n', Markers(text)[i].start).value < p < SectionEnd(text, Markers(text), i)
    ensures MarkerAt(text, p).None?
  {
    if MarkerAt(text, p).Some? {
      MarkersFromOrdered(text, 0);
      MarkersFromComplete(text, 0, p);
    }
  }

  /** The whole of `parse_script` after `read_text`. `sections` records
      the raw text behind each stored body. */
  method ParseScript(text: string) returns (result: Result<map<nat, string>, ParseError>)
    ensures result == Parse(text)
    ensures result.Success? ==> forall k :: k in result.value ==> IsCleanBody(result.value[k])
  {
    var ms := FindMarkers(text);
    if ms == [] {
      return Failure(NoMarkers);
    }
    var slides: map<nat, string> := map[];
    ghost var sections: map<nat, string> := map[];
    var i := 0;
    while i < |ms|
      invariant i <= |ms|
      invariant ParseFrom(text, ms, i, sections) == ParseFrom(text, ms, 0, map[])
      invariant slides == CleanAll(sections)
    {
      var lineEnd := IndexFrom(text, '\n', ms[i].start);
      if lineEnd.None? {
        assert ParseFrom(text, ms, i, sections) == Failure(HeaderWithoutNewline(ms[i].num));
        return Failure(HeaderWithoutNewline(ms[i].num));
      }
      var bodyEnd := if i + 1 < |ms| then ms[i + 1].start else |text|;
      var raw := Slice(text, lineEnd.value + 1, bodyEnd);
      assert raw == RawSection(text, ms, i);
      assert ParseFrom(text, ms, i, sections) == ParseFrom(text, ms, i + 1, sections[ms[i].num := raw]);
      var body := CleanBody(raw);
      CleanAllStore(sections, ms[i].num, raw);
      sections := sections[ms[i].num := raw];
      slides := slides[ms[i].num := body];
      i := i + 1;
    }
    result := Success(slides);
    CleanAllIsClean(sections);
  }
}
