/** A narration body seen as a list of lines: `"\n".join`, `split("\n")`,
    and how `strip()` and the `\n{3,}` substitution act on a joined list of
    lines (they drop blank lines at the ends and squash runs of blank lines). */
module Lines {
  import opened Wrappers
  import opened Text

  predicate AllNoNewline(lines: seq<string>) {
    forall i :: 0 <= i < |lines| ==> NoNewline(lines[i])
  }

  predicate AllTrimmed(lines: seq<string>) {
    forall i :: 0 <= i < |lines| ==> IsTrimmed(lines[i])
  }

  /** `"\n".join(lines)`. */
  function JoinLines(lines: seq<string>): string
    decreases |lines|
  {
    if lines == [] then ""
    else if |lines| == 1 then lines[0]
    else lines[0] + "\n" + JoinLines(lines[1..])
  }

  /** A join starts with the first character of its first line. */
  lemma JoinFirstChar(lines: seq<string>)
    requires lines != [] && lines[0] != ""
    ensures JoinLines(lines) != [] && JoinLines(lines)[0] == lines[0][0]
  {
    if |lines| > 1 {
      assert JoinLines(lines) == lines[0] + ("\n" + JoinLines(lines[1..]));
    }
  }

  /** `s.split("\n")`: never empty; "" gives [""]. */
  function SplitNewlines(s: string): seq<string>
    decreases |s|
  {
    match IndexFrom(s, '\n', 0)
    case None => [s]
    case Some(i) => [s[..i]] + SplitNewlines(s[i + 1..])
  }

  /** `split("\n")` gives at least one piece, and no piece holds "\n". */
  lemma {:induction false} SplitNewlinesFacts(s: string)
    ensures SplitNewlines(s) != [] && AllNoNewline(SplitNewlines(s))
    decreases |s|
  {
    match IndexFrom(s, '\n', 0)
    case None =>
      forall k | 0 <= k < |s| ensures s[k] != '\n' {
        if s[k] == '\n' {
          IndexFromFinds(s, '\n', 0, k);
        }
      }
    case Some(i) =>
      forall k | 0 <= k < i ensures s[k] != '\n' {
        if s[k] == '\n' {
          IndexFromFinds(s, '\n', 0, k);
        }
      }
      SplitNewlinesFacts(s[i + 1..]);
      var rest := SplitNewlines(s[i + 1..]);
      assert SplitNewlines(s) == [s[..i]] + rest;
  }

  function Newlines(n: nat): (r: string)
    ensures |r| == n && forall i :: 0 <= i < n ==> r[i] == '\n'
  {
    seq(n, _ => '\n')
  }

  /** Splitting a join of newline-free lines gives the lines back. */
  lemma {:induction false} SplitJoin(lines: seq<string>)
    requires lines != [] && AllNoNewline(lines)
    ensures SplitNewlines(JoinLines(lines)) == lines
    decreases |lines|
  {
    var j := JoinLines(lines);
    var x := lines[0];
    if |lines| == 1 {
      assert IndexFrom(j, '\n', 0) == None;
    } else {
      var rest := JoinLines(lines[1..]);
      assert j == x + "\n" + rest;
      assert j[|x|] == '\n';
      assert forall k :: 0 <= k < |x| ==> j[k] == x[k];
      IndexFromFinds(j, '\n', 0, |x|);
      assert IndexFrom(j, '\n', 0) == Some(|x|);
      assert j[..|x|] == x;
      assert j[|x| + 1..] == rest;
      SplitJoin(lines[1..]);
      assert lines == [x] + lines[1..];
    }
  }

  lemma JoinCons(x: string, rest: seq<string>)
    requires rest != []
    ensures JoinLines([x] + rest) == x + ("\n" + JoinLines(rest))
  {
    assert ([x] + rest)[1..] == rest;
  }

  lemma {:induction false} JoinSnoc(lines: seq<string>)
    requires |lines| >= 2
    ensures JoinLines(lines) == JoinLines(lines[..|lines| - 1]) + "\n" + lines[|lines| - 1]
    decreases |lines|
  {
    var n := |lines|;
    if n > 2 {
      JoinSnoc(lines[1..]);
      assert lines[1..][..n - 2] == lines[..n - 1][1..];
      assert lines[1..][n - 2] == lines[n - 1];
    }
  }

  // --------------------------------------------------- blank lines at ends

  function DropLeadingBlanks(lines: seq<string>): seq<string>
    decreases |lines|
  {
    if lines != [] && lines[0] == "" then DropLeadingBlanks(lines[1..]) else lines
  }

  /** What is dropped in front is blank, and what is left starts with a
      non-blank line. */
  lemma {:induction false} DropLeadingFacts(lines: seq<string>)
    ensures |DropLeadingBlanks(lines)| <= |lines|
    ensures DropLeadingBlanks(lines) == lines[|lines| - |DropLeadingBlanks(lines)|..]
    ensures DropLeadingBlanks(lines) == [] || DropLeadingBlanks(lines)[0] != ""
    ensures forall k :: 0 <= k < |lines| - |DropLeadingBlanks(lines)| ==> lines[k] == ""
    decreases |lines|
  {
    if lines != [] && lines[0] == "" {
      DropLeadingFacts(lines[1..]);
      var r := DropLeadingBlanks(lines[1..]);
      assert lines[1..][|lines| - 1 - |r|..] == lines[|lines| - |r|..];
    }
  }

  function DropTrailingBlanks(lines: seq<string>): seq<string>
    decreases |lines|
  {
    if lines != [] && lines[|lines| - 1] == "" then DropTrailingBlanks(lines[..|lines| - 1]) else lines
  }

  /** What is dropped behind is blank, and what is left ends with a
      non-blank line. */
  lemma {:induction false} DropTrailingFacts(lines: seq<string>)
    ensures |DropTrailingBlanks(lines)| <= |lines|
    ensures DropTrailingBlanks(lines) == lines[..|DropTrailingBlanks(lines)|]
    ensures DropTrailingBlanks(lines) == [] || DropTrailingBlanks(lines)[|DropTrailingBlanks(lines)| - 1] != ""
    ensures forall k :: |DropTrailingBlanks(lines)| <= k < |lines| ==> lines[k] == ""
    decreases |lines|
  {
    if lines != [] && lines[|lines| - 1] == "" {
      DropTrailingFacts(lines[..|lines| - 1]);
      var r := DropTrailingBlanks(lines[..|lines| - 1]);
      assert lines[..|lines| - 1][..|r|] == lines[..|r|];
    }
  }

  /** The lines without the blank lines before the first and after the last
      non-blank one. */
  function DropBlankEnds(lines: seq<string>): seq<string> {
    DropTrailingBlanks(DropLeadingBlanks(lines))
  }

  /** Both ends of what is left are non-blank, and it is a stretch of the
      original lines. */
  lemma DropBlankEndsFacts(lines: seq<string>)
    ensures DropBlankEnds(lines) == [] || (DropBlankEnds(lines)[0] != "" && DropBlankEnds(lines)[|DropBlankEnds(lines)| - 1] != "")
    ensures forall i :: 0 <= i < |DropBlankEnds(lines)| ==> DropBlankEnds(lines)[i] in lines
  {
    var l := DropLeadingBlanks(lines);
    DropLeadingFacts(lines);
    DropTrailingFacts(l);
    var r := DropBlankEnds(lines);
    assert forall i :: 0 <= i < |r| ==> r[i] == lines[|lines| - |l| + i];
  }

  /** Lines `i` and `i + 1` are both blank. */
  predicate BlankPairAt(lines: seq<string>, i: nat)
    requires i + 1 < |lines|
  {
    lines[i] == "" && lines[i + 1] == ""
  }

  /** The lines with every run of blank lines reduced to one blank line. */
  function SquashBlankRuns(lines: seq<string>): seq<string>
    decreases |lines|
  {
    if |lines| <= 1 then lines
    else if lines[0] == "" && lines[1] == "" then SquashBlankRuns(lines[1..])
    else [lines[0]] + SquashBlankRuns(lines[1..])
  }

  /** Squashing keeps the first and the last line and adds no line of its own. */
  lemma {:induction false} SquashFacts(lines: seq<string>)
    ensures lines != [] ==> (SquashBlankRuns(lines) != [] && SquashBlankRuns(lines)[0] == lines[0]
                             && SquashBlankRuns(lines)[|SquashBlankRuns(lines)| - 1] == lines[|lines| - 1])
    ensures forall i :: 0 <= i < |SquashBlankRuns(lines)| ==> SquashBlankRuns(lines)[i] in lines
    decreases |lines|
  {
    if |lines| > 1 {
      SquashFacts(lines[1..]);
      var rest := SquashBlankRuns(lines[1..]);
      assert forall x :: x in lines[1..] ==> x in lines;
      if !(lines[0] == "" && lines[1] == "") {
        var r := [lines[0]] + rest;
        assert forall i :: 1 <= i < |r| ==> r[i] == rest[i - 1];
      }
    }
  }

  /** After squashing, no two blank lines are adjacent. */
  lemma {:induction false} SquashLeavesNoBlankPair(lines: seq<string>)
    ensures forall i: nat :: i + 1 < |SquashBlankRuns(lines)| ==> !BlankPairAt(SquashBlankRuns(lines), i)
    decreases |lines|
  {
    if |lines| > 1 {
      SquashLeavesNoBlankPair(lines[1..]);
      SquashFacts(lines[1..]);
      var rest := SquashBlankRuns(lines[1..]);
      if lines[0] == "" && lines[1] == "" {
        assert SquashBlankRuns(lines) == rest;
      } else {
        var r := [lines[0]] + rest;
        assert SquashBlankRuns(lines) == r;
        forall i: nat | i + 1 < |r| ensures !BlankPairAt(r, i) {
          if i == 0 {
            assert r[1] == rest[0] == lines[1];
          } else {
            assert r[i] == rest[i - 1] && r[i + 1] == rest[i];
            assert !BlankPairAt(rest, i - 1);
          }
        }
      }
    }
  }

  /** `k` blank lines. */
  function Blanks(k: nat): (r: seq<string>)
    ensures |r| == k && forall i :: 0 <= i < k ==> r[i] == ""
  {
    seq(k, _ => "")
  }

  /** Squashing works on each side of a non-blank line separately. */
  lemma {:induction false} SquashSplit(a: seq<string>, c: seq<string>)
    requires a != [] && a[|a| - 1] != ""
    ensures SquashBlankRuns(a + c) == SquashBlankRuns(a) + SquashBlankRuns(c)
    decreases |a|
  {
    if |a| == 1 {
      if c == [] {
        assert a + c == a;
      } else {
        assert (a + c)[1..] == c;
      }
    } else {
      assert (a + c)[0] == a[0] && (a + c)[1] == a[1];
      assert (a + c)[1..] == a[1..] + c;
      SquashSplit(a[1..], c);
      if !(a[0] == "" && a[1] == "") {
        var x := [a[0]];
        assert x + (SquashBlankRuns(a[1..]) + SquashBlankRuns(c))
            == (x + SquashBlankRuns(a[1..])) + SquashBlankRuns(c);
      }
    }
  }

  /** A run of blank lines before a non-blank line becomes one blank line. */
  lemma {:induction false} SquashBlanksThen(k: nat, b: seq<string>)
    requires k >= 1 && b != [] && b[0] != ""
    ensures SquashBlankRuns(Blanks(k) + b) == [""] + SquashBlankRuns(b)
  {
    var lines := Blanks(k) + b;
    assert lines[k] == b[0];
    SquashLeadingBlanks(lines, k);
    assert lines[k..] == b;
  }

  /** Between two non-blank lines a run of any number of blank lines is
      kept as exactly one blank line: squashing neither drops the run nor
      keeps more than one of its lines. */
  lemma {:induction false} SquashKeepsOneBlank(a: seq<string>, k: nat, b: seq<string>)
    requires a != [] && a[|a| - 1] != "" && k >= 1 && b != [] && b[0] != ""
    ensures SquashBlankRuns(a + Blanks(k) + b) == SquashBlankRuns(a) + [""] + SquashBlankRuns(b)
  {
    assert a + Blanks(k) + b == a + (Blanks(k) + b);
    SquashSplit(a, Blanks(k) + b);
    SquashBlanksThen(k, b);
  }

  // ------------------------------------------------------ non-blank lines

  /** The lines that are not blank, in order. */
  function NonBlank(lines: seq<string>): seq<string>
    decreases |lines|
  {
    if lines == [] then [] else (if lines[0] == "" then [] else [lines[0]]) + NonBlank(lines[1..])
  }

  lemma {:induction false} NonBlankConcat(a: seq<string>, b: seq<string>)
    ensures NonBlank(a + b) == NonBlank(a) + NonBlank(b)
    decreases |a|
  {
    if a == [] {
      assert a + b == b;
    } else {
      assert (a + b)[0] == a[0] && (a + b)[1..] == a[1..] + b;
      NonBlankConcat(a[1..], b);
    }
  }

  /** Dropping blank lines at both ends keeps every non-blank line. */
  lemma {:induction false} NonBlankDropLeading(lines: seq<string>)
    ensures NonBlank(DropLeadingBlanks(lines)) == NonBlank(lines)
    decreases |lines|
  {
    if lines != [] && lines[0] == "" {
      NonBlankDropLeading(lines[1..]);
    }
  }

  lemma {:induction false} NonBlankDropTrailing(lines: seq<string>)
    ensures NonBlank(DropTrailingBlanks(lines)) == NonBlank(lines)
    decreases |lines|
  {
    if lines != [] && lines[|lines| - 1] == "" {
      var front := lines[..|lines| - 1];
      NonBlankDropTrailing(front);
      assert lines == front + [""];
      NonBlankConcat(front, [""]);
      assert NonBlank([""]) == [];
    }
  }

  lemma NonBlankDropBlankEnds(lines: seq<string>)
    ensures NonBlank(DropBlankEnds(lines)) == NonBlank(lines)
  {
    NonBlankDropLeading(lines);
    NonBlankDropTrailing(DropLeadingBlanks(lines));
  }

  /** Squashing removes blank lines only: the non-blank lines stay, in order. */
  lemma {:induction false} NonBlankSquash(lines: seq<string>)
    ensures NonBlank(SquashBlankRuns(lines)) == NonBlank(lines)
    decreases |lines|
  {
    if |lines| > 1 {
      NonBlankSquash(lines[1..]);
      if !(lines[0] == "" && lines[1] == "") {
        var sq := [lines[0]] + SquashBlankRuns(lines[1..]);
        assert sq[0] == lines[0] && sq[1..] == SquashBlankRuns(lines[1..]);
      }
    }
  }

  // ------------------------------------------------------ strip of a join

  lemma {:induction false} TrimLeftJoin(lines: seq<string>)
    requires AllTrimmed(lines)
    ensures TrimLeft(JoinLines(lines)) == JoinLines(DropLeadingBlanks(lines))
    decreases |lines|
  {
    if lines == [] || (|lines| == 1 && lines[0] == "") {
    } else if lines[0] == "" {
      var rest := JoinLines(lines[1..]);
      assert AllTrimmed(lines[1..]) by {
        forall i | 0 <= i < |lines| - 1 ensures IsTrimmed(lines[1..][i]) {
          assert lines[1..][i] == lines[i + 1];
        }
      }
      calc {
        TrimLeft(JoinLines(lines));
        { assert JoinLines(lines) == "\n" + rest; assert ("\n" + rest)[1..] == rest; }
        TrimLeft(rest);
        { TrimLeftJoin(lines[1..]); }
        JoinLines(DropLeadingBlanks(lines[1..]));
      }
    } else {
      JoinFirstChar(lines);
      var j := JoinLines(lines);
      assert !IsSpace(j[0]) by {
        assert IsTrimmed(lines[0]);
      }
      assert DropLeadingBlanks(lines) == lines;
    }
  }

  lemma {:induction false} TrimRightJoin(lines: seq<string>)
    requires AllTrimmed(lines)
    ensures TrimRight(JoinLines(lines)) == JoinLines(DropTrailingBlanks(lines))
    decreases |lines|
  {
    var n := |lines|;
    if n >= 2 {
      JoinSnoc(lines);
      var front := JoinLines(lines[..n - 1]);
      if lines[n - 1] == "" {
        assert JoinLines(lines) == front + "\n";
        assert (front + "\n")[..|front|] == front;
        TrimRightJoin(lines[..n - 1]);
      } else {
        var j := JoinLines(lines);
        assert j[|j| - 1] == lines[n - 1][|lines[n - 1]| - 1];
      }
    }
  }

  /** `strip()` of joined trimmed lines removes exactly the blank lines at
      both ends. */
  lemma StripJoin(lines: seq<string>)
    requires AllTrimmed(lines)
    ensures Strip(JoinLines(lines)) == JoinLines(DropBlankEnds(lines))
  {
    TrimLeftJoin(lines);
    var l := DropLeadingBlanks(lines);
    DropLeadingFacts(lines);
    assert forall i :: 0 <= i < |l| ==> l[i] == lines[|lines| - |l| + i];
    TrimRightJoin(l);
  }

  // ----------------------------------------- \n{3,} substitution of a join

  lemma {:induction false} CollapseAfterText(x: string, t: string)
    requires NoNewline(x)
    ensures CollapseNewlines(x + t) == x + CollapseNewlines(t)
    decreases |x|
  {
    if x == [] {
      assert x + t == t;
    } else {
      var s := x + t;
      assert s[0] == x[0] && s[1..] == x[1..] + t;
      calc {
        CollapseNewlines(s);
        { assert CollapseNewlines(s) == [s[0]] + CollapseNewlines(s[1..]); }
        [x[0]] + CollapseNewlines(x[1..] + t);
        { CollapseAfterText(x[1..], t); }
        [x[0]] + (x[1..] + CollapseNewlines(t));
        { assert x == [x[0]] + x[1..]; }
        x + CollapseNewlines(t);
      }
    }
  }

  /** What the substitution leaves of a run of `m` newlines. */
  function RunReplacement(m: nat): string {
    if m >= 3 then "\n\n" else Newlines(m)
  }

  lemma CollapseRun(m: nat, u: string)
    requires m >= 1
    requires u == [] || u[0] != '\n'
    ensures CollapseNewlines(Newlines(m) + u) == RunReplacement(m) + CollapseNewlines(u)
  {
    var s := Newlines(m) + u;
    var n := Span(s, 0, Newline);
    SpanFacts(s, 0, Newline);
    assert forall k :: 0 <= k < m ==> s[k] == '\n';
    assert m == |s| || s[m] == u[0];
    assert n == m;
    assert s[..m] == Newlines(m);
    assert s[m..] == u;
  }

  lemma {:induction false} JoinLeadingBlanks(lines: seq<string>, k: nat)
    requires k < |lines|
    requires forall i :: 0 <= i < k ==> lines[i] == ""
    ensures JoinLines(lines) == Newlines(k) + JoinLines(lines[k..])
    decreases k
  {
    if k > 0 {
      JoinLeadingBlanks(lines[1..], k - 1);
      assert lines[1..][k - 1..] == lines[k..];
      assert JoinLines(lines) == "\n" + JoinLines(lines[1..]);
      assert Newlines(k) == "\n" + Newlines(k - 1);
    }
  }

  /** A joined list is its first line, the newlines up to the next non-blank
      line, and the join of the lines from there on. */
  lemma {:induction false} JoinAfterFirst(lines: seq<string>, k: nat)
    requires k + 1 < |lines|
    requires forall i :: 1 <= i <= k ==> lines[i] == ""
    ensures JoinLines(lines) == lines[0] + (Newlines(k + 1) + JoinLines(lines[k + 1..]))
  {
    var rest := lines[1..];
    calc {
      JoinLines(lines);
      { assert JoinLines(lines) == lines[0] + ("\n" + JoinLines(rest)); }
      lines[0] + ("\n" + JoinLines(rest));
      { JoinLeadingBlanks(rest, k); assert rest[k..] == lines[k + 1..]; }
      lines[0] + ("\n" + (Newlines(k) + JoinLines(lines[k + 1..])));
      { assert Newlines(k + 1) == "\n" + Newlines(k); }
      lines[0] + (Newlines(k + 1) + JoinLines(lines[k + 1..]));
    }
  }

  lemma {:induction false} SquashLeadingBlanks(lines: seq<string>, k: nat)
    requires k < |lines| && lines[k] != ""
    requires forall i :: 0 <= i < k ==> lines[i] == ""
    ensures SquashBlankRuns(lines) == (if k >= 1 then [""] else []) + SquashBlankRuns(lines[k..])
    decreases k
  {
    if k == 1 {
      assert SquashBlankRuns(lines) == [lines[0]] + SquashBlankRuns(lines[1..]);
    } else if k >= 2 {
      assert SquashBlankRuns(lines) == SquashBlankRuns(lines[1..]);
      SquashLeadingBlanks(lines[1..], k - 1);
      assert lines[1..][k - 1..] == lines[k..];
    }
  }

  lemma SquashCons(x: string, rest: seq<string>)
    requires x != "" && rest != []
    ensures JoinLines(SquashBlankRuns([x] + rest)) == x + ("\n" + JoinLines(SquashBlankRuns(rest)))
  {
    assert ([x] + rest)[1..] == rest;
    assert SquashBlankRuns([x] + rest) == [x] + SquashBlankRuns(rest);
    SquashFacts(rest);
    JoinCons(x, SquashBlankRuns(rest));
  }

  lemma SquashUnfold(lines: seq<string>)
    requires 1 < |lines| && lines[0] != ""
    ensures JoinLines(SquashBlankRuns(lines)) == lines[0] + ("\n" + JoinLines(SquashBlankRuns(lines[1..])))
  {
    assert lines == [lines[0]] + lines[1..];
    SquashCons(lines[0], lines[1..]);
  }

  lemma JoinSquashBlanks(rest: seq<string>, k: nat)
    requires 1 <= k < |rest| && rest[k] != ""
    requires forall i :: 0 <= i < k ==> rest[i] == ""
    ensures JoinLines(SquashBlankRuns(rest)) == "\n" + JoinLines(SquashBlankRuns(rest[k..]))
  {
    var sq := SquashBlankRuns(rest[k..]);
    SquashFacts(rest[k..]);
    SquashLeadingBlanks(rest, k);
    JoinCons("", sq);
  }

  lemma SquashAfterBlanks(lines: seq<string>, k: nat)
    requires 1 <= k && k + 1 < |lines| && lines[0] != "" && lines[k + 1] != ""
    requires forall i :: 1 <= i <= k ==> lines[i] == ""
    ensures JoinLines(SquashBlankRuns(lines))
         == lines[0] + ("\n" + ("\n" + JoinLines(SquashBlankRuns(lines[k + 1..]))))
  {
    var rest := lines[1..];
    SquashUnfold(lines);
    assert rest[k..] == lines[k + 1..];
    JoinSquashBlanks(rest, k);
  }

  /** The squashed list, joined, seen the same way as in JoinAfterFirst. */
  lemma {:induction false} SquashAfterFirst(lines: seq<string>, k: nat)
    requires k + 1 < |lines| && lines[0] != "" && lines[k + 1] != ""
    requires forall i :: 1 <= i <= k ==> lines[i] == ""
    ensures JoinLines(SquashBlankRuns(lines))
         == lines[0] + (RunReplacement(k + 1) + JoinLines(SquashBlankRuns(lines[k + 1..])))
  {
    assert RunReplacement(k + 1) == if k == 0 then "\n" else "\n\n";
    if k == 0 {
      SquashUnfold(lines);
    } else {
      SquashAfterBlanks(lines, k);
      var j := JoinLines(SquashBlankRuns(lines[k + 1..]));
      assert "\n" + ("\n" + j) == "\n\n" + j by {
        assert "\n\n" == "\n" + "\n";
      }
    }
  }

  /** The blank lines after the first line end before the last line. */
  lemma {:induction false} NextNonBlank(lines: seq<string>) returns (k: nat)
    requires |lines| > 1 && lines[|lines| - 1] != ""
    ensures k + 1 < |lines| && lines[k + 1] != ""
    ensures forall i :: 1 <= i <= k ==> lines[i] == ""
  {
    var rest := lines[1..];
    DropLeadingFacts(rest);
    k := |rest| - |DropLeadingBlanks(rest)|;
    assert rest[k..] == DropLeadingBlanks(rest);
    assert rest[k] == lines[k + 1];
    forall i | 1 <= i <= k ensures lines[i] == "" {
      assert lines[i] == rest[i - 1];
    }
  }

  /** On joined lines with non-blank ends, the substitution leaves a single
      blank line wherever the list had a run of blank lines. */
  lemma {:induction false} CollapseJoin(lines: seq<string>)
    requires lines != [] && AllNoNewline(lines)
    requires lines[0] != "" && lines[|lines| - 1] != ""
    ensures CollapseNewlines(JoinLines(lines)) == JoinLines(SquashBlankRuns(lines))
    decreases |lines|
  {
    if |lines| > 1 {
      var x := lines[0];
      var k := NextNonBlank(lines);
      var tail := lines[k + 1..];
      assert AllNoNewline(tail) by {
        forall i | 0 <= i < |tail| ensures NoNewline(tail[i]) {
          assert tail[i] == lines[k + 1 + i];
        }
      }
      assert tail[0] == lines[k + 1] && tail[|tail| - 1] == lines[|lines| - 1];
      var u := JoinLines(tail);
      JoinFirstChar(tail);
      assert NoNewline(x) && NoNewline(tail[0]);
      assert u[0] != '\n';
      calc {
        CollapseNewlines(JoinLines(lines));
        { JoinAfterFirst(lines, k); }
        CollapseNewlines(x + (Newlines(k + 1) + u));
        { CollapseAfterText(x, Newlines(k + 1) + u); }
        x + CollapseNewlines(Newlines(k + 1) + u);
        { CollapseRun(k + 1, u); }
        x + (RunReplacement(k + 1) + CollapseNewlines(u));
        { CollapseJoin(tail); }
        x + (RunReplacement(k + 1) + JoinLines(SquashBlankRuns(tail)));
        { SquashAfterFirst(lines, k); }
        JoinLines(SquashBlankRuns(lines));
      }
    } else {
      CollapseWithoutNewlines(lines[0]);
    }
  }
}
