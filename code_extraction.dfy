/**
 * Pulling the script out of a language-model reply: the body of the first
 * fenced block when there is one, otherwise a line scan that starts at the
 * first line that looks like Python and stops at the first later line that is
 * neither code-like nor blank.
 */
module CodeExtraction {
  import opened Wrappers
  import opened PyStr
  import opened Fences

  /** The prefixes that mark a line as code, in the order the scan tries them. */
  const Keywords: seq<string> := ["import", "from", "def", "for", "while", "if", "class"]

  /** `t.startswith(("import", "from", ...))`: a plain prefix test, not a whole-word test. */
  predicate StartsWithKeyword(t: string) {
    StartsWithAny(t, Keywords)
  }

  /** The test the scan applies to each line: a keyword after stripping, or a stripped line that starts with a space. */
  predicate IsCodeLine(line: string) {
    StartsWithKeyword(Strip(line)) || StartsWith(Strip(line), " ")
  }

  /** A line that is empty after stripping. */
  predicate IsBlankLine(line: string) {
    Strip(line) == []
  }

  /** The second half of the code-line test never holds: a stripped line cannot start with a space. */
  lemma IndentTestNeverHolds(line: string)
    ensures !StartsWith(Strip(line), " ")
    ensures IsCodeLine(line) <==> StartsWithKeyword(Strip(line))
  {
    var t := Strip(line);
    if |t| >= 1 {
      assert IsSpace(' ');
      assert t[0] != ' ';
    }
  }

  /** Index of the first code line, or `|lines|` when there is none. */
  function CodeStart(lines: seq<string>): (k: nat)
    ensures k <= |lines|
    ensures k < |lines| ==> IsCodeLine(lines[k])
  {
    if lines == [] || IsCodeLine(lines[0]) then 0 else 1 + CodeStart(lines[1..])
  }

  /** No line before the first code line is code. */
  lemma {:induction false} CodeStartFirst(lines: seq<string>, i: nat)
    requires i < CodeStart(lines)
    ensures !IsCodeLine(lines[i])
  {
    if i > 0 {
      assert CodeStart(lines) == 1 + CodeStart(lines[1..]);
      CodeStartFirst(lines[1..], i - 1);
      assert lines[1..][i - 1] == lines[i];
    }
  }

  /** Index of the first line at or after `from` that is neither code nor blank, or `|lines|`. */
  function CodeEnd(lines: seq<string>, from: nat): (e: nat)
    requires from <= |lines|
    ensures from <= e <= |lines|
    decreases |lines| - from
  {
    if from == |lines| then from
    else if IsCodeLine(lines[from]) || IsBlankLine(lines[from]) then CodeEnd(lines, from + 1)
    else from
  }

  /** Every line from `from` up to the end of the span is code or blank, and the line at the end, if any, is neither. */
  lemma {:induction false} CodeEndMeaning(lines: seq<string>, from: nat, i: nat)
    requires from <= |lines| && from <= i <= CodeEnd(lines, from)
    ensures i < CodeEnd(lines, from) ==> IsCodeLine(lines[i]) || IsBlankLine(lines[i])
    ensures i == CodeEnd(lines, from) < |lines| ==> !IsCodeLine(lines[i]) && !IsBlankLine(lines[i])
    decreases i - from
  {
    if from < i {
      CodeEndMeaning(lines, from + 1, i);
    }
  }

  /** The lines the scan keeps: from the first code line up to, not including, the line that stops it. */
  function ScannedLines(lines: seq<string>): seq<string> {
    SpanFrom(lines, CodeStart(lines))
  }

  /** The lines from line `k` up to, not including, the first later line that is neither code nor blank. */
  function SpanFrom(lines: seq<string>, k: nat): seq<string>
    requires k <= |lines|
  {
    if k == |lines| then [] else lines[k..CodeEnd(lines, k + 1)]
  }

  /**
   * The extraction. With a fenced block, the stripped body of the first one;
   * without, the stripped "\n"-join of the scanned lines.
   */
  method ExtractCode(response: string) returns (code: string)
    ensures Search(response, 0).Some? ==> code == Strip(Body(response, Search(response, 0).value))
    ensures Search(response, 0).None? ==> code == Strip(JoinWith("\n", ScannedLines(SplitLines(response))))
  {
    var first := Search(response, 0);
    if first.Some? {
      return Strip(Body(response, first.value));
    }
    var codeLines := ScanLines(SplitLines(response));
    code := Strip(JoinWith("\n", codeLines));
  }

  /**
   * Where the scan stands before line `i`: not started, and the first code
   * line is not behind; or started, inside the span, with the lines from the
   * first code line up to `i` kept.
   */
  predicate ScanState(lines: seq<string>, i: nat, started: bool, codeLines: seq<string>) {
    i <= |lines|
    && (!started ==> i <= CodeStart(lines) && codeLines == [])
    && (started ==> CodeStart(lines) < i <= CodeEnd(lines, CodeStart(lines) + 1) && codeLines == lines[CodeStart(lines)..i])
  }

  /** The line scan: a flag that turns on at the first code line, and a list of kept lines. */
  method ScanLines(lines: seq<string>) returns (codeLines: seq<string>)
    ensures codeLines == ScannedLines(lines)
  {
    codeLines := [];
    var started := false;
    var i := 0;
    while i < |lines|
      invariant ScanState(lines, i, started, codeLines)
    {
      var line := lines[i];
      if IsCodeLine(line) {
        if started {
          ScanKeeps(lines, i, codeLines);
        } else {
          ScanStarts(lines, i, codeLines);
        }
        started := true;
        codeLines := codeLines + [line];
      } else if started && IsBlankLine(line) {
        ScanKeeps(lines, i, codeLines);
        codeLines := codeLines + [line];
      } else if started {
        ScanStops(lines, i, codeLines);
        break;
      } else {
        ScanSkips(lines, i, codeLines);
      }
      i := i + 1;
    }
    if i == |lines| {
      ScanEnds(lines, started, codeLines);
    }
  }

  /** A line before the first code line is skipped. */
  lemma ScanSkips(lines: seq<string>, i: nat, codeLines: seq<string>)
    requires ScanState(lines, i, false, codeLines) && i < |lines| && !IsCodeLine(lines[i])
    ensures ScanState(lines, i + 1, false, codeLines)
  {
  }

  /** The first code line the scan meets is where the span starts, and it is kept. */
  lemma ScanStarts(lines: seq<string>, i: nat, codeLines: seq<string>)
    requires ScanState(lines, i, false, codeLines) && i < |lines| && IsCodeLine(lines[i])
    ensures ScanState(lines, i + 1, true, codeLines + [lines[i]])
  {
    if i < CodeStart(lines) {
      CodeStartFirst(lines, i);
      assert false;
    }
    SliceExtend(lines, i, i);
  }

  /** After the start, a code or blank line is still inside the span, and it is kept. */
  lemma ScanKeeps(lines: seq<string>, i: nat, codeLines: seq<string>)
    requires ScanState(lines, i, true, codeLines) && i < |lines|
    requires IsCodeLine(lines[i]) || IsBlankLine(lines[i])
    ensures ScanState(lines, i + 1, true, codeLines + [lines[i]])
  {
    var k := CodeStart(lines);
    CodeEndPast(lines, k + 1, i);
    SliceExtend(lines, k, i);
  }

  lemma SliceHead<T>(xs: seq<T>, k: nat, e: nat)
    requires k < e <= |xs|
    ensures xs[k..e] != [] && xs[k..e][0] == xs[k]
  {
  }

  lemma SliceExtend<T>(xs: seq<T>, k: nat, i: nat)
    requires k <= i < |xs|
    ensures xs[k..i + 1] == xs[k..i] + [xs[i]]
  {
  }

  /** After the start, the first line that is neither code nor blank ends the span: what is kept is the result. */
  lemma ScanStops(lines: seq<string>, i: nat, codeLines: seq<string>)
    requires ScanState(lines, i, true, codeLines) && i < |lines|
    requires !IsCodeLine(lines[i]) && !IsBlankLine(lines[i])
    ensures codeLines == ScannedLines(lines)
  {
    CodeEndAt(lines, CodeStart(lines) + 1, i);
  }

  /** Having looked at every line, what is kept is the result. */
  lemma ScanEnds(lines: seq<string>, started: bool, codeLines: seq<string>)
    requires ScanState(lines, |lines|, started, codeLines)
    ensures codeLines == ScannedLines(lines)
  {
  }

  /** A code or blank line inside the span from `from` is before its end. */
  lemma {:induction false} CodeEndPast(lines: seq<string>, from: nat, i: nat)
    requires from <= i < |lines| && i <= CodeEnd(lines, from)
    requires IsCodeLine(lines[i]) || IsBlankLine(lines[i])
    ensures i < CodeEnd(lines, from)
    decreases i - from
  {
    if from < i {
      CodeEndPast(lines, from + 1, i);
    }
  }

  /** `CodeEnd` from `from` is the first line at or after `from` that stops the scan. */
  lemma {:induction false} CodeEndAt(lines: seq<string>, from: nat, i: nat)
    requires from <= i < |lines| && i <= CodeEnd(lines, from)
    requires !IsCodeLine(lines[i]) && !IsBlankLine(lines[i])
    ensures CodeEnd(lines, from) == i
    decreases i - from
  {
    if from < i {
      CodeEndAt(lines, from + 1, i);
    }
  }

  /** Text that is not all whitespace fixes the leading whitespace of anything it starts. */
  lemma LeadingSpaceOfPrefix(x: string, y: string)
    requires !AllSpace(x)
    ensures LeadingSpace(x + y) == LeadingSpace(x) < |x|
  {
    var s := x + y;
    var a := LeadingSpace(x);
    assert a < |x|;
    assert s[..a] == x[..a];
    assert s[a] == x[a];
    LeadingSpaceUnique(s, a);
  }

  /** When the stripped `x` is not empty, it is a prefix of the stripped `x + y`. */
  lemma StripOfPrefix(x: string, y: string)
    requires Strip(x) != []
    ensures StartsWith(Strip(x + y), Strip(x))
  {
    var sx, ss := Strip(x), Strip(x + y);
    StripMiddle(x);
    StripMiddle(x + y);
    LeadingSpaceOfPrefix(x, y);
    var a := LeadingSpace(x);
    SpanOfPrefix(x, y, a, |sx|, |ss|);
    StartsWithSlice(ss, sx);
  }

  /**
   * A span of `x` from `a` that ends on a non-space character is the start
   * of any span of `x + y` from `a` that is followed only by whitespace.
   */
  lemma SpanOfPrefix(x: string, y: string, a: nat, n: nat, m: nat)
    requires 0 < n && a + n <= |x| && a + m <= |x + y|
    requires !IsSpace(x[a..a + n][n - 1]) && AllSpace((x + y)[a + m..])
    ensures n <= m && (x + y)[a..a + m][..n] == x[a..a + n]
  {
    var s := x + y;
    var q := a + n - 1;
    assert s[q] == x[q] == x[a..a + n][n - 1];
    assert forall j :: a + m <= j < |s| ==> s[j] == s[a + m..][j - (a + m)];
  }

  /** No keyword is empty, so only a non-empty line can start with one. */
  lemma KeywordLineNotEmpty(t: string)
    requires StartsWithKeyword(t)
    ensures t != []
  {
    assert |Keywords| == 7;
    assert Keywords[0] == "import" && Keywords[1] == "from" && Keywords[2] == "def";
    assert Keywords[3] == "for" && Keywords[4] == "while" && Keywords[5] == "if" && Keywords[6] == "class";
    StartsWithAnyNonEmpty(t, Keywords);
  }

  /** Joining more lines after a line that starts with a member of `ps` keeps the stripped result starting with one. */
  lemma JoinedStartsWithAny(scanned: seq<string>, ps: seq<string>)
    requires scanned != [] && StartsWithAny(Strip(scanned[0]), ps) && Strip(scanned[0]) != []
    ensures StartsWithAny(Strip(JoinWith("\n", scanned)), ps)
  {
    if |scanned| > 1 {
      var first, joined := scanned[0], JoinWith("\n", scanned);
      var rest := "\n" + JoinWith("\n", scanned[1..]);
      assert joined == first + rest;
      StripOfPrefix(first, rest);
      StartsWithAnyTrans(Strip(joined), Strip(first), ps);
    }
  }

  /**
   * Without a fenced block, the heuristic result is empty exactly when no line
   * starts with a keyword; otherwise it begins with one of the keywords.
   */
  lemma ScanResultStartsWithKeyword(lines: seq<string>)
    ensures Strip(JoinWith("\n", ScannedLines(lines))) == [] <==> CodeStart(lines) == |lines|
    ensures CodeStart(lines) < |lines| ==> StartsWithKeyword(Strip(JoinWith("\n", ScannedLines(lines))))
  {
    if CodeStart(lines) < |lines| {
      ScannedStartsWithKeyword(lines);
    } else {
      NothingScanned(lines);
    }
  }

  /** With a code line, the scanned lines start with it, so their stripped join starts with a keyword. */
  lemma ScannedStartsWithKeyword(lines: seq<string>)
    requires CodeStart(lines) < |lines|
    ensures var t := Strip(JoinWith("\n", ScannedLines(lines))); t != [] && StartsWithKeyword(t)
  {
    SpanStartsWithKeyword(lines, CodeStart(lines));
  }

  /** A span that starts at a code line joins, once stripped, into text that starts with a keyword. */
  lemma SpanStartsWithKeyword(lines: seq<string>, k: nat)
    requires k < |lines| && IsCodeLine(lines[k])
    ensures var t := Strip(JoinWith("\n", SpanFrom(lines, k))); t != [] && StartsWithKeyword(t)
  {
    var e := CodeEnd(lines, k + 1);
    CodeLineHead(lines[k]);
    JoinedCodeStartsWithKeyword(lines, k, e);
    assert SpanFrom(lines, k) == lines[k..e];
  }

  /** Without a code line nothing is scanned, and the stripped join of nothing is empty. */
  lemma NothingScanned(lines: seq<string>)
    requires CodeStart(lines) == |lines|
    ensures Strip(JoinWith("\n", ScannedLines(lines))) == []
  {
    assert ScannedLines(lines) == [];
  }

  /** Lines led by a code line join, once stripped, into text that starts with a keyword. */
  lemma JoinedCodeStartsWithKeyword(lines: seq<string>, k: nat, e: nat)
    requires k < e <= |lines| && StartsWithKeyword(Strip(lines[k])) && Strip(lines[k]) != []
    ensures var t := Strip(JoinWith("\n", lines[k..e])); t != [] && StartsWithKeyword(t)
  {
    var scanned := lines[k..e];
    SliceHead(lines, k, e);
    JoinedStartsWithAny(scanned, Keywords);
    KeywordLineNotEmpty(Strip(JoinWith("\n", scanned)));
  }

  /** A code line starts, once stripped, with a keyword, so it is not blank. */
  lemma CodeLineHead(line: string)
    requires IsCodeLine(line)
    ensures StartsWithKeyword(Strip(line)) && Strip(line) != []
  {
    IndentTestNeverHolds(line);
    KeywordLineNotEmpty(Strip(line));
  }
}
