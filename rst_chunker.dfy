/**
 * Splitting cleaned reStructuredText into labelled chunks: the document is cut
 * at every heading underline, each section keeps its text and its underline
 * run, and each section is cut into fixed-size windows labelled with the file
 * name, the section index and the window index.
 */
module RstChunker {
  import opened Wrappers
  import opened PyStr
  import opened RstClean

  // ----- the heading separator \n\s*(=+|-+|~+|\^+|\++)\n -----

  predicate IsUnderlineChar(c: char) {
    c == '=' || c == '-' || c == '~' || c == '^' || c == '+'
  }

  /** The first index at or after `i` that is not whitespace, or `|s|`: where the greedy `\s*` stops. */
  function SpaceEnd(s: string, i: nat): (r: nat)
    requires i <= |s|
    ensures i <= r <= |s|
    decreases |s| - i
  {
    if i == |s| || !IsSpace(s[i]) then i else SpaceEnd(s, i + 1)
  }

  /** The first index at or after `i` that does not hold `c`, or `|s|`: where the greedy run of `c` stops. */
  function RunEnd(s: string, i: nat, c: char): (r: nat)
    requires i <= |s|
    ensures i <= r <= |s|
    decreases |s| - i
  {
    if i == |s| || s[i] != c then i else RunEnd(s, i + 1, c)
  }

  /** The greedy `\s*` consumes only whitespace and stops at the end or before a non-whitespace character. */
  lemma {:induction false} SpaceEndMeaning(s: string, i: nat)
    requires i <= |s|
    ensures forall j :: i <= j < SpaceEnd(s, i) ==> IsSpace(s[j])
    ensures SpaceEnd(s, i) == |s| || !IsSpace(s[SpaceEnd(s, i)])
    decreases |s| - i
  {
    if i < |s| && IsSpace(s[i]) {
      SpaceEndMeaning(s, i + 1);
    }
  }

  /** Any whitespace stretch that ends at the end or before a non-whitespace character is the one `\s*` takes. */
  lemma {:induction false} SpaceEndUnique(s: string, i: nat, k: nat)
    requires i <= k <= |s| && (forall j :: i <= j < k ==> IsSpace(s[j])) && (k == |s| || !IsSpace(s[k]))
    ensures SpaceEnd(s, i) == k
    decreases k - i
  {
    if i < k {
      SpaceEndUnique(s, i + 1, k);
    }
  }

  /** The greedy run consumes only `c` and stops at the end or before another character. */
  lemma {:induction false} RunEndMeaning(s: string, i: nat, c: char)
    requires i <= |s|
    ensures forall j :: i <= j < RunEnd(s, i, c) ==> s[j] == c
    ensures RunEnd(s, i, c) == |s| || s[RunEnd(s, i, c)] != c
    decreases |s| - i
  {
    if i < |s| && s[i] == c {
      RunEndMeaning(s, i + 1, c);
    }
  }

  /** Any run of `c` that ends at the end or before another character is the one the greedy run takes. */
  lemma {:induction false} RunEndUnique(s: string, i: nat, c: char, k: nat)
    requires i <= k <= |s| && (forall j :: i <= j < k ==> s[j] == c) && (k == |s| || s[k] != c)
    ensures RunEnd(s, i, c) == k
    decreases k - i
  {
    if i < k {
      RunEndUnique(s, i + 1, c, k);
    }
  }

  /**
   * A separator match: it starts with the line feed at `at`; the captured
   * underline run is `s[underlineStart..underlineEnd]`; the line feed at
   * `underlineEnd` closes it.
   */
  datatype Heading = Heading(at: nat, underlineStart: nat, underlineEnd: nat)

  /**
   * `h` is a way to match the separator pattern in `s`: a line feed, any
   * whitespace, a non-empty run of one underline character, a line feed.
   */
  predicate IsHeading(s: string, h: Heading) {
    h.at < h.underlineStart < h.underlineEnd < |s|
    && s[h.at] == '\n'
    && (forall j :: h.at < j < h.underlineStart ==> IsSpace(s[j]))
    && IsUnderlineChar(s[h.underlineStart])
    && (forall j :: h.underlineStart <= j < h.underlineEnd ==> s[j] == s[h.underlineStart])
    && s[h.underlineEnd] == '\n'
  }

  /**
   * The separator anchored at `p`: the greedy `\s*` and the greedy run are
   * the only choices that can succeed, since no underline character is
   * whitespace and no underline character is a line feed.
   */
  function HeadingAt(s: string, p: nat): Option<Heading> {
    if p < |s| && s[p] == '\n' then
      var w := SpaceEnd(s, p + 1);
      if w < |s| && IsUnderlineChar(s[w]) then
        var e := RunEnd(s, w, s[w]);
        if e < |s| && s[e] == '\n' then Some(Heading(p, w, e)) else None
      else None
    else None
  }

  /** What the matcher reports is a match of the pattern at `p`. */
  lemma HeadingAtSound(s: string, p: nat)
    requires HeadingAt(s, p).Some?
    ensures HeadingAt(s, p).value.at == p && IsHeading(s, HeadingAt(s, p).value)
  {
    var w := SpaceEnd(s, p + 1);
    SpaceEndMeaning(s, p + 1);
    RunEndMeaning(s, w, s[w]);
    assert RunEnd(s, w, s[w]) == RunEnd(s, w + 1, s[w]);
  }

  /** The pattern matches in exactly one way, and the matcher finds it. */
  lemma HeadingAtExact(s: string, h: Heading)
    requires IsHeading(s, h)
    ensures HeadingAt(s, h.at) == Some(h)
  {
    SpaceEndUnique(s, h.at + 1, h.underlineStart);
    RunEndUnique(s, h.underlineStart, s[h.underlineStart], h.underlineEnd);
  }

  /** The successive non-overlapping separator matches at or after `p`, as a left-to-right search finds them. */
  function Headings(s: string, p: nat): seq<Heading>
    requires p <= |s|
    decreases |s| - p
  {
    if p == |s| then []
    else match HeadingAt(s, p)
      case Some(h) => [h] + Headings(s, h.underlineEnd + 1)
      case None => Headings(s, p + 1)
  }

  /** A match at `p` is the first one reported, and the search resumes after its closing line feed. */
  lemma HeadingsStep(s: string, p: nat, h: Heading)
    requires p < |s| && HeadingAt(s, p) == Some(h)
    ensures h.underlineEnd < |s|
    ensures Headings(s, p) == [h] + Headings(s, h.underlineEnd + 1)
  {
    HeadingAtSound(s, p);
  }

  /** Every match the search reports is a match of the pattern, at or after `p`. */
  lemma {:induction false} HeadingsAreMatches(s: string, p: nat)
    requires p <= |s|
    ensures forall j :: 0 <= j < |Headings(s, p)| ==> p <= Headings(s, p)[j].at && IsHeading(s, Headings(s, p)[j])
    decreases |s| - p
  {
    if p < |s| {
      match HeadingAt(s, p)
      case Some(h) =>
        HeadingAtSound(s, p);
        HeadingsStep(s, p, h);
        var q := h.underlineEnd + 1;
        var hs, rest := Headings(s, p), Headings(s, q);
        HeadingsAreMatches(s, q);
        forall j | 0 <= j < |hs|
          ensures p <= hs[j].at && IsHeading(s, hs[j])
        {
          if j > 0 {
            assert hs[j] == rest[j - 1];
          }
        }
      case None =>
        HeadingsAreMatches(s, p + 1);
    }
  }

  /** The captured text of a match. */
  function RunText(s: string, h: Heading): string {
    if h.underlineStart <= h.underlineEnd <= |s| then s[h.underlineStart..h.underlineEnd] else []
  }

  /**
   * `re.split` with the separator pattern from position `p`, the current
   * piece having begun at `start`: pieces of text alternate with the captured
   * underline runs, and the text after the last separator comes last.
   */
  function SplitFrom(s: string, start: nat, p: nat): seq<string>
    requires start <= p <= |s|
    decreases |s| - p
  {
    if p == |s| then [s[start..]]
    else match HeadingAt(s, p)
      case Some(h) => [s[start..p], s[h.underlineStart..h.underlineEnd]] + SplitFrom(s, h.underlineEnd + 1, h.underlineEnd + 1)
      case None => SplitFrom(s, start, p + 1)
  }

  /** The split list of a whole document. */
  function SplitOnHeadings(s: string): seq<string> {
    SplitFrom(s, 0, 0)
  }

  /** A non-empty run of one underline character. */
  predicate IsUnderline(u: string) {
    u != [] && IsUnderlineChar(u[0]) && forall j :: 0 <= j < |u| ==> u[j] == u[0]
  }

  /** The captured text of a match is an underline run. */
  lemma HeadingRun(s: string, h: Heading)
    requires IsHeading(s, h)
    ensures IsUnderline(RunText(s, h))
  {
  }

  /** The split list has one more element than twice the number of matches. */
  lemma {:induction false} SplitCount(s: string, start: nat, p: nat)
    requires start <= p <= |s|
    ensures |SplitFrom(s, start, p)| == 2 * |Headings(s, p)| + 1
    decreases |s| - p
  {
    if p < |s| {
      match HeadingAt(s, p)
      case Some(h) =>
        HeadingAtSound(s, p);
        var q := h.underlineEnd + 1;
        SplitCount(s, q, q);
        assert Headings(s, p) == [h] + Headings(s, q);
        assert SplitFrom(s, start, p) == [s[start..p], s[h.underlineStart..h.underlineEnd]] + SplitFrom(s, q, q);
      case None =>
        SplitCount(s, start, p + 1);
    }
  }

  /** `parts[1::2]`. */
  function OddElements(parts: seq<string>): seq<string> {
    if |parts| < 2 then [] else [parts[1]] + OddElements(parts[2..])
  }

  /** The captured texts of a list of matches. */
  function RunTexts(s: string, hs: seq<Heading>): (runs: seq<string>)
    ensures |runs| == |hs|
  {
    if hs == [] then [] else [RunText(s, hs[0])] + RunTexts(s, hs[1..])
  }

  /** The odd-indexed elements of the split list are the matched underline runs, in order. */
  lemma {:induction false} SplitRuns(s: string, start: nat, p: nat)
    requires start <= p <= |s|
    ensures OddElements(SplitFrom(s, start, p)) == RunTexts(s, Headings(s, p))
    decreases |s| - p
  {
    if p < |s| {
      match HeadingAt(s, p)
      case Some(h) =>
        var q := h.underlineEnd + 1;
        SplitRuns(s, q, q);
        var parts := SplitFrom(s, start, p);
        assert parts[2..] == SplitFrom(s, q, q);
      case None =>
        SplitRuns(s, start, p + 1);
    }
  }

  /** Every captured text of a reported match is an underline run. */
  lemma {:induction false} RunTextsAreUnderlines(s: string, hs: seq<Heading>)
    requires forall j :: 0 <= j < |hs| ==> IsHeading(s, hs[j])
    ensures forall k :: 0 <= k < |RunTexts(s, hs)| ==> IsUnderline(RunTexts(s, hs)[k])
  {
    if hs != [] {
      HeadingRun(s, hs[0]);
      RunTextsAreUnderlines(s, hs[1..]);
    }
  }

  /** `["".join(pair).strip() for pair in zip(parts[::2], parts[1::2])]`: each text piece with the underline after it. */
  function PairSections(parts: seq<string>): (sections: seq<string>)
    ensures |sections| == |parts| / 2
  {
    if |parts| < 2 then [] else [Strip(parts[0] + parts[1])] + PairSections(parts[2..])
  }

  /** The logical sections of a cleaned document. */
  function LogicalSections(cleaned: string): seq<string> {
    PairSections(SplitOnHeadings(cleaned))
  }

  /** Stripping text that ends in non-whitespace keeps that ending. */
  lemma StripKeepsSolidEnd(x: string, u: string)
    requires u != [] && forall j :: 0 <= j < |u| ==> !IsSpace(u[j])
    ensures |u| <= |Strip(x + u)| && Strip(x + u)[|Strip(x + u)| - |u|..] == u
  {
    var s := x + u;
    var r := Strip(s);
    var a := LeadingSpace(s);
    StripMiddle(s);
    assert !IsSpace(s[|x|]);
    assert a <= |x|;
    assert !IsSpace(s[|s| - 1]);
    assert a + |r| == |s|;
    assert r[|r| - |u|..] == s[|x|..] == u;
  }

  /** `s` ends with `suffix`. */
  predicate EndsWith(s: string, suffix: string) {
    |suffix| <= |s| && s[|s| - |suffix|..] == suffix
  }

  /** When every odd element is an underline run, every paired section ends with its run. */
  lemma {:induction false} PairSectionsEndWithRun(parts: seq<string>)
    requires forall k :: 0 <= k < |OddElements(parts)| ==> IsUnderline(OddElements(parts)[k])
    ensures |PairSections(parts)| == |OddElements(parts)|
    ensures forall j :: 0 <= j < |PairSections(parts)| ==> EndsWith(PairSections(parts)[j], OddElements(parts)[j])
  {
    if |parts| >= 2 {
      var u := parts[1];
      var odd, rest := OddElements(parts[2..]), PairSections(parts[2..]);
      assert OddElements(parts) == [u] + odd;
      assert PairSections(parts) == [Strip(parts[0] + u)] + rest;
      assert OddElements(parts)[0] == u;
      assert IsUnderline(u);
      StripKeepsSolidEnd(parts[0], u);
      assert forall k :: 0 <= k < |odd| ==> odd[k] == OddElements(parts)[k + 1];
      PairSectionsEndWithRun(parts[2..]);
    }
  }

  /**
   * There are exactly as many logical sections as separator matches; each
   * section ends with the underline run of its own match, so none is empty;
   * the text after the last underline belongs to no section.
   */
  lemma SectionsFollowHeadings(cleaned: string)
    ensures |LogicalSections(cleaned)| == |Headings(cleaned, 0)|
    ensures forall j :: 0 <= j < |LogicalSections(cleaned)| ==>
      EndsWith(LogicalSections(cleaned)[j], RunTexts(cleaned, Headings(cleaned, 0))[j])
  {
    SplitRuns(cleaned, 0, 0);
    HeadingsAreMatches(cleaned, 0);
    RunTextsAreUnderlines(cleaned, Headings(cleaned, 0));
    PairSectionsEndWithRun(SplitOnHeadings(cleaned));
  }

  /** A match at or after `p` makes the search from `p` find at least one. */
  lemma {:induction false} HeadingFound(s: string, p: nat, q: nat)
    requires p <= q && HeadingAt(s, q).Some?
    ensures |Headings(s, p)| > 0
    decreases q - p
  {
    if HeadingAt(s, p).None? {
      HeadingFound(s, p + 1, q);
    }
  }

  /** Without a match the search finds none. */
  lemma {:induction false} NoHeadingFound(s: string, p: nat)
    requires p <= |s|
    requires forall q :: p <= q ==> HeadingAt(s, q).None?
    ensures Headings(s, p) == []
    decreases |s| - p
  {
    if p < |s| {
      NoHeadingFound(s, p + 1);
    }
  }

  /** A document yields sections exactly when some heading underline occurs in it. */
  lemma NoHeadingNoSections(cleaned: string)
    ensures LogicalSections(cleaned) == [] <==> forall q :: HeadingAt(cleaned, q).None?
  {
    SectionsFollowHeadings(cleaned);
    if forall q :: HeadingAt(cleaned, q).None? {
      NoHeadingFound(cleaned, 0);
    } else {
      var q :| HeadingAt(cleaned, q).Some?;
      HeadingFound(cleaned, 0, q);
    }
  }

  // ----- windows -----

  /** `[section[i:i+size] for i in range(from, len(section), size)]`. */
  function WindowsFrom(section: string, size: nat, from: nat): seq<string>
    requires size > 0
    decreases |section| - from
  {
    if from >= |section| then []
    else [section[from..Min(from + size, |section|)]] + WindowsFrom(section, size, from + size)
  }

  function Min(a: int, b: int): int {
    if a <= b then a else b
  }

  /** The windows of a whole section. */
  function Windows(section: string, size: nat): seq<string>
    requires size > 0
  {
    WindowsFrom(section, size, 0)
  }

  /**
   * The windows partition the rest of the section: each is non-empty and at
   * most `size` long, together they give back the text, and there are none
   * only when nothing is left.
   */
  lemma {:induction false} WindowsPartition(section: string, size: nat, from: nat)
    requires size > 0 && from <= |section|
    ensures forall j :: 0 <= j < |WindowsFrom(section, size, from)| ==> 0 < |WindowsFrom(section, size, from)[j]| <= size
    ensures Concat(WindowsFrom(section, size, from)) == section[from..]
    ensures WindowsFrom(section, size, from) == [] <==> from == |section|
    decreases |section| - from
  {
    if from < |section| {
      var ws := WindowsFrom(section, size, from);
      var m := Min(from + size, |section|);
      WindowsPartition(section, size, m);
      var rest := WindowsFrom(section, size, from + size);
      assert rest == WindowsFrom(section, size, m);
      assert ws == [section[from..m]] + rest;
      assert ws[1..] == rest;
      assert section[from..] == section[from..m] + section[m..];
    }
  }

  /** There are ceil((|section| - from) / size) windows, stated without division. */
  lemma {:induction false} WindowsCount(section: string, size: nat, from: nat)
    requires size > 0 && from < |section|
    ensures (|WindowsFrom(section, size, from)| - 1) * size < |section| - from <= |WindowsFrom(section, size, from)| * size
    decreases |section| - from
  {
    var n := |WindowsFrom(section, size, from)|;
    if from + size < |section| {
      WindowsCount(section, size, from + size);
      var m := |WindowsFrom(section, size, from + size)|;
      assert n == m + 1;
      assert (m + 1) * size == m * size + size;
      assert (m - 1) * size + size == m * size;
    } else {
      assert n == 1;
    }
  }

  // ----- labels -----

  /** `f"{file} (section {idx}, part {part})"`. */
  function Label(file: string, idx: nat, part: nat): string {
    file + (" (section " + (NatToString(idx) + (", part " + (NatToString(part) + ")"))))
  }

  lemma CancelPrefix(p: string, x: string, y: string)
    requires p + x == p + y
    ensures x == y
  {
    assert x == (p + x)[|p|..];
    assert y == (p + y)[|p|..];
  }

  /** A numeral followed by a non-digit is determined by the text it starts. */
  lemma NumeralThenText(a: string, x: string, b: string, y: string)
    requires AllDigits(a) && AllDigits(b) && a + x == b + y
    requires x != [] && y != [] && !('0' <= x[0] <= '9') && !('0' <= y[0] <= '9')
    ensures a == b && x == y
  {
    var m := Min(|a|, |b|);
    assert (a + x)[m] == (b + y)[m];
    assert |a| == |b|;
    assert a == (a + x)[..|a|];
    assert b == (b + y)[..|b|];
    CancelPrefix(a, x, y);
  }

  /** Labels of one file are distinct for distinct (section, part) pairs. */
  lemma LabelInjective(file: string, i1: nat, p1: nat, i2: nat, p2: nat)
    requires Label(file, i1, p1) == Label(file, i2, p2)
    ensures i1 == i2 && p1 == p2
  {
    var m1, m2 := NatToString(p1), NatToString(p2);
    var tail1, tail2 := ", part " + (m1 + ")"), ", part " + (m2 + ")");
    var n1, n2 := NatToString(i1), NatToString(i2);
    CancelPrefix(file, " (section " + (n1 + tail1), " (section " + (n2 + tail2));
    CancelPrefix(" (section ", n1 + tail1, n2 + tail2);
    NumeralThenText(n1, tail1, n2, tail2);
    CancelPrefix(", part ", m1 + ")", m2 + ")");
    NumeralThenText(m1, ")", m2, ")");
    NatToStringInjective(i1, i2);
    NatToStringInjective(p1, p2);
  }

  /** The labels `part from`, `part from+1`, ... of `n` windows of section `idx`. */
  function PartLabels(file: string, idx: nat, from: nat, n: nat): (ls: seq<string>)
    ensures |ls| == n
    ensures forall j :: 0 <= j < n ==> ls[j] == Label(file, idx, from + j)
    decreases n
  {
    if n == 0 then [] else [Label(file, idx, from)] + PartLabels(file, idx, from + 1, n - 1)
  }

  // ----- whole documents -----

  /** The chunks of a list of sections, section after section. */
  function SectionChunks(sections: seq<string>, size: nat): seq<string>
    requires size > 0
  {
    if sections == [] then []
    else SectionChunks(sections[..|sections| - 1], size) + Windows(sections[|sections| - 1], size)
  }

  /** The labels of those chunks. */
  function SectionLabels(file: string, sections: seq<string>, size: nat): seq<string>
    requires size > 0
  {
    if sections == [] then []
    else
      var last := |sections| - 1;
      SectionLabels(file, sections[..last], size) + PartLabels(file, last, 0, |Windows(sections[last], size)|)
  }

  /**
   * Chunks and labels line up one to one; every chunk is non-empty and at most
   * `size` long; and the chunks concatenate back to the sections' text.
   */
  lemma {:induction false} ChunksCoverSections(file: string, sections: seq<string>, size: nat)
    requires size > 0
    ensures |SectionChunks(sections, size)| == |SectionLabels(file, sections, size)|
    ensures forall j :: 0 <= j < |SectionChunks(sections, size)| ==> 0 < |SectionChunks(sections, size)[j]| <= size
    ensures Concat(SectionChunks(sections, size)) == Concat(sections)
    decreases |sections|
  {
    if sections != [] {
      var init, last := sections[..|sections| - 1], sections[|sections| - 1];
      ChunksCoverSections(file, init, size);
      WindowsPartition(last, size, 0);
      ConcatAppend(SectionChunks(init, size), Windows(last, size));
      assert sections == init + [last];
      ConcatAppend(init, [last]);
      assert Concat([last]) == last + Concat([]);
    }
  }

  /** `l` is the label of some part of one of the first `n` sections of `file`. */
  ghost predicate NamesSection(file: string, n: nat, l: string) {
    exists i: nat, p: nat :: i < n && l == Label(file, i, p)
  }

  /** Every label of a document names one of its sections. */
  lemma {:induction false} LabelsNameSections(file: string, sections: seq<string>, size: nat)
    requires size > 0
    ensures forall j :: 0 <= j < |SectionLabels(file, sections, size)| ==>
      NamesSection(file, |sections|, SectionLabels(file, sections, size)[j])
    decreases |sections|
  {
    if sections != [] {
      var last := |sections| - 1;
      var init := sections[..last];
      LabelsNameSections(file, init, size);
      var ls := SectionLabels(file, sections, size);
      var front := SectionLabels(file, init, size);
      var tail := PartLabels(file, last, 0, |Windows(sections[last], size)|);
      assert ls == front + tail;
      forall j | 0 <= j < |ls|
        ensures NamesSection(file, |sections|, ls[j])
      {
        if j < |front| {
          assert NamesSection(file, |init|, front[j]);
          var i: nat, p: nat :| i < |init| && front[j] == Label(file, i, p);
          assert ls[j] == Label(file, i, p);
        } else {
          assert ls[j] == tail[j - |front|] == Label(file, last, j - |front|);
        }
      }
    }
  }

  /** No two chunks of a document get the same label. */
  lemma {:induction false} LabelsDistinct(file: string, sections: seq<string>, size: nat)
    requires size > 0
    ensures forall a, b :: 0 <= a < b < |SectionLabels(file, sections, size)| ==>
      SectionLabels(file, sections, size)[a] != SectionLabels(file, sections, size)[b]
    decreases |sections|
  {
    if sections != [] {
      var last := |sections| - 1;
      var init := sections[..last];
      LabelsDistinct(file, init, size);
      LabelsNameSections(file, init, size);
      var ls := SectionLabels(file, sections, size);
      var front := SectionLabels(file, init, size);
      forall a, b | 0 <= a < b < |ls|
        ensures ls[a] != ls[b]
      {
        if b >= |front| {
          assert ls[b] == Label(file, last, b - |front|);
          if a >= |front| {
            assert ls[a] == Label(file, last, a - |front|);
            if ls[a] == ls[b] {
              LabelInjective(file, last, a - |front|, last, b - |front|);
            }
          } else {
            assert NamesSection(file, |init|, front[a]);
            var i: nat, p: nat :| i < |init| && front[a] == Label(file, i, p);
            assert ls[a] == Label(file, i, p);
            if ls[a] == ls[b] {
              LabelInjective(file, i, p, last, b - |front|);
            }
          }
        } else {
          assert ls[a] == front[a] && ls[b] == front[b];
        }
      }
    }
  }

  lemma MulMono(a: nat, b: nat, n: nat)
    requires a <= b
    ensures a * n <= b * n
  {
    assert b * n == a * n + (b - a) * n;
  }

  /** `(k * n) // n == k` for a positive `n`. */
  lemma MulDivCancel(k: nat, n: nat)
    requires n > 0
    ensures (k * n) / n == k
  {
    var q := (k * n) / n;
    assert q * n <= k * n < q * n + n;
    if q < k {
      MulMono(q + 1, k, n);
    } else if k < q {
      MulMono(k + 1, q, n);
    }
  }

  /**
   * The windows of one section, the inner loop: `i` runs over
   * `range(0, len(section), size)` and each window gets part number `i // size`.
   */
  method ChunkSection(file: string, idx: nat, section: string, size: nat)
      returns (chunks: seq<string>, sources: seq<string>)
    requires size > 0
    ensures chunks == Windows(section, size)
    ensures sources == PartLabels(file, idx, 0, |Windows(section, size)|)
  {
    chunks, sources := [], [];
    var i := 0;
    ghost var k := 0;
    while i < |section|
      invariant i == k * size
      invariant chunks + WindowsFrom(section, size, i) == Windows(section, size)
      invariant sources + PartLabels(file, idx, k, |WindowsFrom(section, size, i)|)
        == PartLabels(file, idx, 0, |Windows(section, size)|)
      decreases |section| - i
    {
      ChunkLoopStep(file, idx, section, size, i, k, chunks, sources);
      var chunk := section[i..Min(i + size, |section|)];
      chunks := chunks + [chunk];
      sources := sources + [Label(file, idx, i / size)];
      i := i + size;
      k := k + 1;
    }
  }

  /** The window loop's invariant survives one round: the window at `i` and its label move to the output. */
  lemma ChunkLoopStep(file: string, idx: nat, section: string, size: nat, i: nat, k: nat,
                      chunks: seq<string>, sources: seq<string>)
    requires size > 0 && i == k * size && i < |section|
    requires chunks + WindowsFrom(section, size, i) == Windows(section, size)
    requires sources + PartLabels(file, idx, k, |WindowsFrom(section, size, i)|)
      == PartLabels(file, idx, 0, |Windows(section, size)|)
    ensures i / size == k && i + size == (k + 1) * size
    ensures (chunks + [section[i..Min(i + size, |section|)]]) + WindowsFrom(section, size, i + size)
      == Windows(section, size)
    ensures (sources + [Label(file, idx, k)]) + PartLabels(file, idx, k + 1, |WindowsFrom(section, size, i + size)|)
      == PartLabels(file, idx, 0, |Windows(section, size)|)
  {
    ChunkStep(file, idx, section, size, i, k);
    AppendAssoc(chunks, [section[i..Min(i + size, |section|)]], WindowsFrom(section, size, i + size));
    AppendAssoc(sources, [Label(file, idx, k)], PartLabels(file, idx, k + 1, |WindowsFrom(section, size, i + size)|));
  }

  /** One round of the window loop: the window at `i`, labelled with part `i / size`, then the rest. */
  lemma ChunkStep(file: string, idx: nat, section: string, size: nat, i: nat, k: nat)
    requires size > 0 && i == k * size && i < |section|
    ensures i / size == k && i + size == (k + 1) * size
    ensures WindowsFrom(section, size, i) == [section[i..Min(i + size, |section|)]] + WindowsFrom(section, size, i + size)
    ensures PartLabels(file, idx, k, |WindowsFrom(section, size, i)|)
      == [Label(file, idx, k)] + PartLabels(file, idx, k + 1, |WindowsFrom(section, size, i + size)|)
  {
    MulDivCancel(k, size);
  }

  /**
   * The chunks and labels of one cleaned document. A zero chunk size makes
   * `range` raise as soon as there is a section; a negative one yields no
   * windows.
   */
  method ChunkDocument(file: string, cleaned: string, chunkSize: int)
      returns (chunks: seq<string>, sources: seq<string>, rangeError: bool)
    ensures rangeError <==> chunkSize == 0 && LogicalSections(cleaned) != []
    ensures chunkSize <= 0 ==> chunks == [] && sources == []
    ensures chunkSize > 0 ==>
      chunks == SectionChunks(LogicalSections(cleaned), chunkSize)
      && sources == SectionLabels(file, LogicalSections(cleaned), chunkSize)
  {
    var sections := LogicalSections(cleaned);
    chunks, sources, rangeError := [], [], false;
    if chunkSize <= 0 {
      rangeError := chunkSize == 0 && sections != [];
      return;
    }
    var idx := 0;
    while idx < |sections|
      invariant 0 <= idx <= |sections|
      invariant chunks == SectionChunks(sections[..idx], chunkSize)
      invariant sources == SectionLabels(file, sections[..idx], chunkSize)
    {
      var c, s := ChunkSection(file, idx, sections[idx], chunkSize);
      assert sections[..idx + 1][..idx] == sections[..idx];
      chunks := chunks + c;
      sources := sources + s;
      idx := idx + 1;
    }
    assert sections[..idx] == sections;
  }

  /**
   * A file of the documentation tree: its name and its text as Python's
   * text-mode read returns it, with "\r\n" and "\r" already turned into
   * "\n". A heading needs a line feed right after its underline run, so
   * content whose lines still end in "\r\n" has no headings here.
   */
  datatype Document = Document(name: string, content: string)

  predicate IsRst(d: Document) {
    EndsWith(d.name, ".rst")
  }

  /** The chunks of every `.rst` document, in walk order. */
  function CorpusChunks(docs: seq<Document>, size: nat): seq<string>
    requires size > 0
  {
    if docs == [] then []
    else
      var d := docs[|docs| - 1];
      CorpusChunks(docs[..|docs| - 1], size)
      + SectionChunks(DocSections(d), size)
  }

  /** Their labels. */
  function CorpusLabels(docs: seq<Document>, size: nat): seq<string>
    requires size > 0
  {
    if docs == [] then []
    else
      var d := docs[|docs| - 1];
      CorpusLabels(docs[..|docs| - 1], size)
      + SectionLabels(d.name, DocSections(d), size)
  }

  /** The sections of one document of the walk, when it is an `.rst` file. */
  function DocSections(d: Document): seq<string> {
    if IsRst(d) then LogicalSections(CleanRst(d.content)) else []
  }

  /** Some `.rst` document of the walk has a section, so a zero chunk size raises. */
  predicate HasSection(docs: seq<Document>)
    decreases |docs|
  {
    docs != [] && (HasSection(docs[..|docs| - 1]) || DocSections(docs[|docs| - 1]) != [])
  }

  /** HasSection holds exactly when some document of the walk has a section. */
  lemma {:induction false} HasSectionMeaning(docs: seq<Document>)
    ensures HasSection(docs) <==> exists i :: 0 <= i < |docs| && DocSections(docs[i]) != []
    decreases |docs|
  {
    if HasSection(docs) {
      HasSectionWitness(docs);
    }
    forall i | 0 <= i < |docs| && DocSections(docs[i]) != []
      ensures HasSection(docs)
    {
      WitnessHasSection(docs, i);
    }
  }

  lemma {:induction false} HasSectionWitness(docs: seq<Document>)
    requires HasSection(docs)
    ensures exists i :: 0 <= i < |docs| && DocSections(docs[i]) != []
    decreases |docs|
  {
    var pre, n := docs[..|docs| - 1], |docs| - 1;
    if DocSections(docs[n]) == [] {
      HasSectionWitness(pre);
      var i :| 0 <= i < |pre| && DocSections(pre[i]) != [];
      assert docs[i] == pre[i];
    }
  }

  lemma {:induction false} WitnessHasSection(docs: seq<Document>, i: nat)
    requires i < |docs| && DocSections(docs[i]) != []
    ensures HasSection(docs)
    decreases |docs|
  {
    var pre, n := docs[..|docs| - 1], |docs| - 1;
    if i < n {
      assert pre[i] == docs[i];
      WitnessHasSection(pre, i);
    }
  }

  /** Extending the walk by one document extends HasSection by that document. */
  lemma HasSectionStep(docs: seq<Document>, n: nat)
    requires n < |docs|
    ensures HasSection(docs[..n + 1]) <==> HasSection(docs[..n]) || DocSections(docs[n]) != []
  {
    var ext := docs[..n + 1];
    assert ext[..n] == docs[..n];
    assert ext[n] == docs[n];
  }

  /** The body of the walk for one file: an `.rst` file is cleaned, split and chunked; any other file adds nothing. */
  method ChunkWalkedFile(d: Document, chunkSize: int) returns (chunks: seq<string>, sources: seq<string>, rangeError: bool)
    ensures rangeError <==> chunkSize == 0 && DocSections(d) != []
    ensures chunkSize <= 0 ==> chunks == [] && sources == []
    ensures chunkSize > 0 ==>
      chunks == SectionChunks(DocSections(d), chunkSize) && sources == SectionLabels(d.name, DocSections(d), chunkSize)
  {
    if IsRst(d) {
      chunks, sources, rangeError := ChunkDocument(d.name, CleanRst(d.content), chunkSize);
    } else {
      chunks, sources, rangeError := [], [], false;
    }
  }

  /** Walking one more file appends that file's chunks and labels. */
  lemma CorpusStep(docs: seq<Document>, n: nat, size: nat)
    requires n < |docs| && size > 0
    ensures CorpusChunks(docs[..n + 1], size) == CorpusChunks(docs[..n], size) + SectionChunks(DocSections(docs[n]), size)
    ensures CorpusLabels(docs[..n + 1], size) == CorpusLabels(docs[..n], size) + SectionLabels(docs[n].name, DocSections(docs[n]), size)
  {
    var ext := docs[..n + 1];
    assert ext[..n] == docs[..n];
    assert ext[n] == docs[n];
  }

  /**
   * `split_rst_into_chunks` over the files of the walk, given in walk order:
   * only `.rst` files are read, cleaned, split and chunked.
   */
  method SplitCorpus(docs: seq<Document>, chunkSize: int)
      returns (chunks: seq<string>, sources: seq<string>, rangeError: bool)
    ensures rangeError <==> chunkSize == 0 && HasSection(docs)
    ensures chunkSize <= 0 ==> chunks == [] && sources == []
    ensures chunkSize > 0 ==> chunks == CorpusChunks(docs, chunkSize) && sources == CorpusLabels(docs, chunkSize)
  {
    chunks, sources, rangeError := [], [], false;
    var n := 0;
    while n < |docs|
      invariant 0 <= n <= |docs|
      invariant chunkSize <= 0 ==> chunks == [] && sources == []
      invariant chunkSize == 0 ==> !HasSection(docs[..n])
      invariant chunkSize > 0 ==> chunks == CorpusChunks(docs[..n], chunkSize) && sources == CorpusLabels(docs[..n], chunkSize)
    {
      var c, s, err := ChunkWalkedFile(docs[n], chunkSize);
      HasSectionStep(docs, n);
      if err {
        HasSectionPrefix(docs, n + 1);
        return [], [], true;
      }
      if chunkSize > 0 {
        CorpusStep(docs, n, chunkSize);
      }
      chunks := chunks + c;
      sources := sources + s;
      n := n + 1;
    }
    assert docs[..n] == docs;
  }

  /** A section in a prefix of the walk is a section of the walk. */
  lemma {:induction false} HasSectionPrefix(docs: seq<Document>, n: nat)
    requires n <= |docs| && HasSection(docs[..n])
    ensures HasSection(docs)
    decreases |docs| - n
  {
    if n < |docs| {
      HasSectionStep(docs, n);
      HasSectionPrefix(docs, n + 1);
    } else {
      assert docs[..n] == docs;
    }
  }

  /** Across the corpus, chunks and labels still line up one to one. */
  lemma {:induction false} CorpusChunksMatchLabels(docs: seq<Document>, size: nat)
    requires size > 0
    ensures |CorpusChunks(docs, size)| == |CorpusLabels(docs, size)|
    decreases |docs|
  {
    if docs != [] {
      var d := docs[|docs| - 1];
      CorpusChunksMatchLabels(docs[..|docs| - 1], size);
      ChunksCoverSections(d.name, DocSections(d), size);
    }
  }
}
