/** The Option type used throughout the model. */
module Wrappers {
  datatype Option<+T> = None | Some(value: T)
}

/**
 * The Python `str` primitives the core relies on, written as explicit
 * scanners: `isspace` (which is also what `\s`, `strip()` and `split()` use),
 * `strip`, `startswith`, `in`, `split()`, `splitlines()`, `sep.join` and the
 * decimal formatting of a non-negative `int` inside an f-string.
 */
module PyStr {

  /** `c.isspace()` in Python 3: the characters of category Zs and of bidi classes WS, B and S. */
  predicate IsSpace(c: char) {
    var n := c as int;
    (9 <= n <= 13) || (28 <= n <= 32) || n == 0x85 || n == 0xA0 || n == 0x1680
    || (0x2000 <= n <= 0x200A) || n == 0x2028 || n == 0x2029 || n == 0x202F
    || n == 0x205F || n == 0x3000
  }

  /** True iff every character of `s` is whitespace. */
  predicate AllSpace(s: string) {
    forall i :: 0 <= i < |s| ==> IsSpace(s[i])
  }

  /** Number of leading whitespace characters of `s`. */
  function LeadingSpace(s: string): (n: nat)
    ensures n <= |s| && AllSpace(s[..n])
    ensures n == |s| || !IsSpace(s[n])
  {
    if s == [] || !IsSpace(s[0]) then 0
    else
      var n := 1 + LeadingSpace(s[1..]);
      assert forall i :: 1 <= i < n ==> s[i] == s[1..][i - 1];
      n
  }

  /** The leading whitespace is determined by its two defining properties. */
  lemma {:induction false} LeadingSpaceUnique(s: string, a: nat)
    requires a <= |s| && AllSpace(s[..a]) && (a == |s| || !IsSpace(s[a]))
    ensures LeadingSpace(s) == a
  {
    if a > 0 {
      assert IsSpace(s[..a][0]);
      assert s[1..][..a - 1] == s[1..a];
      assert forall i :: 0 <= i < a - 1 ==> s[1..a][i] == s[..a][i + 1];
      LeadingSpaceUnique(s[1..], a - 1);
    }
  }

  /**
   * `s.strip()`: `s` with its leading and trailing whitespace removed. It is
   * empty exactly when `s` is all whitespace, and otherwise neither starts nor
   * ends with whitespace.
   */
  function Strip(s: string): (r: string)
    ensures |r| <= |s|
    ensures r == [] <==> AllSpace(s)
    ensures r == [] || (!IsSpace(r[0]) && !IsSpace(r[|r| - 1]))
    decreases |s|
  {
    if s == [] then []
    else if IsSpace(s[0]) then
      assert forall i :: 1 <= i < |s| ==> s[i] == s[1..][i - 1];
      Strip(s[1..])
    else if IsSpace(s[|s| - 1]) then
      assert s[0] == s[..|s| - 1][0];
      Strip(s[..|s| - 1])
    else s
  }

  /** `strip()` keeps the middle of `s`: the part between its leading and its trailing whitespace. */
  lemma {:induction false} StripMiddle(s: string)
    ensures LeadingSpace(s) + |Strip(s)| <= |s|
    ensures Strip(s) == s[LeadingSpace(s)..LeadingSpace(s) + |Strip(s)|]
    ensures AllSpace(s[LeadingSpace(s) + |Strip(s)|..])
    decreases |s|, 1
  {
    if s == [] {
    } else if IsSpace(s[0]) {
      StripMiddleFront(s);
    } else if IsSpace(s[|s| - 1]) {
      StripMiddleBack(s);
    } else {
      assert LeadingSpace(s) == 0;
    }
  }

  /** The case of `StripMiddle` where `s` starts with whitespace. */
  lemma {:induction false} StripMiddleFront(s: string)
    requires s != [] && IsSpace(s[0])
    ensures LeadingSpace(s) + |Strip(s)| <= |s|
    ensures Strip(s) == s[LeadingSpace(s)..LeadingSpace(s) + |Strip(s)|]
    ensures AllSpace(s[LeadingSpace(s) + |Strip(s)|..])
    decreases |s|, 0
  {
    var t := s[1..];
    StripMiddle(t);
    var a, m := LeadingSpace(t), |Strip(t)|;
    assert Strip(s) == Strip(t);
    assert LeadingSpace(s) == 1 + a;
    assert t[a..a + m] == s[1 + a..1 + a + m];
    assert t[a + m..] == s[1 + a + m..];
  }

  /** The case of `StripMiddle` where `s` starts with non-whitespace and ends with whitespace. */
  lemma {:induction false} StripMiddleBack(s: string)
    requires s != [] && !IsSpace(s[0]) && IsSpace(s[|s| - 1])
    ensures LeadingSpace(s) + |Strip(s)| <= |s|
    ensures Strip(s) == s[LeadingSpace(s)..LeadingSpace(s) + |Strip(s)|]
    ensures AllSpace(s[LeadingSpace(s) + |Strip(s)|..])
    decreases |s|, 0
  {
    var t := s[..|s| - 1];
    assert t[0] == s[0];
    StripMiddle(t);
    var m := |Strip(t)|;
    assert Strip(s) == Strip(t);
    assert LeadingSpace(s) == 0;
    assert LeadingSpace(t) == 0;
    assert t[..m] == s[..m];
    assert s[m..] == t[m..] + [s[|s| - 1]];
  }

  /** `s.startswith(p)`, compared character by character. */
  predicate StartsWith(s: string, p: string)
    decreases |p|
  {
    p == [] || (s != [] && s[0] == p[0] && StartsWith(s[1..], p[1..]))
  }

  /** `s.startswith(p)` holds exactly when `p` is the first `|p|` characters of `s`. */
  lemma {:induction false} StartsWithSlice(s: string, p: string)
    ensures StartsWith(s, p) <==> |p| <= |s| && s[..|p|] == p
    decreases |p|
  {
    if p != [] && s != [] {
      StartsWithSlice(s[1..], p[1..]);
      if |p| <= |s| {
        assert s[..|p|] == [s[0]] + s[1..][..|p| - 1];
        assert p == [p[0]] + p[1..];
      }
    }
  }

  /** A prefix of a prefix is a prefix. */
  lemma {:induction false} StartsWithTrans(s: string, t: string, p: string)
    requires StartsWith(s, t) && StartsWith(t, p)
    ensures StartsWith(s, p)
    decreases |p|
  {
    if p != [] {
      StartsWithTrans(s[1..], t[1..], p[1..]);
    }
  }

  /** `s.startswith(ps)` for a tuple `ps`: some member of `ps` is a prefix of `s`. */
  predicate StartsWithAny(s: string, ps: seq<string>) {
    ps != [] && (StartsWith(s, ps[0]) || StartsWithAny(s, ps[1..]))
  }

  /** Only a non-empty string starts with a tuple of non-empty prefixes. */
  lemma {:induction false} StartsWithAnyNonEmpty(s: string, ps: seq<string>)
    requires StartsWithAny(s, ps)
    requires forall i :: 0 <= i < |ps| ==> ps[i] != []
    ensures s != []
  {
    if !StartsWith(s, ps[0]) {
      StartsWithAnyNonEmpty(s, ps[1..]);
    }
  }

  /** A string that starts with `t` starts with every tuple member that `t` starts with. */
  lemma {:induction false} StartsWithAnyTrans(s: string, t: string, ps: seq<string>)
    requires StartsWith(s, t) && StartsWithAny(t, ps)
    ensures StartsWithAny(s, ps)
  {
    if StartsWith(t, ps[0]) {
      StartsWithTrans(s, t, ps[0]);
    } else {
      StartsWithAnyTrans(s, t, ps[1..]);
    }
  }

  /** True iff `t` occurs in `s` at position `i`. */
  predicate OccursAt(s: string, t: string, i: int) {
    0 <= i && i + |t| <= |s| && s[i..i + |t|] == t
  }

  /** `t in s` for strings: a left-to-right scan for an occurrence of `t`. */
  function Contains(s: string, t: string): (r: bool)
    ensures r <==> exists i :: OccursAt(s, t, i)
  {
    if |s| < |t| then false
    else if s[..|t|] == t then assert OccursAt(s, t, 0); true
    else
      OccursShift(s, t);
      Contains(s[1..], t)
  }

  /** An occurrence past the first position of `s` is one in `s[1..]`, shifted by one. */
  lemma OccursShift(s: string, t: string)
    requires |s| >= |t| && s[..|t|] != t
    ensures (exists i :: OccursAt(s, t, i)) <==> (exists i :: OccursAt(s[1..], t, i))
  {
    if exists i :: OccursAt(s[1..], t, i) {
      var i :| OccursAt(s[1..], t, i);
      assert s[1..][i..i + |t|] == s[i + 1..i + 1 + |t|];
      assert OccursAt(s, t, i + 1);
    }
    if exists i :: OccursAt(s, t, i) {
      var i :| OccursAt(s, t, i);
      assert i != 0;
      assert s[i..i + |t|] == s[1..][i - 1..i - 1 + |t|];
      assert OccursAt(s[1..], t, i - 1);
    }
  }

  /** `t in s`, scanned position by position without a quantifier. */
  predicate Mentions(s: string, t: string)
    decreases |s|
  {
    StartsWith(s, t) || (s != [] && Mentions(s[1..], t))
  }

  /** The scanner agrees with substring search. */
  lemma {:induction false} MentionsIsContains(s: string, t: string)
    ensures Mentions(s, t) <==> Contains(s, t)
    decreases |s|
  {
    StartsWithSlice(s, t);
    if |s| >= |t| && s[..|t|] == t {
      assert OccursAt(s, t, 0);
    } else if s != [] {
      MentionsIsContains(s[1..], t);
      if |s| >= |t| {
        OccursShift(s, t);
      } else {
        StartsWithSlice(s[1..], t);
        assert !Contains(s[1..], t);
      }
    }
  }

  /** Text that starts with `t` mentions it after any prefix. */
  lemma {:induction false} MentionsAfter(pre: string, s: string, t: string)
    requires StartsWith(s, t)
    ensures Mentions(pre + s, t)
  {
    if pre != [] {
      assert (pre + s)[1..] == pre[1..] + s;
      MentionsAfter(pre[1..], s, t);
    } else {
      assert pre + s == s;
    }
  }

  /** `sep.join(xs)`. */
  function JoinWith(sep: string, xs: seq<string>): string {
    if xs == [] then [] else if |xs| == 1 then xs[0] else xs[0] + sep + JoinWith(sep, xs[1..])
  }

  /** `"".join(xs)`. */
  function Concat(xs: seq<string>): string {
    if xs == [] then [] else xs[0] + Concat(xs[1..])
  }

  lemma AppendAssoc<T>(a: seq<T>, b: seq<T>, c: seq<T>)
    ensures a + (b + c) == (a + b) + c
  {
  }

  lemma {:induction false} ConcatAppend(xs: seq<string>, ys: seq<string>)
    ensures Concat(xs + ys) == Concat(xs) + Concat(ys)
  {
    if xs == [] {
      assert xs + ys == ys;
    } else {
      assert (xs + ys)[1..] == xs[1..] + ys;
      ConcatAppend(xs[1..], ys);
    }
  }

  /** Length of the longest prefix of `s` free of whitespace. */
  function WordLength(s: string): (n: nat)
    ensures n <= |s| && (n == |s| || IsSpace(s[n]))
    ensures forall i :: 0 <= i < n ==> !IsSpace(s[i])
  {
    if s == [] || IsSpace(s[0]) then 0
    else
      var n := 1 + WordLength(s[1..]);
      assert forall i :: 1 <= i < n ==> s[i] == s[1..][i - 1];
      n
  }

  /** True iff `w` is a non-empty string without whitespace: what `split()` can return. */
  predicate IsWord(w: string) {
    w != [] && forall i :: 0 <= i < |w| ==> !IsSpace(w[i])
  }

  /** `s.split()` with no separator: the maximal runs of non-whitespace characters, in order. */
  function Words(s: string): (ws: seq<string>)
    ensures forall k :: 0 <= k < |ws| ==> IsWord(ws[k])
    decreases |s|
  {
    var t := s[LeadingSpace(s)..];
    if t == [] then []
    else
      var n := WordLength(t);
      [t[..n]] + Words(t[n..])
  }

  /** `split()` undoes `" ".join` of words. */
  lemma {:induction false} WordsOfJoin(ws: seq<string>)
    requires forall k :: 0 <= k < |ws| ==> IsWord(ws[k])
    ensures Words(JoinWith(" ", ws)) == ws
  {
    if ws == [] {
    } else if |ws| == 1 {
      WordsOfWord(ws[0]);
    } else {
      var rest := JoinWith(" ", ws[1..]);
      assert JoinWith(" ", ws) == ws[0] + (" " + rest);
      WordsOfWordThenSpace(ws[0], rest);
      WordsOfJoin(ws[1..]);
    }
  }

  /** A single word splits into itself. */
  lemma WordsOfWord(w: string)
    requires IsWord(w)
    ensures Words(w) == [w]
  {
    WordFollowedBy(w, []);
    assert w + [] == w;
    assert w[..|w|] == w;
  }

  /** A word, a space and more text split into the word and the words of the rest. */
  lemma WordsOfWordThenSpace(w: string, rest: string)
    requires IsWord(w)
    ensures Words(w + (" " + rest)) == [w] + Words(rest)
  {
    var s := w + (" " + rest);
    WordFollowedBy(w, " " + rest);
    assert s[..|w|] == w;
    assert s[|w|..] == " " + rest;
    SpaceThenRest(rest);
  }

  /** A word followed by whitespace or by nothing is read off as the first word. */
  lemma WordFollowedBy(w: string, rest: string)
    requires IsWord(w)
    requires rest == [] || IsSpace(rest[0])
    ensures LeadingSpace(w + rest) == 0
    ensures WordLength(w + rest) == |w|
  {
    var s := w + rest;
    assert s[0] == w[0];
    assert forall i :: 0 <= i < |w| ==> s[i] == w[i];
    assert |w| == |s| || s[|w|] == rest[0];
  }

  /** One leading space does not change the words. */
  lemma SpaceThenRest(rest: string)
    ensures Words(" " + rest) == Words(rest)
  {
    var s := " " + rest;
    assert s[1..] == rest;
    var a := LeadingSpace(rest);
    assert LeadingSpace(s) == 1 + a;
    assert s[LeadingSpace(s)..] == s[1 + a..] == rest[a..];
  }

  /** Python's line boundaries for `str.splitlines()`. */
  predicate IsLineBreak(c: char) {
    var n := c as int;
    (10 <= n <= 13) || (28 <= n <= 30) || n == 0x85 || n == 0x2028 || n == 0x2029
  }

  /** Index of the first line break in `s`, or `|s|`. */
  function LineLength(s: string): (n: nat)
    ensures n <= |s| && (n == |s| || IsLineBreak(s[n]))
    ensures forall i :: 0 <= i < n ==> !IsLineBreak(s[i])
  {
    if s == [] || IsLineBreak(s[0]) then 0
    else
      var n := 1 + LineLength(s[1..]);
      assert forall i :: 1 <= i < n ==> s[i] == s[1..][i - 1];
      n
  }

  /** `s.splitlines()`: "\r\n" counts as one boundary and a final boundary adds no empty line. */
  function SplitLines(s: string): (lines: seq<string>)
    ensures s == [] <==> lines == []
    decreases |s|
  {
    if s == [] then []
    else
      var n := LineLength(s);
      if n == |s| then [s]
      else
        var next := if s[n] == '\r' && n + 1 < |s| && s[n + 1] == '\n' then n + 2 else n + 1;
        [s[..n]] + SplitLines(s[next..])
  }

  /** True iff `t` holds no line break. */
  predicate NoLineBreak(t: string) {
    forall i :: 0 <= i < |t| ==> !IsLineBreak(t[i])
  }

  /** No line of `splitlines()` holds a line break. */
  lemma {:induction false} SplitLinesHaveNoBreaks(s: string)
    ensures forall k :: 0 <= k < |SplitLines(s)| ==> NoLineBreak(SplitLines(s)[k])
    decreases |s|
  {
    if s != [] {
      var n := LineLength(s);
      assert NoLineBreak(s[..n]) by {
        forall i | 0 <= i < n ensures !IsLineBreak(s[..n][i]) {
          assert s[..n][i] == s[i];
        }
      }
      if n < |s| {
        var next := if s[n] == '\r' && n + 1 < |s| && s[n + 1] == '\n' then n + 2 else n + 1;
        SplitLinesHaveNoBreaks(s[next..]);
        assert SplitLines(s) == [s[..n]] + SplitLines(s[next..]);
      } else {
        assert s[..n] == s;
      }
    }
  }

  /** True iff the only line break in `s` is '\n'. */
  predicate OnlyNewlines(s: string) {
    forall i :: 0 <= i < |s| ==> IsLineBreak(s[i]) ==> s[i] == '\n'
  }

  /** A suffix of text whose only line break is '\n' has the same property. */
  lemma OnlyNewlinesSuffix(s: string, k: nat)
    requires k <= |s| && OnlyNewlines(s)
    ensures OnlyNewlines(s[k..])
  {
    forall i | 0 <= i < |s| - k ensures IsLineBreak(s[k..][i]) ==> s[k..][i] == '\n' {
      assert s[k..][i] == s[k + i];
    }
  }

  /** Joining a list with a first element in front puts the separator after that element. */
  lemma JoinCons(sep: string, x: string, ys: seq<string>)
    requires ys != []
    ensures JoinWith(sep, [x] + ys) == x + sep + JoinWith(sep, ys)
  {
    assert ([x] + ys)[1..] == ys;
  }

  /** A line ended by a lone '\n' is split off, and splitting resumes after the '\n'. */
  lemma SplitLinesAt(s: string, n: nat)
    requires n == LineLength(s) < |s| && s[n] == '\n'
    ensures SplitLines(s) == [s[..n]] + SplitLines(s[n + 1..])
  {
  }

  /** Over text whose only line break is '\n' and that does not end in one, "\n".join undoes splitlines. */
  lemma {:induction false} JoinSplitLines(s: string)
    requires OnlyNewlines(s)
    requires s == [] || s[|s| - 1] != '\n'
    ensures JoinWith("\n", SplitLines(s)) == s
    decreases |s|
  {
    if s != [] {
      var n := LineLength(s);
      if n < |s| {
        LineEndsAtNewline(s, n);
        var rest := s[n + 1..];
        OnlyNewlinesSuffix(s, n + 1);
        JoinSplitLines(rest);
        JoinSplitLinesStep(s, n);
        SplitAroundNewline(s, n);
      } else {
        JoinSplitLinesWhole(s);
      }
    }
  }

  /** In such text a line that ends before the end of the text ends at a '\n', which is not the last character. */
  lemma LineEndsAtNewline(s: string, n: nat)
    requires OnlyNewlines(s) && s != [] && s[|s| - 1] != '\n'
    requires n == LineLength(s) < |s|
    ensures s[n] == '\n' && n + 1 < |s| && s[n + 1..][|s| - n - 2] != '\n'
  {
    assert IsLineBreak(s[n]);
    assert s[n] == '\n';
    assert n != |s| - 1;
    assert s[n + 1..][|s| - n - 2] == s[|s| - 1];
  }

  /** Text with a '\n' at `n` is what comes before it, the '\n', and what comes after it. */
  lemma SplitAroundNewline(s: string, n: nat)
    requires n < |s| && s[n] == '\n'
    ensures s == s[..n] + "\n" + s[n + 1..]
  {
    assert s[..n] + [s[n]] + s[n + 1..] == s;
  }

  /** Text without a line break is one line, and joining one line gives it back. */
  lemma JoinSplitLinesWhole(s: string)
    requires s != [] && LineLength(s) == |s|
    ensures JoinWith("\n", SplitLines(s)) == s
  {
    assert SplitLines(s) == [s];
  }

  /** Splitting at a lone '\n' and joining again puts that '\n' back between the first line and the rest. */
  lemma JoinSplitLinesStep(s: string, n: nat)
    requires n == LineLength(s) && n + 1 < |s| && s[n] == '\n'
    ensures JoinWith("\n", SplitLines(s)) == s[..n] + "\n" + JoinWith("\n", SplitLines(s[n + 1..]))
  {
    SplitLinesAt(s, n);
    JoinCons("\n", s[..n], SplitLines(s[n + 1..]));
  }

  /** The decimal digit of a value below ten. */
  function Digit(d: nat): (c: char)
    requires d < 10
    ensures '0' <= c <= '9' && (c as int) - ('0' as int) == d
  {
    (('0' as int) + d) as char
  }

  /** True iff `s` consists of decimal digits only. */
  predicate AllDigits(s: string) {
    forall i :: 0 <= i < |s| ==> '0' <= s[i] <= '9'
  }

  /** `f"{n}"` for a non-negative integer: its shortest decimal numeral. */
  function NatToString(n: nat): (s: string)
    ensures s != [] && AllDigits(s)
    decreases n
  {
    if n < 10 then [Digit(n)] else NatToString(n / 10) + [Digit(n % 10)]
  }

  /** Value of a string of decimal digits. */
  function DecimalValue(s: string): nat
    requires AllDigits(s)
  {
    if s == [] then 0
    else 10 * DecimalValue(s[..|s| - 1]) + ((s[|s| - 1] as int) - ('0' as int))
  }

  /** Reading the numeral back gives the number. */
  lemma {:induction false} DecimalValueOfNatToString(n: nat)
    ensures DecimalValue(NatToString(n)) == n
    decreases n
  {
    if n >= 10 {
      var s := NatToString(n);
      assert s[..|s| - 1] == NatToString(n / 10);
      DecimalValueOfNatToString(n / 10);
    }
  }

  /** Decimal formatting is injective: two numbers with the same numeral are equal. */
  lemma NatToStringInjective(m: nat, n: nat)
    requires NatToString(m) == NatToString(n)
    ensures m == n
  {
    DecimalValueOfNatToString(m);
    DecimalValueOfNatToString(n);
  }
}
