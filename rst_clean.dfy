/**
 * Cleaning one reStructuredText document before it is chunked: every
 * directive marker `.. name::` and then every cross-reference `:ref:`...``
 * is deleted. Both are the regular-expression substitution of a lazy
 * single-line span `opener.*?closer` by the empty string, written here as a
 * left-to-right scanner.
 */
module RstClean {
  import opened Wrappers
  import opened PyStr

  const DirectiveOpener: string := ".. "
  const DirectiveCloser: string := "::"
  const RefOpener: string := ":ref:`"
  const RefCloser: string := "`"

  /**
   * Where a lazy span whose body is being scanned at `q` ends: just past the
   * first `closer` at or after `q`, unless a line feed comes first (`.` does
   * not match a line feed).
   */
  function SpanEnd(s: string, closer: string, q: nat): (r: Option<nat>)
    ensures r.Some? ==> q + |closer| <= r.value <= |s| && OccursAt(s, closer, r.value - |closer|)
    ensures r.Some? ==> forall j :: q <= j < r.value - |closer| ==> s[j] != '\n' && !OccursAt(s, closer, j)
    decreases |s| - q
  {
    if OccursAt(s, closer, q) then Some(q + |closer|)
    else if q < |s| && s[q] != '\n' then SpanEnd(s, closer, q + 1)
    else None
  }

  /** The lazy scan stops at the first closer that no line feed precedes. */
  lemma {:induction false} SpanEndFinds(s: string, closer: string, q: nat, e: nat)
    requires q <= e && OccursAt(s, closer, e)
    requires forall j :: q <= j < e ==> s[j] != '\n' && !OccursAt(s, closer, j)
    ensures SpanEnd(s, closer, q) == Some(e + |closer|)
    decreases e - q
  {
    if q < e {
      SpanEndFinds(s, closer, q + 1, e);
    }
  }

  /** The pattern `opener.*?closer` anchored at the start of `s`: the length of the match. */
  function SpanAt(s: string, opener: string, closer: string): Option<nat> {
    if OccursAt(s, opener, 0) then SpanEnd(s, closer, |opener|) else None
  }

  /**
   * `t` is exactly one lazy span: the opener, a body without line feeds in
   * which no closer starts, and the closer.
   */
  predicate IsSpan(t: string, opener: string, closer: string) {
    |opener| + |closer| <= |t|
    && t[..|opener|] == opener
    && t[|t| - |closer|..] == closer
    && forall j :: |opener| <= j < |t| - |closer| ==> t[j] != '\n' && !OccursAt(t, closer, j)
  }

  /** `re.sub(opener + ".*?" + closer, "", s)` for literal `opener` and `closer`. */
  function RemoveSpans(s: string, opener: string, closer: string): (r: string)
    requires opener != []
    ensures |r| <= |s|
    decreases |s|
  {
    if s == [] then []
    else match SpanAt(s, opener, closer)
      case Some(e) => RemoveSpans(s[e..], opener, closer)
      case None => [s[0]] + RemoveSpans(s[1..], opener, closer)
  }

  /** `clean_rst_content`: directive markers first, then cross-references. */
  function CleanRst(content: string): string {
    RemoveSpans(RemoveSpans(content, DirectiveOpener, DirectiveCloser), RefOpener, RefCloser)
  }

  /** `r` is `s` with some characters deleted and the rest kept in order. */
  predicate IsSubsequence(r: string, s: string)
    decreases |s|
  {
    r == [] || (s != [] && ((r[0] == s[0] && IsSubsequence(r[1..], s[1..])) || IsSubsequence(r, s[1..])))
  }

  /** Deleting a prefix as well keeps a subsequence a subsequence. */
  lemma {:induction false} SubsequenceOfSuffix(r: string, s: string, e: nat)
    requires e <= |s| && IsSubsequence(r, s[e..])
    ensures IsSubsequence(r, s)
    decreases e
  {
    if e > 0 {
      assert s[e..] == s[1..][e - 1..];
      SubsequenceOfSuffix(r, s[1..], e - 1);
    }
  }

  /** A subsequence of a subsequence is a subsequence. */
  lemma {:induction false} SubsequenceTrans(a: string, b: string, c: string)
    requires IsSubsequence(a, b) && IsSubsequence(b, c)
    ensures IsSubsequence(a, c)
    decreases |c|
  {
    if a != [] {
      assert b != [] && c != [];
      if IsSubsequence(b, c[1..]) {
        SubsequenceTrans(a, b, c[1..]);
      } else if a[0] == b[0] && IsSubsequence(a[1..], b[1..]) {
        SubsequenceTrans(a[1..], b[1..], c[1..]);
      } else {
        SubsequenceTrans(a, b[1..], c[1..]);
      }
    }
  }

  /** Removal only deletes: every character it keeps is kept in order. */
  lemma {:induction false} RemoveSpansKeepsOrder(s: string, opener: string, closer: string)
    requires opener != []
    ensures IsSubsequence(RemoveSpans(s, opener, closer), s)
    decreases |s|
  {
    if s != [] {
      match SpanAt(s, opener, closer)
      case Some(e) =>
        RemoveSpansKeepsOrder(s[e..], opener, closer);
        SubsequenceOfSuffix(RemoveSpans(s[e..], opener, closer), s, e);
      case None =>
        RemoveSpansKeepsOrder(s[1..], opener, closer);
    }
  }

  /** Text in which the opener never occurs is left unchanged. */
  lemma {:induction false} RemoveSpansIdentity(s: string, opener: string, closer: string)
    requires opener != [] && !Contains(s, opener)
    ensures RemoveSpans(s, opener, closer) == s
    decreases |s|
  {
    if s != [] {
      assert !OccursAt(s, opener, 0);
      RemoveSpansIdentity(s[1..], opener, closer);
    }
  }

  /** A span at the front is deleted whole, whatever follows it. */
  lemma SpanIsRemoved(t: string, rest: string, opener: string, closer: string)
    requires opener != [] && IsSpan(t, opener, closer)
    ensures RemoveSpans(t + rest, opener, closer) == RemoveSpans(rest, opener, closer)
  {
    var s := t + rest;
    var e := |t| - |closer|;
    assert s[..|opener|] == t[..|opener|];
    assert OccursAt(s, closer, e) by {
      assert s[e..e + |closer|] == t[e..];
    }
    forall j | |opener| <= j < e
      ensures s[j] != '\n' && !OccursAt(s, closer, j)
    {
      assert s[j] == t[j];
    }
    SpanEndFinds(s, closer, |opener|, e);
    assert s[|t|..] == rest;
  }

  /** Number of occurrences of `c` in `s`. */
  function CountChar(s: string, c: char): nat {
    if s == [] then 0 else (if s[0] == c then 1 else 0) + CountChar(s[1..], c)
  }

  lemma {:induction false} CountCharAppend(a: string, b: string, c: char)
    ensures CountChar(a + b, c) == CountChar(a, c) + CountChar(b, c)
  {
    if a != [] {
      assert (a + b)[0] == a[0] && (a + b)[1..] == a[1..] + b;
      CountCharAppend(a[1..], b, c);
      assert CountChar(a + b, c) == (if a[0] == c then 1 else 0) + CountChar(a[1..] + b, c);
    } else {
      assert a + b == b;
    }
  }

  lemma {:induction false} CountCharAbsent(a: string, c: char)
    requires forall j :: 0 <= j < |a| ==> a[j] != c
    ensures CountChar(a, c) == 0
  {
    if a != [] {
      CountCharAbsent(a[1..], c);
    }
  }

  /** A matched span lies within one line. */
  lemma SpanHasNoLineFeed(s: string, opener: string, closer: string, e: nat)
    requires SpanAt(s, opener, closer) == Some(e)
    requires forall j :: 0 <= j < |opener| ==> opener[j] != '\n'
    requires forall j :: 0 <= j < |closer| ==> closer[j] != '\n'
    ensures e <= |s| && forall j :: 0 <= j < e ==> s[..e][j] != '\n'
  {
    forall j | 0 <= j < e
      ensures s[..e][j] != '\n'
    {
      if j < |opener| {
        assert s[j] == s[..|opener|][j] == opener[j];
      } else if j >= e - |closer| {
        assert s[j] == s[e - |closer|..e][j - (e - |closer|)];
      }
    }
  }

  /** Spans never cross a line: removal keeps every line feed, so the line structure survives. */
  lemma {:induction false} RemoveSpansKeepsLineFeeds(s: string, opener: string, closer: string)
    requires opener != []
    requires forall j :: 0 <= j < |opener| ==> opener[j] != '\n'
    requires forall j :: 0 <= j < |closer| ==> closer[j] != '\n'
    ensures CountChar(RemoveSpans(s, opener, closer), '\n') == CountChar(s, '\n')
    decreases |s|
  {
    if s != [] {
      match SpanAt(s, opener, closer)
      case Some(e) =>
        RemoveSpansKeepsLineFeeds(s[e..], opener, closer);
        SpanHasNoLineFeed(s, opener, closer, e);
        CountCharDropped(s, e, '\n');
      case None =>
        RemoveSpansKeepsLineFeeds(s[1..], opener, closer);
        CountCharCons(s[0], RemoveSpans(s[1..], opener, closer), '\n');
    }
  }

  /** Dropping a prefix free of `c` keeps the count of `c`. */
  lemma CountCharDropped(s: string, e: nat, c: char)
    requires e <= |s| && forall j :: 0 <= j < e ==> s[..e][j] != c
    ensures CountChar(s, c) == CountChar(s[e..], c)
  {
    assert s == s[..e] + s[e..];
    CountCharAppend(s[..e], s[e..], c);
    CountCharAbsent(s[..e], c);
  }

  /** The count of a string with one more character in front. */
  lemma CountCharCons(x: char, r: string, c: char)
    ensures CountChar([x] + r, c) == (if x == c then 1 else 0) + CountChar(r, c)
  {
    assert ([x] + r)[1..] == r;
  }

  /**
   * The cleaner only deletes characters, keeps the rest in order, keeps every
   * line feed, and leaves text without directive or reference openers as it is.
   */
  lemma CleanRstProperties(content: string)
    ensures IsSubsequence(CleanRst(content), content)
    ensures CountChar(CleanRst(content), '\n') == CountChar(content, '\n')
    ensures !Contains(content, DirectiveOpener) && !Contains(content, RefOpener) ==> CleanRst(content) == content
  {
    var mid := RemoveSpans(content, DirectiveOpener, DirectiveCloser);
    assert IsSubsequence(CleanRst(content), content) by {
      RemoveSpansKeepsOrder(content, DirectiveOpener, DirectiveCloser);
      RemoveSpansKeepsOrder(mid, RefOpener, RefCloser);
      SubsequenceTrans(CleanRst(content), mid, content);
    }
    assert CountChar(CleanRst(content), '\n') == CountChar(content, '\n') by {
      RemoveSpansKeepsLineFeeds(content, DirectiveOpener, DirectiveCloser);
      RemoveSpansKeepsLineFeeds(mid, RefOpener, RefCloser);
    }
    if !Contains(content, DirectiveOpener) && !Contains(content, RefOpener) {
      RemoveSpansIdentity(content, DirectiveOpener, DirectiveCloser);
      RemoveSpansIdentity(mid, RefOpener, RefCloser);
    }
  }
}
