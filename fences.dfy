/**
 * The fenced-code-block pattern ```(?:python)?\n(.*?)``` that the generator
 * pipeline (with DOTALL) and the chat page (as [\s\S]*?) both use, written as
 * an explicit left-to-right matcher. A block is an opening fence "```",
 * an optional "python" tag, a line feed, the shortest body up to the next
 * "```", and that closing fence.
 */
module Fences {
  import opened Wrappers
  import opened PyStr

  const Fence: string := "```"
  const TaggedOpener: string := "```python\n"
  const PlainOpener: string := "```\n"

  /** The first position at or after `from` where `t` occurs in `s`. */
  function FindFrom(s: string, t: string, from: nat): (r: Option<nat>)
    ensures r.Some? ==> from <= r.value && OccursAt(s, t, r.value)
    ensures r.Some? ==> forall j :: from <= j < r.value ==> !OccursAt(s, t, j)
    ensures r.None? ==> forall j :: from <= j ==> !OccursAt(s, t, j)
    decreases |s| - from
  {
    if from + |t| > |s| then None
    else if OccursAt(s, t, from) then Some(from)
    else FindFrom(s, t, from + 1)
  }

  /** A match of the pattern: where the opening fence starts, and where the body starts and ends. */
  datatype Block = Block(start: nat, bodyStart: nat, bodyEnd: nat) {
    /** Index just past the closing fence. */
    function End(): nat { bodyEnd + |Fence| }
  }

  /**
   * `b` is a block of `s`: an opener with or without the tag, a body in which
   * no "```" starts, and the closing fence right after the body.
   */
  predicate IsBlock(s: string, b: Block) {
    b.start <= b.bodyStart <= b.bodyEnd && b.End() <= |s|
    && (s[b.start..b.bodyStart] == PlainOpener || s[b.start..b.bodyStart] == TaggedOpener)
    && OccursAt(s, Fence, b.bodyEnd)
    && forall j :: b.bodyStart <= j < b.bodyEnd ==> !OccursAt(s, Fence, j)
  }

  /** The captured group of a block. */
  function Body(s: string, b: Block): string
    requires IsBlock(s, b)
  {
    s[b.bodyStart..b.bodyEnd]
  }

  /**
   * The pattern anchored at position `p`. The tagged opener is tried first;
   * when it is present but no closing fence follows, backtracking to the
   * untagged opener fails too, since "p" is not a line feed.
   */
  function MatchAt(s: string, p: nat): (r: Option<Block>)
    ensures r.Some? ==> r.value.start == p && IsBlock(s, r.value)
  {
    if !OccursAt(s, Fence, p) then None
    else
      var tagged := if OccursAt(s, TaggedOpener, p) then FindFrom(s, Fence, p + |TaggedOpener|) else None;
      if tagged.Some? then
        assert s[p..p + |TaggedOpener|] == TaggedOpener;
        Some(Block(p, p + |TaggedOpener|, tagged.value))
      else if OccursAt(s, PlainOpener, p) then
        match FindFrom(s, Fence, p + |PlainOpener|)
        case Some(e) => Some(Block(p, p + |PlainOpener|, e))
        case None => None
      else None
  }

  /** The matcher finds every block: MatchAt is exact for IsBlock. */
  lemma MatchAtComplete(s: string, b: Block)
    requires IsBlock(s, b)
    ensures MatchAt(s, b.start) == Some(b)
  {
    var p := b.start;
    OpenerHasFence(s, b);
    ClosingFence(s, b);
    if s[p..b.bodyStart] == TaggedOpener {
      assert OccursAt(s, TaggedOpener, p);
    } else {
      PlainOpenerIsNotTagged(s, b);
    }
  }

  lemma OpenerHasFence(s: string, b: Block)
    requires IsBlock(s, b)
    ensures OccursAt(s, Fence, b.start)
  {
    var p := b.start;
    assert s[p..p + 3] == s[p..b.bodyStart][..3];
  }

  /** The first fence after the opener of a block is its closing fence. */
  lemma ClosingFence(s: string, b: Block)
    requires IsBlock(s, b)
    ensures FindFrom(s, Fence, b.bodyStart) == Some(b.bodyEnd)
  {
  }

  /** An untagged opener is not a tagged one: its fourth character is the line feed, not "p". */
  lemma PlainOpenerIsNotTagged(s: string, b: Block)
    requires IsBlock(s, b) && s[b.start..b.bodyStart] != TaggedOpener
    ensures OccursAt(s, PlainOpener, b.start) && !OccursAt(s, TaggedOpener, b.start)
    ensures b.bodyStart == b.start + |PlainOpener|
  {
    var p := b.start;
    assert s[p + 3] == s[p..b.bodyStart][3] == '\n';
    if p + |TaggedOpener| <= |s| {
      assert s[p..p + |TaggedOpener|][3] == s[p + 3] != TaggedOpener[3];
    }
  }

  /** The leftmost block starting at or after `from`: what a regex search from `from` finds. */
  function Search(s: string, from: nat): (r: Option<Block>)
    ensures r.Some? ==> from <= r.value.start && MatchAt(s, r.value.start) == r
    ensures r.Some? ==> forall p :: from <= p < r.value.start ==> MatchAt(s, p).None?
    ensures r.None? ==> forall p :: from <= p ==> MatchAt(s, p).None?
    decreases |s| - from
  {
    if from + |Fence| > |s| then None
    else if MatchAt(s, from).Some? then MatchAt(s, from)
    else Search(s, from + 1)
  }

  /** A body never contains a fence marker. */
  lemma BodyHasNoFence(s: string, b: Block)
    requires IsBlock(s, b)
    ensures forall k :: !OccursAt(Body(s, b), Fence, k)
  {
    var body := Body(s, b);
    forall k | OccursAt(body, Fence, k)
      ensures false
    {
      assert s[b.bodyStart + k..b.bodyStart + k + 3] == body[k..k + 3];
      assert OccursAt(s, Fence, b.bodyStart + k);
    }
  }

  /** A block is its opener, its body and the closing fence, in that order. */
  lemma BlockText(s: string, b: Block)
    requires IsBlock(s, b)
    ensures s[b.start..b.End()] == s[b.start..b.bodyStart] + Body(s, b) + Fence
  {
    assert s[b.bodyEnd..b.End()] == Fence;
  }
}
