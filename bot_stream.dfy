/**
 * The chat page's handling of a streamed bot reply: HTML escaping, and the
 * buffer that holds back a code block until its closing fence has arrived.
 * Each chunk is appended to the buffer; every complete fenced block is cut
 * out as a code fragment, the text between blocks as text fragments; what
 * follows the last block stays buffered when it starts with a fence and is
 * otherwise flushed as text.
 */
module BotStream {
  import opened Wrappers
  import opened PyStr
  import opened Fences

  // ----- escaping -----

  /** `s.replace(/c/g, r)`: every occurrence of the character `c` replaced by `r`. */
  function ReplaceAll(s: string, c: char, r: string): string {
    if s == [] then [] else (if s[0] == c then r else [s[0]]) + ReplaceAll(s[1..], c, r)
  }

  /** `escapeHtml`: ampersands first, then less-than, then greater-than signs. */
  function EscapeHtml(s: string): string {
    ReplaceAll(ReplaceAll(ReplaceAll(s, '&', "&amp;"), '<', "&lt;"), '>', "&gt;")
  }

  /** The escape of one character. */
  function EscapeChar(c: char): string {
    if c == '&' then "&amp;" else if c == '<' then "&lt;" else if c == '>' then "&gt;" else [c]
  }

  /** Escaping character by character: the reference the three passes are compared with. */
  function EscapeEach(s: string): string {
    if s == [] then [] else EscapeChar(s[0]) + EscapeEach(s[1..])
  }

  lemma {:induction false} ReplaceAllAppend(a: string, b: string, c: char, r: string)
    ensures ReplaceAll(a + b, c, r) == ReplaceAll(a, c, r) + ReplaceAll(b, c, r)
  {
    if a == [] {
      assert a + b == b;
    } else {
      assert (a + b)[0] == a[0] && (a + b)[1..] == a[1..] + b;
      ReplaceAllAppend(a[1..], b, c, r);
    }
  }

  /** The three passes escape each character on its own. */
  lemma EscapeHtmlOfAppend(a: string, b: string)
    ensures EscapeHtml(a + b) == EscapeHtml(a) + EscapeHtml(b)
  {
    var a1, b1 := ReplaceAll(a, '&', "&amp;"), ReplaceAll(b, '&', "&amp;");
    ReplaceAllAppend(a, b, '&', "&amp;");
    var a2, b2 := ReplaceAll(a1, '<', "&lt;"), ReplaceAll(b1, '<', "&lt;");
    ReplaceAllAppend(a1, b1, '<', "&lt;");
    ReplaceAllAppend(a2, b2, '>', "&gt;");
  }

  /** Because the ampersand is replaced first, the later passes never touch the entities already written. */
  lemma EscapeHtmlOfChar(c: char)
    ensures EscapeHtml([c]) == EscapeChar(c)
  {
    if c == '&' {
      ReplaceAllOne(c, '&', "&amp;");
      ReplaceAllAbsent("&amp;", '<', "&lt;");
      ReplaceAllAbsent("&amp;", '>', "&gt;");
    } else if c == '<' {
      ReplaceAllOne(c, '&', "&amp;");
      ReplaceAllOne(c, '<', "&lt;");
      ReplaceAllAbsent("&lt;", '>', "&gt;");
    } else {
      ReplaceAllOne(c, '&', "&amp;");
      ReplaceAllOne(c, '<', "&lt;");
      ReplaceAllOne(c, '>', "&gt;");
    }
  }

  /** Replacing in a single character. */
  lemma ReplaceAllOne(x: char, c: char, r: string)
    ensures ReplaceAll([x], c, r) == if x == c then r else [x]
  {
    assert [x][1..] == [];
  }

  /** Text without the character is left as it is. */
  lemma {:induction false} ReplaceAllAbsent(s: string, c: char, r: string)
    requires forall j :: 0 <= j < |s| ==> s[j] != c
    ensures ReplaceAll(s, c, r) == s
  {
    if s != [] {
      ReplaceAllAbsent(s[1..], c, r);
      assert s == [s[0]] + s[1..];
    }
  }

  /** The three replace passes are the character-by-character escape. */
  lemma {:induction false} EscapeHtmlIsEscapeEach(s: string)
    ensures EscapeHtml(s) == EscapeEach(s)
  {
    if s != [] {
      assert s == [s[0]] + s[1..];
      EscapeHtmlOfAppend([s[0]], s[1..]);
      EscapeHtmlOfChar(s[0]);
      EscapeHtmlIsEscapeEach(s[1..]);
    }
  }

  /** Decoding `&amp;`, `&lt;` and `&gt;` back, left to right. */
  function Unescape(s: string): string
    decreases |s|
  {
    if s == [] then []
    else if |s| >= 5 && s[..5] == "&amp;" then "&" + Unescape(s[5..])
    else if |s| >= 4 && s[..4] == "&lt;" then "<" + Unescape(s[4..])
    else if |s| >= 4 && s[..4] == "&gt;" then ">" + Unescape(s[4..])
    else [s[0]] + Unescape(s[1..])
  }

  /** Decoding an escaped string gives it back. */
  lemma {:induction false} UnescapeEscape(s: string)
    ensures Unescape(EscapeHtml(s)) == s
  {
    EscapeHtmlIsEscapeEach(s);
    UnescapeEscapeEach(s);
  }

  lemma {:induction false} UnescapeEscapeEach(s: string)
    ensures Unescape(EscapeEach(s)) == s
  {
    if s != [] {
      UnescapeEscapeEach(s[1..]);
      UnescapeEscapeChar(s[0], EscapeEach(s[1..]));
      assert s == [s[0]] + s[1..];
    }
  }

  /** Decoding reads one escaped character back, whatever follows it. */
  lemma UnescapeEscapeChar(c: char, rest: string)
    ensures Unescape(EscapeChar(c) + rest) == [c] + Unescape(rest)
  {
    if c == '&' {
      UnescapeEntity("&amp;", '&', rest);
    } else if c == '<' {
      UnescapeEntity("&lt;", '<', rest);
    } else if c == '>' {
      UnescapeEntity("&gt;", '>', rest);
    } else {
      UnescapePlain(c, rest);
    }
  }

  /** Each of the three entities decodes to its character. */
  lemma UnescapeEntity(e: string, c: char, rest: string)
    requires (e, c) == ("&amp;", '&') || (e, c) == ("&lt;", '<') || (e, c) == ("&gt;", '>')
    ensures Unescape(e + rest) == [c] + Unescape(rest)
  {
    var x := e + rest;
    assert x[..|e|] == e && x[|e|..] == rest;
    if c != '&' {
      assert x[1] != 'a';
    }
  }

  /** Any other character decodes to itself. */
  lemma UnescapePlain(c: char, rest: string)
    requires c != '&' && c != '<' && c != '>'
    ensures Unescape([c] + rest) == [c] + Unescape(rest)
  {
    var x := [c] + rest;
    assert x[0] == c && x[1..] == rest;
  }

  /** No character of `s` is '<' or '>'. */
  predicate NoAngles(s: string) {
    forall i :: 0 <= i < |s| ==> s[i] != '<' && s[i] != '>'
  }

  /** The escaped text holds no angle bracket, so it cannot open or close a tag. */
  lemma {:induction false} EscapeHasNoAngles(s: string)
    ensures NoAngles(EscapeHtml(s))
  {
    EscapeHtmlIsEscapeEach(s);
    EscapeEachHasNoAngles(s);
  }

  lemma {:induction false} EscapeEachHasNoAngles(s: string)
    ensures NoAngles(EscapeEach(s))
  {
    if s != [] {
      EscapeEachHasNoAngles(s[1..]);
      var e, rest := EscapeChar(s[0]), EscapeEach(s[1..]);
      assert NoAngles(e);
      assert forall i :: |e| <= i < |e + rest| ==> (e + rest)[i] == rest[i - |e|];
    }
  }

  /** Text without `&`, `<` or `>` is left as it is. */
  lemma {:induction false} EscapeKeepsPlainText(s: string)
    requires forall i :: 0 <= i < |s| ==> s[i] != '&' && s[i] != '<' && s[i] != '>'
    ensures EscapeHtml(s) == s
  {
    EscapeHtmlIsEscapeEach(s);
    EscapeEachKeepsPlainText(s);
  }

  lemma {:induction false} EscapeEachKeepsPlainText(s: string)
    requires forall i :: 0 <= i < |s| ==> s[i] != '&' && s[i] != '<' && s[i] != '>'
    ensures EscapeEach(s) == s
  {
    if s != [] {
      EscapeEachKeepsPlainText(s[1..]);
      assert s == [s[0]] + s[1..];
    }
  }

  // ----- the code-block buffer -----

  /**
   * A piece of the reply to display. A code fragment also records the opener
   * it was matched with; the page itself uses only its content.
   */
  datatype Fragment = Text(content: string) | Code(content: string, opener: string)

  /** The text a fragment stands for in the stream: a code fragment with its fences put back. */
  function Source(f: Fragment): string {
    match f
    case Text(t) => t
    case Code(c, opener) => opener + c + Fence
  }

  /** The stream text of a list of fragments. */
  function SourceOf(fs: seq<Fragment>): string {
    if fs == [] then [] else Source(fs[0]) + SourceOf(fs[1..])
  }

  lemma {:induction false} SourceOfAppend(a: seq<Fragment>, b: seq<Fragment>)
    ensures SourceOf(a + b) == SourceOf(a) + SourceOf(b)
  {
    if a == [] {
      assert a + b == b;
    } else {
      assert (a + b)[1..] == a[1..] + b;
      SourceOfAppend(a[1..], b);
    }
  }

  /** The fragments of one matched block: the text before it, when there is any, and its body. */
  function BlockFragments(s: string, from: nat, b: Block): seq<Fragment>
    requires IsBlock(s, b) && from <= b.start
  {
    var before := s[from..b.start];
    (if before != [] then [Text(before)] else []) + [Code(Body(s, b), s[b.start..b.bodyStart])]
  }

  /**
   * The global regex loop from `from`: the fragments of every complete block
   * and of the text before each, and the index just past the last block.
   */
  function Scan(s: string, from: nat): (r: (seq<Fragment>, nat))
    requires from <= |s|
    ensures from <= r.1 <= |s|
    decreases |s| - from
  {
    match Search(s, from)
    case None => ([], from)
    case Some(b) =>
      var rest := Scan(s, b.End());
      (BlockFragments(s, from, b) + rest.0, rest.1)
  }

  /** A fragment as the loop emits it: non-empty text, or a block body with one of the two openers. */
  ghost predicate WellFormed(f: Fragment) {
    match f
    case Text(t) => t != []
    case Code(c, opener) => (opener == PlainOpener || opener == TaggedOpener) && forall k :: !OccursAt(c, Fence, k)
  }

  /** One step of the loop: the fragments of the block found, then those of the rest. */
  lemma ScanStep(s: string, from: nat, b: Block)
    requires from <= |s| && Search(s, from) == Some(b)
    ensures IsBlock(s, b) && from <= b.start && b.End() <= |s|
    ensures Scan(s, from) == (BlockFragments(s, from, b) + Scan(s, b.End()).0, Scan(s, b.End()).1)
  {
  }

  /** The fragments of one block give back the text from `from` to the end of its closing fence. */
  lemma BlockFragmentsSource(s: string, from: nat, b: Block)
    requires IsBlock(s, b) && from <= b.start
    ensures SourceOf(BlockFragments(s, from, b)) == s[from..b.End()]
  {
    BlockText(s, b);
    var before := s[from..b.start];
    var code := Code(Body(s, b), s[b.start..b.bodyStart]);
    assert SourceOf([code]) == Source(code);
    if before != [] {
      assert SourceOf([Text(before), code]) == before + SourceOf([code]);
    } else {
      assert BlockFragments(s, from, b) == [code];
    }
    assert s[from..b.End()] == before + s[b.start..b.End()];
  }

  /** Gluing the text of one step to the text of the rest. */
  lemma Glue(s: string, from: nat, e: nat, last: nat, x: string, y: string)
    requires from <= e <= last <= |s|
    requires x == s[from..e] && y + s[last..] == s[e..]
    ensures (x + y) + s[last..] == s[from..]
  {
    assert s[from..] == s[from..e] + s[e..];
  }

  /**
   * The loop loses nothing: its fragments, fences put back, followed by the
   * unscanned rest, are the scanned text.
   */
  lemma {:induction false} ScanReassembles(s: string, from: nat)
    requires from <= |s|
    ensures SourceOf(Scan(s, from).0) + s[Scan(s, from).1..] == s[from..]
    decreases |s| - from
  {
    var r := Search(s, from);
    if r.Some? {
      var b := r.value;
      ScanStep(s, from, b);
      ScanReassembles(s, b.End());
      BlockFragmentsSource(s, from, b);
      var head, rest := BlockFragments(s, from, b), Scan(s, b.End()).0;
      SourceOfAppend(head, rest);
      Glue(s, from, b.End(), Scan(s, b.End()).1, SourceOf(head), SourceOf(rest));
    }
  }

  /** Every fragment the loop emits is well formed. */
  lemma {:induction false} ScanWellFormed(s: string, from: nat)
    requires from <= |s|
    ensures forall j :: 0 <= j < |Scan(s, from).0| ==> WellFormed(Scan(s, from).0[j])
    decreases |s| - from
  {
    match Search(s, from)
    case None =>
    case Some(b) =>
      ScanStep(s, from, b);
      ScanWellFormed(s, b.End());
      BlockFragmentsWellFormed(s, from, b);
      AllWellFormedAppend(BlockFragments(s, from, b), Scan(s, b.End()).0);
  }

  /** The fragments of one block are well formed. */
  lemma BlockFragmentsWellFormed(s: string, from: nat, b: Block)
    requires IsBlock(s, b) && from <= b.start
    ensures forall j :: 0 <= j < |BlockFragments(s, from, b)| ==> WellFormed(BlockFragments(s, from, b)[j])
  {
    BodyHasNoFence(s, b);
  }

  lemma AllWellFormedAppend(head: seq<Fragment>, rest: seq<Fragment>)
    requires forall j :: 0 <= j < |head| ==> WellFormed(head[j])
    requires forall j :: 0 <= j < |rest| ==> WellFormed(rest[j])
    ensures forall j :: 0 <= j < |head + rest| ==> WellFormed((head + rest)[j])
  {
    assert forall j :: |head| <= j < |head + rest| ==> (head + rest)[j] == rest[j - |head|];
  }

  /** No complete block is left after the last one the loop found. */
  lemma {:induction false} ScanLeavesNoBlock(s: string, from: nat)
    requires from <= |s|
    ensures Search(s, Scan(s, from).1).None?
    decreases |s| - from
  {
    match Search(s, from)
    case None =>
    case Some(b) =>
      ScanLeavesNoBlock(s, b.End());
  }

  /**
   * The loop's invariant survives one step: the text before the block, when
   * there is any, and the block's body move from the rest to what is emitted.
   */
  lemma StepKeepsScan(s: string, from: nat, b: Block, emitted: seq<Fragment>)
    requires from <= |s| && Search(s, from) == Some(b)
    requires emitted + Scan(s, from).0 == Scan(s, 0).0 && Scan(s, from).1 == Scan(s, 0).1
    ensures IsBlock(s, b) && from <= b.start && b.End() <= |s|
    ensures var before, code := s[from..b.start], Code(Body(s, b), s[b.start..b.bodyStart]);
      var next := (if before != [] then emitted + [Text(before)] else emitted) + [code];
      next + Scan(s, b.End()).0 == Scan(s, 0).0 && Scan(s, b.End()).1 == Scan(s, 0).1
  {
    ScanStep(s, from, b);
    PushBlockFragments(s, from, b, emitted);
    AppendAssoc(emitted, BlockFragments(s, from, b), Scan(s, b.End()).0);
  }

  /** Emitting the fragments of a block is pushing the text before it, when there is any, then its body. */
  lemma PushBlockFragments(s: string, from: nat, b: Block, emitted: seq<Fragment>)
    requires IsBlock(s, b) && from <= b.start
    ensures var before, code := s[from..b.start], Code(Body(s, b), s[b.start..b.bodyStart]);
      emitted + BlockFragments(s, from, b) == (if before != [] then emitted + [Text(before)] else emitted) + [code]
  {
    var before, code := s[from..b.start], Code(Body(s, b), s[b.start..b.bodyStart]);
    if before != [] {
      assert emitted + [Text(before), code] == (emitted + [Text(before)]) + [code];
    } else {
      assert BlockFragments(s, from, b) == [code];
    }
  }

  /** Where no block is left, the loop emits nothing more and stops where it is. */
  lemma ScanDone(s: string, from: nat)
    requires from <= |s| && Search(s, from).None?
    ensures Scan(s, from) == ([], from)
  {
  }

  /** The buffer of a bot message on the page. */
  class BotMessage {
    var buffer: string

    constructor ()
      ensures buffer == []
    {
      buffer := [];
    }

    /**
     * `appendChunkToBotMessage`: the fragments of the complete blocks in the
     * buffer after the chunk is added, and the rest: kept in the buffer when
     * it starts with a fence, otherwise returned as `flushed` text and
     * removed from the buffer.
     */
    method AppendChunk(chunk: string) returns (fragments: seq<Fragment>, flushed: string)
      modifies this
      ensures var s := old(buffer) + chunk;
        var (fs, last) := Scan(s, 0);
        fragments == fs
        && (if s[last..] != [] && !StartsWith(s[last..], Fence) then flushed == s[last..] && buffer == []
            else flushed == [] && buffer == s[last..])
    {
      var s := buffer + chunk;
      buffer := s;
      var lastIndex := 0;
      fragments := [];
      var m := Search(s, 0);
      assert fragments + Scan(s, 0).0 == Scan(s, 0).0;
      while m.Some?
        invariant lastIndex <= |s|
        invariant m == Search(s, lastIndex)
        invariant fragments + Scan(s, lastIndex).0 == Scan(s, 0).0
        invariant Scan(s, lastIndex).1 == Scan(s, 0).1
        decreases |s| - lastIndex
      {
        var b := m.value;
        StepKeepsScan(s, lastIndex, b, fragments);
        var before := s[lastIndex..b.start];
        if before != [] {
          fragments := fragments + [Text(before)];
        }
        fragments := fragments + [Code(Body(s, b), s[b.start..b.bodyStart])];
        lastIndex := b.End();
        m := Search(s, lastIndex);
      }
      ScanDone(s, lastIndex);
      buffer := s[lastIndex..];
      flushed := [];
      if buffer != [] && !StartsWith(buffer, Fence) {
        flushed := buffer;
        buffer := [];
      }
    }
  }

  /**
   * After a chunk, the buffer is empty or starts with a fence, and what was
   * emitted, followed by the buffer, is exactly the old buffer and the chunk.
   */
  lemma AppendChunkMeaning(old_buffer: string, chunk: string)
    ensures var s := old_buffer + chunk;
      var (fs, last) := Scan(s, 0);
      var rest := s[last..];
      var flushed := if rest != [] && !StartsWith(rest, Fence) then rest else [];
      var buffer := if rest != [] && !StartsWith(rest, Fence) then [] else rest;
      (buffer == [] || StartsWith(buffer, Fence))
      && SourceOf(fs) + flushed + buffer == s
      && (forall j :: 0 <= j < |fs| ==> WellFormed(fs[j]))
  {
    var s := old_buffer + chunk;
    var fs, last := Scan(s, 0).0, Scan(s, 0).1;
    var rest := s[last..];
    ScanReassembles(s, 0);
    ScanWellFormed(s, 0);
    FlushedOrKept(SourceOf(fs), rest, rest != [] && !StartsWith(rest, Fence));
  }

  /** Whether the tail is flushed or kept, the emitted text followed by the buffer is the same. */
  lemma FlushedOrKept<T>(emitted: seq<T>, rest: seq<T>, flush: bool)
    ensures emitted + (if flush then rest else []) + (if flush then [] else rest) == emitted + rest
  {
  }
}
