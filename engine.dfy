/**
 * The chat engine: which part of a conversation is sent to the language
 * model, how the reply is appended to the conversation in place, and how a
 * user query is dispatched on its classification. The model, the classifier
 * and the script-generator process are oracles.
 */
module Engine {
  import opened Wrappers
  import opened PyStr

  /** One chat message, `{"role": ..., "content": ...}`. */
  datatype Message = Message(role: string, content: string)

  predicate IsSystem(m: Message) {
    m.role == "system"
  }

  /** Index of the first system message, or `|h|` when there is none. */
  function SystemIndex(h: seq<Message>): (i: nat)
    ensures i <= |h|
    ensures i < |h| ==> IsSystem(h[i])
    ensures forall j :: 0 <= j < i ==> !IsSystem(h[j])
  {
    if h == [] || IsSystem(h[0]) then 0
    else
      var i := 1 + SystemIndex(h[1..]);
      assert forall j :: 1 <= j < i ==> h[j] == h[1..][j - 1];
      i
  }

  /** `next((m for m in h if m["role"] == "system"), None)`. */
  function FirstSystem(h: seq<Message>): Option<Message> {
    var i := SystemIndex(h);
    if i < |h| then Some(h[i]) else None
  }

  /** `[m for m in h if m["role"] != "system"]`. */
  function NonSystem(h: seq<Message>): seq<Message> {
    if h == [] then [] else (if IsSystem(h[0]) then [] else [h[0]]) + NonSystem(h[1..])
  }

  /** `xs[-n:]` for `n >= 0`: the last `n` elements, or all of them when there are fewer. */
  function Last<T>(xs: seq<T>, n: nat): seq<T> {
    if |xs| <= n then xs else xs[|xs| - n..]
  }

  /** The messages sent to the model: the first system message, if any, and the last nine others. */
  function Window(h: seq<Message>): seq<Message> {
    match FirstSystem(h)
    case Some(s) => [s] + Last(NonSystem(h), 9)
    case None => Last(NonSystem(h), 9)
  }

  /** Filtering distributes over concatenation, so it keeps the order of what it keeps. */
  lemma {:induction false} NonSystemAppend(a: seq<Message>, b: seq<Message>)
    ensures NonSystem(a + b) == NonSystem(a) + NonSystem(b)
  {
    if a == [] {
      assert a + b == b;
    } else {
      assert (a + b)[0] == a[0] && (a + b)[1..] == a[1..] + b;
      NonSystemAppend(a[1..], b);
    }
  }

  /** The filter keeps exactly the messages that are not system messages. */
  lemma NonSystemMeaning(h: seq<Message>)
    ensures forall j :: 0 <= j < |NonSystem(h)| ==> !IsSystem(NonSystem(h)[j]) && NonSystem(h)[j] in h
    ensures (forall j :: 0 <= j < |h| ==> !IsSystem(h[j])) ==> NonSystem(h) == h
  {
    NonSystemKeepsOnlyOthers(h);
    if forall j :: 0 <= j < |h| ==> !IsSystem(h[j]) {
      NonSystemKeepsAll(h);
    }
  }

  lemma {:induction false} NonSystemKeepsOnlyOthers(h: seq<Message>)
    ensures forall j :: 0 <= j < |NonSystem(h)| ==> !IsSystem(NonSystem(h)[j]) && NonSystem(h)[j] in h
  {
    if h != [] {
      var t, r := NonSystem(h[1..]), NonSystem(h);
      NonSystemKeepsOnlyOthers(h[1..]);
      forall j | 0 <= j < |r|
        ensures !IsSystem(r[j]) && r[j] in h
      {
        if IsSystem(h[0]) {
          assert r[j] == t[j] && t[j] in h[1..];
        } else if j > 0 {
          assert r[j] == t[j - 1] && t[j - 1] in h[1..];
        }
      }
    }
  }

  lemma {:induction false} NonSystemKeepsAll(h: seq<Message>)
    requires forall j :: 0 <= j < |h| ==> !IsSystem(h[j])
    ensures NonSystem(h) == h
  {
    if h != [] {
      assert forall j :: 0 <= j < |h[1..]| ==> h[1..][j] == h[j + 1];
      NonSystemKeepsAll(h[1..]);
      assert h == [h[0]] + h[1..];
    }
  }

  /** `xs[-n:]` has `min(n, |xs|)` elements and is a suffix of `xs`. */
  lemma LastIsSuffix<T>(xs: seq<T>, n: nat)
    ensures |Last(xs, n)| == (if |xs| < n then |xs| else n)
    ensures Last(xs, n) == xs[|xs| - |Last(xs, n)|..]
  {
  }

  /**
   * The window holds at most ten messages; when the conversation has a system
   * message, the window starts with the first one; no other system message is
   * in it; and after the first message (or from the start, without a system
   * message) come the last `min(9, n)` of the `n` non-system messages, in
   * their original order.
   */
  lemma WindowShape(h: seq<Message>)
    ensures |Window(h)| <= 10
    ensures SystemIndex(h) < |h| ==> Window(h)[0] == h[SystemIndex(h)]
    ensures var off := if SystemIndex(h) < |h| then 1 else 0;
      off <= |Window(h)|
      && (forall j :: off <= j < |Window(h)| ==> !IsSystem(Window(h)[j]))
      && |Window(h)| - off == (if |NonSystem(h)| < 9 then |NonSystem(h)| else 9)
      && Window(h)[off..] == NonSystem(h)[|NonSystem(h)| - (|Window(h)| - off)..]
  {
    NonSystemMeaning(h);
    var ns := NonSystem(h);
    LastIsSuffix(ns, 9);
    var off := if SystemIndex(h) < |h| then 1 else 0;
    assert Window(h)[off..] == Last(ns, 9);
    forall j | off <= j < |Window(h)|
      ensures !IsSystem(Window(h)[j])
    {
      assert Window(h)[j] == ns[|ns| - |Last(ns, 9)| + (j - off)];
    }
  }

  /** Without a system message the window is just the last nine messages of the conversation. */
  lemma WindowWithoutSystem(h: seq<Message>)
    requires forall j :: 0 <= j < |h| ==> !IsSystem(h[j])
    ensures Window(h) == Last(h, 9)
  {
    NonSystemMeaning(h);
  }

  /** A reply appended to the conversation is the last message of the next window, behind the same system message. */
  lemma ReplyEntersWindow(h: seq<Message>, reply: string)
    ensures var w, w' := Window(h), Window(h + [Message("assistant", reply)]);
      w' != [] && w'[|w'| - 1] == Message("assistant", reply)
      && (w != [] && IsSystem(w[0]) ==> w'[0] == w[0])
  {
    var m := Message("assistant", reply);
    var h' := h + [m];
    NonSystemAppend(h, [m]);
    assert NonSystem([m]) == [m];
    var i := SystemIndex(h);
    if i < |h| {
      assert h'[i] == h[i];
      assert SystemIndex(h') == i;
    } else {
      assert forall j :: 0 <= j < |h'| ==> !IsSystem(h'[j]);
      WindowShape(h);
    }
  }

  /** One event of the model's streamed response. */
  datatype Event = Event(kind: string, delta: string)

  const TextDelta: string := "response.output_text.delta"

  /** The tokens the stream yields: the deltas of the text-delta events, in order. */
  function Deltas(events: seq<Event>): seq<string> {
    if events == [] then []
    else
      var last := events[|events| - 1];
      Deltas(events[..|events| - 1]) + (if last.kind == TextDelta then [last.delta] else [])
  }

  /** Consuming a stream in two parts yields the same tokens as consuming it at once. */
  lemma {:induction false} DeltasAppend(a: seq<Event>, b: seq<Event>)
    ensures Deltas(a + b) == Deltas(a) + Deltas(b)
    decreases |b|
  {
    if b == [] {
      assert a + b == a;
    } else {
      assert (a + b)[..|a + b| - 1] == a + b[..|b| - 1];
      DeltasAppend(a, b[..|b| - 1]);
    }
  }

  /** Events of any other kind yield nothing, and every yielded token is the delta of some text-delta event. */
  lemma {:induction false} DeltasMeaning(events: seq<Event>)
    ensures |Deltas(events)| <= |events|
    ensures forall t :: t in Deltas(events) ==> exists e :: e in events && e.kind == TextDelta && e.delta == t
    ensures (forall j :: 0 <= j < |events| ==> events[j].kind != TextDelta) ==> Deltas(events) == []
  {
    if events != [] {
      var init := events[..|events| - 1];
      DeltasMeaning(init);
      assert forall e :: e in init ==> e in events;
      assert forall j :: 0 <= j < |init| ==> init[j] == events[j];
    }
  }

  /** A conversation whose list the engine appends to in place. */
  class ChatHistory {
    var messages: seq<Message>

    constructor (initial: seq<Message>)
      ensures messages == initial
    {
      messages := initial;
    }

    /** `run_gpt`: the model answers the window, and the answer is appended as an assistant message. */
    method RunGpt(model: seq<Message> -> string) returns (reply: string)
      modifies this
      ensures reply == model(Window(old(messages)))
      ensures messages == old(messages) + [Message("assistant", reply)]
    {
      reply := model(Window(messages));
      messages := messages + [Message("assistant", reply)];
    }

    /**
     * `run_gpt_stream`: the text-delta tokens of the streamed answer to the
     * window, in order, and one assistant message holding their concatenation.
     */
    method RunGptStream(stream: seq<Message> -> seq<Event>) returns (tokens: seq<string>)
      modifies this
      ensures tokens == Deltas(stream(Window(old(messages))))
      ensures messages == old(messages) + [Message("assistant", Concat(tokens))]
    {
      var events := stream(Window(messages));
      var text := "";
      tokens := [];
      var i := 0;
      while i < |events|
        invariant 0 <= i <= |events|
        invariant tokens == Deltas(events[..i])
        invariant text == Concat(tokens)
        invariant messages == old(messages)
      {
        assert events[..i + 1][..i] == events[..i];
        if events[i].kind == TextDelta {
          ConcatAppend(tokens, [events[i].delta]);
          text := text + events[i].delta;
          tokens := tokens + [events[i].delta];
        }
        i := i + 1;
      }
      assert events[..|events|] == events;
      messages := messages + [Message("assistant", text)];
    }
  }

  /** What `process_user_query` returns: the generator's printed output, the token stream, or None. */
  datatype Reply = Printed(text: string) | Streamed(tokens: seq<string>) | NoReply

  /**
   * `process_user_query`. A "code" query goes to the script generator and its
   * stripped output is returned; a "general" or "out" query is streamed from
   * the model over a copy of the conversation, so the caller's conversation
   * keeps its messages; any other classification gives no reply.
   */
  method ProcessUserQuery(query: string, history: ChatHistory, classify: string -> string, generator: string -> string,
                          stream: seq<Message> -> seq<Event>)
      returns (reply: Reply)
    ensures history.messages == old(history.messages)
    ensures classify(query) == "code" ==> reply == Printed(Strip(generator(query)))
    ensures classify(query) in {"general", "out"} ==> reply == Streamed(Deltas(stream(Window(history.messages))))
    ensures classify(query) !in {"code", "general", "out"} ==> reply == NoReply
  {
    var classification := classify(query);
    var copy := new ChatHistory(history.messages);
    if classification == "code" {
      return Printed(Strip(generator(query)));
    } else if classification in {"general", "out"} {
      var tokens := copy.RunGptStream(stream);
      return Streamed(tokens);
    }
    reply := NoReply;
  }
}
