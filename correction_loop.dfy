/**
 * The generate-simulate-repair loop of the script generator. Retrieval
 * enters as the neighbour index list; the language model, the simulator and
 * the reviewing model are oracles. The loop asks for a script, simulates it,
 * returns the first script that passes, and otherwise asks again with a
 * repair prompt that quotes the error output, the failing script and the
 * question.
 */
module CorrectionLoop {
  import opened Wrappers
  import opened PyStr
  import opened Fences

  // ----- the pass test -----

  /** A simulation passes when its error stream names neither an error nor a traceback and it printed something. */
  predicate Passes(stdout: string, stderr: string) {
    !Mentions(stderr, "Error") && !Mentions(stderr, "Traceback") && Strip(stdout) != []
  }

  /** The pass test in terms of positions: no occurrence of either word, and a standard output that is not all whitespace. */
  lemma PassesMeaning(stdout: string, stderr: string)
    ensures Passes(stdout, stderr) <==>
      (forall i :: !OccursAt(stderr, "Error", i))
      && (forall i :: !OccursAt(stderr, "Traceback", i))
      && !AllSpace(stdout)
  {
    MentionsIsContains(stderr, "Error");
    MentionsIsContains(stderr, "Traceback");
  }

  /** Any traceback or error report fails the script, whatever it printed. */
  lemma ErrorWordFails(stdout: string, before: string, after: string)
    ensures !Passes(stdout, before + "Error" + after)
    ensures !Passes(stdout, before + "Traceback" + after)
  {
    assert before + "Error" + after == before + ("Error" + after);
    StartsWithSlice("Error" + after, "Error");
    MentionsAfter(before, "Error" + after, "Error");
    assert before + "Traceback" + after == before + ("Traceback" + after);
    StartsWithSlice("Traceback" + after, "Traceback");
    MentionsAfter(before, "Traceback" + after, "Traceback");
  }

  // ----- retrieval -----

  /** Python's `xs[i]`: negative indices count from the end; anything else out of range raises IndexError. */
  function PyIndex<T>(xs: seq<T>, i: int): Option<T> {
    if 0 <= i < |xs| then Some(xs[i])
    else if -|xs| <= i < 0 then Some(xs[|xs| + i])
    else None
  }

  /** `[xs[i] for i in ids]`, or None when some index raises. */
  function Gather<T>(xs: seq<T>, ids: seq<int>): (r: Option<seq<T>>)
    ensures r.Some? ==> |r.value| == |ids|
  {
    if ids == [] then Some([])
    else match PyIndex(xs, ids[0])
      case None => None
      case Some(x) =>
        match Gather(xs, ids[1..])
        case None => None
        case Some(rest) => Some([x] + rest)
  }

  /**
   * Gathering succeeds exactly when every index lies in `[-|xs|, |xs|)`, and
   * then the j-th element is the element the j-th index names.
   */
  lemma {:induction false} GatherMeaning<T>(xs: seq<T>, ids: seq<int>)
    ensures Gather(xs, ids).Some? <==> forall j :: 0 <= j < |ids| ==> -|xs| <= ids[j] < |xs|
    ensures Gather(xs, ids).Some? ==> forall j :: 0 <= j < |ids| ==>
      Gather(xs, ids).value[j] == (if ids[j] >= 0 then xs[ids[j]] else xs[|xs| + ids[j]])
  {
    if ids != [] {
      GatherMeaning(xs, ids[1..]);
      assert forall j :: 1 <= j < |ids| ==> ids[j] == ids[1..][j - 1];
    }
  }

  /**
   * A missing neighbour, reported by the index as -1, silently retrieves the
   * last chunk instead of raising.
   */
  lemma MissingNeighbourIsLastChunk<T>(xs: seq<T>)
    requires xs != []
    ensures Gather(xs, [-1]) == Some([xs[|xs| - 1]])
  {
    assert [-1][1..] == [];
    assert PyIndex(xs, -1) == Some(xs[|xs| - 1]);
    assert Gather(xs, []) == Some([]);
    assert [xs[|xs| - 1]] + [] == [xs[|xs| - 1]];
  }

  // ----- prompts -----

  /** The two prompts the loop sends: the first one, and the one after a failed attempt. */
  datatype Prompt =
    | Synthesis(context: string, question: string)
    | Repair(stderr: string, code: string, question: string)

  const SynthesisHead: string := "\nContext information is below.\n---------------------\n"
  const SynthesisMiddle: string := "\n---------------------\nGiven the context information and/or prior knowledge, answer the query.\nQuery: "
  const RepairHead: string := "\nI have some errors : \n"
  const RepairMiddle: string := "\n\nPlease correct accordingly this code you've given me : \n"
  const RepairQuery: string := "\n\nFor the query : "
  const RepairTail: string := " \nAnd return the full corrected Python script, don't ask me to complete the code, don't ask me specific informations, always return a python code"

  /** The text of a prompt as it is sent to the model. */
  function Text(p: Prompt): string {
    match p
    case Synthesis(context, question) =>
      SynthesisHead + (context + (SynthesisMiddle + (question + "\n")))
    case Repair(stderr, code, question) =>
      RepairHead + (stderr + (RepairMiddle + (code + (RepairQuery + (question + RepairTail)))))
  }

  lemma OccursAfter(a: string, b: string, rest: string)
    ensures OccursAt(a + (b + rest), b, |a|)
  {
    assert (a + (b + rest))[|a|..|a| + |b|] == b;
  }

  /** In `a + (x + (b + (y + c)))`, `x` and `y` sit right after `a` and after `a + x + b`. */
  lemma QuotesBoth(a: string, x: string, b: string, y: string, c: string)
    ensures OccursAt(a + (x + (b + (y + c))), x, |a|)
    ensures OccursAt(a + (x + (b + (y + c))), y, |a| + |x| + |b|)
  {
    OccursAfter(a, x, b + (y + c));
    assert a + (x + (b + (y + c))) == (a + x + b) + (y + c);
    OccursAfter(a + x + b, y, c);
  }

  /** The first prompt quotes the context and the question, each at a fixed place. */
  lemma SynthesisPromptQuotes(context: string, question: string)
    ensures var p := Text(Synthesis(context, question));
      OccursAt(p, context, |SynthesisHead|)
      && OccursAt(p, question, |SynthesisHead| + |context| + |SynthesisMiddle|)
  {
    QuotesBoth(SynthesisHead, context, SynthesisMiddle, question, "\n");
  }

  /** In `a + (x + (b + (y + (c + (z + d)))))`, the three quoted parts sit at the places the fixed parts leave them. */
  lemma QuotesThree(a: string, x: string, b: string, y: string, c: string, z: string, d: string)
    ensures var p := a + (x + (b + (y + (c + (z + d)))));
      OccursAt(p, x, |a|) && OccursAt(p, y, |a| + |x| + |b|) && OccursAt(p, z, |a| + |x| + |b| + |y| + |c|)
  {
    var rest := c + (z + d);
    QuotesBoth(a, x, b, y, rest);
    var lead := a + x + b + y;
    assert a + (x + (b + (y + rest))) == (lead + c) + (z + d);
    OccursAfter(lead + c, z, d);
  }

  /** The repair prompt quotes the error output, the failing script and the question, each at a fixed place. */
  lemma RepairPromptQuotes(stderr: string, code: string, question: string)
    ensures var p := Text(Repair(stderr, code, question));
      OccursAt(p, stderr, |RepairHead|)
      && OccursAt(p, code, |RepairHead| + |stderr| + |RepairMiddle|)
      && OccursAt(p, question, |RepairHead| + |stderr| + |RepairMiddle| + |code| + |RepairQuery|)
  {
    QuotesThree(RepairHead, stderr, RepairMiddle, code, RepairQuery, question, RepairTail);
  }

  // ----- the loop -----

  /** One generate/simulate cycle: the prompt, the reply taken as the script, and the simulator's output. */
  datatype Attempt = Attempt(prompt: Prompt, response: string, stdout: string, stderr: string)

  /** What `run_query_and_fix` returns. */
  datatype FixResult = FixResult(code: Option<string>, chunks: seq<string>, sources: seq<string>, attempt: nat, lastError: string)

  /** How it ends: with a result, with IndexError during retrieval, or with UnboundLocalError when no attempt ran. */
  datatype FixOutcome = Finished(result: FixResult) | RetrievalIndexError | AttemptUnbound

  /** The cycle at attempt number `n`: the reply to its prompt and, for a non-empty reply, its simulation. */
  predicate IsCycle(a: Attempt, n: nat, generate: (nat, string) -> string, simulate: string -> (string, string)) {
    a.response == generate(n, Text(a.prompt))
    && (a.response != [] ==> (a.stdout, a.stderr) == simulate(a.response))
    && (a.response == [] ==> a.stdout == [] && a.stderr == [])
  }

  /** The cycle produced a script and that script failed. */
  predicate Failed(a: Attempt) {
    a.response != [] && !Passes(a.stdout, a.stderr)
  }

  /** Every attempt of the trace is the cycle of its attempt number, counted from 1. */
  predicate Cycles(trace: seq<Attempt>, generate: (nat, string) -> string, simulate: string -> (string, string)) {
    forall k :: 0 <= k < |trace| ==> IsCycle(trace[k], k + 1, generate, simulate)
  }

  /**
   * The prompts of the trace follow the loop: the first is the synthesis
   * prompt, each later one is the repair prompt of the attempt before, and
   * every attempt before the last failed.
   */
  predicate Chained(trace: seq<Attempt>, question: string, context: string) {
    (|trace| > 0 ==> trace[0].prompt == Synthesis(context, question))
    && (forall k :: 0 <= k < |trace| - 1 ==> Failed(trace[k]))
    && (forall k :: 0 <= k < |trace| - 1 ==> trace[k + 1].prompt == Repair(trace[k].stderr, trace[k].response, question))
  }

  /** A run of the loop: its cycles, chained by their prompts. */
  predicate IsRun(trace: seq<Attempt>, question: string, context: string,
                  generate: (nat, string) -> string, simulate: string -> (string, string)) {
    Cycles(trace, generate, simulate) && Chained(trace, question, context)
  }

  /** The k-th attempts of two runs with the same oracles are the same attempt. */
  lemma {:induction false} RunsAgreeAt(t1: seq<Attempt>, t2: seq<Attempt>, question: string, context: string,
                                       generate: (nat, string) -> string, simulate: string -> (string, string), k: nat)
    requires IsRun(t1, question, context, generate, simulate) && IsRun(t2, question, context, generate, simulate)
    requires k < |t1| && k < |t2|
    ensures t1[k] == t2[k]
  {
    if k > 0 {
      RunsAgreeAt(t1, t2, question, context, generate, simulate, k - 1);
    }
    assert t1[k].prompt == t2[k].prompt;
    assert IsCycle(t1[k], k + 1, generate, simulate) && IsCycle(t2[k], k + 1, generate, simulate);
  }

  /** The loop is deterministic: a shorter run is a prefix of a longer one. */
  lemma RunsAgree(t1: seq<Attempt>, t2: seq<Attempt>, question: string, context: string,
                  generate: (nat, string) -> string, simulate: string -> (string, string))
    requires IsRun(t1, question, context, generate, simulate) && IsRun(t2, question, context, generate, simulate)
    requires |t1| <= |t2|
    ensures t1 == t2[..|t1|]
  {
    forall k | 0 <= k < |t1|
      ensures t1[k] == t2[k]
    {
      RunsAgreeAt(t1, t2, question, context, generate, simulate, k);
    }
  }

  /** The retrieved chunks, context and sources, when retrieval does not raise. */
  function Retrieved(chunks: seq<string>, sources: seq<string>, ids: seq<int>): Option<(seq<string>, seq<string>)> {
    match Gather(chunks, ids)
    case None => None
    case Some(cs) =>
      match Gather(sources, ids)
      case None => None
      case Some(ss) => Some((cs, ss))
  }

  /** The prompt the next attempt is sent: the synthesis prompt first, then the repair prompt of the last failure. */
  predicate NextPrompt(trace: seq<Attempt>, prompt: Prompt, question: string, context: string) {
    if trace == [] then prompt == Synthesis(context, question)
    else Failed(trace[|trace| - 1]) && prompt == Repair(trace[|trace| - 1].stderr, trace[|trace| - 1].response, question)
  }

  /** One more cycle, numbered after the others, keeps the trace made of cycles. */
  lemma CyclesExtend(trace: seq<Attempt>, a: Attempt, generate: (nat, string) -> string, simulate: string -> (string, string))
    requires Cycles(trace, generate, simulate) && IsCycle(a, |trace| + 1, generate, simulate)
    ensures Cycles(trace + [a], generate, simulate)
  {
    var t := trace + [a];
    forall k | 0 <= k < |t|
      ensures IsCycle(t[k], k + 1, generate, simulate)
    {
      if k < |trace| {
        assert t[k] == trace[k];
      }
    }
  }

  /** An attempt sent the next prompt keeps the trace chained. */
  lemma ChainExtends(trace: seq<Attempt>, a: Attempt, prompt: Prompt, question: string, context: string)
    requires Chained(trace, question, context) && NextPrompt(trace, prompt, question, context) && a.prompt == prompt
    ensures Chained(trace + [a], question, context)
  {
    var t, n := trace + [a], |trace|;
    forall k | 0 <= k < |t| - 1
      ensures Failed(t[k]) && t[k + 1].prompt == Repair(t[k].stderr, t[k].response, question)
    {
      assert t[k] == trace[k];
      if k + 1 < n {
        assert t[k + 1] == trace[k + 1];
      } else {
        assert t[k + 1] == a;
      }
    }
    if n == 0 {
      assert t[0] == a;
    } else {
      assert t[0] == trace[0];
    }
  }

  /** A run whose last attempt failed grows into a run by one more cycle with the next prompt. */
  lemma RunExtends(trace: seq<Attempt>, a: Attempt, prompt: Prompt, question: string, context: string,
                   generate: (nat, string) -> string, simulate: string -> (string, string))
    requires IsRun(trace, question, context, generate, simulate) && NextPrompt(trace, prompt, question, context)
    requires IsCycle(a, |trace| + 1, generate, simulate) && a.prompt == prompt
    ensures IsRun(trace + [a], question, context, generate, simulate)
  {
    CyclesExtend(trace, a, generate, simulate);
    ChainExtends(trace, a, prompt, question, context);
  }

  /** One attempt: ask for a script and, when the reply is not empty, simulate it. */
  method Cycle(n: nat, prompt: Prompt, generate: (nat, string) -> string, simulate: string -> (string, string))
      returns (a: Attempt)
    ensures IsCycle(a, n, generate, simulate) && a.prompt == prompt
  {
    var response := generate(n, Text(prompt));
    if response == [] {
      return Attempt(prompt, response, [], []);
    }
    var (stdout, stderr) := simulate(response);
    a := Attempt(prompt, response, stdout, stderr);
  }

  /**
   * The review after a passing script: the reviewing model's stripped
   * verdict, and the stripped body of its first fenced block, which is
   * simulated and then ignored.
   */
  method ReverseCheck(question: string, code: string, review: (string, string) -> string, simulate: string -> (string, string))
      returns (verdict: string, suggested: Option<string>)
    ensures suggested.Some? <==> Search(verdict, 0).Some?
  {
    verdict := Strip(review(question, code));
    var blocks := Search(verdict, 0);
    suggested := None;
    if blocks.Some? {
      suggested := Some(Strip(Body(verdict, blocks.value)));
      var (_, _) := simulate(suggested.value);
    }
  }

  /**
   * `run_query_and_fix`. The reviewing model's verdict is obtained and a
   * suggested script in it is simulated, but neither affects the result: the
   * contract below does not mention `review`.
   */
  method RunQueryAndFix(question: string, chunks: seq<string>, sources: seq<string>, ids: seq<int>, maxAttempts: int,
                        generate: (nat, string) -> string, simulate: string -> (string, string),
                        review: (string, string) -> string)
      returns (outcome: FixOutcome, ghost trace: seq<Attempt>)
    ensures Retrieved(chunks, sources, ids).None? ==> outcome == RetrievalIndexError
    ensures Retrieved(chunks, sources, ids).Some? && maxAttempts < 1 ==> outcome == AttemptUnbound
    ensures Retrieved(chunks, sources, ids).Some? && maxAttempts >= 1 ==>
      var (cs, ss) := Retrieved(chunks, sources, ids).value;
      outcome.Finished? && outcome.result.chunks == cs && outcome.result.sources == ss
      && 1 <= |trace| == outcome.result.attempt <= maxAttempts
      && IsRun(trace, question, JoinWith("\n\n", cs), generate, simulate)
    ensures outcome.Finished? ==> |trace| > 0
    ensures outcome.Finished? && |trace| > 0 ==>
      var r, last := outcome.result, trace[|trace| - 1];
      (r.code.Some? <==> last.response != [] && Passes(last.stdout, last.stderr))
      && (r.code.Some? ==> r.code.value == last.response && r.lastError == [])
      && (last.response == [] ==> r.lastError == (if |trace| > 1 then Strip(trace[|trace| - 2].stderr) else []))
      && (Failed(last) ==> |trace| == maxAttempts && r.lastError == Strip(last.stderr))
  {
    trace := [];
    var retrieved := Retrieved(chunks, sources, ids);
    if retrieved.None? {
      return RetrievalIndexError, trace;
    }
    var (cs, ss) := retrieved.value;
    var context := JoinWith("\n\n", cs);
    var prompt := Synthesis(context, question);
    var lastError := "";
    if maxAttempts < 1 {
      return AttemptUnbound, trace;
    }
    var attempt := 1;
    while attempt <= maxAttempts
      invariant 1 <= attempt <= maxAttempts + 1 && |trace| == attempt - 1
      invariant IsRun(trace, question, context, generate, simulate)
      invariant NextPrompt(trace, prompt, question, context)
      invariant lastError == (if |trace| > 0 then Strip(trace[|trace| - 1].stderr) else [])
    {
      var a := Cycle(attempt, prompt, generate, simulate);
      RunExtends(trace, a, prompt, question, context, generate, simulate);
      trace := trace + [a];
      if a.response == [] {
        return Finished(FixResult(None, cs, ss, attempt, lastError)), trace;
      }
      if Passes(a.stdout, a.stderr) {
        var _, _ := ReverseCheck(question, a.response, review, simulate);
        return Finished(FixResult(Some(a.response), cs, ss, attempt, [])), trace;
      }
      prompt := Repair(a.stderr, a.response, question);
      lastError := Strip(a.stderr);
      attempt := attempt + 1;
    }
    // the loop variable keeps its last value, `maxAttempts`
    outcome := Finished(FixResult(None, cs, ss, attempt - 1, lastError));
  }
}
