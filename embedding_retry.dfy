/**
 * The rate-limit retry policy around the embeddings service. The service is
 * an oracle that gives the outcome of the i-th call; a failure whose message,
 * lower-cased, mentions "rate limit" is slept on and retried with a doubled
 * delay, any other failure is raised at once, and when every allowed call was
 * rate-limited the policy gives up with its own error.
 */
module EmbeddingRetry {
  import opened PyStr

  /** What one call to the embeddings service did. */
  datatype CallOutcome<E> = Returned(embedding: E) | Failed(message: string)

  /**
   * How the policy ends: the embedding, the re-raised error, the give-up
   * error, or the error `time.sleep` raises when asked to sleep a negative
   * delay.
   */
  datatype RetryResult<E> = Embedding(value: E) | Raised(error: string) | GaveUp | NegativeSleep

  /** ASCII lower-casing of one character. */
  function LowerChar(c: char): (l: char)
    ensures 'A' <= c <= 'Z' ==> l as int == c as int + 32
    ensures !('A' <= c <= 'Z') ==> l == c
  {
    if 'A' <= c <= 'Z' then (c as int + 32) as char else c
  }

  /** `s.lower()` on ASCII letters. */
  function Lower(s: string): string {
    if s == [] then [] else [LowerChar(s[0])] + Lower(s[1..])
  }

  /** Lower-casing works character by character and keeps the length. */
  lemma {:induction false} LowerPointwise(s: string)
    ensures |Lower(s)| == |s| && forall i :: 0 <= i < |s| ==> Lower(s)[i] == LowerChar(s[i])
  {
    if s != [] {
      LowerPointwise(s[1..]);
    }
  }

  /** `"rate limit" in str(e).lower()`. */
  predicate IsRateLimit(message: string) {
    MentionsRateLimit(Lower(message))
  }

  /** `"rate limit" in s`. */
  predicate MentionsRateLimit(s: string) {
    Mentions(s, "rate limit")
  }

  /** A failure that the policy sleeps on and retries. */
  predicate Retryable<E>(o: CallOutcome<E>) {
    o.Failed? && IsRateLimit(o.message)
  }

  /** 2 to the power `n`. */
  function Pow2(n: nat): (p: nat)
    ensures p >= 1
  {
    if n == 0 then 1 else 2 * Pow2(n - 1)
  }

  /**
   * The index of the first call, from `from` on and below `retries`, that is
   * not a rate-limited failure; `retries` itself when there is none.
   */
  function FirstDecisive<E>(outcome: nat -> CallOutcome<E>, retries: nat, from: nat): (k: nat)
    requires from <= retries
    ensures from <= k <= retries
    decreases retries - from
  {
    if from == retries || !Retryable(outcome(from)) then from
    else FirstDecisive(outcome, retries, from + 1)
  }

  /** Every call before the first decisive one was rate-limited, and the decisive call, if any, was not. */
  lemma {:induction false} FirstDecisiveMeaning<E>(outcome: nat -> CallOutcome<E>, retries: nat, from: nat)
    requires from <= retries
    ensures forall j :: from <= j < FirstDecisive(outcome, retries, from) ==> Retryable(outcome(j))
    ensures FirstDecisive(outcome, retries, from) < retries ==> !Retryable(outcome(FirstDecisive(outcome, retries, from)))
    decreases retries - from
  {
    if from < retries && Retryable(outcome(from)) {
      var k := FirstDecisive(outcome, retries, from + 1);
      assert FirstDecisive(outcome, retries, from) == k;
      FirstDecisiveMeaning(outcome, retries, from + 1);
      forall j | from <= j < k
        ensures Retryable(outcome(j))
      {
        if j == from {
          assert Retryable(outcome(from));
        } else {
          assert from + 1 <= j < k;
        }
      }
    }
  }

  /** The delay slept after the `j`-th rate-limited call: the initial delay, doubled `j` times. */
  function Backoff(delay: int, j: nat): int {
    if j == 0 then delay else 2 * Backoff(delay, j - 1)
  }

  /** Doubling keeps the sign: a delay on the schedule is negative exactly when the initial one is. */
  lemma {:induction false} BackoffSign(delay: int, j: nat)
    ensures Backoff(delay, j) < 0 <==> delay < 0
  {
    if j > 0 {
      BackoffSign(delay, j - 1);
    }
  }

  /** The doubled delays form the geometric schedule `delay * 2^j`. */
  lemma {:induction false} BackoffIsPow2(delay: int, j: nat)
    ensures Backoff(delay, j) == delay * Pow2(j)
  {
    if j > 0 {
      BackoffIsPow2(delay, j - 1);
      assert delay * Pow2(j) == delay * (2 * Pow2(j - 1)) == 2 * (delay * Pow2(j - 1));
    }
  }

  /** A call that is not rate-limited, reached before the first decisive one, is that one: not every call was rate-limited. */
  lemma DecisiveCall<E>(outcome: nat -> CallOutcome<E>, retries: nat, i: nat)
    requires i < retries && i <= FirstDecisive(outcome, retries, 0) && !Retryable(outcome(i))
    ensures FirstDecisive(outcome, retries, 0) == i
    ensures forall j :: 0 <= j < i ==> Retryable(outcome(j))
    ensures !forall j :: 0 <= j < retries ==> Retryable(outcome(j))
  {
    FirstDecisiveMeaning(outcome, retries, 0);
  }

  /** When the first decisive call is past the last one, every call was rate-limited. */
  lemma AllRateLimited<E>(outcome: nat -> CallOutcome<E>, retries: nat)
    requires retries <= FirstDecisive(outcome, retries, 0)
    ensures forall j :: 0 <= j < retries ==> Retryable(outcome(j))
  {
    FirstDecisiveMeaning(outcome, retries, 0);
  }

  /** A rate-limited call before the first decisive one leaves that one further on. */
  lemma RateLimitedIsNotDecisive<E>(outcome: nat -> CallOutcome<E>, retries: nat, i: nat)
    requires i < retries && i <= FirstDecisive(outcome, retries, 0) && Retryable(outcome(i))
    ensures i + 1 <= FirstDecisive(outcome, retries, 0)
  {
    FirstDecisiveMeaning(outcome, retries, 0);
  }

  /** Sleeping the current delay keeps the delays slept on the schedule. */
  lemma SleepsStep(sleeps: seq<int>, delay: int, i: nat)
    requires |sleeps| == i && forall j :: 0 <= j < i ==> sleeps[j] == Backoff(delay, j) && sleeps[j] >= 0
    requires Backoff(delay, i) >= 0
    ensures forall j :: 0 <= j < i + 1 ==> (sleeps + [Backoff(delay, i)])[j] == Backoff(delay, j) && (sleeps + [Backoff(delay, i)])[j] >= 0
  {
  }

  /** `range(retries)` for an integer that may be negative. */
  function Count(retries: int): nat {
    if retries < 0 then 0 else retries
  }

  /**
   * `get_text_embedding_with_retry`: the calls made, the delays slept (in
   * order), and how it ends. Calls stop at the first outcome that is not a
   * rate-limit failure; each rate-limit failure sleeps the current delay,
   * which then doubles. A negative initial delay makes the first sleep
   * raise, so a rate-limited first call ends the policy there.
   */
  method EmbedWithRetry<E>(outcome: nat -> CallOutcome<E>, retries: int, delay: int)
      returns (result: RetryResult<E>, calls: nat, sleeps: seq<int>)
    ensures result.NegativeSleep? <==> delay < 0 && 0 < FirstDecisive(outcome, Count(retries), 0)
    ensures result.NegativeSleep? ==> calls == 1 && sleeps == [] && Retryable(outcome(0))
    ensures !result.NegativeSleep? ==>
      var k := FirstDecisive(outcome, Count(retries), 0);
      calls == (if k < Count(retries) then k + 1 else Count(retries))
      && |sleeps| == k
    ensures forall j :: 0 <= j < |sleeps| ==> sleeps[j] == Backoff(delay, j) && sleeps[j] >= 0
    ensures forall j :: 0 <= j < |sleeps| ==> Retryable(outcome(j))
    ensures result.Embedding? <==> !result.NegativeSleep? && calls > 0 && outcome(calls - 1).Returned?
    ensures result.Embedding? ==> result.value == outcome(calls - 1).embedding
    ensures result.Raised? ==>
      calls > 0 && outcome(calls - 1).Failed? && !IsRateLimit(outcome(calls - 1).message)
      && result.error == outcome(calls - 1).message
    ensures result.GaveUp? <==> !result.NegativeSleep? && forall j :: 0 <= j < Count(retries) ==> Retryable(outcome(j))
  {
    var d := delay;
    sleeps := [];
    calls := 0;
    result := GaveUp;
    var i := 0;
    ghost var k := FirstDecisive(outcome, Count(retries), 0);
    while i < retries
      invariant 0 <= i <= Count(retries) && i <= k
      invariant calls == i && |sleeps| == i && result == GaveUp
      invariant d == Backoff(delay, i)
      invariant delay < 0 ==> i == 0
      invariant forall j :: 0 <= j < i ==> sleeps[j] == Backoff(delay, j) && sleeps[j] >= 0
    {
      var o := outcome(i);
      calls := calls + 1;
      if o.Returned? {
        result := Embedding(o.embedding);
        break;
      }
      if !IsRateLimit(o.message) {
        result := Raised(o.message);
        break;
      }
      RateLimitedIsNotDecisive(outcome, Count(retries), i);
      BackoffSign(delay, i);
      if d < 0 {
        result := NegativeSleep;
        break;
      }
      SleepsStep(sleeps, delay, i);
      sleeps := sleeps + [d];
      d := d * 2;
      i := i + 1;
    }
    if result.GaveUp? {
      AllRateLimited(outcome, Count(retries));
    } else if !result.NegativeSleep? {
      DecisiveCall(outcome, Count(retries), i);
    }
  }

  /** A call that fails for another reason than a rate limit is the last call, and nothing was slept for it. */
  lemma OtherErrorStopsAtOnce<E>(outcome: nat -> CallOutcome<E>, retries: nat, k: nat)
    requires k < retries && outcome(k).Failed? && !IsRateLimit(outcome(k).message)
    requires forall j :: 0 <= j < k ==> Retryable(outcome(j))
    ensures FirstDecisive(outcome, retries, 0) == k
  {
    FirstDecisiveExact(outcome, retries, 0, k);
  }

  /** The first decisive call is the one the definition describes. */
  lemma {:induction false} FirstDecisiveExact<E>(outcome: nat -> CallOutcome<E>, retries: nat, from: nat, k: nat)
    requires from <= k <= retries
    requires forall j :: from <= j < k ==> Retryable(outcome(j))
    requires k < retries ==> !Retryable(outcome(k))
    ensures FirstDecisive(outcome, retries, from) == k
    decreases k - from
  {
    if from < k {
      assert Retryable(outcome(from));
      FirstDecisiveExact(outcome, retries, from + 1, k);
    }
  }

  lemma {:induction false} LowerAppend(a: string, b: string)
    ensures Lower(a + b) == Lower(a) + Lower(b)
  {
    if a == [] {
      assert a + b == b;
    } else {
      assert (a + b)[0] == a[0] && (a + b)[1..] == a[1..] + b;
      LowerAppend(a[1..], b);
    }
  }

  /** Text without capital letters is its own lower-case form. */
  lemma {:induction false} LowerWithoutCapitals(s: string)
    requires forall i :: 0 <= i < |s| ==> !('A' <= s[i] <= 'Z')
    ensures Lower(s) == s
  {
    if s != [] {
      LowerWithoutCapitals(s[1..]);
      assert s == [s[0]] + s[1..];
    }
  }

  lemma LowerOfPhrase()
    ensures Lower("Rate limit") == "rate limit"
  {
    var p, q := "Rate limit", "rate limit";
    PhraseTail();
    LowerWithoutCapitals(q[1..]);
    LowerFirst(p);
    PhraseHead();
    HeadTail(q);
  }

  /** The phrase's capital R lower-cases to the r of the lower-case phrase. */
  lemma PhraseHead()
    ensures LowerChar("Rate limit"[0]) == "rate limit"[0]
  {
  }

  lemma HeadTail<T>(q: seq<T>)
    requires q != []
    ensures q == [q[0]] + q[1..]
  {
  }

  lemma LowerFirst(s: string)
    requires s != []
    ensures Lower(s) == [LowerChar(s[0])] + Lower(s[1..])
  {
  }

  /** After its first letter, the phrase has no capitals. */
  lemma PhraseTail()
    ensures "Rate limit"[1..] == "rate limit"[1..]
    ensures forall i :: 0 <= i < |"rate limit"[1..]| ==> !('A' <= "rate limit"[1..][i] <= 'Z')
  {
    var q := "rate limit";
    assert forall i :: 1 <= i < |q| ==> !('A' <= q[i] <= 'Z');
  }

  /**
   * The service's own wording, "Rate limit reached ...", is recognised
   * wherever it appears in the error text, since lower-casing maps the
   * capital R to r.
   */
  lemma RateLimitRecognised(prefix: string, suffix: string)
    ensures IsRateLimit(prefix + ("Rate limit" + suffix))
  {
    var phrase := "Rate limit";
    LowerAppend(prefix, phrase + suffix);
    LowerAppend(phrase, suffix);
    LowerOfPhrase();
    var t := "rate limit" + Lower(suffix);
    assert Lower(prefix + (phrase + suffix)) == Lower(prefix) + t;
    assert t[..10] == "rate limit";
    StartsWithSlice(t, "rate limit");
    MentionsAfter(Lower(prefix), t, "rate limit");
  }
}
