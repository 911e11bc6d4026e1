/** The cache check and the retry loop of `generate_audio`
    (create_video.py:157-215). The text-to-speech client is reduced to whether
    each call succeeds, and `time.sleep` to the list of waits it is asked
    for. */
module Speech {
  import opened Wrappers
  import opened SortedSets

  /** `MAX_RETRIES` and `RETRY_BACKOFF` (lines 73-74), the backoff in whole
      seconds. */
  datatype RetryPolicy = RetryPolicy(maxRetries: nat, backoff: nat)

  /** The values the program ships with: three attempts, two seconds. */
  const Default := RetryPolicy(3, 2)

  datatype AudioOutcome =
    | Reused                  // a cached, non-empty file is kept (lines 170-172)
    | Written(attempt: nat)   // the call of this attempt (from 1) succeeded
    | Raised(attempts: nat)   // `RuntimeError` after the last failed attempt
    | NotAttempted            // no attempt at all: the loop range is empty

  function Pow2(n: nat): nat {
    if n == 0 then 1 else 2 * Pow2(n - 1)
  }

  /** Whether the client call of attempt `a` (counted from 1) succeeds; a
      call past the end of `outcomes` fails. */
  predicate Succeeds(outcomes: seq<bool>, a: nat) {
    1 <= a <= |outcomes| && outcomes[a - 1]
  }

  /** The waits before the first `n` retries: `backoff * 2 ** (attempt - 1)`
      after each failed attempt that is not the last. */
  function Waits(backoff: nat, n: nat): seq<nat> {
    seq(n, i requires 0 <= i => backoff * Pow2(i))
  }

  /** `SKIP_EXISTING_AUDIO and output_path.is_file() and st_size > 0`;
      `cachedSize` is the size of an existing file. */
  predicate CacheHit(skipExisting: bool, cachedSize: Option<nat>) {
    skipExisting && cachedSize.Some? && cachedSize.value > 0
  }

  /** One run of `generate_audio`: what it ends with, how many client calls
      it made and which waits it slept. */
  method GenerateAudio(policy: RetryPolicy, skipExisting: bool, cachedSize: Option<nat>, outcomes: seq<bool>)
    returns (outcome: AudioOutcome, calls: nat, waits: seq<nat>)
    ensures CacheHit(skipExisting, cachedSize) ==> outcome == Reused && calls == 0
    ensures !CacheHit(skipExisting, cachedSize) ==> outcome != Reused && calls <= policy.maxRetries
    ensures outcome == NotAttempted <==> !CacheHit(skipExisting, cachedSize) && policy.maxRetries == 0
    ensures outcome.Written? ==> calls == outcome.attempt && Succeeds(outcomes, calls)
    ensures outcome.Raised? ==> calls == outcome.attempts && calls == policy.maxRetries
    ensures outcome.Written? || outcome.Raised? ==> forall a :: 1 <= a < calls ==> !Succeeds(outcomes, a)
    ensures outcome.Raised? ==> !Succeeds(outcomes, calls)
    ensures waits == Waits(policy.backoff, if calls == 0 then 0 else calls - 1)
  {
    if CacheHit(skipExisting, cachedSize) {
      return Reused, 0, [];
    }
    calls := 0;
    waits := [];
    var attempt := 1;
    while attempt <= policy.maxRetries
      invariant 1 <= attempt && (attempt <= policy.maxRetries || attempt == 1)
      invariant calls == attempt - 1
      invariant waits == Waits(policy.backoff, attempt - 1)
      invariant forall a :: 1 <= a < attempt ==> !Succeeds(outcomes, a)
    {
      calls := calls + 1;
      if Succeeds(outcomes, attempt) {
        return Written(attempt), calls, waits;
      }
      if attempt < policy.maxRetries {
        waits := waits + [policy.backoff * Pow2(attempt - 1)];
        assert waits == Waits(policy.backoff, attempt);
      } else {
        return Raised(attempt), calls, waits;
      }
      attempt := attempt + 1;
    }
    outcome := NotAttempted;
  }

  /** Each wait is twice the one before. */
  lemma WaitsDouble(backoff: nat, n: nat, i: nat)
    requires i + 1 < n
    ensures Waits(backoff, n)[i + 1] == 2 * Waits(backoff, n)[i]
  {
    assert Pow2(i + 1) == 2 * Pow2(i);
    assert backoff * (2 * Pow2(i)) == 2 * (backoff * Pow2(i));
  }

  /** With a positive backoff the waits strictly increase. */
  lemma {:induction false} WaitsIncrease(backoff: nat, n: nat)
    requires backoff > 0
    ensures StrictlyIncreasing(Waits(backoff, n))
    decreases n
  {
    if n >= 2 {
      var w := Waits(backoff, n);
      WaitsDouble(backoff, n, 0);
      assert w[1..] == Waits(2 * backoff, n - 1) by {
        forall i | 0 <= i < n - 1 ensures w[1..][i] == Waits(2 * backoff, n - 1)[i] {
          assert Pow2(i + 1) == 2 * Pow2(i);
          assert backoff * (2 * Pow2(i)) == (2 * backoff) * Pow2(i);
        }
      }
      WaitsIncrease(2 * backoff, n - 1);
    }
  }

  function Sum(s: seq<nat>): nat
    decreases |s|
  {
    if s == [] then 0 else Sum(s[..|s| - 1]) + s[|s| - 1]
  }

  /** The last wait before `n` retries is `backoff * 2 ** (n - 1)`, after
      those before it. */
  lemma {:induction false} SumWaitsSnoc(backoff: nat, n: nat)
    requires n > 0
    ensures Sum(Waits(backoff, n)) == Sum(Waits(backoff, n - 1)) + backoff * Pow2(n - 1)
  {
    var w := Waits(backoff, n);
    assert w[..n - 1] == Waits(backoff, n - 1);
  }

  /** Waiting before `n` retries takes `backoff * (2 ** n - 1)` seconds. */
  lemma {:induction false} TotalWait(backoff: nat, n: nat)
    ensures Pow2(n) >= 1
    ensures Sum(Waits(backoff, n)) == backoff * (Pow2(n) - 1)
    decreases n
  {
    if n > 0 {
      TotalWait(backoff, n - 1);
      SumWaitsSnoc(backoff, n);
      DoubleLessOne(backoff, Pow2(n - 1));
    }
  }

  /** One more doubling of the geometric sum: `b(p - 1) + bp = b(2p - 1)`. */
  lemma DoubleLessOne(b: int, p: int)
    ensures b * (p - 1) + b * p == b * (2 * p - 1)
  {
    assert b * (p - 1) == b * p - b;
    assert b * (2 * p - 1) == b * p + b * p - b;
  }

  /** With the shipped settings one slide costs at most three client calls
      and at most six seconds of waiting, and a cached file costs none. */
  method DefaultBudget(skipExisting: bool, cachedSize: Option<nat>, outcomes: seq<bool>)
    returns (calls: nat, waited: nat)
    ensures calls <= 3 && waited <= 6
    ensures CacheHit(skipExisting, cachedSize) ==> calls == 0 && waited == 0
    ensures !CacheHit(skipExisting, cachedSize) && (forall a :: 1 <= a <= 3 ==> !Succeeds(outcomes, a)) ==>
              calls == 3 && waited == 6
  {
    var outcome, waits;
    outcome, calls, waits := GenerateAudio(Default, skipExisting, cachedSize, outcomes);
    var n := if calls == 0 then 0 else calls - 1;
    TotalWait(2, n);
    if n == 2 {
      assert Pow2(2) == 4;
    } else if n == 1 {
      assert Pow2(1) == 2;
    }
    waited := Sum(waits);
  }
}
