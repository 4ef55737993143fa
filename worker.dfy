/** The enrichment worker of worker.go (`smartyWorker`): for each address,
    up to `MaxRetries + 1` attempts, each taking a credential from the
    shared manager and calling the validation provider, with exponential
    backoff between attempts.

    The provider and the user prompt are outside the model; `Env` stands
    for them. Within one worker every call happens at a distinct pair
    (job position, attempt number), so answers indexed by that pair can be
    any behaviour of the outside world. Sleeping is recorded, in
    milliseconds, in a ghost log instead of taking time. */
module Worker {
  import opened Optional
  import opened ApiManager
  import opened Atmb

  /** Retries after the first attempt: five attempts in all. */
  const MaxRetries: nat := 4

  /** The wait before the first retry, in milliseconds (two seconds). */
  const InitialBackoff: nat := 2000

  function Pow2(n: nat): (r: nat)
    ensures 1 <= r
  {
    if n == 0 then 1 else 2 * Pow2(n - 1)
  }

  /** The wait before attempt `attempt` (`initialBackoff * 2^(attempt-1)`). */
  function Backoff(attempt: nat): (d: nat)
    requires attempt >= 1
    ensures InitialBackoff <= d
  {
    InitialBackoff * Pow2(attempt - 1)
  }

  /** Every wait doubles the one before it. */
  lemma {:induction false} BackoffValues(attempt: nat)
    requires 2 <= attempt
    ensures Backoff(attempt) == 2 * Backoff(attempt - 1)
  {
    assert Pow2(attempt - 1) == 2 * Pow2(attempt - 2);
  }

  /** The three classes of `SmartyInfo` result: nil (with the provider's
      CMRA and RDI codes written into the address), `ErrUnknownAddress`,
      and every other error. */
  datatype Reply = Validated(cmra: string, rdi: string) | ErrUnknownAddress | OtherError

  /** The outside world: what the user prompt returns and what the provider
      answers, at job `j` (position in this worker's dequeue order) and
      attempt `a`. */
  datatype Env = Env(
    prompt: (nat, nat) -> seq<ApiCredential>,
    provider: (nat, nat) -> Reply)

  /** Where an address ends: on `results`, on `failedJobs` (unknown
      address, or no credential left), or nowhere after the last retry. */
  datatype Fate =
    | Enriched(addr: Address)
    | Unknown(addr: Address)
    | Exhausted(addr: Address)
    | Dropped(addr: Address)

  /** One address's retry loop: the manager state after it, its fate, the
      value of the loop counter `attempt` when the loop ended (the attempt
      that settled the address, or `MaxRetries + 1` when every attempt
      failed), how many attempts (each one `GetCredentials` call) and how
      many `InvalidateCurrent` calls it made, and the waits it slept. */
  datatype Trial = Trial(pool: Pool, fate: Fate, exit: nat, attempts: nat, invalidations: nat, sleeps: seq<nat>)

  /** `t` preceded by `k` transient failures and the waits `earlier`. */
  function Shift(t: Trial, k: nat, earlier: seq<nat>): Trial {
    t.(attempts := t.attempts + k, invalidations := t.invalidations + k, sleeps := earlier + t.sleeps)
  }

  /** Equal except for the two enrichment fields. */
  predicate SameListing(a: Address, b: Address) {
    a.(rdi := b.rdi, cmra := b.cmra) == b
  }

  /** The result of one attempt: the address is done with, or the attempt
      met a transient error and the credential has been invalidated. */
  datatype AttemptResult = Done(pool: Pool, fate: Fate) | Retry(pool: Pool)

  /** One pass of the retry loop's body without its wait: get a
      credential, call the provider, classify the result. The attempt
      keeps the quota, never moves the cursor back and only appends to the
      credential list. */
  function Attempt(p: Pool, addr: Address, j: nat, a: nat, env: Env): (s: AttemptResult)
    requires ValidPool(p)
    ensures ValidPool(s.pool)
    ensures s.pool.maxUsage == p.maxUsage && p.current <= s.pool.current && p.credentials <= s.pool.credentials
  {
    var q := AcquirePool(p, env.prompt(j, a));
    if Refused(p, env.prompt(j, a)) then Done(q, Exhausted(addr))
    else
      match env.provider(j, a)
      case Validated(cmra, rdi) => Done(q, Enriched(addr.(cmra := cmra, rdi := rdi)))
      case ErrUnknownAddress => Done(q, Unknown(addr))
      case OtherError => Retry(Invalidated(q))
  }

  /** The retry loop for address `addr` (job `j`) from attempt `a` on. */
  function TryAddress(p: Pool, addr: Address, j: nat, a: nat, env: Env): (t: Trial)
    requires ValidPool(p)
    ensures ValidPool(t.pool)
    decreases MaxRetries + 1 - a
  {
    if a > MaxRetries then Trial(p, Dropped(addr), a, 0, 0, [])
    else
      var wait := if a > 0 then [Backoff(a)] else [];
      match Attempt(p, addr, j, a, env)
      case Done(q, fate) => Trial(q, fate, a, 1, 0, wait)
      case Retry(q) => Shift(TryAddress(q, addr, j, a + 1, env), 1, wait)
  }

  /** `t` is what the retry loop from attempt `a` on produces. */
  ghost predicate IsTrial(t: Trial, p: Pool, addr: Address, j: nat, a: nat, env: Env) {
    ValidPool(p) && t == TryAddress(p, addr, j, a, env)
  }

  /** The unfolding of `TryAddress` at an attempt that is made. */
  lemma TryAddressStep(p: Pool, addr: Address, j: nat, a: nat, env: Env, t: Trial)
    requires ValidPool(p) && a <= MaxRetries
    requires IsTrial(t, p, addr, j, a, env)
    ensures var s := Attempt(p, addr, j, a, env);
            var wait := if a > 0 then [Backoff(a)] else [];
            t == if s.Done? then Trial(s.pool, s.fate, a, 1, 0, wait)
                 else Shift(TryAddress(s.pool, addr, j, a + 1, env), 1, wait)
  {
  }

  lemma PrefixTransitive<T>(a: seq<T>, b: seq<T>, c: seq<T>)
    requires a <= b && b <= c
    ensures a <= c
  {
    assert c[..|a|] == b[..|a|];
  }

  /** So does the whole retry loop. Here and in the lemmas below, `t` names
      the loop's result `TryAddress(p, addr, j, a, env)`. */
  lemma {:induction false} TryAddressPool(p: Pool, addr: Address, j: nat, a: nat, env: Env, t: Trial)
    requires ValidPool(p)
    requires t == TryAddress(p, addr, j, a, env)
    ensures t.pool.maxUsage == p.maxUsage && p.current <= t.pool.current && p.credentials <= t.pool.credentials
    decreases MaxRetries + 1 - a
  {
    if a <= MaxRetries {
      var s := Attempt(p, addr, j, a, env);
      if s.Retry? {
        TryAddressPool(s.pool, addr, j, a + 1, env, TryAddress(s.pool, addr, j, a + 1, env));
        PrefixTransitive(p.credentials, s.pool.credentials, t.pool.credentials);
      }
    }
  }

  /** The address that comes out is the one that went in, with at most the
      two enrichment fields changed, and those only when it is enriched. */
  lemma {:induction false} TryAddressListing(p: Pool, addr: Address, j: nat, a: nat, env: Env, t: Trial)
    requires ValidPool(p)
    requires t == TryAddress(p, addr, j, a, env)
    ensures SameListing(t.fate.addr, addr) && (!t.fate.Enriched? ==> t.fate.addr == addr)
    decreases MaxRetries + 1 - a
  {
    if a <= MaxRetries {
      var s := Attempt(p, addr, j, a, env);
      if s.Retry? {
        TryAddressListing(s.pool, addr, j, a + 1, env, TryAddress(s.pool, addr, j, a + 1, env));
      }
    }
  }

  /** The loop ends at an attempt it made, or after the last one; it runs
      to the end exactly when the address is dropped. */
  lemma {:induction false} ExitRange(p: Pool, addr: Address, j: nat, a: nat, env: Env, t: Trial)
    requires ValidPool(p) && a <= MaxRetries + 1
    requires t == TryAddress(p, addr, j, a, env)
    ensures a <= t.exit <= MaxRetries + 1 && (t.fate.Dropped? <==> t.exit == MaxRetries + 1)
    decreases MaxRetries + 1 - a
  {
    if a <= MaxRetries {
      var s := Attempt(p, addr, j, a, env);
      if s.Retry? {
        ExitRange(s.pool, addr, j, a + 1, env, TryAddress(s.pool, addr, j, a + 1, env));
      }
    }
  }

  /** One `GetCredentials` call per attempt made, one `InvalidateCurrent`
      call per attempt that met a transient error. */
  lemma {:induction false} CallCounts(p: Pool, addr: Address, j: nat, a: nat, env: Env, t: Trial)
    requires ValidPool(p) && a <= MaxRetries + 1
    requires t == TryAddress(p, addr, j, a, env)
    ensures t.invalidations + a == t.exit
    ensures t.attempts == if t.fate.Dropped? then t.invalidations else t.invalidations + 1
    decreases MaxRetries + 1 - a
  {
    if a <= MaxRetries {
      var s := Attempt(p, addr, j, a, env);
      if s.Retry? {
        CallCounts(s.pool, addr, j, a + 1, env, TryAddress(s.pool, addr, j, a + 1, env));
      }
    }
  }

  /** At most `MaxRetries + 1` attempts per address, at least one, and a
      dropped address used up all of them, each ending in an invalidation. */
  lemma AttemptsBound(p: Pool, addr: Address, j: nat, env: Env, t: Trial)
    requires ValidPool(p)
    requires t == TryAddress(p, addr, j, 0, env)
    ensures 1 <= t.attempts <= MaxRetries + 1
    ensures t.fate.Dropped? ==> t.attempts == t.invalidations == MaxRetries + 1
  {
    ExitRange(p, addr, j, 0, env, t);
    CallCounts(p, addr, j, 0, env, t);
  }

  /** The waits before `n` consecutive attempts starting at attempt `a`. */
  function Schedule(a: nat, n: nat): (w: seq<nat>)
    requires 1 <= a
    ensures |w| == n && forall i :: 0 <= i < n ==> InitialBackoff <= w[i]
    decreases n
  {
    if n == 0 then [] else [Backoff(a)] + Schedule(a + 1, n - 1)
  }

  /** The i-th wait of a schedule from attempt `a` is `Backoff(a + i)`. */
  lemma {:induction false} ScheduleAt(a: nat, n: nat, i: nat)
    requires 1 <= a && i < n
    ensures Schedule(a, n)[i] == Backoff(a + i)
    decreases n
  {
    if i > 0 {
      ScheduleAt(a + 1, n - 1, i - 1);
    }
  }

  /** From attempt `a >= 1` on, the loop sleeps once before each attempt it
      makes, following the schedule from `a`. */
  lemma {:induction false} SleepsFrom(p: Pool, addr: Address, j: nat, a: nat, env: Env, t: Trial)
    requires ValidPool(p) && 1 <= a
    requires t == TryAddress(p, addr, j, a, env)
    ensures t.sleeps == Schedule(a, t.attempts)
    decreases MaxRetries + 1 - a
  {
    if a <= MaxRetries {
      var s := Attempt(p, addr, j, a, env);
      if s.Retry? {
        SleepsFrom(s.pool, addr, j, a + 1, env, TryAddress(s.pool, addr, j, a + 1, env));
      } else {
        assert Schedule(a, 1) == [Backoff(a)] + [];
      }
    }
  }

  /** The schedule from the first retry: `InitialBackoff * 2^i` before
      retry `i + 1`, which is 2 s, 4 s, 8 s and 16 s for the four retries. */
  lemma ScheduleValues(n: nat)
    ensures forall i :: 0 <= i < n ==> Schedule(1, n)[i] == InitialBackoff * Pow2(i)
    ensures Schedule(1, MaxRetries) == [2000, 4000, 8000, 16000]
  {
    forall i | 0 <= i < n ensures Schedule(1, n)[i] == InitialBackoff * Pow2(i) {
      ScheduleAt(1, n, i);
    }
    assert Pow2(3) == 8 by {
      assert Pow2(2) == 4 by { assert Pow2(1) == 2; }
    }
    assert Schedule(1, MaxRetries) == [Backoff(1)] + Schedule(2, 3);
    assert Schedule(2, 3) == [Backoff(2)] + Schedule(3, 2);
    assert Schedule(3, 2) == [Backoff(3)] + Schedule(4, 1);
    assert Schedule(4, 1) == [Backoff(4)] + [];
  }

  /** No wait before the first attempt, then one wait per retry following
      the schedule from the first retry. */
  lemma BackoffSchedule(p: Pool, addr: Address, j: nat, env: Env, t: Trial)
    requires ValidPool(p)
    requires t == TryAddress(p, addr, j, 0, env)
    ensures |t.sleeps| + 1 == t.attempts
    ensures t.sleeps == Schedule(1, |t.sleeps|)
  {
    var s := Attempt(p, addr, j, 0, env);
    if s.Retry? {
      var r := TryAddress(s.pool, addr, j, 1, env);
      SleepsFrom(s.pool, addr, j, 1, env, r);
      assert t.sleeps == [] + r.sleeps;
    }
  }

  /** The provider answered job `j` with a transient error at every
      attempt from `a` up to, not including, `b`. */
  ghost predicate TransientBetween(env: Env, j: nat, a: nat, b: nat) {
    forall k :: a <= k < b ==> env.provider(j, k) == OtherError
  }

  lemma TransientBetweenCons(env: Env, j: nat, a: nat, b: nat)
    requires env.provider(j, a) == OtherError && TransientBetween(env, j, a + 1, b)
    ensures TransientBetween(env, j, a, b)
  {
  }

  /** Every attempt before the one the loop ended at met a transient error. */
  lemma {:induction false} RetriesOnlyOnTransient(p: Pool, addr: Address, j: nat, a: nat, env: Env, t: Trial)
    requires ValidPool(p) && a <= MaxRetries + 1
    requires t == TryAddress(p, addr, j, a, env)
    ensures TransientBetween(env, j, a, t.exit)
    decreases MaxRetries + 1 - a
  {
    if a <= MaxRetries {
      var s := Attempt(p, addr, j, a, env);
      if s.Retry? {
        RetriesOnlyOnTransient(s.pool, addr, j, a + 1, env, TryAddress(s.pool, addr, j, a + 1, env));
        TransientBetweenCons(env, j, a, t.exit);
      }
    }
  }

  /** An address is dropped only when every one of its attempts met a
      transient error. */
  lemma DroppedOnlyOnTransient(p: Pool, addr: Address, j: nat, env: Env, t: Trial)
    requires ValidPool(p)
    requires t == TryAddress(p, addr, j, 0, env) && t.fate.Dropped?
    ensures forall k: nat :: k <= MaxRetries ==> env.provider(j, k) == OtherError
  {
    ExitRange(p, addr, j, 0, env, t);
    RetriesOnlyOnTransient(p, addr, j, 0, env, t);
  }

  /** An enriched address carries the provider's codes from the attempt the
      loop ended at. */
  lemma {:induction false} EnrichedCause(p: Pool, addr: Address, j: nat, a: nat, env: Env, t: Trial)
    requires ValidPool(p) && a <= MaxRetries + 1
    requires t == TryAddress(p, addr, j, a, env)
    ensures t.fate.Enriched? ==>
              var r := env.provider(j, t.exit);
              r.Validated? && t.fate.addr == addr.(cmra := r.cmra, rdi := r.rdi)
    decreases MaxRetries + 1 - a
  {
    if a <= MaxRetries {
      var s := Attempt(p, addr, j, a, env);
      if s.Retry? {
        EnrichedCause(s.pool, addr, j, a + 1, env, TryAddress(s.pool, addr, j, a + 1, env));
      }
    }
  }

  /** An unknown address met `ErrUnknownAddress` at the attempt the loop
      ended at. */
  lemma {:induction false} UnknownCause(p: Pool, addr: Address, j: nat, a: nat, env: Env, t: Trial)
    requires ValidPool(p) && a <= MaxRetries + 1
    requires t == TryAddress(p, addr, j, a, env)
    ensures t.fate.Unknown? ==> env.provider(j, t.exit) == ErrUnknownAddress
    decreases MaxRetries + 1 - a
  {
    if a <= MaxRetries {
      var s := Attempt(p, addr, j, a, env);
      if s.Retry? {
        UnknownCause(s.pool, addr, j, a + 1, env, TryAddress(s.pool, addr, j, a + 1, env));
      }
    }
  }

  /** An exhausted address found the pool used up at the attempt the loop
      ended at: the cursor past the end with a zero count, and the prompt
      empty. */
  lemma {:induction false} ExhaustedCause(p: Pool, addr: Address, j: nat, a: nat, env: Env, t: Trial)
    requires ValidPool(p) && a <= MaxRetries + 1
    requires t == TryAddress(p, addr, j, a, env)
    ensures t.fate.Exhausted? ==>
              && env.prompt(j, t.exit) == []
              && t.pool.current == |t.pool.credentials| && t.pool.usageCount == 0
    decreases MaxRetries + 1 - a
  {
    if a <= MaxRetries {
      var s := Attempt(p, addr, j, a, env);
      if s.Retry? {
        ExhaustedCause(s.pool, addr, j, a + 1, env, TryAddress(s.pool, addr, j, a + 1, env));
      }
    }
  }

  /** Conversely, an address whose every call meets a transient error while
      the prompt never refuses is dropped after one invalidation per
      attempt. */
  lemma {:induction false} PersistentFailureDropped(p: Pool, addr: Address, j: nat, a: nat, env: Env, t: Trial)
    requires ValidPool(p) && a <= MaxRetries + 1
    requires forall k :: a <= k <= MaxRetries ==> env.provider(j, k) == OtherError && env.prompt(j, k) != []
    requires t == TryAddress(p, addr, j, a, env)
    ensures t.fate == Dropped(addr) && t.invalidations == MaxRetries + 1 - a
    decreases MaxRetries + 1 - a
  {
    if a <= MaxRetries {
      var s := Attempt(p, addr, j, a, env);
      assert s.Retry?;
      PersistentFailureDropped(s.pool, addr, j, a + 1, env, TryAddress(s.pool, addr, j, a + 1, env));
    }
  }

  /** An unknown address on the first attempt costs one `GetCredentials`
      and nothing else: no retry, no invalidation. */
  lemma UnknownFirstAttempt(p: Pool, addr: Address, j: nat, env: Env, t: Trial)
    requires ValidPool(p)
    requires env.provider(j, 0) == ErrUnknownAddress
    requires t == TryAddress(p, addr, j, 0, env)
    ensures t.fate == Unknown(addr) || t.fate == Exhausted(addr)
    ensures t.attempts == 1 && t.invalidations == 0 && t.sleeps == []
    ensures t.pool == AcquirePool(p, env.prompt(j, 0))
  {
  }

  // ---------------------------------------------------------------------
  // The worker over its jobs.
  // ---------------------------------------------------------------------

  /** A worker's run: the manager state after it and one trial per job it
      took from the queue, in dequeue order. */
  datatype Run = Run(pool: Pool, trials: seq<Trial>)

  /** The run of earlier trials followed by the run `w`. */
  function Glue(earlier: seq<Trial>, w: Run): Run {
    Run(w.pool, earlier + w.trials)
  }

  /** The outer loop from job `j` on: stop after an address that found the
      pool exhausted, otherwise go on to the next job. */
  function Work(p: Pool, jobs: seq<Address>, j: nat, env: Env): (w: Run)
    requires ValidPool(p) && j <= |jobs|
    ensures ValidPool(w.pool) && |w.trials| <= |jobs| - j
    decreases |jobs| - j
  {
    if j == |jobs| then Run(p, [])
    else
      var t := TryAddress(p, jobs[j], j, 0, env);
      if t.fate.Exhausted? then Run(t.pool, [t])
      else Glue([t], Work(t.pool, jobs, j + 1, env))
  }

  /** The unfolding of `Work` at a job that is taken. */
  lemma WorkUnfold(p: Pool, jobs: seq<Address>, j: nat, env: Env, w: Run)
    requires ValidPool(p) && j < |jobs|
    requires w == Work(p, jobs, j, env)
    ensures var t := TryAddress(p, jobs[j], j, 0, env);
            w == if t.fate.Exhausted? then Run(t.pool, [t]) else Glue([t], Work(t.pool, jobs, j + 1, env))
  {
  }

  lemma GlueGlue(a: seq<Trial>, b: seq<Trial>, w: Run)
    ensures Glue(a, Glue(b, w)) == Glue(a + b, w)
  {
    assert a + (b + w.trials) == (a + b) + w.trials;
  }

  /** What the worker sends to `results`, in order: each trial in turn
      adds its address when it was enriched. */
  function Results(ts: seq<Trial>): seq<Address> {
    if ts == [] then []
    else
      var t := ts[|ts| - 1];
      Results(ts[..|ts| - 1]) + (if t.fate.Enriched? then [t.fate.addr] else [])
  }

  /** What the worker sends to `failedJobs`, in order. */
  function Failed(ts: seq<Trial>): seq<Address> {
    if ts == [] then []
    else
      var t := ts[|ts| - 1];
      Failed(ts[..|ts| - 1]) + (if t.fate.Unknown? || t.fate.Exhausted? then [t.fate.addr] else [])
  }

  /** The addresses given up after the last retry (logged only). */
  function DroppedAddresses(ts: seq<Trial>): seq<Address> {
    if ts == [] then []
    else
      var t := ts[|ts| - 1];
      DroppedAddresses(ts[..|ts| - 1]) + (if t.fate.Dropped? then [t.fate.addr] else [])
  }

  /** Routing one more trial appends its address to the list it belongs on. */
  lemma ResultsSnoc(ts: seq<Trial>, t: Trial)
    ensures Results(ts + [t]) == Results(ts) + (if t.fate.Enriched? then [t.fate.addr] else [])
  {
    assert (ts + [t])[..|ts|] == ts;
  }

  lemma FailedSnoc(ts: seq<Trial>, t: Trial)
    ensures Failed(ts + [t]) == Failed(ts) + (if t.fate.Unknown? || t.fate.Exhausted? then [t.fate.addr] else [])
  {
    assert (ts + [t])[..|ts|] == ts;
  }

  /** An address is sent to `results` exactly when some trial enriched it. */
  lemma {:induction false} ResultsMembers(ts: seq<Trial>, a: Address)
    ensures a in Results(ts) <==> exists i :: 0 <= i < |ts| && ts[i].fate == Enriched(a)
  {
    if ts != [] {
      var init := ts[..|ts| - 1];
      ResultsMembers(init, a);
      if i :| 0 <= i < |ts| && ts[i].fate == Enriched(a) {
        if i < |init| {
          assert init[i] == ts[i];
        }
      }
      if a in Results(init) {
        var i :| 0 <= i < |init| && init[i].fate == Enriched(a);
        assert ts[i] == init[i];
      }
    }
  }

  /** An address is sent to `failedJobs` exactly when some trial found it
      unknown or found the pool exhausted. */
  lemma {:induction false} FailedMembers(ts: seq<Trial>, a: Address)
    ensures a in Failed(ts) <==>
            exists i :: 0 <= i < |ts| && (ts[i].fate == Unknown(a) || ts[i].fate == Exhausted(a))
  {
    if ts != [] {
      var init := ts[..|ts| - 1];
      FailedMembers(init, a);
      if i :| 0 <= i < |ts| && (ts[i].fate == Unknown(a) || ts[i].fate == Exhausted(a)) {
        if i < |init| {
          assert init[i] == ts[i];
        }
      }
      if a in Failed(init) {
        var i :| 0 <= i < |init| && (init[i].fate == Unknown(a) || init[i].fate == Exhausted(a));
        assert ts[i] == init[i];
      }
    }
  }

  /** Each address the worker takes ends in exactly one place: on
      `results`, on `failedJobs`, or among the dropped ones. */
  lemma {:induction false} RoutingPartition(ts: seq<Trial>)
    ensures |Results(ts)| + |Failed(ts)| + |DroppedAddresses(ts)| == |ts|
  {
    if ts != [] {
      RoutingPartition(ts[..|ts| - 1]);
    }
  }

  /** The trials `ts` are those of the jobs from position `j` on, in order. */
  ghost predicate InOrder(ts: seq<Trial>, jobs: seq<Address>, j: nat) {
    j + |ts| <= |jobs| && forall i :: 0 <= i < |ts| ==> SameListing(ts[i].fate.addr, jobs[j + i])
  }

  lemma InOrderCons(t: Trial, ts: seq<Trial>, jobs: seq<Address>, j: nat)
    requires j < |jobs| && SameListing(t.fate.addr, jobs[j]) && InOrder(ts, jobs, j + 1)
    ensures InOrder([t] + ts, jobs, j)
  {
    var r := [t] + ts;
    forall i | 0 <= i < |r| ensures SameListing(r[i].fate.addr, jobs[j + i]) {
      if i > 0 {
        assert r[i] == ts[i - 1] && j + i == (j + 1) + (i - 1);
      }
    }
  }

  /** The worker handles its jobs in dequeue order, one trial per job. */
  lemma {:induction false} WorkInOrder(p: Pool, jobs: seq<Address>, j: nat, env: Env, w: Run)
    requires ValidPool(p) && j <= |jobs|
    requires w == Work(p, jobs, j, env)
    ensures InOrder(w.trials, jobs, j)
    decreases |jobs| - j
  {
    if j < |jobs| {
      var t := TryAddress(p, jobs[j], j, 0, env);
      TryAddressListing(p, jobs[j], j, 0, env, t);
      if t.fate.Exhausted? {
        InOrderCons(t, [], jobs, j);
        assert [t] + [] == [t];
      } else {
        var rest := Work(t.pool, jobs, j + 1, env);
        WorkInOrder(t.pool, jobs, j + 1, env, rest);
        InOrderCons(t, rest.trials, jobs, j);
      }
    }
  }

  /** Only the last of the trials `ts` may have found the pool exhausted. */
  ghost predicate ExhaustedOnlyLast(ts: seq<Trial>) {
    forall i :: 0 <= i < |ts| - 1 ==> !ts[i].fate.Exhausted?
  }

  lemma ExhaustedOnlyLastCons(t: Trial, ts: seq<Trial>)
    requires !t.fate.Exhausted? && ExhaustedOnlyLast(ts)
    ensures ExhaustedOnlyLast([t] + ts)
  {
    var r := [t] + ts;
    forall i | 0 <= i < |r| - 1 ensures !r[i].fate.Exhausted? {
      if i > 0 {
        assert r[i] == ts[i - 1];
      }
    }
  }

  /** The worker takes every job unless an address found the pool
      exhausted, and that address is then the last one it took. */
  lemma {:induction false} WorkStopsOnlyWhenExhausted(p: Pool, jobs: seq<Address>, j: nat, env: Env, w: Run)
    requires ValidPool(p) && j <= |jobs|
    requires w == Work(p, jobs, j, env)
    ensures ExhaustedOnlyLast(w.trials)
    ensures |w.trials| == |jobs| - j || (|w.trials| > 0 && w.trials[|w.trials| - 1].fate.Exhausted?)
    decreases |jobs| - j
  {
    if j < |jobs| {
      var t := TryAddress(p, jobs[j], j, 0, env);
      if !t.fate.Exhausted? {
        var rest := Work(t.pool, jobs, j + 1, env);
        WorkStopsOnlyWhenExhausted(t.pool, jobs, j + 1, env, rest);
        ExhaustedOnlyLastCons(t, rest.trials);
        assert w.trials == [t] + rest.trials;
      }
    }
  }

  // ---------------------------------------------------------------------
  // The imperative worker.
  // ---------------------------------------------------------------------

  /** One pass of the retry loop's body after its wait: get a credential,
      call the provider, and classify the result, invalidating the
      credential on a transient error. The fate is `None` when the loop is
      to go on. */
  method TryOnce(m: APIManager, addr: Address, j: nat, attempt: nat, env: Env) returns (fate: Option<Fate>)
    requires m.Valid()
    modifies m
    ensures m.Valid()
    ensures var s := Attempt(old(m.State()), addr, j, attempt, env);
            m.State() == s.pool && (fate.Some? <==> s.Done?) && (fate.Some? ==> fate.value == s.fate)
  {
    var cred, ok := m.GetCredentials(env.prompt(j, attempt));
    if !ok {
      return Some(Exhausted(addr));
    }
    var reply := env.provider(j, attempt);  // SmartyInfo
    match reply {
      case Validated(cmra, rdi) =>
        return Some(Enriched(addr.(cmra := cmra, rdi := rdi)));
      case ErrUnknownAddress =>
        return Some(Unknown(addr));
      case OtherError =>
    }
    m.InvalidateCurrent();
    fate := None;
  }

  /** The retry loop stands at attempt `a` with pool `p` and has slept
      `slept`: `t`, the loop from the start, ends with the fate and pool of
      the loop from here on, and its waits are `slept` followed by those
      still to come. */
  ghost predicate Pending(t: Trial, p: Pool, addr: Address, j: nat, a: nat, env: Env, slept: seq<nat>) {
    && ValidPool(p) && a <= MaxRetries + 1
    && var r := TryAddress(p, addr, j, a, env);
       t.fate == r.fate && t.pool == r.pool && t.sleeps == slept + r.sleeps
  }

  lemma PendingStart(t: Trial, p: Pool, addr: Address, j: nat, env: Env)
    requires ValidPool(p) && t == TryAddress(p, addr, j, 0, env)
    ensures Pending(t, p, addr, j, 0, env, [])
  {
    assert [] + t.sleeps == t.sleeps;
  }

  /** An attempt that settles the address ends the retry loop, after the
      wait before it. */
  lemma PendingDone(t: Trial, p: Pool, addr: Address, j: nat, a: nat, env: Env, slept: seq<nat>, slept': seq<nat>)
    requires a <= MaxRetries && Pending(t, p, addr, j, a, env, slept)
    requires Attempt(p, addr, j, a, env).Done?
    requires slept' == slept + (if a > 0 then [Backoff(a)] else [])
    ensures t.fate == Attempt(p, addr, j, a, env).fate && t.pool == Attempt(p, addr, j, a, env).pool
    ensures t.sleeps == slept'
  {
    TryAddressStep(p, addr, j, a, env, TryAddress(p, addr, j, a, env));
  }

  /** After a transient failure at attempt `a`, which left the pool `q`, the
      loop goes on at attempt `a + 1`. */
  lemma PendingRetry(t: Trial, p: Pool, q: Pool, addr: Address, j: nat, a: nat, env: Env, slept: seq<nat>, slept': seq<nat>)
    requires a <= MaxRetries && Pending(t, p, addr, j, a, env, slept)
    requires Attempt(p, addr, j, a, env).Retry? && q == Attempt(p, addr, j, a, env).pool
    requires slept' == slept + (if a > 0 then [Backoff(a)] else [])
    ensures Pending(t, q, addr, j, a + 1, env, slept')
  {
    TryAddressStep(p, addr, j, a, env, TryAddress(p, addr, j, a, env));
    var wait := if a > 0 then [Backoff(a)] else [];
    var r := TryAddress(q, addr, j, a + 1, env);
    assert slept + (wait + r.sleeps) == (slept + wait) + r.sleeps;
  }

  /** Past the last attempt the address is dropped. */
  lemma PendingEnd(t: Trial, p: Pool, addr: Address, j: nat, env: Env, slept: seq<nat>)
    requires Pending(t, p, addr, j, MaxRetries + 1, env, slept)
    ensures t.fate == Dropped(addr) && t.pool == p && t.sleeps == slept
  {
    assert slept + [] == slept;
  }

  /** The retry loop of `smartyWorker` for one address. `slept` logs the
      waits, in milliseconds. */
  method AttemptAddress(m: APIManager, addr: Address, j: nat, env: Env)
    returns (fate: Fate, ghost slept: seq<nat>, ghost t: Trial)
    requires m.Valid()
    modifies m
    ensures m.Valid()
    ensures IsTrial(t, old(m.State()), addr, j, 0, env)
    ensures fate == t.fate && m.State() == t.pool && slept == t.sleeps
  {
    t := TryAddress(m.State(), addr, j, 0, env);
    slept := [];
    PendingStart(t, m.State(), addr, j, env);
    var attempt := 0;
    while attempt <= MaxRetries
      invariant m.Valid() && Pending(t, m.State(), addr, j, attempt, env, slept)
    {
      ghost var p, before := m.State(), slept;
      if attempt > 0 {
        var backoffDuration := Backoff(attempt);
        slept := slept + [backoffDuration];  // time.Sleep(backoffDuration)
      }
      var settled := TryOnce(m, addr, j, attempt, env);
      if settled.Some? {
        PendingDone(t, p, addr, j, attempt, env, before, slept);
        fate := settled.value;
        return;
      }
      PendingRetry(t, p, m.State(), addr, j, attempt, env, before, slept);
      attempt := attempt + 1;
    }
    PendingEnd(t, m.State(), addr, j, env, slept);
    fate := Dropped(addr);
  }

  /** `w` is what the outer loop from job `j` on produces. */
  ghost predicate IsRun(w: Run, p: Pool, jobs: seq<Address>, j: nat, env: Env) {
    ValidPool(p) && j <= |jobs| && w == Work(p, jobs, j, env)
  }

  /** One job taken: an address that found the pool exhausted is the last
      one, otherwise the worker goes on with the next job. */
  lemma WorkStep(p: Pool, jobs: seq<Address>, j: nat, env: Env, rest: Run, t: Trial) returns (next: Run)
    requires j < |jobs| && IsRun(rest, p, jobs, j, env) && IsTrial(t, p, jobs[j], j, 0, env)
    ensures t.fate.Exhausted? ==> rest == Run(t.pool, [t])
    ensures !t.fate.Exhausted? ==> IsRun(next, t.pool, jobs, j + 1, env) && rest == Glue([t], next)
  {
    WorkUnfold(p, jobs, j, env, rest);
    next := if t.fate.Exhausted? then rest else Work(t.pool, jobs, j + 1, env);
  }

  /** With no job left the run is over. */
  lemma WorkEnd(p: Pool, jobs: seq<Address>, env: Env, rest: Run)
    requires IsRun(rest, p, jobs, |jobs|, env)
    ensures rest == Run(p, [])
  {
  }

  /** `smartyWorker`: take jobs in order, route each address by its fate,
      and stop after sending an address that found the pool exhausted.
      `consumed` is the number of jobs taken from the queue. */
  method SmartyWorker(m: APIManager, jobs: seq<Address>, env: Env)
    returns (results: seq<Address>, failed: seq<Address>, consumed: nat, ghost trials: seq<Trial>)
    requires m.Valid()
    modifies m
    ensures m.Valid()
    ensures Run(m.State(), trials) == Work(old(m.State()), jobs, 0, env)
    ensures consumed == |trials|
    ensures results == Results(trials) && failed == Failed(trials)
  {
    ghost var w0 := Work(m.State(), jobs, 0, env);
    ghost var rest := w0;
    results, failed, consumed, trials := [], [], 0, [];
    assert w0 == Glue(trials, rest);
    while consumed < |jobs|
      invariant consumed <= |jobs| && |trials| == consumed && m.Valid()
      invariant IsRun(rest, m.State(), jobs, consumed, env)
      invariant w0 == Glue(trials, rest)
      invariant results == Results(trials) && failed == Failed(trials)
    {
      var addr := jobs[consumed];
      ghost var p := m.State();
      var fate, _, t := AttemptAddress(m, addr, consumed, env);
      ghost var next := WorkStep(p, jobs, consumed, env, rest, t);
      ResultsSnoc(trials, t);
      FailedSnoc(trials, t);
      match fate {
        case Enriched(a) =>
          results := results + [a];
        case Unknown(a) =>
          failed := failed + [a];
        case Exhausted(a) =>
          failed := failed + [a];
          consumed, trials := consumed + 1, trials + [t];
          return;
        case Dropped(_) =>
      }
      GlueGlue(trials, [t], next);
      consumed, trials, rest := consumed + 1, trials + [t], next;
    }
    WorkEnd(m.State(), jobs, env, rest);
  }
}
