/** The credential pool of api_manager.go: a list of provider credentials,
    a cursor on the one in use and the number of calls it has served.

    The pure functions over `Pool` are the specification; the class
    `APIManager` holds the same fields as the Go struct and its methods are
    proved to follow the functions. The mutex of the Go struct is not
    modelled: each method is one atomic step. */
module ApiManager {
  import opened Optional

  /** An authorisation pair for the address-validation provider. */
  datatype ApiCredential = ApiCredential(authId: string, authToken: string)

  /** The quota every new manager gets: calls served by one credential before rotation. */
  const MaxUsage: nat := 1000

  /** The manager's fields as a value. */
  datatype Pool = Pool(credentials: seq<ApiCredential>, current: nat, usageCount: nat, maxUsage: nat)

  /** What every reachable manager state satisfies: the cursor is at most one
      past the end, the count never exceeds the quota, and a cursor past the
      end (the pool is exhausted) has a zero count. */
  ghost predicate ValidPool(p: Pool) {
    && 1 <= p.maxUsage
    && p.current <= |p.credentials|
    && p.usageCount <= p.maxUsage
    && (p.current == |p.credentials| ==> p.usageCount == 0)
  }

  /** `rotate`: next credential, count restarted, the list and the quota
      untouched; from a credential in the list it keeps the invariant. */
  function Rotated(p: Pool): (r: Pool)
    ensures r.current == p.current + 1 && r.usageCount == 0
    ensures r.credentials == p.credentials && r.maxUsage == p.maxUsage
    ensures ValidPool(p) && p.current < |p.credentials| ==> ValidPool(r)
  {
    p.(current := p.current + 1, usageCount := 0)
  }

  /** The condition under which `GetCredentials` rotates before serving. */
  predicate QuotaReached(p: Pool) {
    p.usageCount >= p.maxUsage && p.current < |p.credentials|
  }

  /** The state after the quota check at the head of `GetCredentials`:
      the credential under the cursor, if any, has quota left. */
  function AfterQuotaCheck(p: Pool): (q: Pool)
    ensures q.credentials == p.credentials && q.maxUsage == p.maxUsage
    ensures ValidPool(p) ==> ValidPool(q) && (q.current < |q.credentials| ==> q.usageCount < q.maxUsage)
  {
    if QuotaReached(p) then Rotated(p) else p
  }

  /** `GetCredentials` has to ask the user for more credentials. */
  predicate MustReplenish(p: Pool) {
    AfterQuotaCheck(p).current >= |p.credentials|
  }

  /** The new state and, unless the pool is exhausted, the credential served. */
  datatype Grant = Grant(pool: Pool, cred: Option<ApiCredential>)

  /** `GetCredentials` finds the pool exhausted: the cursor is past the end
      after the quota check and the user prompt gave nothing. */
  predicate Refused(p: Pool, reply: seq<ApiCredential>) {
    MustReplenish(p) && |reply| == 0
  }

  /** The state `GetCredentials` leaves behind, where `reply` is what the
      user prompt would return if it were asked now (it is asked only when
      the cursor is past the end). */
  function AcquirePool(p: Pool, reply: seq<ApiCredential>): (q: Pool)
    requires ValidPool(p)
    ensures ValidPool(q)
  {
    var q := AfterQuotaCheck(p);
    if q.current >= |q.credentials| then
      if |reply| == 0 then q
      else q.(credentials := q.credentials + reply, usageCount := q.usageCount + 1)
    else
      q.(usageCount := q.usageCount + 1)
  }

  /** `GetCredentials`: the new state and, unless the pool is exhausted, the
      credential under the cursor. */
  function Acquire(p: Pool, reply: seq<ApiCredential>): (g: Grant)
    requires ValidPool(p)
    ensures ValidPool(g.pool) && g.pool == AcquirePool(p, reply) && (g.cred.None? <==> Refused(p, reply))
  {
    var q := AcquirePool(p, reply);
    if Refused(p, reply) then Grant(q, None)
    else Grant(q, Some(q.credentials[q.current]))
  }

  /** What `GetCredentials` promises. */
  lemma AcquireSpec(p: Pool, reply: seq<ApiCredential>)
    requires ValidPool(p)
    ensures var g := Acquire(p, reply);
            && g.pool.maxUsage == p.maxUsage
            // the cursor moves forward by one exactly when the quota was reached
            && g.pool.current == (if QuotaReached(p) then p.current + 1 else p.current)
            // the existing credentials are kept, in order
            && p.credentials <= g.pool.credentials
            // exhaustion: the cursor is past the end and the prompt gave nothing
            && (g.cred.None? <==> MustReplenish(p) && reply == [])
            && (g.cred.None? ==> g.pool.credentials == p.credentials && g.pool.usageCount == 0)
            // replenishment appends the reply and serves its first credential
            && (MustReplenish(p) && reply != [] ==>
                  g.pool.credentials == p.credentials + reply && g.cred == Some(reply[0]))
            && (!MustReplenish(p) ==> g.pool.credentials == p.credentials)
            // a served credential is the one under the cursor, and it is counted once
            && (g.cred.Some? ==>
                  && g.pool.current < |g.pool.credentials|
                  && g.cred.value == g.pool.credentials[g.pool.current]
                  && g.pool.usageCount == AfterQuotaCheck(p).usageCount + 1)
  {
  }

  /** `InvalidateCurrent`: an unconditional rotation unless the cursor is
      already past the end. There is no check that the caller's view of the
      cursor is stale. */
  function Invalidated(p: Pool): (r: Pool)
    requires ValidPool(p)
    ensures ValidPool(r) && r.credentials == p.credentials && r.maxUsage == p.maxUsage
    ensures p.current < |p.credentials| ==> r.current == p.current + 1 && r.usageCount == 0
    ensures p.current >= |p.credentials| ==> r == p
  {
    if p.current >= |p.credentials| then p else Rotated(p)
  }

  /** One call on the manager, as workers make them one at a time under the mutex. */
  datatype Call = GetCredentialsCall(reply: seq<ApiCredential>) | InvalidateCall

  function Step(p: Pool, c: Call): (q: Pool)
    requires ValidPool(p)
    ensures ValidPool(q) && q.maxUsage == p.maxUsage
    ensures p.current <= q.current && p.credentials <= q.credentials
  {
    match c
    case GetCredentialsCall(reply) =>
      AcquireSpec(p, reply);
      Acquire(p, reply).pool
    case InvalidateCall => Invalidated(p)
  }

  /** The state after a whole history of calls, in order. */
  function History(p: Pool, calls: seq<Call>): (q: Pool)
    requires ValidPool(p)
    ensures ValidPool(q) && q.maxUsage == p.maxUsage
    ensures p.current <= q.current && p.credentials <= q.credentials
    decreases |calls|
  {
    if calls == [] then p
    else Step(History(p, calls[..|calls| - 1]), calls[|calls| - 1])
  }

  /** Along any history the cursor never goes back and the credential list
      only grows at its end: a later state extends every earlier one. */
  lemma {:induction false} HistoryMonotone(p: Pool, calls: seq<Call>, i: nat, k: nat)
    requires ValidPool(p) && i <= k <= |calls|
    ensures History(p, calls[..i]).current <= History(p, calls[..k]).current
    ensures History(p, calls[..i]).credentials <= History(p, calls[..k]).credentials
  {
    if i < k {
      HistoryMonotone(p, calls, i, k - 1);
      assert calls[..k][..k - 1] == calls[..k - 1];
    }
  }

  /** Two invalidations in a row skip two credentials: nothing merges a
      second invalidation of the same credential into the first. */
  lemma {:induction false} InvalidateTwiceSkipsTwo(p: Pool)
    requires ValidPool(p) && p.current + 2 <= |p.credentials|
    ensures Invalidated(Invalidated(p)).current == p.current + 2
  {
  }

  /** Three calls on a pool of one credential with a quota of two and a
      prompt that gives nothing: the first two are served by the credential,
      the third rotates past it and finds the pool exhausted. */
  lemma QuotaScenario(c: ApiCredential)
    ensures var g1 := Acquire(Pool([c], 0, 0, 2), []);
            var g2 := Acquire(g1.pool, []);
            var g3 := Acquire(g2.pool, []);
            && g1.cred == Some(c) && g2.cred == Some(c) && g3.cred == None
            && g3.pool == Pool([c], 1, 0, 2)
  {
  }

  /** The manager object of api_manager.go. */
  class APIManager {
    var credentials: seq<ApiCredential>
    var current: nat
    var usageCount: nat
    var maxUsage: nat

    ghost function State(): Pool
      reads this
    {
      Pool(credentials, current, usageCount, maxUsage)
    }

    ghost predicate Valid()
      reads this
    {
      ValidPool(State())
    }

    /** `NewAPIManager`. */
    constructor (credentials: seq<ApiCredential>)
      ensures Valid()
      ensures State() == Pool(credentials, 0, 0, MaxUsage)
    {
      this.credentials := credentials;
      current := 0;
      usageCount := 0;
      maxUsage := MaxUsage;
    }

    /** `GetCredentials`; `reply` stands for what the user prompt returns. */
    method GetCredentials(reply: seq<ApiCredential>) returns (cred: ApiCredential, ok: bool)
      requires Valid()
      modifies this
      ensures Valid()
      ensures var g := Acquire(old(State()), reply);
              State() == g.pool && (ok <==> g.cred.Some?) && (ok ==> cred == g.cred.value)
      ensures old(current) <= current && old(credentials) <= credentials
      ensures ok ==> current < |credentials| && cred == credentials[current]
      ensures !ok ==> credentials == old(credentials) && cred == ApiCredential("", "")
    {
      if usageCount >= maxUsage && current < |credentials| {
        Rotate();
      }
      if current >= |credentials| {
        var newCredentials := reply;
        if |newCredentials| == 0 {
          return ApiCredential("", ""), false;
        }
        credentials := credentials + newCredentials;
      }
      cred := credentials[current];
      usageCount := usageCount + 1;
      ok := true;
    }

    /** `InvalidateCurrent`. */
    method InvalidateCurrent()
      requires Valid()
      modifies this
      ensures Valid()
      ensures State() == Invalidated(old(State()))
    {
      if current >= |credentials| {
        return;
      }
      Rotate();
    }

    /** `rotate`: the caller holds the lock in the Go code. */
    method Rotate()
      modifies this
      ensures current == old(current) + 1 && usageCount == 0
      ensures credentials == old(credentials) && maxUsage == old(maxUsage)
    {
      current := current + 1;
      usageCount := 0;
    }

    /** `GetAllCredentials`: a copy of the list; nothing changes. */
    method GetAllCredentials() returns (creds: seq<ApiCredential>)
      ensures creds == credentials
    {
      creds := credentials;
    }
  }
}
