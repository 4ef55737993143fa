# atmb-us-non-cmra in Dafny

The program scrapes the mailbox locations of anytimemailbox.com. It then
enriches each address through an address-validation provider, whose answer
says whether the address is a commercial mail receiving agency (CMRA) and
whether it is residential or business (RDI). Provider calls are rate-limited
per credential, so the workers share a credential manager. The manager
rotates to the next credential when one reaches its quota or is rejected. It
asks the user for more credentials when the list runs out.

This project models three parts of the program:

- **Credential manager** (`api_manager.dfy`, module `ApiManager`): the
  `APIManager` of api_manager.go.
  - The pure functions over the `Pool` value are the specification:
    - `Acquire` for `GetCredentials`;
    - `Invalidated` for `InvalidateCurrent`;
    - `Step` and `History` for any sequence of calls.
  - The class `APIManager` has the Go struct's fields. Its methods are
    proved to follow those functions and to keep the pool invariant.
- **Enrichment worker** (`worker.dfy`, module `Worker`): `smartyWorker` of
  worker.go.
  - `TryAddress` specifies the retry loop for one address: up to five
    attempts, with exponential backoff between them.
  - `Work` specifies the worker over its queue of jobs.
  - The methods `TryOnce`, `AttemptAddress` and `SmartyWorker` are the loops
    themselves: `TryOnce` follows `Attempt`, `AttemptAddress` follows
    `TryAddress`, and `SmartyWorker` follows `Work`. The lemmas state the
    accounting:
    - attempts and invalidations;
    - the backoff schedule;
    - why each address ends where it does;
    - order, and stopping on exhaustion.
- **Scraping results** (`atmb.dfy`, module `Atmb`): the `Address` record,
  the de-duplication and sorting of state names in `getState`, and the
  record built per location card in `getStateDetail`.

`optional.dfy` holds the `Option` type.

Two things are outside the model and are replaced by an oracle, the `Env`
value:

- the user prompt that supplies new credentials;
- the provider.

`Env` answers by (job position, attempt number). Within one worker every
such pair is a distinct call, so any behaviour of the outside world is one
choice of `Env`. Sleeping is recorded as a ghost log of milliseconds.

The model follows the code, which behaves as follows in two places a reader
might not expect:

- `InvalidateCurrent` always advances the cursor when it is not past the
  end. It does not check whether the caller's view of the cursor is stale,
  so two invalidations of the same credential skip two credentials
  (`InvalidateTwiceSkipsTwo`).
- An address whose every attempt meets a transient error makes five
  attempts and five `InvalidateCurrent` calls, then is dropped with only a
  log line (`PersistentFailureDropped`, `AttemptsBound`). No fourth outcome
  is emitted for it.

The backoff before attempt `a` is `2 s * 2^(a-1)`, so the waits before the
four retries are 2, 4, 8 and 16 seconds (`ScheduleValues`).

## Model

| member | source | states |
|---|---|---|
| ApiManager.Rotated | api_manager.go:88-91 | Rotation advances the cursor by one and restarts the count, leaves the list and the quota alone, and keeps the pool invariant when the cursor was on a credential |
| ApiManager.AfterQuotaCheck | api_manager.go:45-49 | The quota check leaves the list and the quota alone, keeps the invariant, and afterwards the credential under the cursor, if any, has quota left |
| ApiManager.AcquirePool | api_manager.go:41-73 | The state after `GetCredentials` keeps the pool invariant: cursor at most one past the end, count within the quota, count zero when the pool is exhausted |
| ApiManager.Acquire | api_manager.go:41-73 | `GetCredentials` reports no credential exactly when the cursor is past the end after the quota check and the prompt returns nothing; the state it leaves is `AcquirePool`'s |
| ApiManager.AcquireSpec | api_manager.go:46-72 | Rotation happens exactly when the quota is reached; existing credentials stay a prefix; on exhaustion the list is unchanged and the count stays zero; a replenishment appends the prompt's credentials and serves the first new one; a served credential is `credentials[current]`, counted once; the quota never changes |
| ApiManager.Invalidated | api_manager.go:76-91 | Past the end nothing changes; otherwise the cursor advances by one and the count restarts; credentials and quota are untouched |
| ApiManager.Step | api_manager.go:41-91 | Every call keeps the invariant and the quota, never moves the cursor back, and only appends to the credential list |
| ApiManager.History | api_manager.go:41-91 | The same holds after any sequence of calls, as the mutex serialises them |
| ApiManager.HistoryMonotone | api_manager.go:41-91 | Along any history the cursor is monotone and each earlier credential list is a prefix of every later one |
| ApiManager.InvalidateTwiceSkipsTwo | api_manager.go:76-85 | Two invalidations in a row advance the cursor by two: there is no stale-cursor check |
| ApiManager.QuotaScenario | api_manager.go:41-73 | One credential with a quota of two and an empty prompt: the first two calls are served by it, the third rotates past it and reports exhaustion |
| ApiManager.APIManager.constructor | api_manager.go:29-36 | A new manager has the given credentials, cursor 0, count 0, quota 1000, and satisfies the invariant |
| ApiManager.APIManager.GetCredentials | api_manager.go:41-73 | The new state and the answer are those of `Acquire`; on success the credential is `credentials[current]`; on failure the list is unchanged and the credential is empty |
| ApiManager.APIManager.InvalidateCurrent | api_manager.go:76-85 | The new state is `Invalidated` of the old one |
| ApiManager.APIManager.Rotate | api_manager.go:88-91 | Advances the cursor by one and restarts the count, nothing else |
| ApiManager.APIManager.GetAllCredentials | api_manager.go:94-101 | Returns the credential list and changes nothing |
| Atmb.Less | atmb.go:67 | The string order `sort.Strings` uses never holds between equal strings, and a proper prefix comes before the longer string |
| Atmb.Insert | atmb.go:67 | Inserting into a list adds exactly that element: the result is a permutation of the list plus it |
| Atmb.InsertSorted | atmb.go:67 | Insertion keeps a list sorted |
| Atmb.SortStrings | atmb.go:67 | `sort.Strings` produces an ascending permutation of its input |
| Atmb.NoDuplicatesPermutation | atmb.go:62-67 | Sorting a list without duplicates leaves it without duplicates |
| Atmb.UniqueStates | atmb.go:57-67 | The state list has no duplicates, is strictly ascending, holds exactly the scraped names, and is no longer than the scraped list |
| Atmb.StrictlySortedUnique | atmb.go:62-67 | Two strictly ascending lists with the same elements are equal, so the result does not depend on the map's iteration order |
| Atmb.NewAddress | atmb.go:126-138 | A new record copies the card's fields, has link = site URL + the anchor's `href` (or + "" when absent), and has both RDI and CMRA "UNKNOWN" |
| Atmb.StateDetail | atmb.go:126-139 | One record per card, in order, each `NewAddress` of its card; every record has RDI and CMRA "UNKNOWN" and a link that starts with the site URL |
| Worker.Backoff | worker.go:15-31 | The wait before any retry is at least the initial backoff of two seconds |
| Worker.BackoffValues | worker.go:15-31 | Each backoff is twice the one before it |
| Worker.Attempt | worker.go:36-67 | One pass of the loop body keeps the pool invariant and the quota, never moves the cursor back, and only appends to the credential list |
| Worker.TryAddress | worker.go:28-73 | The retry loop for one address, from any attempt on, keeps the pool invariant; the lemmas below state its accounting, schedule and outcomes |
| Worker.TryAddressPool | worker.go:28-68 | The retry loop keeps the quota, never moves the cursor back, and only appends credentials |
| Worker.TryAddressListing | worker.go:47-60 | The address that comes out is the one that went in; only the RDI and CMRA fields may change, and only when it is enriched |
| Worker.ExitRange | worker.go:28-68 | The loop ends at an attempt it made or after the last one, and it runs to the end exactly when the address is dropped |
| Worker.CallCounts | worker.go:37-67 | One `InvalidateCurrent` per attempt that met a transient error, so the invalidations are the attempts before the one the loop ended at; one `GetCredentials` per attempt, so attempts are invalidations plus one, or equal to them when the address is dropped |
| Worker.AttemptsBound | worker.go:14-37 | An address gets between 1 and 5 attempts; a dropped one used all 5 and invalidated 5 times |
| Worker.Schedule | worker.go:28-34 | The waits before `n` consecutive attempts are `n` values, each at least two seconds |
| Worker.ScheduleAt | worker.go:29-34 | The i-th wait from attempt `a` on is the backoff of attempt `a + i` |
| Worker.SleepsFrom | worker.go:29-34 | From any attempt after the first, the loop sleeps once before each attempt it makes, following the backoff schedule |
| Worker.ScheduleValues | worker.go:15-31 | The i-th retry waits `2000 * 2^i` ms: 2000, 4000, 8000 and 16000 for the four retries |
| Worker.BackoffSchedule | worker.go:28-34 | No wait before the first attempt, then one wait per retry, following the schedule from the first retry |
| Worker.RetriesOnlyOnTransient | worker.go:50-67 | Every attempt before the one the loop ended at met a transient error |
| Worker.DroppedOnlyOnTransient | worker.go:65-73 | A dropped address met a transient error on all five attempts |
| Worker.EnrichedCause | worker.go:50-55 | An enriched address carries the CMRA and RDI codes of the provider's answer at the final attempt |
| Worker.UnknownCause | worker.go:58-63 | An address sent to `failedJobs` as unknown met `ErrUnknownAddress` at the final attempt |
| Worker.ExhaustedCause | worker.go:37-43 | An address sent to `failedJobs` for exhaustion found the pool used up at the final attempt: the cursor past the end, the count zero, and the prompt empty |
| Worker.PersistentFailureDropped | worker.go:65-73 | Transient errors at every remaining attempt, with a prompt that never refuses, drop the address after one invalidation per attempt |
| Worker.UnknownFirstAttempt | worker.go:36-63 | `ErrUnknownAddress` at the first attempt means one `GetCredentials`, no invalidation, no wait, and no retry |
| Worker.Work | worker.go:22-43 | The worker keeps the pool invariant and settles at most one address per job |
| Worker.ResultsMembers | worker.go:50-55 | An address is on `results` exactly when some trial enriched it |
| Worker.FailedMembers | worker.go:38-63 | An address is on `failedJobs` exactly when some trial found it unknown or found the pool exhausted |
| Worker.RoutingPartition | worker.go:41-73 | Each address taken ends in exactly one place: `results`, `failedJobs`, or dropped |
| Worker.WorkInOrder | worker.go:22-60 | The i-th address settled is the i-th job, up to the two enrichment fields |
| Worker.WorkStopsOnlyWhenExhausted | worker.go:37-43 | The worker takes every job unless an address found the pool exhausted, and that address is then the last one taken |
| Worker.TryOnce | worker.go:36-67 | One pass of the loop body: the new manager state is that of `Attempt`, and the fate is present exactly when `Attempt` settles the address, and then is `Attempt`'s |
| Worker.AttemptAddress | worker.go:25-73 | The retry loop's fate, final manager state and sleeps are those of `TryAddress` |
| Worker.SmartyWorker | worker.go:19-75 | The worker's trials and final manager state are those of `Work`; `results` and `failedJobs` receive exactly the enriched and the failed addresses of those trials, in order; `consumed` counts the jobs taken |

## Left out

- The mutex of `APIManager` and all concurrency: goroutines, channels, the
  `WaitGroup`, `atmbWorker`, and the shutdown gate in main.go. Each manager
  method is one atomic step. Interleaving with other workers appears only as
  an arbitrary `History` of calls. A single worker's run is modelled.
- The prompt for new credentials (`getAdditionalCredentialsFromUser`) and the
  credential file helpers. The prompt is the `reply` parameter of
  `GetCredentials` and `Env.prompt` in the worker.
- `SmartyInfo` and the client built from the credential (smarty.go). Only its
  three classes of result are modelled, as `Env.provider`. The credential
  used is not an input of the oracle; an oracle per call covers any
  dependence on it.
- Log lines, the worker `id`, and `time.Duration`. Waits are a ghost log in
  milliseconds, and no time passes.
- HTTP, goquery and the regular expressions of atmb.go. The model takes the
  scraped state names and, per card, the extracted texts and the optional
  `href`. The panic when the street pattern does not match is not modelled.
- csv.go and main.go.
- `sort.Strings` is modelled as an insertion sort on a sequence, not in
  place. Any ascending permutation of the same list is the same result.
- Go's map iteration order is modelled as an arbitrary choice, which
  `StrictlySortedUnique` shows cannot affect the result.
- SmartyInfo writes the CMRA and RDI codes into the `*Address` that the
  worker then sends. The model returns an updated copy instead, so pointer
  aliasing is not modelled.
- Go's fixed-width `int` is not modelled. Counts stay far below its range.
