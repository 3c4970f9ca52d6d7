/**
 * The retry loop of `scrapeGame` and the batch in `scrapeGames`. The network
 * is replaced by the sequence of outcomes the attempts would meet: attempt
 * `k` (0-based) either fetches a page or fails with a client error. Sleeping
 * is recorded, not performed.
 */
module Fetcher {
  import opened Wrappers
  import opened Dates
  import opened Games
  import opened GameParser

  datatype Outcome = Fetched(page: Page) | ClientError

  /**
   * What one `scrapeGame` call did: the value it returned (`None` when the
   * loop body never ran), how many fetches it attempted, and the delays it
   * slept between them, in order.
   */
  datatype Run = Run(result: Option<GameResult>, attempts: nat, sleeps: seq<nat>)

  /** `retries=3` in the signature of `scrapeGame`. */
  const DefaultRetries := 3

  function Pow2(k: nat): (p: nat)
    ensures p >= 1
  {
    if k == 0 then 1 else 2 * Pow2(k - 1)
  }

  /**
   * Iterations `attempt`, `attempt + 1`, ... of `for attempt in range(retries)`.
   * A fetched page is handed to `parse` and its result returned; a client
   * error sleeps `2 ** attempt` before the next iteration, or, on the last
   * one, returns the failure record.
   */
  function RetryFrom(gameId: int, retries: int, attempt: nat, outcomes: seq<Outcome>,
                     parse: Page -> GameResult): (run: Run)
    requires retries <= |outcomes|
    ensures attempt >= retries ==> run == Run(None, 0, [])
    ensures attempt < retries ==> run.result.Some? && 1 <= run.attempts <= retries - attempt
    ensures run.attempts >= 1 ==> |run.sleeps| == run.attempts - 1
    ensures forall i :: 0 <= i < |run.sleeps| ==> run.sleeps[i] == Pow2(attempt + i)
    ensures forall k :: attempt <= k < attempt + run.attempts - 1 ==> outcomes[k].ClientError?
    ensures run.attempts >= 1 && outcomes[attempt + run.attempts - 1].Fetched? ==>
      run.result == Some(parse(outcomes[attempt + run.attempts - 1].page))
    ensures run.attempts >= 1 && outcomes[attempt + run.attempts - 1].ClientError? ==>
      attempt + run.attempts == retries && run.result == Some(GameError(gameId, RetriesExhaustedMessage))
    decreases retries - attempt
  {
    if attempt >= retries then Run(None, 0, [])
    else
      match outcomes[attempt]
      case Fetched(page) => Run(Some(parse(page)), 1, [])
      case ClientError =>
        if attempt < retries - 1 then
          var rest := RetryFrom(gameId, retries, attempt + 1, outcomes, parse);
          var sleeps := [Pow2(attempt)] + rest.sleeps;
          assert forall i :: 1 <= i < |sleeps| ==> sleeps[i] == rest.sleeps[i - 1];
          assert attempt + (rest.attempts + 1) - 1 == (attempt + 1) + rest.attempts - 1;
          Run(rest.result, rest.attempts + 1, sleeps)
        else
          Run(Some(GameError(gameId, RetriesExhaustedMessage)), 1, [])
  }

  /** `scrapeGame(game_id, semaphore, retries)` against the given outcomes. */
  function ScrapeGame(gameId: int, retries: int, outcomes: seq<Outcome>,
                      parseLongDate: string -> Option<Date>): (run: Run)
    requires retries <= |outcomes|
    ensures retries <= 0 ==> run == Run(None, 0, [])
    ensures retries > 0 ==> run.result.Some? && run.result.value.gameId == gameId
    ensures run.attempts <= if retries > 0 then retries else 0
  {
    RetryFrom(gameId, retries, 0, outcomes, page => ParseGame(gameId, page, parseLongDate))
  }

  /** Every attempt failing: exactly `retries` fetches, then the failure record. */
  lemma AllAttemptsFail(gameId: int, retries: int, outcomes: seq<Outcome>,
                        parseLongDate: string -> Option<Date>)
    requires 1 <= retries <= |outcomes|
    requires forall k :: 0 <= k < retries ==> outcomes[k].ClientError?
    ensures var run := ScrapeGame(gameId, retries, outcomes, parseLongDate);
      && run.attempts == retries
      && run.result == Some(GameError(gameId, RetriesExhaustedMessage))
      && |run.sleeps| == retries - 1
      && forall i :: 0 <= i < |run.sleeps| ==> run.sleeps[i] == Pow2(i)
  {
    var run := ScrapeGame(gameId, retries, outcomes, parseLongDate);
    assert outcomes[run.attempts - 1].ClientError?;
  }

  /** The first fetched page ends the loop: it is parsed and nothing after it is tried. */
  lemma FirstFetchEndsLoop(gameId: int, retries: int, outcomes: seq<Outcome>, k: nat,
                           parseLongDate: string -> Option<Date>)
    requires retries <= |outcomes| && k < retries
    requires outcomes[k].Fetched?
    requires forall j :: 0 <= j < k ==> outcomes[j].ClientError?
    ensures var run := ScrapeGame(gameId, retries, outcomes, parseLongDate);
      && run.attempts == k + 1
      && run.result == Some(ParseGame(gameId, outcomes[k].page, parseLongDate))
      && |run.sleeps| == k
  {
  }

  /** With the default three attempts, the failures sleep 1 and then 2 time units. */
  lemma DefaultBackoffSchedule(gameId: int, outcomes: seq<Outcome>, parseLongDate: string -> Option<Date>)
    requires DefaultRetries <= |outcomes|
    requires forall k :: 0 <= k < DefaultRetries ==> outcomes[k].ClientError?
    ensures ScrapeGame(gameId, DefaultRetries, outcomes, parseLongDate).sleeps == [1, 2]
    ensures ScrapeGame(gameId, DefaultRetries, outcomes, parseLongDate).attempts == 3
  {
    AllAttemptsFail(gameId, DefaultRetries, outcomes, parseLongDate);
    var sleeps := ScrapeGame(gameId, DefaultRetries, outcomes, parseLongDate).sleeps;
    assert sleeps[0] == Pow2(0) && sleeps[1] == Pow2(1);
  }

  function Sum(xs: seq<nat>): nat {
    if |xs| == 0 then 0 else Sum(xs[..|xs| - 1]) + xs[|xs| - 1]
  }

  /** Doubling delays 1, 2, 4, ... add up to one less than the next delay. */
  lemma {:induction false} DoublingDelaysTotal(sleeps: seq<nat>)
    requires forall i :: 0 <= i < |sleeps| ==> sleeps[i] == Pow2(i)
    ensures Sum(sleeps) == Pow2(|sleeps|) - 1
  {
    if |sleeps| > 0 {
      DoublingDelaysTotal(sleeps[..|sleeps| - 1]);
    }
  }

  /** A run that made `n` attempts slept `2^(n-1) - 1` time units in all. */
  lemma TotalBackoff(gameId: int, retries: int, outcomes: seq<Outcome>, parseLongDate: string -> Option<Date>)
    requires 1 <= retries <= |outcomes|
    ensures var run := ScrapeGame(gameId, retries, outcomes, parseLongDate);
      Sum(run.sleeps) == Pow2(run.attempts - 1) - 1
  {
    RetryBackoffTotal(gameId, retries, outcomes, page => ParseGame(gameId, page, parseLongDate));
  }

  /** `TotalBackoff` for any parse step. */
  lemma RetryBackoffTotal(gameId: int, retries: int, outcomes: seq<Outcome>, parse: Page -> GameResult)
    requires 1 <= retries <= |outcomes|
    ensures var run := RetryFrom(gameId, retries, 0, outcomes, parse);
      Sum(run.sleeps) == Pow2(run.attempts - 1) - 1
  {
    DoublingDelaysTotal(RetryFrom(gameId, retries, 0, outcomes, parse).sleeps);
  }

  /**
   * `scrapeGames`: one `scrapeGame` per identifier with the default retries,
   * gathered in the order of the identifiers. Call `i` meets the outcomes in
   * `outcomes[i]`; a failing call never changes another call's result.
   */
  function ScrapeGames(gameIds: seq<int>, outcomes: seq<seq<Outcome>>,
                       parseLongDate: string -> Option<Date>): (results: seq<GameResult>)
    requires |outcomes| == |gameIds|
    requires forall i :: 0 <= i < |outcomes| ==> DefaultRetries <= |outcomes[i]|
    ensures |results| == |gameIds|
    ensures forall i :: 0 <= i < |gameIds| ==>
      Some(results[i]) == ScrapeGame(gameIds[i], DefaultRetries, outcomes[i], parseLongDate).result
    ensures forall i :: 0 <= i < |gameIds| ==> results[i].gameId == gameIds[i]
  {
    seq(|gameIds|, i requires 0 <= i < |gameIds| =>
      ScrapeGame(gameIds[i], DefaultRetries, outcomes[i], parseLongDate).result.value)
  }
}
