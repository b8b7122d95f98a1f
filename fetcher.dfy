/**
 * `get_member_data`: fetch one provider's record with bounded retries.
 * The network is a function from the attempt number (0, 1, ...) to what that
 * attempt produces; a sleep between attempts is counted instead of performed.
 */
module Fetcher {
  import opened Wrappers

  /** Retries `root` allows each provider: the default `max_retries=3`. */
  const MaxRetries: int := 3

  /** What one request produces. */
  datatype Attempt<P> =
    | Ok(payload: P)   // a good status and a body that parses as JSON
    | NetErr           // any `RequestException`, a bad status from `raise_for_status` included
    | ParseErr         // a `ValueError` from decoding the body that is not also a `RequestException`

  /** The outcome of a fetch: the data, the attempts made and the sleeps taken. */
  datatype Fetch<P> = Fetch(data: Option<P>, attempts: nat, sleeps: nat)

  /**
   * The fetch as a state machine, continued from the state in which `attempt`
   * attempts have been made and `sleeps` sleeps taken.
   */
  function Step<P>(network: nat -> Attempt<P>, maxRetries: int, attempt: nat, sleeps: nat): (r: Fetch<P>)
    decreases maxRetries - attempt
    ensures attempt <= r.attempts && sleeps <= r.sleeps
    ensures attempt < maxRetries ==> attempt < r.attempts <= maxRetries
    ensures maxRetries <= attempt ==> r.attempts == attempt && r.data == None
    ensures r.sleeps - sleeps < r.attempts - attempt || r.attempts == attempt
  {
    if attempt >= maxRetries then Fetch(None, attempt, sleeps)
    else match network(attempt)
      case Ok(p) => Fetch(Some(p), attempt + 1, sleeps)
      case ParseErr => Fetch(None, attempt + 1, sleeps)
      case NetErr =>
        if attempt < maxRetries - 1 then Step(network, maxRetries, attempt + 1, sleeps + 1)
        else Fetch(None, attempt + 1, sleeps)
  }

  /** What `get_member_data` returns, and the attempts and sleeps it takes. */
  function FetchSpec<P>(network: nat -> Attempt<P>, maxRetries: int): (r: Fetch<P>)
    ensures r.attempts <= (if maxRetries > 0 then maxRetries else 0)
    ensures r.attempts == 0 <==> maxRetries <= 0
    ensures r.sleeps < r.attempts || r.attempts == 0
  {
    Step(network, maxRetries, 0, 0)
  }

  /** The retry loop of `get_member_data`. */
  method GetMemberData<P>(network: nat -> Attempt<P>, maxRetries: int)
    returns (data: Option<P>, attempts: nat, sleeps: nat)
    ensures Fetch(data, attempts, sleeps) == FetchSpec(network, maxRetries)
  {
    attempts, sleeps := 0, 0;
    var attempt: nat := 0;
    while attempt < maxRetries
      invariant attempts == attempt && sleeps == attempt
      invariant Step(network, maxRetries, attempt, sleeps) == FetchSpec(network, maxRetries)
      decreases maxRetries - attempt
    {
      attempts := attempts + 1;
      match network(attempt) {
        case Ok(p) =>
          return Some(p), attempts, sleeps;
        case NetErr =>
          if attempt < maxRetries - 1 {
            sleeps := sleeps + 1;
          } else {
            return None, attempts, sleeps;
          }
        case ParseErr =>
          return None, attempts, sleeps;
      }
      attempt := attempt + 1;
    }
    data := None;
  }

  /** From any state, the machine by itself takes one sleep fewer than attempts, and stays within the limit. */
  lemma {:induction false} StepBounds<P>(network: nat -> Attempt<P>, maxRetries: int, attempt: nat)
    requires attempt < maxRetries
    ensures var r := Step(network, maxRetries, attempt, attempt);
      && attempt < r.attempts <= maxRetries
      && r.sleeps == r.attempts - 1
      && (forall i :: attempt <= i < r.attempts - 1 ==> network(i).NetErr?)
      && (r.data.Some? ==> network(r.attempts - 1) == Ok(r.data.value))
      && (network(r.attempts - 1).NetErr? ==> r.attempts == maxRetries && r.data == None)
      && (network(r.attempts - 1).ParseErr? ==> r.data == None)
      && (network(r.attempts - 1).Ok? ==> r.data == Some(network(r.attempts - 1).payload))
    decreases maxRetries - attempt
  {
    if network(attempt).NetErr? && attempt < maxRetries - 1 {
      StepBounds(network, maxRetries, attempt + 1);
    }
  }

  /**
   * The whole contract of `get_member_data`: at most `max_retries` attempts;
   * every attempt but the last failed on the network; one sleep between each
   * two attempts and none after the last; the payload of a successful attempt
   * is returned; a parse error ends the fetch with `None`; a network error on
   * the last attempt happens only once the retries are used up.
   */
  lemma FetchContract<P>(network: nat -> Attempt<P>, maxRetries: int)
    ensures var r := FetchSpec(network, maxRetries);
      && (maxRetries <= 0 ==> r == Fetch(None, 0, 0))
      && (maxRetries > 0 ==>
        && 0 < r.attempts <= maxRetries
        && r.sleeps == r.attempts - 1
        && (forall i :: 0 <= i < r.attempts - 1 ==> network(i).NetErr?)
        && (network(r.attempts - 1).Ok? ==> r.data == Some(network(r.attempts - 1).payload))
        && (network(r.attempts - 1).ParseErr? ==> r.data == None)
        && (network(r.attempts - 1).NetErr? ==> r.attempts == maxRetries && r.data == None))
  {
    if maxRetries > 0 {
      StepBounds(network, maxRetries, 0);
    }
  }

  /** An endpoint that always fails is tried exactly `max_retries` times, with a sleep between attempts only. */
  lemma FetchAllNetErr<P>(network: nat -> Attempt<P>, maxRetries: int)
    requires maxRetries > 0
    requires forall i: nat :: i < maxRetries ==> network(i) == NetErr
    ensures FetchSpec(network, maxRetries) == Fetch(None, maxRetries, maxRetries - 1)
  {
    FetchContract(network, maxRetries);
  }

  /**
   * When the first attempt that does not fail on the network is number `k`
   * (from 0) and lies within the limit, the fetch stops there after `k + 1`
   * attempts and `k` sleeps, with the payload for `Ok` and `None` for a parse error.
   */
  lemma FetchFirstDecisive<P>(network: nat -> Attempt<P>, maxRetries: int, k: nat)
    requires k < maxRetries
    requires forall i: nat :: i < k ==> network(i) == NetErr
    requires !network(k).NetErr?
    ensures FetchSpec(network, maxRetries) ==
      Fetch(if network(k).Ok? then Some(network(k).payload) else None, k + 1, k)
  {
    FetchContract(network, maxRetries);
  }

  /** The fetches of the service's tests. */
  lemma FetchExamples(x: int)
    ensures FetchSpec<int>((i: nat) => NetErr, MaxRetries) == Fetch(None, 3, 2)
    ensures FetchSpec((i: nat) => if i < 4 then NetErr else Ok(x), 5) == Fetch(Some(x), 5, 4)
    ensures FetchSpec((i: nat) => Ok(x), MaxRetries) == Fetch(Some(x), 1, 0)
    ensures FetchSpec((i: nat) => if i < 4 then NetErr else Ok(x), MaxRetries) == Fetch(None, 3, 2)
  {
    FetchAllNetErr<int>((i: nat) => NetErr, MaxRetries);
    FetchFirstDecisive((i: nat) => if i < 4 then NetErr else Ok(x), 5, 4);
    FetchFirstDecisive((i: nat) => Ok(x), MaxRetries, 0);
    FetchAllNetErr((i: nat) => if i < 4 then NetErr else Ok(x), MaxRetries);
  }
}
