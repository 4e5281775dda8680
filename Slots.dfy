/**
 * Connection slots and the bounded retry that both admission paths use to
 * turn a slot into a usable player.  A slot is read once per scheduled
 * callback; `slotAt(n)` is what `Utilities.GetPlayerFromSlot` returns on the
 * callback for attempt `n` (the host's scheduling and timer delays are not
 * modelled, only the order of the callbacks).
 */
module Slots {
  import opened Wrappers

  /** What the host reports for the player in a slot. */
  datatype PlayerView = PlayerView(
    isValid: bool,
    isBot: bool,
    steamId: string,        // `player.SteamID.ToString()`
    ipAddress: Option<string>,
    name: string)

  /** A valid, non-bot player. */
  predicate Human(p: PlayerView) {
    p.isValid && !p.isBot
  }

  /** A valid, non-bot player is in the slot. */
  predicate IsHuman(v: Option<PlayerView>) {
    v.Some? && Human(v.value)
  }

  /** The progress of one resolution. */
  datatype ResolveState =
    | Resolving(attempt: nat)
    | Resolved(attempt: nat, player: PlayerView)
    | Exhausted(attempt: nat)

  /** The number of retries a bound allows: a retry is scheduled while `attempt < maxAttempts`. */
  function MaxRetries(maxAttempts: int): nat {
    if maxAttempts > 0 then maxAttempts else 0
  }

  /** `view` is a player the caller accepts. */
  predicate Accepted(view: Option<PlayerView>, accept: PlayerView -> bool) {
    view.Some? && accept(view.value)
  }

  /**
   * One callback: take the player if it is accepted, otherwise schedule the
   * next attempt while `attempt < maxAttempts`, otherwise give up.
   */
  function ResolveStep(maxAttempts: int, attempt: nat, view: Option<PlayerView>,
                       accept: PlayerView -> bool): (next: ResolveState)
    ensures next.Resolving? ==> next.attempt == attempt + 1 <= MaxRetries(maxAttempts)
    ensures next.Resolved? <==> Accepted(view, accept)
    ensures next.Resolved? ==> next.attempt == attempt && view == Some(next.player)
    ensures next.Resolving? <==> !Accepted(view, accept) && attempt < maxAttempts
    ensures next.Exhausted? <==> !Accepted(view, accept) && attempt >= maxAttempts
    ensures next.Exhausted? ==> next.attempt == attempt
  {
    if Accepted(view, accept) then Resolved(attempt, view.value)
    else if attempt < maxAttempts then Resolving(attempt + 1)
    else Exhausted(attempt)
  }

  /**
   * Drives `ResolveStep` from attempt 0 until the slot resolves or the bound
   * is reached.  `retries` is the number of re-scheduled callbacks.
   */
  method Resolve(maxAttempts: int, slotAt: nat -> Option<PlayerView>, accept: PlayerView -> bool)
    returns (res: ResolveState, retries: nat)
    ensures !res.Resolving?
    ensures retries == res.attempt && retries <= MaxRetries(maxAttempts)
    ensures res.Resolved? ==> slotAt(res.attempt) == Some(res.player) && accept(res.player)
    ensures forall n: nat :: n < res.attempt ==> !Accepted(slotAt(n), accept)
    ensures res.Exhausted? ==> res.attempt == MaxRetries(maxAttempts) && !Accepted(slotAt(res.attempt), accept)
  {
    res := Resolving(0);
    while res.Resolving?
      invariant res.attempt <= MaxRetries(maxAttempts)
      invariant forall n: nat :: n < res.attempt ==> !Accepted(slotAt(n), accept)
      invariant res.Resolved? ==> slotAt(res.attempt) == Some(res.player) && accept(res.player)
      invariant res.Exhausted? ==> res.attempt == MaxRetries(maxAttempts) && !Accepted(slotAt(res.attempt), accept)
      decreases MaxRetries(maxAttempts) - res.attempt, if res.Resolving? then 1 else 0
    {
      res := ResolveStep(maxAttempts, res.attempt, slotAt(res.attempt), accept);
    }
    retries := res.attempt;
  }
}
