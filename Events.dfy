/**
 * The main plugin's event handlers that take part in admission and chat:
 * the connect-time ban enforcement (cache and ban manager), the history of
 * disconnected players, the recipient filter for gagged authors and the
 * duplicate-message tracker of the chat log.
 */
module Events {
  import opened Wrappers
  import opened Text
  import opened Slots

  // ---------------------------------------------------------------------
  // Ban enforcement on connect
  // ---------------------------------------------------------------------

  /** The retry bound for resolving the connecting player. */
  const MaxBanConnectAttempts := 10

  /** What the ban cache answers for this player's Steam id and for their IP. */
  datatype CacheAnswers = CacheAnswers(steamBanned: bool, ipBanned: bool)

  /** One call into the ban manager: an answer, or an exception. */
  datatype Lookup = Answer(banned: bool) | Throws

  /** What the ban manager's two calls do for this player. */
  datatype ManagerAnswers = ManagerAnswers(steam: Lookup, ip: Lookup)

  /** The IP the check uses: the live address before `:`, or the address seen at connect. */
  function PlayerIp(liveIp: Option<string>, initialIp: string): (ip: string)
    ensures liveIp.Some? ==> ip == BeforeFirst(liveIp.value, ':')
    ensures liveIp.None? ==> ip == initialIp
  {
    if liveIp.Some? then BeforeFirst(liveIp.value, ':') else initialIp
  }

  /** IP checking needs a non-zero ban type and a non-blank IP. */
  predicate IpCheckEnabled(banType: int, playerIp: string) {
    banType != 0 && !IsBlank(playerIp)
  }

  datatype TierFlags = TierFlags(steamActive: bool, ipActive: bool)

  /**
   * The two tiers: the ban manager's answer replaces the cached flag; when
   * its call throws, or there is no ban manager, the cached flag stands.
   * With IP checking off the IP tier is never active.
   */
  function MergeTiers(cache: Option<CacheAnswers>, manager: Option<ManagerAnswers>, ipCheck: bool): (f: TierFlags)
    ensures !ipCheck ==> !f.ipActive
    ensures manager.Some? && manager.value.steam.Answer? ==> f.steamActive == manager.value.steam.banned
    ensures manager.Some? && manager.value.ip.Answer? && ipCheck ==> f.ipActive == manager.value.ip.banned
    ensures manager.None? || manager.value.steam.Throws? ==>
              f.steamActive == (cache.Some? && cache.value.steamBanned)
    ensures (manager.None? || manager.value.ip.Throws?) && ipCheck ==>
              f.ipActive == (cache.Some? && cache.value.ipBanned)
  {
    var steamCached := cache.Some? && cache.value.steamBanned;
    var ipCached := ipCheck && cache.Some? && cache.value.ipBanned;
    if manager.None? then TierFlags(steamCached, ipCached)
    else
      var steamActive :=
        match manager.value.steam
        case Answer(b) => b
        case Throws => steamCached || (cache.Some? && cache.value.steamBanned);
      var ipActive :=
        if !ipCheck then ipCached
        else match manager.value.ip
          case Answer(b) => b
          case Throws => ipCached || (cache.Some? && cache.value.ipBanned);
      TierFlags(steamActive, ipActive)
  }

  datatype EnforceOutcome =
    | NotChecked                 // neither a cache nor a ban manager exists
    | Unresolved                 // the slot never held a player: a warning, no kick
    | Allowed
    | Kicked(refreshCache: bool) // kicked with REJECT_BANNED, cache refresh started or not

  /** The decision once the player is resolved. */
  function DecideOnConnect(cache: Option<CacheAnswers>, manager: Option<ManagerAnswers>,
                           banType: int, player: PlayerView, initialIp: string): (o: EnforceOutcome)
    ensures cache.None? && manager.None? <==> o == NotChecked
    ensures o != Unresolved
    ensures o != NotChecked ==>
      var f := MergeTiers(cache, manager, IpCheckEnabled(banType, PlayerIp(player.ipAddress, initialIp)));
      (o == Allowed <==> !f.steamActive && !f.ipActive) &&
      (o.Kicked? ==> o.refreshCache == cache.Some?)
  {
    if cache.None? && manager.None? then NotChecked
    else
      var playerIp := PlayerIp(player.ipAddress, initialIp);
      var f := MergeTiers(cache, manager, IpCheckEnabled(banType, playerIp));
      if !f.steamActive && !f.ipActive then Allowed else Kicked(cache.Some?)
  }

  /**
   * `EnforceBanOnConnect` started from `OnClientConnect`: only when a cache
   * or a ban manager exists, from attempt 0, with the initial IP taken
   * before `:`, retrying an unresolved slot at most `MaxBanConnectAttempts` times.
   */
  method EnforceBanOnConnect(cache: Option<CacheAnswers>, manager: Option<ManagerAnswers>, banType: int,
                             rawIp: string, slotAt: nat -> Option<PlayerView>)
    returns (outcome: EnforceOutcome, retries: nat)
    ensures cache.None? && manager.None? <==> outcome == NotChecked
    ensures outcome == NotChecked ==> retries == 0
    ensures retries <= MaxBanConnectAttempts
    ensures forall n: nat :: n < retries ==> !IsHuman(slotAt(n))
    ensures outcome == Unresolved ==> retries == MaxBanConnectAttempts && !IsHuman(slotAt(retries))
    ensures outcome != NotChecked && outcome != Unresolved ==>
              IsHuman(slotAt(retries)) &&
              outcome == DecideOnConnect(cache, manager, banType, slotAt(retries).value, BeforeFirst(rawIp, ':'))
  {
    if cache.None? && manager.None? {
      return NotChecked, 0;
    }
    var initialIp := BeforeFirst(rawIp, ':');
    var res;
    res, retries := Resolve(MaxBanConnectAttempts, slotAt, Human);
    if !res.Resolved? {
      return Unresolved, retries;
    }
    outcome := DecideOnConnect(cache, manager, banType, res.player, initialIp);
  }

  /** The authoritative answer wins: a cache hit does not kick a player the ban manager clears. */
  lemma ManagerOverridesCache(cache: Option<CacheAnswers>, banType: int, player: PlayerView, initialIp: string)
    ensures DecideOnConnect(cache, Some(ManagerAnswers(Answer(false), Answer(false))), banType, player, initialIp) == Allowed
  {
  }

  /** When both ban manager calls throw, the decision is the one the cache alone gives. */
  lemma FailingManagerFallsBackToCache(cache: Option<CacheAnswers>, banType: int, player: PlayerView, initialIp: string)
    requires cache.Some?
    ensures DecideOnConnect(cache, Some(ManagerAnswers(Throws, Throws)), banType, player, initialIp) ==
            DecideOnConnect(cache, None, banType, player, initialIp)
  {
  }

  // ---------------------------------------------------------------------
  // Disconnected-player history
  // ---------------------------------------------------------------------

  /** One entry of the history (the source's mutable object, kept as a value). */
  datatype DisconnectedPlayer = DisconnectedPlayer(steamId: string, name: string,
                                                   ipAddress: Option<string>, disconnectTime: int)

  ghost predicate UniqueSteamIds(h: seq<DisconnectedPlayer>) {
    forall i, j :: 0 <= i < j < |h| ==> h[i].steamId != h[j].steamId
  }

  /** `FirstOrDefault(p => p.SteamId == steamId)`, as a position. */
  function IndexOf(h: seq<DisconnectedPlayer>, steamId: string): (k: Option<nat>)
    ensures k.Some? ==> k.value < |h| && h[k.value].steamId == steamId
    ensures k.Some? ==> forall j :: 0 <= j < k.value ==> h[j].steamId != steamId
    ensures k.None? ==> forall j :: 0 <= j < |h| ==> h[j].steamId != steamId
  {
    if h == [] then None
    else if h[0].steamId == steamId then Some(0)
    else match IndexOf(h[1..], steamId)
      case None => None
      case Some(k) => Some(k + 1)
  }

  /** Update the entry with the same Steam id in place, or append a new one. */
  function Upsert(h: seq<DisconnectedPlayer>, e: DisconnectedPlayer): (r: seq<DisconnectedPlayer>)
    ensures e in r
    ensures |r| == if IndexOf(h, e.steamId).Some? then |h| else |h| + 1
    ensures forall i :: 0 <= i < |h| && h[i].steamId != e.steamId ==> r[i] == h[i]
  {
    match IndexOf(h, e.steamId)
    case Some(k) =>
      assert h[k := e][k] == e;
      h[k := e]
    case None =>
      assert (h + [e])[|h|] == e;
      h + [e]
  }

  /**
   * The history after one disconnect: when it holds at least `limit`
   * entries the oldest is removed first (which throws on an empty list,
   * leaving the history as it was: `None`), then the entry is upserted.
   */
  function Recorded(h: seq<DisconnectedPlayer>, limit: int, e: DisconnectedPlayer): Option<seq<DisconnectedPlayer>> {
    if |h| >= limit then
      if h == [] then None else Some(Upsert(h[1..], e))
    else Some(Upsert(h, e))
  }

  /** Only an empty history with a limit of at most 0 makes the removal throw. */
  lemma RecordedFailsOnlyOnEmptyZeroLimit(h: seq<DisconnectedPlayer>, limit: int, e: DisconnectedPlayer)
    ensures Recorded(h, limit, e).None? <==> h == [] && limit <= 0
  {
  }

  lemma UpsertKeepsUnique(h: seq<DisconnectedPlayer>, e: DisconnectedPlayer)
    requires UniqueSteamIds(h)
    ensures UniqueSteamIds(Upsert(h, e))
    ensures |Upsert(h, e)| == if IndexOf(h, e.steamId).Some? then |h| else |h| + 1
  {
  }

  /** Steam ids stay unique across a disconnect. */
  lemma RecordedKeepsUnique(h: seq<DisconnectedPlayer>, limit: int, e: DisconnectedPlayer)
    requires UniqueSteamIds(h)
    ensures Recorded(h, limit, e).Some? ==> UniqueSteamIds(Recorded(h, limit, e).value)
  {
    if h != [] {
      UpsertKeepsUnique(h[1..], e);
    }
    UpsertKeepsUnique(h, e);
  }

  /** A history within a positive limit stays within it. */
  lemma RecordedWithinLimit(h: seq<DisconnectedPlayer>, limit: int, e: DisconnectedPlayer)
    requires limit >= 1 && |h| <= limit
    ensures Recorded(h, limit, e).Some? && |Recorded(h, limit, e).value| <= limit
  {
  }

  /** Afterwards the history holds the new entry, once, and nothing but it and old entries. */
  lemma RecordedHoldsEntry(h: seq<DisconnectedPlayer>, limit: int, e: DisconnectedPlayer)
    requires UniqueSteamIds(h) && Recorded(h, limit, e).Some?
    ensures var r := Recorded(h, limit, e).value;
      e in r && (forall i :: 0 <= i < |r| && r[i].steamId == e.steamId ==> r[i] == e) &&
      (forall x :: x in r ==> x == e || x in h)
  {
    RecordedKeepsUnique(h, limit, e);
    var base := if |h| >= limit then h[1..] else h;
    var r := Recorded(h, limit, e).value;
    match IndexOf(base, e.steamId)
    case Some(k) =>
      assert r[k] == e;
    case None =>
      assert r[|r| - 1] == e;
  }

  /**
   * Every old entry for another player survives, except the oldest one when
   * the history was full.
   */
  lemma RecordedKeepsOthers(h: seq<DisconnectedPlayer>, limit: int, e: DisconnectedPlayer, i: int)
    requires Recorded(h, limit, e).Some?
    requires 0 <= i < |h| && h[i].steamId != e.steamId
    requires |h| >= limit ==> i > 0
    ensures h[i] in Recorded(h, limit, e).value
  {
    var base := if |h| >= limit then h[1..] else h;
    var j := if |h| >= limit then i - 1 else i;
    assert base[j] == h[i];
    var r := Recorded(h, limit, e).value;
    match IndexOf(base, e.steamId)
    case Some(k) =>
      assert r[j] == h[i];
    case None =>
      assert r[j] == h[i];
  }

  /**
   * When the history is full, a returning player's entry is updated in
   * place and the oldest entry is still removed, so the history shrinks.
   */
  lemma FullHistoryShrinksOnReturningPlayer(h: seq<DisconnectedPlayer>, limit: int, e: DisconnectedPlayer, k: int)
    requires UniqueSteamIds(h) && 1 <= limit <= |h|
    requires 0 < k < |h| && h[k].steamId == e.steamId
    ensures Recorded(h, limit, e).Some? && |Recorded(h, limit, e).value| == |h| - 1
  {
    assert h[1..][k - 1].steamId == e.steamId;
    UpsertKeepsUnique(h[1..], e);
  }

  /** `DisconnectedPlayers`, the list the disconnect handler maintains. */
  class DisconnectedHistory {
    var players: seq<DisconnectedPlayer>

    ghost predicate Valid()
      reads this
    {
      UniqueSteamIds(players)
    }

    constructor ()
      ensures Valid() && players == []
    {
      players := [];
    }

    /** The first position holding `steamId`, by a forward scan. */
    method Find(steamId: string) returns (k: Option<nat>)
      ensures k == IndexOf(players, steamId)
    {
      var i := 0;
      while i < |players|
        invariant 0 <= i <= |players|
        invariant IndexOf(players, steamId) == (if IndexOf(players[i..], steamId).Some?
                                                then Some(IndexOf(players[i..], steamId).value + i) else None)
      {
        if players[i].steamId == steamId {
          return Some(i);
        }
        assert players[i..][1..] == players[i + 1..];
        i := i + 1;
      }
      return None;
    }

    /**
     * The history part of `OnClientDisconnect`: nothing for a missing,
     * invalid, HLTV or bot player; otherwise the history becomes
     * `Recorded(...)`.  `ok` is false when `RemoveAt(0)` throws (the handler
     * catches it and stops) or when the player is skipped.
     */
    method OnClientDisconnect(player: Option<PlayerView>, isHltv: bool, limit: int, now: int)
      returns (ok: bool)
      requires Valid()
      modifies this
      ensures Valid()
      ensures !IsHuman(player) || isHltv ==> !ok && players == old(players)
      ensures IsHuman(player) && !isHltv ==>
        var p := player.value;
        var e := DisconnectedPlayer(p.steamId, p.name,
                                    if p.ipAddress.Some? then Some(BeforeFirst(p.ipAddress.value, ':')) else None, now);
        match Recorded(old(players), limit, e)
        case None => !ok && players == old(players)
        case Some(h) => ok && players == h
    {
      if player.None? || !player.value.isValid || isHltv || player.value.isBot {
        return false;
      }
      var p := player.value;
      var e := DisconnectedPlayer(p.steamId, p.name,
                                  if p.ipAddress.Some? then Some(BeforeFirst(p.ipAddress.value, ':')) else None, now);
      RecordedKeepsUnique(players, limit, e);
      if |players| >= limit {
        if players == [] {
          return false;
        }
        players := players[1..];
      }
      var k := Find(p.steamId);
      if k.Some? {
        players := players[k.value := e];
      } else {
        players := players + [e];
      }
      ok := true;
    }
  }

  // ---------------------------------------------------------------------
  // Recipient filter for gagged or silenced authors
  // ---------------------------------------------------------------------

  /** A player entity, compared by identity. */
  type EntityRef = nat

  datatype HookResult = Continue | Stop

  /** What the penalty manager reports for one penalty type. */
  datatype Penalty = NotPenalized | Penalized(ends: Option<int>)

  /** The recipients that remain when all but `author` are removed. */
  function OnlyAuthor(s: seq<EntityRef>, author: EntityRef): (r: seq<EntityRef>)
    ensures forall i :: 0 <= i < |r| ==> r[i] == author
  {
    if s == [] then []
    else (if s[0] == author then [s[0]] else []) + OnlyAuthor(s[1..], author)
  }

  /** Every occurrence of the author survives, and nothing else does. */
  lemma {:induction false} OnlyAuthorKeepsAuthor(s: seq<EntityRef>, author: EntityRef)
    ensures multiset(OnlyAuthor(s, author)) == multiset{}[author := multiset(s)[author]]
  {
    if s != [] {
      assert s == [s[0]] + s[1..];
      OnlyAuthorKeepsAuthor(s[1..], author);
    }
  }

  /** One step of the backward walk, from position `i` of the original list. */
  lemma RemoveAllExceptStep(before: seq<EntityRef>, i: int, author: EntityRef, current: seq<EntityRef>)
    requires 0 <= i < |before|
    requires current == before[..i + 1] + OnlyAuthor(before[i + 1..], author)
    ensures i < |current| && current[i] == before[i]
    ensures current[i] != author ==> current[..i] + current[i + 1..] == before[..i] + OnlyAuthor(before[i..], author)
    ensures current[i] == author ==> current == before[..i] + OnlyAuthor(before[i..], author)
  {
    var tail := OnlyAuthor(before[i + 1..], author);
    assert before[i..][1..] == before[i + 1..];
    assert OnlyAuthor(before[i..], author) == (if before[i] == author then [before[i]] else []) + tail;
    assert before[..i + 1] == before[..i] + [before[i]];
    if before[i] != author {
      assert current[..i] == before[..i];
      assert current[i + 1..] == tail;
    }
  }

  /** The chat user message and its recipient list. */
  class UserMessage {
    var recipients: seq<EntityRef>

    constructor (recipients: seq<EntityRef>)
      ensures this.recipients == recipients
    {
      this.recipients := recipients;
    }

    /** Walks the list backwards, removing every recipient other than `author`. */
    method RemoveAllExcept(author: EntityRef)
      modifies this
      ensures recipients == OnlyAuthor(old(recipients), author)
    {
      ghost var before := recipients;
      var i := |recipients| - 1;
      while i >= 0
        invariant -1 <= i < |before|
        invariant |recipients| >= i + 1
        invariant recipients == before[..i + 1] + OnlyAuthor(before[i + 1..], author)
      {
        RemoveAllExceptStep(before, i, author, recipients);
        if recipients[i] != author {
          recipients := recipients[..i] + recipients[i + 1..];
        }
        i := i - 1;
      }
      assert before[0..] == before;
    }
  }

  /** The message begins with one of the public or silent chat triggers. */
  predicate HasTrigger(message: string, triggers: seq<string>) {
    exists i :: 0 <= i < |triggers| && StartsWith(message, triggers[i])
  }

  datatype ChatHookAction = PassThrough | Suppress | AuthorOnly

  /**
   * `HookUmChat` before it touches the message: only a gagged or silenced
   * human author with a known penalty end and a loaded localizer is
   * affected; the end comes from the gag when gagged, else from the silence.
   */
  function ChatHookDecision(author: Option<PlayerView>, gag: Penalty, silence: Penalty,
                            localizerLoaded: bool, message: string, triggers: seq<string>): (a: ChatHookAction)
    ensures a != PassThrough ==> IsHuman(author) && (gag.Penalized? || silence.Penalized?) && localizerLoaded
    ensures a == Suppress <==> IsHuman(author) && (gag.Penalized? || silence.Penalized?) && localizerLoaded &&
                               (if gag.Penalized? then gag.ends else silence.ends).Some? &&
                               !HasTrigger(message, triggers)
    ensures a == AuthorOnly <==> IsHuman(author) && (gag.Penalized? || silence.Penalized?) && localizerLoaded &&
                                  (if gag.Penalized? then gag.ends else silence.ends).Some? &&
                                  HasTrigger(message, triggers)
  {
    if !IsHuman(author) then PassThrough
    else if !gag.Penalized? && !silence.Penalized? then PassThrough
    else
      var endDateTime := if gag.Penalized? then gag.ends else silence.ends;
      if !localizerLoaded || endDateTime.None? then PassThrough
      else if !HasTrigger(message, triggers) then Suppress
      else AuthorOnly
  }

  /** A gag without a known end hides a silence that has one: the message passes untouched. */
  lemma GagWithoutEndPassesThrough(author: Option<PlayerView>, end: int, localizerLoaded: bool,
                                   message: string, triggers: seq<string>)
    ensures ChatHookDecision(author, Penalized(None), Penalized(Some(end)), localizerLoaded, message, triggers) == PassThrough
  {
  }

  /** The user-message hook for chat (message 118). */
  method HookUmChat(um: UserMessage, authorRef: EntityRef, author: Option<PlayerView>, gag: Penalty,
                    silence: Penalty, localizerLoaded: bool, message: string, triggers: seq<string>)
    returns (r: HookResult)
    modifies um
    ensures var a := ChatHookDecision(author, gag, silence, localizerLoaded, message, triggers);
      r == (if a == Suppress then Stop else Continue) &&
      um.recipients == (if a == AuthorOnly then OnlyAuthor(old(um.recipients), authorRef) else old(um.recipients))
  {
    var a := ChatHookDecision(author, gag, silence, localizerLoaded, message, triggers);
    if a == Suppress {
      return Stop;
    }
    if a == AuthorOnly {
      um.RemoveAllExcept(authorRef);
    }
    return Continue;
  }

  // ---------------------------------------------------------------------
  // Chat log duplicate tracker
  // ---------------------------------------------------------------------

  /** A chat line handed to the chat log store. */
  datatype ChatLogEntry = ChatLogEntry(message: string, teamChat: bool)

  /**
   * The chat logging conditions: a `say`/`say_team` command on a panel-linked
   * server, a message the (not modelled) validity check accepts and, when a
   * minimum is set, with more letters than it.
   */
  predicate IsChatLogCandidate(command: string, isCssPanel: bool, stringValid: bool,
                               letterCount: int, minLetters: int) {
    (command == "say" || command == "say_team") && isCssPanel && stringValid &&
    (minLetters <= 0 || letterCount > minLetters)
  }

  /** The messages a run of logged candidates stores, starting from `first` in the newest slot. */
  function StoredMessages(first: string, msgs: seq<string>, excludeDuplicate: bool): seq<string>
    decreases msgs
  {
    if msgs == [] then []
    else (if !excludeDuplicate || first != msgs[0] then [msgs[0]] else [])
         + StoredMessages(msgs[0], msgs[1..], excludeDuplicate)
  }

  /** Without the duplicate filter every candidate is stored. */
  lemma {:induction false} AllStoredWithoutFilter(first: string, msgs: seq<string>)
    ensures StoredMessages(first, msgs, false) == msgs
    decreases msgs
  {
    if msgs != [] {
      AllStoredWithoutFilter(msgs[0], msgs[1..]);
    }
  }

  /**
   * With the duplicate filter, no two stored messages in a row are equal,
   * and the first stored one differs from the message seen before the run.
   */
  lemma {:induction false} FilterStoresNoRepeats(first: string, msgs: seq<string>)
    ensures var r := StoredMessages(first, msgs, true);
      (r != [] ==> r[0] != first) &&
      forall i :: 0 <= i < |r| - 1 ==> r[i] != r[i + 1]
    decreases msgs
  {
    if msgs != [] {
      FilterStoresNoRepeats(msgs[0], msgs[1..]);
    }
  }

  /** The newest message after a run. */
  function LastSeen(first: string, msgs: seq<string>): string {
    if msgs == [] then first else msgs[|msgs| - 1]
  }

  /** A single candidate is stored unless the filter is on and it repeats `first`. */
  lemma StoredSingle(first: string, m: string, excludeDuplicate: bool)
    ensures StoredMessages(first, [m], excludeDuplicate) == if !excludeDuplicate || first != m then [m] else []
  {
    assert [m][1..] == [];
  }

  /** A run extended by one candidate stores what the run stored, then what the single step stores. */
  lemma {:induction false} StoredMessagesAppend(first: string, msgs: seq<string>, m: string, excludeDuplicate: bool)
    ensures StoredMessages(first, msgs + [m], excludeDuplicate) ==
            StoredMessages(first, msgs, excludeDuplicate) + StoredMessages(LastSeen(first, msgs), [m], excludeDuplicate)
    decreases msgs
  {
    if msgs == [] {
      assert msgs + [m] == [m];
    } else {
      assert (msgs + [m])[1..] == msgs[1..] + [m];
      StoredMessagesAppend(msgs[0], msgs[1..], m, excludeDuplicate);
      assert LastSeen(msgs[0], msgs[1..]) == LastSeen(first, msgs);
    }
  }

  /** Of the two chat commands, only `say_team` contains "say_team". */
  lemma SayTeamMarksTeamChat(command: string)
    requires command == "say" || command == "say_team"
    ensures Contains(command, "say_team") <==> command == "say_team"
  {
    if command == "say" {
      ContainsNeedsChar(command, "say_team", '_');
    } else {
      ContainsAt(command, "say_team");
      assert OccursAt(command, "say_team", 0);
    }
  }

  /** The `firstMessage`/`secondMessage` pair of the command listener. */
  class ChatDedupe {
    var firstMessage: string
    var secondMessage: string

    constructor (firstMessage: string, secondMessage: string)
      ensures this.firstMessage == firstMessage && this.secondMessage == secondMessage
    {
      this.firstMessage := firstMessage;
      this.secondMessage := secondMessage;
    }

    /**
     * The logging step for `say`/`say_team`: trim the message, shift it into
     * the two slots when it is a candidate, and store it unless duplicates
     * are excluded and it repeats the previous candidate.
     */
    method LogChat(command: string, rawMessage: string, isCssPanel: bool, stringValid: bool,
                   letterCount: int, minLetters: int, excludeDuplicate: bool)
      returns (logged: Option<ChatLogEntry>)
      modifies this
      ensures !IsChatLogCandidate(command, isCssPanel, stringValid, letterCount, minLetters) ==>
                logged.None? && firstMessage == old(firstMessage) && secondMessage == old(secondMessage)
      ensures IsChatLogCandidate(command, isCssPanel, stringValid, letterCount, minLetters) ==>
                secondMessage == old(firstMessage) && firstMessage == Trim(rawMessage) &&
                logged == (if !excludeDuplicate || old(firstMessage) != Trim(rawMessage)
                           then Some(ChatLogEntry(Trim(rawMessage), command == "say_team")) else None)
      ensures IsChatLogCandidate(command, isCssPanel, stringValid, letterCount, minLetters) ==>
                (if logged.Some? then [logged.value.message] else []) ==
                StoredMessages(old(firstMessage), [Trim(rawMessage)], excludeDuplicate)
    {
      logged := None;
      if !IsChatLogCandidate(command, isCssPanel, stringValid, letterCount, minLetters) {
        return;
      }
      var trimmed := Trim(rawMessage);
      StoredSingle(firstMessage, trimmed, excludeDuplicate);
      secondMessage := firstMessage;
      firstMessage := trimmed;
      if !excludeDuplicate || secondMessage != firstMessage {
        var teamChat := Contains(command, "say_team");
        SayTeamMarksTeamChat(command);
        logged := Some(ChatLogEntry(trimmed, teamChat));
      }
    }
  }
}
