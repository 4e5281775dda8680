/**
 * The BanCheck module: on every client connection it resolves the player
 * in the slot with a bounded retry, evaluates the Steam-id and IP ban tiers
 * against `sa_bans` (BanStore), re-checks that the slot still holds the same
 * player, and then disconnects, greets or does nothing.
 */
module BanCheck {
  import opened Wrappers
  import opened Text
  import opened BanStore
  import opened Slots

  /** The module's settings (`ResolveRetryDelaySeconds` is a float delay and is not modelled). */
  datatype Config = Config(
    sendJoinMessage: bool,
    checkIpBans: bool,
    useServerIdScope: bool,
    resolvePlayerMaxAttempts: int)

  /** The shipped defaults. */
  const DefaultConfig := Config(true, true, true, 20)

  /**
   * Under the shipped defaults every tier is on: the IP is bound whenever it
   * is not blank, the query is scoped whenever the server id is known, and
   * resolution retries up to 20 times.
   */
  lemma DefaultConfigChecksEverything(serverId: Option<int>, steamId: string, playerIp: Option<string>)
    ensures PlayerQuery(DefaultConfig, serverId, steamId, playerIp).ip ==
            (if IsNullOrWhiteSpace(playerIp) then None else playerIp)
    ensures PlayerQuery(DefaultConfig, serverId, steamId, playerIp).serverId == serverId
    ensures MaxRetries(DefaultConfig.resolvePlayerMaxAttempts) == 20
    ensures DefaultConfig.sendJoinMessage
  {
  }

  datatype DatabaseKind = MySql | Sqlite

  /** Fragments of a connection string that only the networked database uses. */
  const MySqlMarkers: seq<string> := ["server=", "uid=", "user id=", "port="]

  /** Chooses the database driver from the shape of the connection string. */
  function DetectDatabaseKind(connectionString: string): (kind: DatabaseKind)
    ensures kind == MySql <==> exists i :: 0 <= i < |MySqlMarkers| && Contains(ToLower(connectionString), MySqlMarkers[i])
  {
    var normalized := ToLower(connectionString);
    if Contains(normalized, MySqlMarkers[0]) || Contains(normalized, MySqlMarkers[1])
       || Contains(normalized, MySqlMarkers[2]) || Contains(normalized, MySqlMarkers[3])
    then MySql
    else Sqlite
  }

  /** Detection does not depend on letter case. */
  lemma DetectionIgnoresCase(connectionString: string)
    ensures DetectDatabaseKind(ToLower(connectionString)) == DetectDatabaseKind(connectionString)
  {
    ToLowerIdempotent(connectionString);
  }

  /** Every marker ends in `=`, so a connection string without one is SQLite. */
  lemma WithoutEqualsSignIsSqlite(connectionString: string)
    requires '=' !in connectionString
    ensures DetectDatabaseKind(connectionString) == Sqlite
  {
    var normalized := ToLower(connectionString);
    assert '=' !in normalized by {
      forall i | 0 <= i < |normalized| ensures normalized[i] != '=' {
        assert connectionString[i] != '=';
      }
    }
    forall i | 0 <= i < |MySqlMarkers| ensures !Contains(normalized, MySqlMarkers[i]) {
      ContainsNeedsChar(normalized, MySqlMarkers[i], '=');
    }
  }

  /**
   * The address without its port: none for a null or blank address, or when
   * the text before the first `:` is blank.
   */
  function ExtractIp(rawIp: Option<string>): (ip: Option<string>)
    ensures ip.None? <==> IsNullOrWhiteSpace(rawIp) || IsBlank(BeforeFirst(rawIp.value, ':'))
    ensures ip.Some? ==> ip.value <= rawIp.value && ':' !in ip.value && !IsBlank(ip.value)
    ensures ip.Some? ==> ip.value == rawIp.value || rawIp.value[|ip.value|] == ':'
  {
    if IsNullOrWhiteSpace(rawIp) then None
    else
      var cleanIp := BeforeFirst(rawIp.value, ':');
      if IsBlank(cleanIp) then None else Some(cleanIp)
  }

  /** Stripping the port from an address that has none changes nothing. */
  lemma ExtractIpIdempotent(rawIp: Option<string>)
    ensures ExtractIp(ExtractIp(rawIp)) == ExtractIp(rawIp)
  {
    var ip := ExtractIp(rawIp);
    if ip.Some? {
      BeforeFirstWithoutSep(ip.value, ':');
    }
  }

  /** The port is dropped; an address without one is kept. */
  lemma ExtractIpExamples()
    ensures ExtractIp(Some("10.0.0.5:27005")) == Some("10.0.0.5")
    ensures ExtractIp(Some("10.0.0.5")) == Some("10.0.0.5")
  {
    var withPort := "10.0.0.5:27005";
    assert withPort[..8] == "10.0.0.5";
    BeforeFirstAt(withPort, ':', 8);
    BeforeFirstWithoutSep("10.0.0.5", ':');
    assert !IsWhiteSpace("10.0.0.5"[0]);
  }

  /** An empty address, or one whose host part is blank, is no address. */
  lemma ExtractIpBlankExamples()
    ensures ExtractIp(Some(" :27005")) == None
    ensures ExtractIp(Some("")) == None
  {
    BeforeFirstAt(" :27005", ':', 1);
  }

  /** `Localizer[key].Value` when it is not blank, otherwise the built-in text. */
  function Translate(localized: Option<string>, fallback: string): (text: string)
    ensures !IsNullOrWhiteSpace(localized) ==> text == localized.value
    ensures IsNullOrWhiteSpace(localized) ==> text == fallback
    ensures !IsBlank(fallback) ==> !IsBlank(text)
  {
    if IsNullOrWhiteSpace(localized) then fallback else localized.value
  }

  /** The statement parameters for one player. */
  function PlayerQuery(cfg: Config, serverId: Option<int>, steamId: string, playerIp: Option<string>): (q: Query)
    ensures q.steamId == steamId
    ensures q.ip.Some? <==> cfg.checkIpBans && !IsNullOrWhiteSpace(playerIp)
    ensures q.ip.Some? ==> q.ip == playerIp
    ensures q.serverId.Some? <==> cfg.useServerIdScope && serverId.Some?
    ensures q.serverId.Some? ==> q.serverId == serverId
  {
    var checkIp := cfg.checkIpBans && !IsNullOrWhiteSpace(playerIp);
    Query(steamId, if checkIp then playerIp else None,
          if cfg.useServerIdScope then serverId else None)
  }

  /** How the database behaves for one evaluation. */
  datatype StoreHealth =
    | Reachable
    | Unreachable       // opening the connection throws: nothing is written
    | FailsAfterSweep   // the UPDATE commits, then a later statement throws

  /**
   * One evaluation against the table: the sweep in place, then the queries.
   * Any store error makes the whole evaluation fail.
   */
  method EvaluateBanState(cfg: Config, serverId: Option<int>, table: array<BanRecord>, now: int,
                          store: StoreHealth, steamId: string, playerIp: Option<string>)
    returns (result: Option<BanCheckResult>)
    modifies table
    ensures var q := PlayerQuery(cfg, serverId, steamId, playerIp);
      table[..] == (if store == Unreachable then old(table[..]) else Swept(old(table[..]), q, now))
    ensures var q := PlayerQuery(cfg, serverId, steamId, playerIp);
      result == (if store == Reachable then Some(Evaluation(old(table[..]), q, now)) else None)
  {
    var q := PlayerQuery(cfg, serverId, steamId, playerIp);
    if store == Unreachable {
      return None;
    }
    var expiredRows := ExpireBans(table, q, now);
    if store == FailsAfterSweep {
      return None;
    }
    result := Some(Verdict(table[..], q, now, expiredRows));
  }

  /** The slot holds a player the module can evaluate: valid, human, with a real Steam id. */
  predicate Identified(p: PlayerView) {
    Human(p) && !IsBlank(p.steamId) && p.steamId != "0"
  }

  /** The slot still holds a valid human player with the Steam id that was evaluated. */
  predicate SameSession(current: Option<PlayerView>, steamId: string) {
    IsHuman(current) && current.value.steamId == steamId
  }

  datatype JoinNotice = BanExpiredNotice | CheckEnabledNotice

  function NoticeKey(n: JoinNotice): string {
    match n
    case BanExpiredNotice => "bancheck_join_expired"
    case CheckEnabledNotice => "bancheck_join_enabled"
  }

  function NoticeFallback(n: JoinNotice): string {
    match n
    case BanExpiredNotice => "{green}[BanCheck]{default} Votre ban est expire, connexion autorisee."
    case CheckEnabledNotice => "{green}[BanCheck]{default} Verification BanCheck activee."
  }

  /** How one connection ends. */
  datatype Outcome =
    | Skipped            // no connection string: nothing is checked
    | GaveUp             // the slot never resolved within the retry bound
    | EvaluationFailed   // the store threw: no action
    | Dropped            // the slot no longer holds the evaluated player
    | Blocked
    | Admitted(notice: Option<JoinNotice>)

  /** The callback that receives the verdict on the main thread. */
  function ApplyVerdict(cfg: Config, steamId: string, result: Option<BanCheckResult>,
                        current: Option<PlayerView>): (o: Outcome)
    ensures result.None? <==> o == EvaluationFailed
    ensures result.Some? && !SameSession(current, steamId) <==> o == Dropped
    ensures o == Blocked <==> result.Some? && SameSession(current, steamId) && result.value.isBlocked
    ensures o.Admitted? ==> result.Some? && !result.value.isBlocked
    ensures result.Some? && SameSession(current, steamId) && !result.value.isBlocked ==> o.Admitted?
    ensures o.Admitted? ==> (o.notice.Some? <==> cfg.sendJoinMessage)
    ensures o.Admitted? && o.notice.Some? ==>
              (o.notice.value == BanExpiredNotice <==> result.value.expiredBanUpdated)
  {
    if result.None? then EvaluationFailed
    else if !SameSession(current, steamId) then Dropped
    else if result.value.isBlocked then Blocked
    else if !cfg.sendJoinMessage then Admitted(None)
    else Admitted(Some(if result.value.expiredBanUpdated then BanExpiredNotice else CheckEnabledNotice))
  }

  /** What the module asks the host to do. */
  datatype Command = RemoveId(steamId: string) | WriteId

  datatype Action =
    | Execute(command: Command)          // `Server.ExecuteCommand` now
    | ExecuteLater(command: Command)     // `Server.ExecuteCommand` from the follow-up timer
    | DisconnectKicked                   // `player.Disconnect(NETWORK_DISCONNECT_KICKED)`
    | PrintToChat(text: string)

  /** `removeid` then `writeid` for the player (the Steam id 3 conversion is not modelled). */
  function ClearNativeBanIdList(steamId: string): seq<Action> {
    [Execute(RemoveId(steamId)), Execute(WriteId)]
  }

  /** Clear the native list, disconnect, and clear it once more shortly after. */
  function DisconnectBlockedPlayer(steamId: string): (actions: seq<Action>)
    ensures |actions| == 5 && actions[2] == DisconnectKicked
    ensures forall i :: 0 <= i < |actions| && i != 2 ==> actions[i] != DisconnectKicked
    ensures actions[0] == Execute(RemoveId(steamId)) && actions[1] == Execute(WriteId)
    ensures actions[3] == ExecuteLater(RemoveId(steamId)) && actions[4] == ExecuteLater(WriteId)
  {
    ClearNativeBanIdList(steamId) + [DisconnectKicked, ExecuteLater(RemoveId(steamId)), ExecuteLater(WriteId)]
  }

  /** The side effects of an outcome. */
  function Effects(o: Outcome, steamId: string, localize: string -> Option<string>): seq<Action> {
    match o
    case Blocked => DisconnectBlockedPlayer(steamId)
    case Admitted(Some(n)) => [PrintToChat(Translate(localize(NoticeKey(n)), NoticeFallback(n)))]
    case _ => []
  }

  /** An outcome other than a block never disconnects anyone. */
  lemma OnlyBlockDisconnects(o: Outcome, steamId: string, localize: string -> Option<string>)
    ensures DisconnectKicked in Effects(o, steamId, localize) <==> o == Blocked
  {
    if o == Blocked {
      assert Effects(o, steamId, localize)[2] == DisconnectKicked;
    }
  }

  /**
   * A verdict that arrives after the slot was taken by another player (or
   * emptied) is dropped: nobody is disconnected or messaged.
   */
  lemma ReusedSlotVerdictDropped(cfg: Config, steamId: string, result: BanCheckResult,
                                 current: Option<PlayerView>, localize: string -> Option<string>)
    requires !IsHuman(current) || current.value.steamId != steamId
    ensures ApplyVerdict(cfg, steamId, Some(result), current) == Dropped
    ensures Effects(ApplyVerdict(cfg, steamId, Some(result), current), steamId, localize) == []
  {
  }

  /** A player with an active, in-scope Steam ban who is still in the slot is disconnected. */
  lemma SteamBannedPlayerDisconnected(cfg: Config, serverId: Option<int>, s: seq<BanRecord>, now: int,
                                      p: PlayerView, playerIp: Option<string>, k: int)
    requires SameSession(Some(p), p.steamId)
    requires 0 <= k < |s|
    requires SteamBanRow(s[k], PlayerQuery(cfg, serverId, p.steamId, playerIp), now)
    ensures var q := PlayerQuery(cfg, serverId, p.steamId, playerIp);
      ApplyVerdict(cfg, p.steamId, Some(Evaluation(s, q, now)), Some(p)) == Blocked
  {
    SteamBanAlwaysBlocks(s, PlayerQuery(cfg, serverId, p.steamId, playerIp), now, k);
  }

  /**
   * A player whose only bans are past their end is admitted and, when join
   * messages are on, told that the ban expired.
   */
  lemma ExpiredBanAdmittedWithNotice(cfg: Config, q: Query, s: seq<BanRecord>, now: int, p: PlayerView, k: int)
    requires cfg.sendJoinMessage && SameSession(Some(p), q.steamId)
    requires 0 <= k < |s| && Selects(Expirable, s[k], q, now)
    requires forall i :: 0 <= i < |s| ==> !Selects(ActivePlayer, s[i], q, now)
    ensures ApplyVerdict(cfg, q.steamId, Some(Evaluation(s, q, now)), Some(p)) == Admitted(Some(BanExpiredNotice))
  {
    SweepInvisibleToQueries(s, q, now, Count(s, Expirable, q, now));
    assert forall i :: 0 <= i < |s| ==> !Selects(ActiveSteam, s[i], q, now) && !Selects(ActiveIp, s[i], q, now);
  }

  /**
   * Two players behind one address: the address is banned, this player was
   * unbanned later (higher record id) and has no Steam ban, so they are
   * admitted by the bypass.
   */
  lemma UnbannedPlayerOnBannedAddressAdmitted(cfg: Config, q: Query, s: seq<BanRecord>, now: int,
                                              p: PlayerView, a: int, u: int)
    requires SameSession(Some(p), q.steamId) && q.ip.Some?
    requires 0 <= a < |s| && Selects(ActiveIp, s[a], q, now)
    requires 0 <= u < |s| && Selects(UnbannedSteam, s[u], q, now)
    requires forall i :: 0 <= i < |s| && Selects(ActiveIp, s[i], q, now) ==> s[i].id <= s[u].id
    requires forall i :: 0 <= i < |s| ==> !Selects(ActiveSteam, s[i], q, now)
    ensures Evaluation(s, q, now).ipBanBypassedBySteamUnban
    ensures ApplyVerdict(cfg, q.steamId, Some(Evaluation(s, q, now)), Some(p)).Admitted?
  {
    BypassExactly(s, q, now);
    BypassOnlyLiftsIpBans(s, q, now);
  }

  /**
   * The whole connect path: skip without a connection string, resolve the
   * slot with bounded retries, clear the native ban list, evaluate, then
   * apply the verdict to whatever the slot holds when the verdict arrives.
   */
  method OnClientConnect(cfg: Config, connectionString: string, serverId: Option<int>,
                         table: array<BanRecord>, now: int, store: StoreHealth, rawIp: string,
                         slotAt: nat -> Option<PlayerView>, slotOnVerdict: Option<PlayerView>,
                         localize: string -> Option<string>)
    returns (outcome: Outcome, retries: nat, actions: seq<Action>)
    modifies table
    ensures outcome == Skipped <==> IsBlank(connectionString)
    ensures outcome == Skipped ==> retries == 0 && actions == [] && table[..] == old(table[..])
    ensures retries <= MaxRetries(cfg.resolvePlayerMaxAttempts)
    ensures forall n: nat :: n < retries ==> !Accepted(slotAt(n), Identified)
    ensures outcome == GaveUp ==>
              retries == MaxRetries(cfg.resolvePlayerMaxAttempts) && !Accepted(slotAt(retries), Identified) &&
              actions == [] && table[..] == old(table[..])
    ensures outcome != Skipped && outcome != GaveUp ==>
      Accepted(slotAt(retries), Identified) &&
      var p := slotAt(retries).value;
      var playerIp := if ExtractIp(p.ipAddress).Some? then ExtractIp(p.ipAddress) else ExtractIp(Some(rawIp));
      var q := PlayerQuery(cfg, serverId, p.steamId, playerIp);
      table[..] == (if store == Unreachable then old(table[..]) else Swept(old(table[..]), q, now)) &&
      outcome == ApplyVerdict(cfg, p.steamId,
                              if store == Reachable then Some(Evaluation(old(table[..]), q, now)) else None,
                              slotOnVerdict) &&
      actions == ClearNativeBanIdList(p.steamId) + Effects(outcome, p.steamId, localize)
  {
    if IsBlank(connectionString) {
      return Skipped, 0, [];
    }
    var initialIp := ExtractIp(Some(rawIp));
    var res;
    res, retries := Resolve(cfg.resolvePlayerMaxAttempts, slotAt, Identified);
    if !res.Resolved? {
      return GaveUp, retries, [];
    }
    var player := res.player;
    var steamId := player.steamId;
    var playerIp := if ExtractIp(player.ipAddress).Some? then ExtractIp(player.ipAddress) else initialIp;
    actions := ClearNativeBanIdList(steamId);
    var result := EvaluateBanState(cfg, serverId, table, now, store, steamId, playerIp);
    outcome := ApplyVerdict(cfg, steamId, result, slotOnVerdict);
    actions := actions + Effects(outcome, steamId, localize);
  }
}
