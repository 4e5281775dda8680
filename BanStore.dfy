/**
 * The `sa_bans` table as the BanCheck module's evaluator sees it, and the
 * statements it runs against that table on every connection: one UPDATE
 * (the expiry sweep) and a handful of SELECTs (the active counts, the
 * highest-id detail rows and the latest Steam unban id).  `CURRENT_TIMESTAMP`
 * is the integer `now`; a NULL column is `None`, and SQL's rule that a
 * comparison with NULL never holds is written out (`r.ends.Some? && …`,
 * `r.ip == q.ip` with `q.ip` present).
 */
module BanStore {
  import opened Wrappers

  datatype BanStatus = Active | Expired | Unbanned

  /** One row of `sa_bans`: `duration` is in seconds (0 = permanent), `ends` and `ip` may be NULL. */
  datatype BanRecord = BanRecord(
    id: int,
    steamId: string,
    ip: Option<string>,
    status: BanStatus,
    duration: int,
    ends: Option<int>,
    serverId: Option<int>,
    reason: Option<string>)

  /**
   * The parameters bound into every statement of one evaluation.  `ip` is
   * present exactly when IP checking is on for this player, `serverId`
   * exactly when the `server_id = @ServerId` condition is appended.
   */
  datatype Query = Query(steamId: string, ip: Option<string>, serverId: Option<int>)

  /** The WHERE clauses of the evaluator's statements (the Steam count and detail share one). */
  datatype Clause =
    | Expirable      // the UPDATE … SET status = 'EXPIRED'
    | ActiveSteam    // COUNT(*) and detail row for the Steam id
    | ActiveIp       // COUNT(*) and detail row for the IP
    | ActivePlayer   // detail row for Steam id OR IP
    | UnbannedSteam  // MAX(id) of the Steam id's UNBANNED rows

  /** `{serverCondition}`: empty when scoping is off; NULL `server_id` never matches. */
  predicate InServer(r: BanRecord, q: Query) {
    q.serverId.None? || r.serverId == q.serverId
  }

  predicate SteamMatches(r: BanRecord, q: Query) {
    r.steamId == q.steamId
  }

  /** `player_ip = @PlayerIP`: false for a NULL column or when IP checking is off. */
  predicate IpMatches(r: BanRecord, q: Query) {
    q.ip.Some? && r.ip == q.ip
  }

  /** `{playerCondition}`: the Steam id, or also the IP when IP checking is on. */
  predicate PlayerMatches(r: BanRecord, q: Query) {
    SteamMatches(r, q) || IpMatches(r, q)
  }

  /** `status = 'ACTIVE' AND duration > 0 AND ends <= CURRENT_TIMESTAMP`. */
  predicate PastEnd(r: BanRecord, now: int) {
    r.status == Active && r.duration > 0 && r.ends.Some? && r.ends.value <= now
  }

  /** `status = 'ACTIVE' AND (duration = 0 OR ends IS NULL OR ends > CURRENT_TIMESTAMP)`. */
  predicate Unexpired(r: BanRecord, now: int) {
    r.status == Active && (r.duration == 0 || r.ends.None? || r.ends.value > now)
  }

  /** Whether the statement with WHERE clause `c` selects row `r`. */
  predicate Selects(c: Clause, r: BanRecord, q: Query, now: int) {
    InServer(r, q) &&
    match c
    case Expirable => PastEnd(r, now) && PlayerMatches(r, q)
    case ActiveSteam => Unexpired(r, now) && SteamMatches(r, q)
    case ActiveIp => Unexpired(r, now) && IpMatches(r, q)
    case ActivePlayer => Unexpired(r, now) && PlayerMatches(r, q)
    case UnbannedSteam => r.status == Unbanned && SteamMatches(r, q)
  }

  /** `SELECT COUNT(*) … WHERE c` (and the row count the UPDATE reports). */
  function Count(s: seq<BanRecord>, c: Clause, q: Query, now: int): (n: nat)
    ensures n <= |s|
    ensures n > 0 <==> exists i :: 0 <= i < |s| && Selects(c, s[i], q, now)
  {
    if s == [] then 0
    else Count(s[..|s| - 1], c, q, now) + (if Selects(c, s[|s| - 1], q, now) then 1 else 0)
  }

  /**
   * `SELECT … WHERE c ORDER BY id DESC LIMIT 1` (and `SELECT MAX(id)`): a
   * selected row whose id no other selected row exceeds, or none.
   */
  function Highest(s: seq<BanRecord>, c: Clause, q: Query, now: int): (r: Option<BanRecord>)
    ensures r.None? <==> forall i :: 0 <= i < |s| ==> !Selects(c, s[i], q, now)
    ensures r.Some? ==> r.value in s && Selects(c, r.value, q, now)
    ensures r.Some? ==> forall i :: 0 <= i < |s| && Selects(c, s[i], q, now) ==> s[i].id <= r.value.id
  {
    if s == [] then None
    else
      var rest := Highest(s[..|s| - 1], c, q, now);
      var last := s[|s| - 1];
      assert forall i :: 0 <= i < |s| - 1 ==> s[i] == s[..|s| - 1][i];
      if !Selects(c, last, q, now) || (rest.Some? && last.id <= rest.value.id) then rest
      else Some(last)
  }

  /** One row after the UPDATE. */
  function Expire(r: BanRecord, q: Query, now: int): BanRecord {
    if Selects(Expirable, r, q, now) then r.(status := Expired) else r
  }

  /**
   * The table after the expiry sweep: exactly the rows the UPDATE's WHERE
   * clause selects become EXPIRED, and every other row is unchanged.
   */
  function Swept(s: seq<BanRecord>, q: Query, now: int): (t: seq<BanRecord>)
    ensures |t| == |s|
    ensures forall i :: 0 <= i < |s| && Selects(Expirable, s[i], q, now) ==> t[i] == s[i].(status := Expired)
    ensures forall i :: 0 <= i < |s| && !Selects(Expirable, s[i], q, now) ==> t[i] == s[i]
  {
    if s == [] then [] else Swept(s[..|s| - 1], q, now) + [Expire(s[|s| - 1], q, now)]
  }

  /** The UPDATE run in place over the table; returns the affected-row count. */
  method ExpireBans(table: array<BanRecord>, q: Query, now: int) returns (expiredRows: nat)
    modifies table
    ensures table[..] == Swept(old(table[..]), q, now)
    ensures expiredRows == Count(old(table[..]), Expirable, q, now)
  {
    ghost var before := table[..];
    expiredRows := 0;
    var i := 0;
    while i < table.Length
      invariant 0 <= i <= table.Length
      invariant forall k :: 0 <= k < i ==> table[k] == Expire(before[k], q, now)
      invariant forall k :: i <= k < table.Length ==> table[k] == before[k]
      invariant expiredRows == Count(before[..i], Expirable, q, now)
    {
      assert before[..i + 1][..i] == before[..i];
      if Selects(Expirable, table[i], q, now) {
        table[i] := table[i].(status := Expired);
        expiredRows := expiredRows + 1;
      }
      i := i + 1;
    }
    assert before[..table.Length] == before;
  }

  /** A detail row: `SELECT id AS Id, reason AS Reason`. */
  datatype BanDetail = BanDetail(id: int, reason: Option<string>)

  function Detail(r: Option<BanRecord>): Option<BanDetail> {
    match r
    case None => None
    case Some(b) => Some(BanDetail(b.id, b.reason))
  }

  /** What the evaluator returns (the detail id/reason pairs are kept together). */
  datatype BanCheckResult = BanCheckResult(
    isBlocked: bool,
    steamBanned: bool,
    ipBanned: bool,
    ipBanBypassedBySteamUnban: bool,
    latestSteamUnbanId: Option<int>,
    expiredBanUpdated: bool,
    activeBan: Option<BanDetail>,
    steamBan: Option<BanDetail>,
    ipBan: Option<BanDetail>)

  /** The SELECTs and the decision, run on the table `t` left by the sweep. */
  function Verdict(t: seq<BanRecord>, q: Query, now: int, expiredRows: nat): BanCheckResult {
    var checkIp := q.ip.Some?;
    var steamActiveRows := Count(t, ActiveSteam, q, now);
    var ipActiveRows := if checkIp then Count(t, ActiveIp, q, now) else 0;
    var activeBan := Detail(Highest(t, ActivePlayer, q, now));
    var steamBan := Detail(Highest(t, ActiveSteam, q, now));
    var ipBan := if checkIp then Detail(Highest(t, ActiveIp, q, now)) else None;
    var latestSteamUnbanId :=
      match Highest(t, UnbannedSteam, q, now)
      case None => None
      case Some(u) => Some(u.id);
    var steamBanned := steamActiveRows > 0;
    var ipBanned := checkIp && ipActiveRows > 0;
    var bypassed :=
      checkIp && ipBanned && !steamBanned && latestSteamUnbanId.Some? &&
      (ipBan.None? || ipBan.value.id <= latestSteamUnbanId.value);
    var isBlocked := steamBanned || (ipBanned && !bypassed);
    BanCheckResult(isBlocked, steamBanned, ipBanned, bypassed, latestSteamUnbanId,
                   expiredRows > 0, activeBan, steamBan, ipBan)
  }

  /** One whole evaluation on table `s`: sweep first, then query the swept table. */
  function Evaluation(s: seq<BanRecord>, q: Query, now: int): BanCheckResult {
    Verdict(Swept(s, q, now), q, now, Count(s, Expirable, q, now))
  }

  // ---------------------------------------------------------------------
  // The expiry sweep
  // ---------------------------------------------------------------------

  /** Sweeping a swept table changes nothing. */
  lemma SweepIdempotent(s: seq<BanRecord>, q: Query, now: int)
    ensures Swept(Swept(s, q, now), q, now) == Swept(s, q, now)
  {
    var t := Swept(s, q, now);
    forall i | 0 <= i < |t|
      ensures Swept(t, q, now)[i] == t[i]
    {
      assert !Selects(Expirable, t[i], q, now);
    }
  }

  /** After a sweep no row is left for the UPDATE, so a rerun reports zero rows. */
  lemma {:induction false} SweptHasNothingToExpire(s: seq<BanRecord>, q: Query, now: int)
    ensures Count(Swept(s, q, now), Expirable, q, now) == 0
  {
    var t := Swept(s, q, now);
    forall i | 0 <= i < |t|
      ensures !Selects(Expirable, t[i], q, now)
    {
    }
  }

  /** `ExpiredBanUpdated` holds exactly when some row was due for expiry. */
  lemma ExpiredUpdatedIffSomeRowDue(s: seq<BanRecord>, q: Query, now: int)
    ensures Evaluation(s, q, now).expiredBanUpdated <==>
            exists i :: 0 <= i < |s| && Selects(Expirable, s[i], q, now)
  {
  }

  /**
   * For an ACTIVE row the player and server conditions select, with a
   * non-negative duration, the sweep and the active predicate are
   * complementary: it is either expired now or counted as active afterwards.
   */
  lemma SweepAndActiveComplementary(s: seq<BanRecord>, q: Query, now: int, i: int)
    requires 0 <= i < |s|
    requires s[i].status == Active && s[i].duration >= 0
    requires InServer(s[i], q) && PlayerMatches(s[i], q)
    ensures Selects(Expirable, s[i], q, now) <==> !Unexpired(Swept(s, q, now)[i], now)
    ensures Selects(Expirable, s[i], q, now) <==> Swept(s, q, now)[i].status == Expired
  {
  }

  /** An ACTIVE row with a negative duration whose end has passed is neither swept nor active. */
  lemma NegativeDurationNeitherSweptNorActive(s: seq<BanRecord>, q: Query, now: int, i: int)
    requires 0 <= i < |s|
    requires s[i].status == Active && s[i].duration < 0 && s[i].ends.Some? && s[i].ends.value <= now
    ensures Swept(s, q, now)[i] == s[i]
    ensures !Unexpired(Swept(s, q, now)[i], now)
  {
  }

  /** A timed row with a NULL end is never swept and stays active. */
  lemma NullEndNeverExpires(s: seq<BanRecord>, q: Query, now: int, i: int)
    requires 0 <= i < |s|
    requires s[i].status == Active && s[i].duration > 0 && s[i].ends.None?
    ensures Swept(s, q, now)[i] == s[i]
    ensures Unexpired(Swept(s, q, now)[i], now)
  {
  }

  // ---------------------------------------------------------------------
  // What the SELECTs see
  // ---------------------------------------------------------------------

  /** `a` and `b` agree, row by row, on what clause `c` selects and on the selected rows. */
  ghost predicate SameSelection(a: seq<BanRecord>, b: seq<BanRecord>, c: Clause, q: Query, now: int) {
    |a| == |b| &&
    forall i :: 0 <= i < |a| ==>
      (Selects(c, a[i], q, now) <==> Selects(c, b[i], q, now)) &&
      (Selects(c, a[i], q, now) ==> a[i] == b[i])
  }

  lemma SameSelectionPrefix(a: seq<BanRecord>, b: seq<BanRecord>, c: Clause, q: Query, now: int)
    requires SameSelection(a, b, c, q, now) && a != []
    ensures SameSelection(a[..|a| - 1], b[..|b| - 1], c, q, now)
  {
    var n := |a| - 1;
    assert forall i :: 0 <= i < n ==> a[..n][i] == a[i] && b[..n][i] == b[i];
  }

  lemma {:induction false} SameSelectionSameCount(a: seq<BanRecord>, b: seq<BanRecord>, c: Clause, q: Query, now: int)
    requires SameSelection(a, b, c, q, now)
    ensures Count(a, c, q, now) == Count(b, c, q, now)
    decreases |a|
  {
    if a != [] {
      SameSelectionPrefix(a, b, c, q, now);
      SameSelectionSameCount(a[..|a| - 1], b[..|b| - 1], c, q, now);
    }
  }

  lemma {:induction false} SameSelectionSameHighest(a: seq<BanRecord>, b: seq<BanRecord>, c: Clause, q: Query, now: int)
    requires SameSelection(a, b, c, q, now)
    ensures Highest(a, c, q, now) == Highest(b, c, q, now)
    decreases |a|
  {
    if a != [] {
      var n := |a| - 1;
      SameSelectionPrefix(a, b, c, q, now);
      SameSelectionSameHighest(a[..n], b[..n], c, q, now);
      assert Selects(c, a[n], q, now) <==> Selects(c, b[n], q, now);
      assert Selects(c, a[n], q, now) ==> a[n] == b[n];
    }
  }

  lemma SameSelectionSameAnswers(a: seq<BanRecord>, b: seq<BanRecord>, c: Clause, q: Query, now: int)
    requires SameSelection(a, b, c, q, now)
    ensures Count(a, c, q, now) == Count(b, c, q, now)
    ensures Highest(a, c, q, now) == Highest(b, c, q, now)
  {
    SameSelectionSameCount(a, b, c, q, now);
    SameSelectionSameHighest(a, b, c, q, now);
  }

  /**
   * The sweep is invisible to the SELECTs: it only touches rows that the
   * active predicate already rejects, so the tier flags, detail rows and
   * unban id are the same as on the unswept table.
   */
  lemma SweepInvisibleToQueries(s: seq<BanRecord>, q: Query, now: int, expiredRows: nat)
    ensures Verdict(Swept(s, q, now), q, now, expiredRows) == Verdict(s, q, now, expiredRows)
  {
    SweptSameAnswers(s, q, now, ActiveSteam);
    SweptSameAnswers(s, q, now, ActiveIp);
    SweptSameAnswers(s, q, now, ActivePlayer);
    SweptSameAnswers(s, q, now, UnbannedSteam);
  }

  /** Every clause but the sweep's own sees the same rows before and after the sweep. */
  lemma SweptSameAnswers(s: seq<BanRecord>, q: Query, now: int, c: Clause)
    requires c != Expirable
    ensures Count(Swept(s, q, now), c, q, now) == Count(s, c, q, now)
    ensures Highest(Swept(s, q, now), c, q, now) == Highest(s, c, q, now)
  {
    var t := Swept(s, q, now);
    assert SameSelection(t, s, c, q, now);
    SameSelectionSameAnswers(t, s, c, q, now);
  }

  /** Evaluating again straight after an evaluation gives the same verdict, with nothing expired. */
  lemma ReevaluationSameVerdict(s: seq<BanRecord>, q: Query, now: int)
    ensures Evaluation(Swept(s, q, now), q, now) ==
            Evaluation(s, q, now).(expiredBanUpdated := false)
  {
    var t := Swept(s, q, now);
    SweepIdempotent(s, q, now);
    SweptHasNothingToExpire(s, q, now);
    SweepInvisibleToQueries(t, q, now, 0);
    SweepInvisibleToQueries(s, q, now, 0);
    SweepInvisibleToQueries(s, q, now, Count(s, Expirable, q, now));
  }

  // ---------------------------------------------------------------------
  // Tier flags, bypass and verdict
  // ---------------------------------------------------------------------

  /** A row that blocks the Steam tier on its own: ACTIVE, in scope, for this Steam id, not past its end. */
  predicate SteamBanRow(r: BanRecord, q: Query, now: int) {
    Selects(ActiveSteam, r, q, now)
  }

  /** An active Steam-tier row always blocks, whatever the IP tier says, and is never bypassed. */
  lemma SteamBanAlwaysBlocks(s: seq<BanRecord>, q: Query, now: int, k: int)
    requires 0 <= k < |s| && SteamBanRow(s[k], q, now)
    ensures Evaluation(s, q, now).steamBanned
    ensures Evaluation(s, q, now).isBlocked
    ensures !Evaluation(s, q, now).ipBanBypassedBySteamUnban
  {
    SweepInvisibleToQueries(s, q, now, Count(s, Expirable, q, now));
  }

  /** How the result's fields hang together, on every table. */
  lemma VerdictConsistent(t: seq<BanRecord>, q: Query, now: int, expiredRows: nat)
    ensures var r := Verdict(t, q, now, expiredRows);
      (r.isBlocked ==> r.steamBanned || r.ipBanned) &&
      (r.steamBanned ==> r.isBlocked) &&
      (r.ipBanBypassedBySteamUnban ==> r.ipBanned && !r.steamBanned && !r.isBlocked) &&
      (r.ipBanned && !r.ipBanBypassedBySteamUnban ==> r.isBlocked) &&
      (r.steamBanned <==> r.steamBan.Some?) &&
      (r.ipBanned <==> r.ipBan.Some?) &&
      (r.activeBan.Some? <==> r.steamBanned || r.ipBanned) &&
      (r.steamBan.Some? ==> r.steamBan.value.id <= r.activeBan.value.id) &&
      (r.ipBan.Some? ==> r.ipBan.value.id <= r.activeBan.value.id)
  {
    var a := Highest(t, ActivePlayer, q, now);
    var st := Highest(t, ActiveSteam, q, now);
    var ip := Highest(t, ActiveIp, q, now);
    if st.Some? {
      var i :| 0 <= i < |t| && t[i] == st.value;
    }
    if q.ip.Some? && ip.Some? {
      var i :| 0 <= i < |t| && t[i] == ip.value;
    }
    if a.Some? {
      var i :| 0 <= i < |t| && t[i] == a.value;
      assert Selects(ActiveSteam, t[i], q, now) || Selects(ActiveIp, t[i], q, now);
    }
  }

  /** With IP checking off the IP tier is silent: no IP ban, no bypass, blocked exactly on a Steam ban. */
  lemma IpTierOffWhenNotChecked(s: seq<BanRecord>, q: Query, now: int)
    requires q.ip.None?
    ensures !Evaluation(s, q, now).ipBanned
    ensures !Evaluation(s, q, now).ipBanBypassedBySteamUnban
    ensures Evaluation(s, q, now).ipBan.None?
    ensures Evaluation(s, q, now).isBlocked <==> Evaluation(s, q, now).steamBanned
  {
  }

  /**
   * The bypass, stated on the table: it holds exactly when IP checking is
   * on, the IP tier has an active row, the Steam tier has none, and some
   * UNBANNED row of this Steam id has an id no active IP row exceeds.
   */
  lemma BypassExactly(s: seq<BanRecord>, q: Query, now: int)
    ensures Evaluation(s, q, now).ipBanBypassedBySteamUnban <==>
      q.ip.Some? &&
      (exists k :: 0 <= k < |s| && Selects(ActiveIp, s[k], q, now)) &&
      (forall k :: 0 <= k < |s| ==> !Selects(ActiveSteam, s[k], q, now)) &&
      (exists u :: 0 <= u < |s| && Selects(UnbannedSteam, s[u], q, now) &&
         forall k :: 0 <= k < |s| && Selects(ActiveIp, s[k], q, now) ==> s[k].id <= s[u].id)
  {
    SweepInvisibleToQueries(s, q, now, Count(s, Expirable, q, now));
    var unban := Highest(s, UnbannedSteam, q, now);
    var ip := Highest(s, ActiveIp, q, now);
    if Evaluation(s, q, now).ipBanBypassedBySteamUnban {
      var u :| 0 <= u < |s| && s[u] == unban.value;
      assert Selects(UnbannedSteam, s[u], q, now);
    }
    if exists u :: 0 <= u < |s| && Selects(UnbannedSteam, s[u], q, now) &&
         forall k :: 0 <= k < |s| && Selects(ActiveIp, s[k], q, now) ==> s[k].id <= s[u].id {
      var u :| 0 <= u < |s| && Selects(UnbannedSteam, s[u], q, now) &&
         forall k :: 0 <= k < |s| && Selects(ActiveIp, s[k], q, now) ==> s[k].id <= s[u].id;
      if ip.Some? {
        var k :| 0 <= k < |s| && s[k] == ip.value;
        assert s[k].id <= s[u].id <= unban.value.id;
      }
    }
  }

  /** The bypass only ever lifts an IP ban: with it the player is admitted, without it an IP ban blocks. */
  lemma BypassOnlyLiftsIpBans(s: seq<BanRecord>, q: Query, now: int)
    ensures var r := Evaluation(s, q, now);
      (r.ipBanBypassedBySteamUnban ==> !r.isBlocked && r.ipBanned && !r.steamBanned) &&
      (r.isBlocked <==> r.steamBanned || (r.ipBanned && !r.ipBanBypassedBySteamUnban))
  {
    VerdictConsistent(Swept(s, q, now), q, now, Count(s, Expirable, q, now));
  }

  /**
   * A row that no clause can select (another server under scoping, or
   * neither this Steam id nor this IP) is left alone by the sweep and does
   * not change the result.
   */
  lemma UnrelatedRowIgnored(s: seq<BanRecord>, q: Query, now: int, r: BanRecord)
    requires !InServer(r, q) || (!SteamMatches(r, q) && !IpMatches(r, q))
    ensures Swept(s + [r], q, now) == Swept(s, q, now) + [r]
    ensures Evaluation(s + [r], q, now) == Evaluation(s, q, now)
  {
    var s' := s + [r];
    assert s'[..|s'| - 1] == s;
    var t := Swept(s, q, now);
    var t' := Swept(s', q, now);
    assert t' == t + [r];
    assert t'[..|t'| - 1] == t;
  }
}
