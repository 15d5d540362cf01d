/**
  The kill lifecycle as values: the guard chains of reportKill, verifyKill
  and confirmDeath, the records they write on success, and what is proved
  about them. The service class proves its methods against these functions.
 */
module KillRules {
  import opened JavaStrings
  import opened KillModel

  /** The arguments of reportKill, each nullable as in the source. */
  datatype KillReport = KillReport(
    killerId: Option<PlayerId>,
    victimId: Option<PlayerId>,
    latitude: Option<real>,
    longitude: Option<real>,
    verificationMethod: Option<string>,
    verificationData: Option<map<string, string>>)

  /** The boundary and safe-zone predicates the service consults. */
  type BoundaryCheck = (Location, seq<Location>) -> bool
  type SafeZoneCheck = (GameId, Location) -> bool

  // ---------------------------------------------------------------------
  // reportKill: argument checks (both modes)
  // ---------------------------------------------------------------------

  predicate IdsValid(r: KillReport) {
    r.killerId.Some? && r.victimId.Some? && r.killerId.value != r.victimId.value
  }

  predicate LocationPresent(r: KillReport) {
    r.latitude.Some? && r.longitude.Some?
  }

  predicate MethodPresent(r: KillReport) {
    r.verificationMethod.Some? && !IsBlank(r.verificationMethod.value)
  }

  predicate ArgumentsValid(r: KillReport) {
    IdsValid(r) && LocationPresent(r) && MethodPresent(r)
  }

  /** The three argument checks, in order; they read no store. */
  function ArgumentError(r: KillReport): (e: Option<Error>)
    ensures e.None? <==> ArgumentsValid(r)
    ensures e.Some? ==> e.value.Validation?
    ensures !IdsValid(r) ==> e == Some(Validation(InvalidIds))
  {
    if !IdsValid(r) then Some(Validation(InvalidIds))
    else if !LocationPresent(r) then Some(Validation(MissingLocation))
    else if !MethodPresent(r) then Some(Validation(MissingMethod))
    else None
  }

  function KillLocation(r: KillReport): Location
    requires LocationPresent(r)
  {
    Location(r.latitude.value, r.longitude.value)
  }

  // ---------------------------------------------------------------------
  // reportKill: the game-rule checks of normal mode, as conditions
  // ---------------------------------------------------------------------

  predicate IsActive(p: Player) {
    p.status == Some(ActiveStatus)
  }

  /** Killer and victim exist, are ACTIVE (case-sensitively) and share a
      non-blank game id. */
  predicate PlayersEligible(players: map<PlayerId, Player>, r: KillReport)
    requires IdsValid(r)
  {
    var k, v := r.killerId.value, r.victimId.value;
    && k in players && IsActive(players[k])
    && v in players && IsActive(players[v])
    && players[k].gameId.Some? && !IsBlank(players[k].gameId.value)
    && players[v].gameId == players[k].gameId
  }

  function GameOf(players: map<PlayerId, Player>, r: KillReport): GameId
    requires IdsValid(r) && PlayersEligible(players, r)
  {
    players[r.killerId.value].gameId.value
  }

  predicate GameActive(games: map<GameId, Game>, g: GameId) {
    g in games && games[g].status == Some(ActiveStatus)
  }

  /** A missing or empty boundary admits every location. */
  predicate WithinBoundary(boundary: Option<seq<Location>>, loc: Location, inBoundary: BoundaryCheck) {
    boundary.None? || boundary.value == [] || inBoundary(loc, boundary.value)
  }

  /** Every check of normal mode passes. */
  predicate KillIsLegal(players: map<PlayerId, Player>, games: map<GameId, Game>, r: KillReport,
                        inBoundary: BoundaryCheck, inSafeZone: SafeZoneCheck)
  {
    && ArgumentsValid(r)
    && PlayersEligible(players, r)
    && GameActive(games, GameOf(players, r))
    && WithinBoundary(games[GameOf(players, r)].boundary, KillLocation(r), inBoundary)
    && players[r.killerId.value].targetId == Some(r.victimId.value)
    && !inSafeZone(GameOf(players, r), KillLocation(r))
  }

  /** The checks of reportKill in normal mode, in the order the source runs
      them; `None` when the kill is accepted. */
  function ReportGuard(players: map<PlayerId, Player>, games: map<GameId, Game>, r: KillReport,
                       inBoundary: BoundaryCheck, inSafeZone: SafeZoneCheck): (e: Option<Error>)
    ensures e.None? <==> KillIsLegal(players, games, r, inBoundary, inSafeZone)
  {
    if ArgumentError(r).Some? then ArgumentError(r)
    else
      var k, v := r.killerId.value, r.victimId.value;
      if k !in players then Some(Validation(KillerNotFound))
      else if !IsActive(players[k]) then Some(Validation(KillerNotActive))
      else if v !in players then Some(Validation(VictimNotFound))
      else if !IsActive(players[v]) then Some(Validation(VictimNotActive))
      else if players[k].gameId.None? || IsBlank(players[k].gameId.value) then Some(Validation(KillerHasNoGame))
      else if players[v].gameId != players[k].gameId then Some(Validation(DifferentGames))
      else
        var g := players[k].gameId.value;
        if g !in games then Some(GameNotFound)
        else if games[g].status != Some(ActiveStatus) then Some(InvalidGameState)
        else if !WithinBoundary(games[g].boundary, KillLocation(r), inBoundary) then Some(Validation(OutsideBoundary))
        else if players[k].targetId != Some(v) then Some(Validation(NotYourTarget))
        else if inSafeZone(g, KillLocation(r)) then Some(SafeZone)
        else None
  }

  // ---------------------------------------------------------------------
  // reportKill: what is written on success
  // ---------------------------------------------------------------------

  /** The Kill record reportKill saves. Test mode never sets the
      status-partition field. */
  function NewKill(r: KillReport, now: string, testMode: bool): (k: Kill)
    requires ArgumentsValid(r)
    ensures k.killerId == r.killerId.value && k.victimId == r.victimId.value && k.time == now
    ensures k.latitude == r.latitude && k.longitude == r.longitude
    ensures k.verificationMethod == Some(ToUpper(r.verificationMethod.value))
    ensures k.verificationData == r.verificationData
    ensures k.verificationStatus == Some(PendingStatus)
    ensures k.killStatusPartition == if testMode then None else Some(PendingStatus)
    ensures k.verificationNotes.None? && k.lastWill.None? && !k.deathConfirmed
  {
    Kill(r.killerId.value, r.victimId.value, now, r.latitude, r.longitude,
         Some(ToUpper(r.verificationMethod.value)), Some(PendingStatus), r.verificationData,
         None, if testMode then None else Some(PendingStatus), None, false)
  }

  /** The victim's record after the kill: DEAD, no target, no secrets. */
  function Killed(p: Player): (d: Player)
    ensures d.status == Some(DeadStatus)
    ensures d.targetId.None? && d.secret.None? && d.targetSecret.None?
    ensures d.gameId == p.gameId && d.playerName == p.playerName
  {
    p.(status := Some(DeadStatus), targetId := None, secret := None, targetSecret := None)
  }

  /** The player store after an accepted kill in normal mode: the victim is
      killed and the killer inherits the victim's former target. */
  function Rewire(players: map<PlayerId, Player>, killerId: PlayerId, victimId: PlayerId): (q: map<PlayerId, Player>)
    requires killerId in players && victimId in players && killerId != victimId
    ensures q.Keys == players.Keys
    ensures q[victimId] == Killed(players[victimId])
    ensures q[killerId] == players[killerId].(targetId := players[victimId].targetId)
    ensures forall id :: id in players && id != killerId && id != victimId ==> q[id] == players[id]
  {
    players[victimId := Killed(players[victimId])][killerId := players[killerId].(targetId := players[victimId].targetId)]
  }

  /** The player store after a kill in test mode: the victim, if stored, is
      killed; the killer is written back unchanged. */
  function KillVictimIfPresent(players: map<PlayerId, Player>, victimId: PlayerId): (q: map<PlayerId, Player>)
    ensures q.Keys == players.Keys
    ensures victimId in players ==> q[victimId] == Killed(players[victimId])
    ensures forall id :: id in players && id != victimId ==> q[id] == players[id]
  {
    if victimId in players then players[victimId := Killed(players[victimId])] else players
  }

  /** An accepted report: the Kill returned and saved, and the new player store. */
  datatype Accepted = Accepted(kill: Kill, players: map<PlayerId, Player>)

  /** reportKill in normal mode, as a value. */
  function ReportKillNormal(players: map<PlayerId, Player>, games: map<GameId, Game>, r: KillReport, now: string,
                            inBoundary: BoundaryCheck, inSafeZone: SafeZoneCheck): Result<Accepted>
  {
    match ReportGuard(players, games, r, inBoundary, inSafeZone)
    case Some(e) => Err(e)
    case None => Ok(Accepted(NewKill(r, now, false), Rewire(players, r.killerId.value, r.victimId.value)))
  }

  /** reportKill in test mode, as a value. */
  function ReportKillTestMode(players: map<PlayerId, Player>, r: KillReport, now: string): Result<Accepted>
  {
    match ArgumentError(r)
    case Some(e) => Err(e)
    case None => Ok(Accepted(NewKill(r, now, true), KillVictimIfPresent(players, r.victimId.value)))
  }

  // ---------------------------------------------------------------------
  // reportKill: properties
  // ---------------------------------------------------------------------

  /** Malformed arguments are rejected with a validation error before any
      store or checker is consulted, in either mode. */
  lemma ArgumentErrorsPrecedeStores(players: map<PlayerId, Player>, games: map<GameId, Game>, r: KillReport, now: string,
                                    inBoundary: BoundaryCheck, inSafeZone: SafeZoneCheck)
    requires !ArgumentsValid(r)
    ensures ReportKillNormal(players, games, r, now, inBoundary, inSafeZone).Err?
    ensures ReportKillNormal(players, games, r, now, inBoundary, inSafeZone).error.Validation?
    ensures ReportKillNormal(players, games, r, now, inBoundary, inSafeZone)
         == ReportKillNormal(map[], map[], r, now, (l, b) => false, (g, l) => true)
    ensures ReportKillTestMode(players, r, now) == Err(ReportKillNormal(players, games, r, now, inBoundary, inSafeZone).error)
    ensures r.killerId.None? || r.victimId.None? || r.killerId == r.victimId
         ==> ReportKillNormal(players, games, r, now, inBoundary, inSafeZone) == Err(Validation(InvalidIds))
    ensures IdsValid(r) && (r.latitude.None? || r.longitude.None?)
         ==> ReportKillNormal(players, games, r, now, inBoundary, inSafeZone) == Err(Validation(MissingLocation))
    ensures IdsValid(r) && LocationPresent(r)
         ==> ReportKillNormal(players, games, r, now, inBoundary, inSafeZone) == Err(Validation(MissingMethod))
  {
  }

  /** The order of the game-rule checks, stated per error kind: each kind is
      raised exactly when every earlier check passed and its own failed. */
  lemma ReportErrorOrder(players: map<PlayerId, Player>, games: map<GameId, Game>, r: KillReport, now: string,
                         inBoundary: BoundaryCheck, inSafeZone: SafeZoneCheck)
    requires ArgumentsValid(r)
    ensures var res := ReportKillNormal(players, games, r, now, inBoundary, inSafeZone);
      var k, v := r.killerId.value, r.victimId.value;
      && (res == Err(Validation(KillerNotFound)) <==> k !in players)
      && (res == Err(Validation(KillerNotActive)) <==> k in players && !IsActive(players[k]))
      && (res == Err(Validation(VictimNotFound)) <==> k in players && IsActive(players[k]) && v !in players)
      && (res == Err(Validation(VictimNotActive))
          <==> k in players && IsActive(players[k]) && v in players && !IsActive(players[v]))
      && (res == Err(Validation(KillerHasNoGame))
          <==> k in players && IsActive(players[k]) && v in players && IsActive(players[v])
               && (players[k].gameId.None? || IsBlank(players[k].gameId.value)))
      && (res == Err(Validation(DifferentGames))
          <==> k in players && IsActive(players[k]) && v in players && IsActive(players[v])
               && players[k].gameId.Some? && !IsBlank(players[k].gameId.value)
               && players[v].gameId != players[k].gameId)
      && (res.Err? && res.error.Validation? && res.error.violation in {KillerNotFound, KillerNotActive, VictimNotFound, VictimNotActive, KillerHasNoGame, DifferentGames}
          <==> !PlayersEligible(players, r))
      && (res == Err(GameNotFound)
          <==> PlayersEligible(players, r) && GameOf(players, r) !in games)
      && (res == Err(InvalidGameState)
          <==> PlayersEligible(players, r) && GameOf(players, r) in games && !GameActive(games, GameOf(players, r)))
      && (res == Err(Validation(OutsideBoundary))
          <==> PlayersEligible(players, r) && GameActive(games, GameOf(players, r))
               && !WithinBoundary(games[GameOf(players, r)].boundary, KillLocation(r), inBoundary))
      && (res == Err(Validation(NotYourTarget))
          <==> PlayersEligible(players, r) && GameActive(games, GameOf(players, r))
               && WithinBoundary(games[GameOf(players, r)].boundary, KillLocation(r), inBoundary)
               && players[r.killerId.value].targetId != Some(r.victimId.value))
      && (res == Err(SafeZone)
          <==> PlayersEligible(players, r) && GameActive(games, GameOf(players, r))
               && WithinBoundary(games[GameOf(players, r)].boundary, KillLocation(r), inBoundary)
               && players[r.killerId.value].targetId == Some(r.victimId.value)
               && inSafeZone(GameOf(players, r), KillLocation(r)))
  {
  }

  /** A game without a boundary (null or empty) does not consult the
      boundary checker: the outcome is the same whatever it would answer. */
  lemma EmptyBoundaryAdmitsAnyLocation(players: map<PlayerId, Player>, games: map<GameId, Game>, r: KillReport, now: string,
                                       inBoundary: BoundaryCheck, inSafeZone: SafeZoneCheck, g: GameId)
    requires g in games && (games[g].boundary.None? || games[g].boundary == Some([]))
    requires IdsValid(r) && r.killerId.value in players && players[r.killerId.value].gameId == Some(g)
    ensures ReportKillNormal(players, games, r, now, inBoundary, inSafeZone)
         == ReportKillNormal(players, games, r, now, (l, b) => false, inSafeZone)
  {
  }

  /** A report is accepted exactly when every check passes, and then the
      saved Kill and the two player records are as the source writes them,
      with every other player record untouched. */
  lemma AcceptedReport(players: map<PlayerId, Player>, games: map<GameId, Game>, r: KillReport, now: string,
                       inBoundary: BoundaryCheck, inSafeZone: SafeZoneCheck)
    ensures ReportKillNormal(players, games, r, now, inBoundary, inSafeZone).Ok?
        <==> KillIsLegal(players, games, r, inBoundary, inSafeZone)
    ensures ReportKillNormal(players, games, r, now, inBoundary, inSafeZone).Ok? ==>
      var a := ReportKillNormal(players, games, r, now, inBoundary, inSafeZone).value;
      var k, v := r.killerId.value, r.victimId.value;
      && a.kill.killerId == k && a.kill.victimId == v && a.kill.time == now
      && a.kill.latitude == r.latitude && a.kill.longitude == r.longitude
      && a.kill.verificationMethod == Some(ToUpper(r.verificationMethod.value))
      && a.kill.verificationStatus == Some(PendingStatus) && a.kill.killStatusPartition == Some(PendingStatus)
      && a.players.Keys == players.Keys
      && a.players[v].status == Some(DeadStatus)
      && a.players[v].targetId.None? && a.players[v].secret.None? && a.players[v].targetSecret.None?
      && a.players[k].targetId == players[v].targetId
      && a.players[k].status == players[k].status
      && (forall id :: id in players && id != k && id != v ==> a.players[id] == players[id])
  {
  }

  /** In test mode the game rules are skipped: valid arguments are always
      accepted, the killer's target is left as it was, and the saved Kill
      breaks the status-partition mirror. */
  lemma TestModeReport(players: map<PlayerId, Player>, r: KillReport, now: string)
    requires ArgumentsValid(r)
    ensures ReportKillTestMode(players, r, now).Ok?
    ensures var a := ReportKillTestMode(players, r, now).value;
      && !a.kill.Mirrors()
      && a.kill.verificationStatus == Some(PendingStatus) && a.kill.killStatusPartition.None?
      && (r.killerId.value in players ==> a.players[r.killerId.value] == players[r.killerId.value])
      && (r.victimId.value in players ==> a.players[r.victimId.value].status == Some(DeadStatus))
      && (r.victimId.value !in players ==> a.players == players)
  {
  }

  /** reportKill compares statuses case-sensitively: a killer whose status
      is stored as "active" is turned away. */
  lemma ReportKillIsCaseSensitive(players: map<PlayerId, Player>, games: map<GameId, Game>, r: KillReport, now: string,
                                  inBoundary: BoundaryCheck, inSafeZone: SafeZoneCheck)
    requires ArgumentsValid(r) && r.killerId.value in players
    requires players[r.killerId.value].status == Some("active")
    ensures ReportKillNormal(players, games, r, now, inBoundary, inSafeZone) == Err(Validation(KillerNotActive))
  {
  }

  // ---------------------------------------------------------------------
  // verifyKill
  // ---------------------------------------------------------------------

  /** verifyKill accepts only a kill that is PENDING or PENDING_REVIEW
      (compared case-sensitively). */
  predicate AwaitsVerification(status: Option<string>) {
    status == Some(PendingStatus) || status == Some(PendingReviewStatus)
  }

  /** The kill after the verdict is recorded: status, notes and the
      status-partition mirror change, nothing else. */
  function ApplyVerdict(k: Kill, res: VerificationResult): (k': Kill)
    ensures k'.verificationStatus == Some(StatusName(res.verdict))
    ensures k'.verificationNotes == res.notes
    ensures k'.Mirrors()
    ensures k'.(verificationStatus := k.verificationStatus, verificationNotes := k.verificationNotes,
                killStatusPartition := k.killStatusPartition) == k
  {
    k.(verificationStatus := Some(StatusName(res.verdict)), verificationNotes := res.notes,
       killStatusPartition := Some(StatusName(res.verdict)))
  }

  /** verifyKill as a value: the Kill it saves and returns, or its error.
      `verdict` is what the verification manager answers for this kill (an
      error it raises propagates). */
  function VerifyKillSpec(kills: map<KillKey, Kill>, key: KillKey, verdict: Result<VerificationResult>): Result<Kill>
  {
    if key !in kills then Err(KillNotFound)
    else if !AwaitsVerification(kills[key].verificationStatus) then Err(ActionNotAllowed(kills[key].verificationStatus))
    else if verdict.Err? then Err(verdict.error)
    else Ok(ApplyVerdict(kills[key], verdict.value))
  }

  /** The errors of verifyKill, in order, and what a successful one writes. */
  lemma VerifyKillOutcome(kills: map<KillKey, Kill>, key: KillKey, verdict: Result<VerificationResult>)
    ensures key !in kills ==> VerifyKillSpec(kills, key, verdict) == Err(KillNotFound)
    ensures key in kills && !AwaitsVerification(kills[key].verificationStatus)
        ==> VerifyKillSpec(kills, key, verdict) == Err(ActionNotAllowed(kills[key].verificationStatus))
    ensures key in kills && AwaitsVerification(kills[key].verificationStatus) && verdict.Err?
        ==> VerifyKillSpec(kills, key, verdict) == Err(verdict.error)
    ensures VerifyKillSpec(kills, key, verdict).Ok?
        <==> key in kills && AwaitsVerification(kills[key].verificationStatus) && verdict.Ok?
    ensures VerifyKillSpec(kills, key, verdict).Ok? ==>
      var k' := VerifyKillSpec(kills, key, verdict).value;
      && k'.Key() == kills[key].Key()
      && k'.verificationStatus == Some(StatusName(verdict.value.verdict))
      && k'.killStatusPartition == k'.verificationStatus
      && k'.verificationNotes == verdict.value.notes
  {
  }

  /** A kill that was VERIFIED or REJECTED cannot be verified again; one
      sent to review can. */
  lemma VerdictIsFinalUnlessReview(kills: map<KillKey, Kill>, key: KillKey, verdict: Result<VerificationResult>,
                                   again: Result<VerificationResult>)
    requires VerifyKillSpec(kills, key, verdict).Ok?
    ensures var kills' := kills[key := VerifyKillSpec(kills, key, verdict).value];
      && (verdict.value.verdict != NeedsReview
          ==> VerifyKillSpec(kills', key, again) == Err(ActionNotAllowed(kills'[key].verificationStatus)))
      && (verdict.value.verdict == NeedsReview && again.Ok?
          ==> VerifyKillSpec(kills', key, again).Ok?)
  {
  }

  // ---------------------------------------------------------------------
  // The kill-verified notification
  // ---------------------------------------------------------------------

  /** The notification sendKillVerifiedNotification hands to the service,
      built after the kill has been saved. Building its data map throws
      (and the failure is swallowed) when the kill has no verification
      method, so there is no notification then. */
  function KillVerifiedNotification(players: map<PlayerId, Player>, k: Kill): (n: Option<Notification>)
    ensures n.Some? <==> k.verificationMethod.Some?
    ensures n.Some? ==> n.value.recipientId == k.killerId && n.value.kind == KillVerifiedType
    ensures n.Some? ==> n.value.data.Keys == {"killId", "killerId", "victimId", "verificationMethod", "newTargetId"}
    ensures n.Some? ==> n.value.data["victimId"] == k.victimId && n.value.data["killerId"] == k.killerId
    ensures n.Some? ==> n.value.data["killId"] == k.killerId + "_" + k.time
    ensures n.Some? ==> n.value.data["verificationMethod"] == k.verificationMethod.value
    ensures n.Some? ==> n.value.data["newTargetId"]
                        == if k.killerId in players && players[k.killerId].targetId.Some?
                           then players[k.killerId].targetId.value else ""
    ensures n.Some? ==> (n.value.data["newTargetId"] == ""
                         <==> k.killerId !in players || players[k.killerId].targetId.None?
                              || players[k.killerId].targetId == Some(""))
  {
    if k.verificationMethod.None? then None
    else
      var newTarget := if k.killerId in players && players[k.killerId].targetId.Some?
                       then players[k.killerId].targetId.value else "";
      Some(Notification(k.killerId, KillVerifiedType,
        map["killId" := k.killerId + "_" + k.time,
            "killerId" := k.killerId,
            "victimId" := k.victimId,
            "verificationMethod" := k.verificationMethod.value,
            "newTargetId" := newTarget]))
  }

  // ---------------------------------------------------------------------
  // confirmDeath
  // ---------------------------------------------------------------------

  predicate StatusIgnoringCase(status: Option<string>, name: string) {
    status.Some? && EqualsIgnoreCase(name, status.value)
  }

  /** The checks of confirmDeath before the kill lookup, in order; statuses
      are compared ignoring case. */
  function ConfirmDeathGuard(games: map<GameId, Game>, players: map<PlayerId, Player>,
                             gameId: GameId, victimId: PlayerId): (e: Option<Error>)
    ensures e.None? <==> gameId in games && StatusIgnoringCase(games[gameId].status, ActiveStatus)
                         && victimId in players && StatusIgnoringCase(players[victimId].status, DeadStatus)
    ensures e == Some(GameNotFound) <==> gameId !in games
    ensures e == Some(InvalidGameState) <==> gameId in games && !StatusIgnoringCase(games[gameId].status, ActiveStatus)
    ensures e == Some(PlayerNotFound)
        <==> gameId in games && StatusIgnoringCase(games[gameId].status, ActiveStatus) && victimId !in players
    ensures e == Some(ActionNotAllowed(None))
        <==> gameId in games && StatusIgnoringCase(games[gameId].status, ActiveStatus)
             && victimId in players && !StatusIgnoringCase(players[victimId].status, DeadStatus)
  {
    if gameId !in games then Some(GameNotFound)
    else if !StatusIgnoringCase(games[gameId].status, ActiveStatus) then Some(InvalidGameState)
    else if victimId !in players then Some(PlayerNotFound)
    else if !StatusIgnoringCase(players[victimId].status, DeadStatus) then Some(ActionNotAllowed(None))
    else None
  }

  /** confirmDeath accepts statuses in any letter case, unlike reportKill. */
  lemma ConfirmDeathIgnoresCase(games: map<GameId, Game>, players: map<PlayerId, Player>, gameId: GameId, victimId: PlayerId)
    requires gameId in games && games[gameId].status == Some("Active")
    requires victimId in players && players[victimId].status == Some("dead")
    ensures ConfirmDeathGuard(games, players, gameId, victimId).None?
  {
    assert EqualsIgnoreCase(ActiveStatus, "Active");
    assert EqualsIgnoreCase(DeadStatus, "dead");
  }

  /** The kill record after the victim confirms: the last will is recorded
      and the death confirmed; no other field, in particular no
      verification field, changes. */
  function ConfirmedKill(k: Kill, lastWill: Option<string>): (k': Kill)
    ensures k'.lastWill == lastWill && k'.deathConfirmed
    ensures k'.(lastWill := k.lastWill, deathConfirmed := k.deathConfirmed) == k
    ensures k'.Key() == k.Key() && (k.Mirrors() <==> k'.Mirrors())
  {
    k.(lastWill := lastWill, deathConfirmed := true)
  }

  // ---------------------------------------------------------------------
  // The status-partition mirror over the kill store
  // ---------------------------------------------------------------------

  ghost predicate AllMirror(kills: map<KillKey, Kill>) {
    forall key :: key in kills ==> kills[key].Mirrors()
  }

  /** Every write of normal mode keeps the mirror: the Kill a report saves,
      the Kill a verification saves and the Kill a confirmation saves. */
  lemma WritesKeepMirror(kills: map<KillKey, Kill>, players: map<PlayerId, Player>, games: map<GameId, Game>,
                         r: KillReport, now: string, inBoundary: BoundaryCheck, inSafeZone: SafeZoneCheck,
                         key: KillKey, verdict: Result<VerificationResult>, lastWill: Option<string>)
    requires AllMirror(kills)
    ensures ReportKillNormal(players, games, r, now, inBoundary, inSafeZone).Ok? ==>
      var k := ReportKillNormal(players, games, r, now, inBoundary, inSafeZone).value.kill;
      AllMirror(kills[k.Key() := k])
    ensures VerifyKillSpec(kills, key, verdict).Ok? ==>
      AllMirror(kills[key := VerifyKillSpec(kills, key, verdict).value])
    ensures key in kills ==> AllMirror(kills[key := ConfirmedKill(kills[key], lastWill)])
  {
  }
}
