/**
  KillService: the stores it reads and writes, held as maps, and the three
  lifecycle operations written as the source writes them, by reading a
  record, setting its fields and saving it back. Each method is proved
  against the functions of KillRules, and keeps the invariants proved there.
 */
module KillLifecycle {
  import opened KillModel
  import opened KillRules
  import opened TargetCycle

  /** The count kept by the player store's increment operation; a player
      never counted has a count of zero. */
  function CountOf(counts: map<PlayerId, nat>, id: PlayerId): nat {
    if id in counts then counts[id] else 0
  }

  function AsSeq<T>(o: Option<T>): (s: seq<T>)
    ensures o.None? ==> s == []
    ensures o.Some? ==> s == [o.value]
  {
    if o.Some? then [o.value] else []
  }

  class KillService {
    /** The player, game and kill stores, keyed as the DAOs key them. */
    var players: map<PlayerId, Player>
    var games: map<GameId, Game>
    var kills: map<KillKey, Kill>
    /** Kill counts as incremented through the player store. */
    var killCounts: map<PlayerId, nat>
    /** Notifications handed to the notification service, oldest first. */
    var notifications: seq<Notification>

    /** Reduced validation for integration tests. */
    const testMode: bool
    /** Whether the player store is one that can increment kill counts. */
    const countsKills: bool
    const inBoundary: BoundaryCheck
    const inSafeZone: SafeZoneCheck
    /** The kill store's notion of a kill belonging to a game, used by its
        lookup of a victim's kill within a game. */
    const killInGame: (Kill, GameId) -> bool

    /** Every kill is stored under its own (killer id, time) key. */
    ghost predicate Valid()
      reads this
    {
      forall key :: key in kills ==> kills[key].Key() == key
    }

    constructor (players: map<PlayerId, Player>, games: map<GameId, Game>, kills: map<KillKey, Kill>,
                 testMode: bool, countsKills: bool,
                 inBoundary: BoundaryCheck, inSafeZone: SafeZoneCheck, killInGame: (Kill, GameId) -> bool)
      requires forall key :: key in kills ==> kills[key].Key() == key
      ensures Valid()
      ensures this.players == players && this.games == games && this.kills == kills
      ensures killCounts == map[] && notifications == []
      ensures this.testMode == testMode && this.countsKills == countsKills
      ensures this.inBoundary == inBoundary && this.inSafeZone == inSafeZone && this.killInGame == killInGame
    {
      this.players := players;
      this.games := games;
      this.kills := kills;
      this.killCounts := map[];
      this.notifications := [];
      this.testMode := testMode;
      this.countsKills := countsKills;
      this.inBoundary := inBoundary;
      this.inSafeZone := inSafeZone;
      this.killInGame := killInGame;
    }

    /** reportKill. `now` is the acceptance time, `incrementFails` whether
        the kill-count increment throws. */
    method ReportKill(killerId: Option<PlayerId>, victimId: Option<PlayerId>,
                      latitude: Option<real>, longitude: Option<real>,
                      verificationMethod: Option<string>, verificationData: Option<map<string, string>>,
                      now: string, incrementFails: bool) returns (r: Result<Kill>)
      requires Valid()
      modifies this`players, this`kills, this`killCounts
      ensures Valid()
      ensures var report := KillReport(killerId, victimId, latitude, longitude, verificationMethod, verificationData);
        var outcome := if testMode then ReportKillTestMode(old(players), report, now)
                       else ReportKillNormal(old(players), games, report, now, inBoundary, inSafeZone);
        match outcome
        case Err(e) =>
          r == Err(e) && players == old(players) && kills == old(kills) && killCounts == old(killCounts)
        case Ok(a) =>
          && r == Ok(a.kill)
          && players == a.players
          && kills == old(kills)[a.kill.Key() := a.kill]
          && killCounts == if !testMode && countsKills && !incrementFails
                           then old(killCounts)[a.kill.killerId := CountOf(old(killCounts), a.kill.killerId) + 1]
                           else old(killCounts)
      ensures !testMode && old(AllMirror(kills)) ==> AllMirror(kills)
      ensures !testMode && r.Ok? ==>
        forall h :: old(SingleTargetCycle(players, h)) ==> SingleTargetCycle(players, h)
    {
      var report := KillReport(killerId, victimId, latitude, longitude, verificationMethod, verificationData);
      var argumentError := ArgumentError(report);
      if argumentError.Some? {
        assert ReportKillTestMode(players, report, now) == Err(argumentError.value);
        assert ReportKillNormal(players, games, report, now, inBoundary, inSafeZone) == Err(argumentError.value);
        return Err(argumentError.value);
      }
      if !testMode {
        var ruleError := ReportGuard(players, games, report, inBoundary, inSafeZone);
        if ruleError.Some? {
          assert ReportKillNormal(players, games, report, now, inBoundary, inSafeZone) == Err(ruleError.value);
          return Err(ruleError.value);
        }
        ghost var before := players;
        ghost var accepted := ReportKillNormal(before, games, report, now, inBoundary, inSafeZone);
        assert accepted == Ok(Accepted(NewKill(report, now, false), Rewire(before, killerId.value, victimId.value)));
        var killer := players[killerId.value];
        var victim := players[victimId.value];
        var kill := NewKill(report, now, false);
        kills := kills[kill.Key() := kill];
        // the victim is dead: no target, no secrets
        victim := victim.(status := Some(DeadStatus));
        var victimsOldTarget := victim.targetId;
        victim := victim.(targetId := None);
        victim := victim.(secret := None);
        victim := victim.(targetSecret := None);
        players := players[victimId.value := victim];
        // the killer inherits the victim's former target
        killer := killer.(targetId := victimsOldTarget);
        players := players[killerId.value := killer];
        assert players == Rewire(before, killerId.value, victimId.value);
        forall h | SingleTargetCycle(before, h)
          ensures SingleTargetCycle(players, h)
        {
          AcceptedKillKeepsSingleCycle(before, games, report, now, inBoundary, inSafeZone, h);
        }
        IncrementKillerCount(killerId.value, incrementFails);
        return Ok(kill);
      } else {
        var kill := NewKill(report, now, true);
        assert ReportKillTestMode(players, report, now) == Ok(Accepted(kill, KillVictimIfPresent(players, victimId.value)));
        kills := kills[kill.Key() := kill];
        // the killer, if stored, is written back unchanged
        if victimId.value in players {
          var victim := players[victimId.value];
          victim := victim.(status := Some(DeadStatus), targetId := None, secret := None, targetSecret := None);
          players := players[victimId.value := victim];
        }
        return Ok(kill);
      }
    }

    /** incrementKillerCount: only a counting player store is asked, and a
        failure is swallowed. */
    method IncrementKillerCount(killerId: PlayerId, fails: bool)
      modifies this`killCounts
      ensures killCounts == if countsKills && !fails
                            then old(killCounts)[killerId := CountOf(old(killCounts), killerId) + 1]
                            else old(killCounts)
    {
      if countsKills && !fails {
        killCounts := killCounts[killerId := CountOf(killCounts, killerId) + 1];
      }
    }

    /** getKill: the kill stored under (killerId, time), or KillNotFound. */
    method GetKill(killerId: PlayerId, time: string) returns (r: Result<Kill>)
      requires Valid()
      ensures r.Ok? <==> KillKey(killerId, time) in kills
      ensures r.Err? ==> r.error == KillNotFound
      ensures r.Ok? ==> r.value == kills[KillKey(killerId, time)]
      ensures r.Ok? ==> r.value.killerId == killerId && r.value.time == time
    {
      var key := KillKey(killerId, time);
      if key !in kills {
        return Err(KillNotFound);
      }
      return Ok(kills[key]);
    }

    /** verifyKill. `verdict` is what the verification manager answers for
        the kill (the verifier's identity and evidence only reach it);
        `notifyFails` is whether sending the notification throws. */
    method VerifyKill(killerId: PlayerId, killTime: string, verdict: Result<VerificationResult>, notifyFails: bool)
      returns (r: Result<Kill>)
      requires Valid()
      modifies this`kills, this`notifications
      ensures Valid()
      ensures r == VerifyKillSpec(old(kills), KillKey(killerId, killTime), verdict)
      ensures kills == if r.Ok? then old(kills)[KillKey(killerId, killTime) := r.value] else old(kills)
      ensures notifications == old(notifications)
        + if r.Ok? && verdict.value.verdict == Verified && !notifyFails
          then AsSeq(KillVerifiedNotification(players, r.value)) else []
      ensures old(AllMirror(kills)) ==> AllMirror(kills)
    {
      var found := GetKill(killerId, killTime);
      if found.Err? {
        return found;
      }
      var kill := found.value;
      if !AwaitsVerification(kill.verificationStatus) {
        return Err(ActionNotAllowed(kill.verificationStatus));
      }
      if verdict.Err? {
        return Err(verdict.error);
      }
      var result := verdict.value;
      kill := kill.(verificationStatus := Some(StatusName(result.verdict)));
      kill := kill.(verificationNotes := result.notes);
      kill := kill.(killStatusPartition := kill.verificationStatus);
      kills := kills[kill.Key() := kill];
      if result.verdict == Verified {
        SendKillVerifiedNotification(kill, notifyFails);
      }
      return Ok(kill);
    }

    /** sendKillVerifiedNotification: a failure is swallowed. */
    method SendKillVerifiedNotification(kill: Kill, fails: bool)
      modifies this`notifications
      ensures notifications == old(notifications) + if fails then [] else AsSeq(KillVerifiedNotification(players, kill))
    {
      if !fails {
        var notification := KillVerifiedNotification(players, kill);
        if notification.Some? {
          notifications := notifications + [notification.value];
        }
      }
    }

    /** The kill store's lookup of the kill recording a victim's death in a game. */
    predicate RecordsDeath(k: Kill, victimId: PlayerId, gameId: GameId) {
      k.victimId == victimId && killInGame(k, gameId)
    }

    /** confirmDeath: the victim records a last will on the kill of its death. */
    method ConfirmDeath(gameId: GameId, victimId: PlayerId, lastWill: Option<string>) returns (r: Result<Kill>)
      requires Valid()
      modifies this`kills
      ensures Valid()
      ensures ConfirmDeathGuard(games, players, gameId, victimId).Some? ==>
        r == Err(ConfirmDeathGuard(games, players, gameId, victimId).value) && kills == old(kills)
      ensures r.Ok? <==> ConfirmDeathGuard(games, players, gameId, victimId).None?
                         && exists key :: key in old(kills) && RecordsDeath(old(kills)[key], victimId, gameId)
      ensures r.Err? ==> kills == old(kills)
      ensures ConfirmDeathGuard(games, players, gameId, victimId).None? && r.Err? ==> r.error == KillNotFound
      ensures r.Ok? ==>
        var key := r.value.Key();
        && key in old(kills) && RecordsDeath(old(kills)[key], victimId, gameId)
        && r.value == ConfirmedKill(old(kills)[key], lastWill)
        && kills == old(kills)[key := r.value]
      ensures old(AllMirror(kills)) ==> AllMirror(kills)
    {
      var guardError := ConfirmDeathGuard(games, players, gameId, victimId);
      if guardError.Some? {
        return Err(guardError.value);
      }
      var candidates := set key | key in kills && RecordsDeath(kills[key], victimId, gameId);
      if candidates == {} {
        assert forall key :: key in kills ==> key !in candidates;
        return Err(KillNotFound);
      }
      var key :| key in candidates;
      var killRecord := kills[key];
      killRecord := killRecord.(lastWill := lastWill);
      killRecord := killRecord.(deathConfirmed := true);
      kills := kills[killRecord.Key() := killRecord];
      return Ok(killRecord);
    }
  }
}
