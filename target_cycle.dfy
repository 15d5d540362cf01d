/**
  The target assignment of a game: the ACTIVE players of the game, each
  pointing at its target, should form one cycle through all of them.
  This module states that shape and proves that the rewiring an accepted
  kill performs keeps it: the victim leaves the cycle and the killer is
  pointed at the victim's former target.
 */
module TargetCycle {
  import opened KillModel
  import opened KillRules

  /** The players of game `g` whose status is ACTIVE. */
  ghost function ActivePlayers(players: map<PlayerId, Player>, g: GameId): set<PlayerId> {
    set id | id in players && IsActive(players[id]) && players[id].gameId == Some(g)
  }

  /** The element after position `i`, wrapping round to the front. */
  function Succ(c: seq<PlayerId>, i: nat): PlayerId
    requires i < |c|
  {
    if i + 1 < |c| then c[i + 1] else c[0]
  }

  /** `c` lists every ACTIVE player of `g` exactly once, and each of them
      targets the next one in `c`, the last one targeting the first. */
  ghost predicate IsTargetCycle(players: map<PlayerId, Player>, g: GameId, c: seq<PlayerId>) {
    && |c| > 0
    && (forall i, j :: 0 <= i < j < |c| ==> c[i] != c[j])
    && (forall id :: id in c <==> id in ActivePlayers(players, g))
    && (forall i :: 0 <= i < |c| ==> c[i] in players && players[c[i]].targetId == Some(Succ(c, i)))
  }

  /** The targets of the ACTIVE players of `g` form a single cycle. */
  ghost predicate SingleTargetCycle(players: map<PlayerId, Player>, g: GameId) {
    exists c :: IsTargetCycle(players, g, c)
  }

  /** Where position `i` of the rotation starting at `k` comes from. */
  function RotatedFrom(n: nat, k: nat, i: nat): (p: nat)
    requires k < n && i < n
    ensures p < n
  {
    if i < n - k then k + i else i - (n - k)
  }

  lemma RotatedAt(c: seq<PlayerId>, k: nat, i: nat)
    requires k < |c| && i < |c|
    ensures |c[k..] + c[..k]| == |c|
    ensures (c[k..] + c[..k])[i] == c[RotatedFrom(|c|, k, i)]
  {
  }

  /** The rotation lists the same players, each once. */
  lemma {:induction false} RotatedSameMembers(c: seq<PlayerId>, k: nat)
    requires k < |c|
    requires forall i, j :: 0 <= i < j < |c| ==> c[i] != c[j]
    ensures forall i, j :: 0 <= i < j < |c| ==> (c[k..] + c[..k])[i] != (c[k..] + c[..k])[j]
    ensures forall id :: id in (c[k..] + c[..k]) <==> id in c
  {
    var n, r := |c|, c[k..] + c[..k];
    forall i, j | 0 <= i < j < n
      ensures r[i] != r[j]
    {
      RotatedAt(c, k, i);
      RotatedAt(c, k, j);
    }
    forall id | id in c
      ensures id in r
    {
      var p :| 0 <= p < n && c[p] == id;
      if p >= k {
        RotatedAt(c, k, p - k);
      } else {
        RotatedAt(c, k, p + (n - k));
      }
    }
  }

  /** In the rotation, each element is still followed by its successor in `c`. */
  lemma {:induction false} RotatedSucc(c: seq<PlayerId>, k: nat, i: nat)
    requires k < |c| && i < |c|
    ensures Succ(c[k..] + c[..k], i) == Succ(c, RotatedFrom(|c|, k, i))
  {
    var n := |c|;
    if i + 1 < n {
      RotatedAt(c, k, i + 1);
    } else {
      RotatedAt(c, k, 0);
    }
  }

  /** A cycle read from any starting position is still the same cycle. */
  lemma {:induction false} RotatedCycle(players: map<PlayerId, Player>, g: GameId, c: seq<PlayerId>, k: nat)
    requires IsTargetCycle(players, g, c) && k < |c|
    ensures IsTargetCycle(players, g, c[k..] + c[..k])
    ensures (c[k..] + c[..k])[0] == c[k]
  {
    var r := c[k..] + c[..k];
    RotatedSameMembers(c, k);
    forall i | 0 <= i < |r|
      ensures r[i] in players && players[r[i]].targetId == Some(Succ(r, i))
    {
      RotatedAt(c, k, i);
      RotatedSucc(c, k, i);
    }
  }

  /** The one player whose target is `c[0]` is the last one in `c`. */
  lemma {:induction false} OnlyLastTargetsFirst(players: map<PlayerId, Player>, g: GameId, c: seq<PlayerId>, i: nat)
    requires IsTargetCycle(players, g, c) && i < |c|
    requires players[c[i]].targetId == Some(c[0])
    ensures i == |c| - 1
  {
    assert players[c[i]].targetId == Some(Succ(c, i));
  }

  /** Rewiring takes exactly the victim out of the ACTIVE players of the
      game; the killer stays. */
  lemma RewireActivePlayers(players: map<PlayerId, Player>, g: GameId, killerId: PlayerId, victimId: PlayerId)
    requires killerId in players && victimId in players && killerId != victimId
    ensures ActivePlayers(Rewire(players, killerId, victimId), g) == ActivePlayers(players, g) - {victimId}
  {
  }

  /** Taking the victim off the front of a cycle, whose last player is
      the killer, leaves a cycle under the rewired targets. */
  lemma {:induction false} DropVictim(players: map<PlayerId, Player>, g: GameId, r: seq<PlayerId>,
                                      killerId: PlayerId, victimId: PlayerId)
    requires IsTargetCycle(players, g, r) && |r| >= 2 && r[0] == victimId && r[|r| - 1] == killerId
    ensures IsTargetCycle(Rewire(players, killerId, victimId), g, r[1..])
  {
    var q := Rewire(players, killerId, victimId);
    var c' := r[1..];
    RewireActivePlayers(players, g, killerId, victimId);
    forall id
      ensures id in c' <==> id in ActivePlayers(q, g)
    {
      if id in r && id != victimId {
        var p :| 0 <= p < |r| && r[p] == id;
        assert c'[p - 1] == id;
      }
    }
    forall i | 0 <= i < |c'|
      ensures c'[i] in q && q[c'[i]].targetId == Some(Succ(c', i))
    {
      DroppedSucc(players, g, r, killerId, victimId, i);
    }
  }

  lemma DroppedSucc(players: map<PlayerId, Player>, g: GameId, r: seq<PlayerId>,
                    killerId: PlayerId, victimId: PlayerId, i: nat)
    requires IsTargetCycle(players, g, r) && |r| >= 2 && r[0] == victimId && r[|r| - 1] == killerId
    requires i < |r| - 1
    ensures r[1..][i] in players
    ensures Rewire(players, killerId, victimId)[r[1..][i]].targetId == Some(Succ(r[1..], i))
  {
    if i + 1 < |r| - 1 {
      assert r[1..][i] == r[i + 1] && r[i + 1] != victimId && r[i + 1] != killerId;
      assert Succ(r, i + 1) == r[1..][i + 1];
    } else {
      assert players[victimId].targetId == Some(Succ(r, 0));
    }
  }

  /** The rewiring of an accepted kill keeps a single target cycle: if the
      killer targets the victim and the targets of the ACTIVE players of the
      game form one cycle, then after the victim is killed and the killer is
      given the victim's former target they again form one cycle, over the
      remaining ACTIVE players. */
  lemma {:induction false} RewireKeepsSingleCycle(players: map<PlayerId, Player>, g: GameId, c: seq<PlayerId>,
                                                  killerId: PlayerId, victimId: PlayerId)
    requires IsTargetCycle(players, g, c)
    requires killerId in ActivePlayers(players, g) && victimId in ActivePlayers(players, g)
    requires killerId != victimId && players[killerId].targetId == Some(victimId)
    ensures IsTargetCycle(Rewire(players, killerId, victimId), g, CycleWithout(c, victimId))
    ensures |CycleWithout(c, victimId)| == |c| - 1
  {
    var k := IndexOf(c, victimId);
    RotatedCycle(players, g, c, k);
    var r := c[k..] + c[..k];
    var ki :| 0 <= ki < |r| && r[ki] == killerId;
    OnlyLastTargetsFirst(players, g, r, ki);
    DropVictim(players, g, r, killerId, victimId);
  }

  function IndexOf(c: seq<PlayerId>, id: PlayerId): (k: nat)
    requires id in c
    ensures k < |c| && c[k] == id
  {
    if c[0] == id then 0 else 1 + IndexOf(c[1..], id)
  }

  /** The cycle with `victimId` taken out, read from the victim's former target. */
  function CycleWithout(c: seq<PlayerId>, victimId: PlayerId): seq<PlayerId>
    requires victimId in c
  {
    var k := IndexOf(c, victimId);
    (c[k..] + c[..k])[1..]
  }

  /** With two ACTIVE players left, the survivor is given itself as target:
      the victim's former target was the killer, and nothing guards
      against it. */
  lemma LastTwoPlayers(players: map<PlayerId, Player>, g: GameId, c: seq<PlayerId>,
                       killerId: PlayerId, victimId: PlayerId)
    requires IsTargetCycle(players, g, c) && |c| == 2
    requires killerId in ActivePlayers(players, g) && victimId in ActivePlayers(players, g)
    requires killerId != victimId && players[killerId].targetId == Some(victimId)
    ensures Rewire(players, killerId, victimId)[killerId].targetId == Some(killerId)
    ensures ActivePlayers(Rewire(players, killerId, victimId), g) == {killerId}
  {
    assert killerId in c && victimId in c;
    if c[0] == victimId {
      assert c[1] == killerId;
      assert players[victimId].targetId == Some(Succ(c, 0));
    } else {
      assert c[0] == killerId && c[1] == victimId;
      assert players[victimId].targetId == Some(Succ(c, 1));
    }
    RewireActivePlayers(players, g, killerId, victimId);
  }

  /** Players of other games keep their status, game and target, so the
      cycles of other games are untouched. */
  lemma RewireLeavesOtherGames(players: map<PlayerId, Player>, g: GameId, h: GameId, c: seq<PlayerId>,
                               killerId: PlayerId, victimId: PlayerId)
    requires killerId in players && victimId in players && killerId != victimId
    requires players[killerId].gameId == Some(g) && players[victimId].gameId == Some(g) && h != g
    requires IsTargetCycle(players, h, c)
    ensures IsTargetCycle(Rewire(players, killerId, victimId), h, c)
  {
    var q := Rewire(players, killerId, victimId);
    assert ActivePlayers(q, h) == ActivePlayers(players, h);
    forall i | 0 <= i < |c|
      ensures c[i] in q && q[c[i]].targetId == Some(Succ(c, i))
    {
      assert c[i] in ActivePlayers(players, h);
    }
  }

  /** An accepted report in normal mode keeps a single target cycle in every
      game: in the killer's game over the ACTIVE players minus the victim,
      in every other game unchanged. */
  lemma AcceptedKillKeepsSingleCycle(players: map<PlayerId, Player>, games: map<GameId, Game>, r: KillReport, now: string,
                                     inBoundary: BoundaryCheck, inSafeZone: SafeZoneCheck, h: GameId)
    requires ReportKillNormal(players, games, r, now, inBoundary, inSafeZone).Ok?
    requires SingleTargetCycle(players, h)
    ensures SingleTargetCycle(ReportKillNormal(players, games, r, now, inBoundary, inSafeZone).value.players, h)
    ensures h == players[r.killerId.value].gameId.value ==>
      ActivePlayers(ReportKillNormal(players, games, r, now, inBoundary, inSafeZone).value.players, h)
        == ActivePlayers(players, h) - {r.victimId.value}
  {
    assert KillIsLegal(players, games, r, inBoundary, inSafeZone);
    var k, v := r.killerId.value, r.victimId.value;
    var g := GameOf(players, r);
    var c :| IsTargetCycle(players, h, c);
    RewireActivePlayers(players, h, k, v);
    if h == g {
      RewireKeepsSingleCycle(players, g, c, k, v);
    } else {
      RewireLeavesOtherGames(players, g, h, c, k, v);
    }
  }
}
