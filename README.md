# Kill lifecycle of the assassin game service

This project models the kill lifecycle of `KillService` in the assassin game
backend, and proves what it does. The lifecycle has three operations.

- **reportKill** runs an ordered chain of checks. It then saves a `PENDING`
  Kill record and rewires the target graph: the victim becomes `DEAD` and
  loses its target and secrets, and the killer inherits the victim's former
  target.
- **verifyKill** applies the verification verdict to a `PENDING` or
  `PENDING_REVIEW` kill. It mirrors the new status into the status-partition
  field, and it notifies the killer when the kill is verified.
- **confirmDeath** checks the game and the victim. It then records the
  victim's last will on the kill of its death.

Layout:

- `java_strings.dfy` (`JavaStrings`): `trim().isEmpty()`, `toUpperCase()` and
  `equalsIgnoreCase`, which the checks rely on.
- `kill_model.dfy` (`KillModel`): players, games, kills, the composite kill
  key, the verification verdict, notifications, and one error case per
  exception class. Nullable Java references are `Option`s.
- `kill_rules.dfy` (`KillRules`): the guard chains and the records written
  on success, as pure functions. It also holds the lemmas about error order,
  what is written, the status-partition mirror, and case sensitivity.
- `target_cycle.dfy` (`TargetCycle`): the single-cycle shape of the target
  assignment. It proves that an accepted kill keeps that shape.
- `kill_service.dfy` (`KillLifecycle`): class `KillService`. The player, game
  and kill stores are `map` fields. The methods read a record, set its fields
  and save it back, as the source does. Each method is proved against the
  functions of `KillRules`.

External collaborators become parameters or constructor constants:

- the boundary checker (`inBoundary`) and the safe-zone checker (`inSafeZone`);
- the verdict of the verification manager (`verdict`);
- the acceptance time (`now`);
- the test-mode switch (`testMode`);
- whether the player store can count kills (`countsKills`);
- whether the kill-count increment or the notification send throws
  (`incrementFails`, `notifyFails`).

Where the code departs from the intended design, the model follows the code:

- A missing or inactive killer or victim raises a validation error. It does
  not raise not-found or action-not-allowed (`KillService.java:124-137`).
- Test mode is a process-wide system property in the code
  (`KillService.java:119`). Here it is a constructor constant.
- In test mode the status-partition field is never set, and the killer keeps
  its target (`KillService.java:230-257`). So the mirror invariant and the
  target-cycle property hold in normal mode only. `TestModeReport` exhibits
  the broken mirror.
- `reportKill` and `verifyKill` compare statuses case-sensitively.
  `confirmDeath` ignores case (`KillService.java:451`, `:462`).
  `ReportKillIsCaseSensitive` and `ConfirmDeathIgnoresCase` show the
  difference.
- With two ACTIVE players left, an accepted kill makes the survivor its own
  target. Nothing in the code prevents this (`LastTwoPlayers`).

## Model

| member | source | states |
|---|---|---|
| `KillModel.StatusName` | aws-sam-assassin/src/main/java/com/assassin/service/KillService.java:295 | a verdict maps to one of VERIFIED, REJECTED or PENDING_REVIEW; VERIFIED exactly for the verified verdict |
| `JavaStrings.ToUpper` | aws-sam-assassin/src/main/java/com/assassin/service/KillService.java:195 | the upper-cased method has the same length, contains no lower-case letter, and maps each character by its case |
| `JavaStrings.IsBlank` | aws-sam-assassin/src/main/java/com/assassin/service/KillService.java:114 | `trim().isEmpty()`: every character is at most U+0020 (the test applied to the verification method and, at line 141, to the killer's game id) |
| `JavaStrings.Trim` | aws-sam-assassin/src/main/java/com/assassin/service/KillService.java:114 | the trimmed string is the slice of the input after the leading characters at most U+0020, and everything cut off at either end is at most U+0020; when not empty it starts and ends with a character above U+0020 |
| `JavaStrings.IsBlankIsTrimEmpty` | aws-sam-assassin/src/main/java/com/assassin/service/KillService.java:114 | a string is blank exactly when trimming it leaves the empty string |
| `JavaStrings.EqualsIgnoreCase` | aws-sam-assassin/src/main/java/com/assassin/service/KillService.java:451-462 | two strings are equal ignoring case exactly when their upper-cased forms are equal |
| `KillRules.ArgumentError` | aws-sam-assassin/src/main/java/com/assassin/service/KillService.java:107-116 | the argument checks pass exactly when both ids are present and differ, both coordinates are present, and the method is present and not blank; every failure is a validation error |
| `KillRules.ReportGuard` | aws-sam-assassin/src/main/java/com/assassin/service/KillService.java:107-183 | the normal-mode chain passes exactly when every check holds: players eligible, game ACTIVE, location inside the boundary when one is set, victim is the killer's target, location outside every safe zone |
| `KillRules.ReportKillNormal` | aws-sam-assassin/src/main/java/com/assassin/service/KillService.java:121-224 | the normal-mode outcome as a value: the chain's error, or the new Kill with the player store rewired; `AcceptedReport` and `ReportErrorOrder` state its properties |
| `KillRules.ReportKillTestMode` | aws-sam-assassin/src/main/java/com/assassin/service/KillService.java:225-263 | the test-mode outcome as a value: the argument error, or the new Kill with only the victim killed; `TestModeReport` states its properties |
| `KillRules.ArgumentErrorsPrecedeStores` | aws-sam-assassin/src/main/java/com/assassin/service/KillService.java:107-116 | malformed arguments give the same validation error whatever the stores and checkers hold, in both modes, and each malformation gives its own error in order |
| `KillRules.ReportErrorOrder` | aws-sam-assassin/src/main/java/com/assassin/service/KillService.java:124-183 | each error kind is raised exactly when all earlier checks passed and its own failed: killer missing, killer not ACTIVE, victim missing, victim not ACTIVE, killer without a game, different games, game missing, game not ACTIVE, outside boundary, not the target, safe zone |
| `KillRules.EmptyBoundaryAdmitsAnyLocation` | aws-sam-assassin/src/main/java/com/assassin/service/KillService.java:157-169 | with a null or empty boundary the outcome does not depend on the boundary checker |
| `KillRules.NewKill` | aws-sam-assassin/src/main/java/com/assassin/service/KillService.java:187-200 | the saved Kill carries the given ids, coordinates and data, the upper-cased method, status PENDING, and a partition of PENDING in normal mode and null in test mode |
| `KillRules.Killed` | aws-sam-assassin/src/main/java/com/assassin/service/KillService.java:208-212 | the victim becomes DEAD with no target and no secrets, keeping its game and name |
| `KillRules.Rewire` | aws-sam-assassin/src/main/java/com/assassin/service/KillService.java:206-219 | only the victim and the killer change: the victim is killed and the killer's target becomes the victim's former target |
| `KillRules.AcceptedReport` | aws-sam-assassin/src/main/java/com/assassin/service/KillService.java:185-224 | a report is accepted exactly when every check holds, and then the Kill and the two player records are as written with every other player untouched |
| `KillRules.KillVictimIfPresent` | aws-sam-assassin/src/main/java/com/assassin/service/KillService.java:243-257 | in test mode only a stored victim changes, and it is killed |
| `KillRules.TestModeReport` | aws-sam-assassin/src/main/java/com/assassin/service/KillService.java:225-263 | in test mode valid arguments are always accepted, the killer is unchanged, and the saved Kill breaks the status-partition mirror |
| `KillRules.ReportKillIsCaseSensitive` | aws-sam-assassin/src/main/java/com/assassin/service/KillService.java:127-130 | a killer whose status is stored as "active" is rejected as not active |
| `KillRules.ApplyVerdict` | aws-sam-assassin/src/main/java/com/assassin/service/KillService.java:294-299 | after a verdict, status and notes are the verdict's and the partition mirrors the status; no other field changes |
| `KillRules.VerifyKillSpec` | aws-sam-assassin/src/main/java/com/assassin/service/KillService.java:281-305 | the verifyKill outcome as a value: KillNotFound, action-not-allowed, the manager's error, or the kill with the verdict applied; `VerifyKillOutcome` states its properties |
| `KillRules.VerifyKillOutcome` | aws-sam-assassin/src/main/java/com/assassin/service/KillService.java:281-312 | a missing kill gives KillNotFound; a status other than PENDING or PENDING_REVIEW gives action-not-allowed naming it; a manager error propagates; success comes exactly when none of these holds and writes the mirrored verdict |
| `KillRules.VerdictIsFinalUnlessReview` | aws-sam-assassin/src/main/java/com/assassin/service/KillService.java:283-286 | a kill once VERIFIED or REJECTED cannot be verified again; a kill sent to review can |
| `KillRules.KillVerifiedNotification` | aws-sam-assassin/src/main/java/com/assassin/service/KillService.java:491-526 | the notification goes to the killer, has type KILL_VERIFIED and exactly five data entries: the kill id `killerId_time`, the killer and victim ids, the kill's verification method, and the killer's current target or "" when there is none; and is absent when the kill has no method to put in its data |
| `KillRules.ConfirmDeathGuard` | aws-sam-assassin/src/main/java/com/assassin/service/KillService.java:443-465 | game not found, game not ACTIVE, player not found and player not DEAD are raised in that order, each exactly when the earlier checks passed and its own failed, with statuses compared ignoring case; the not-DEAD error carries no status, as the exception does not |
| `KillRules.ConfirmDeathIgnoresCase` | aws-sam-assassin/src/main/java/com/assassin/service/KillService.java:451-462 | a game stored as "Active" and a player stored as "dead" pass the confirmDeath checks |
| `KillRules.ConfirmedKill` | aws-sam-assassin/src/main/java/com/assassin/service/KillService.java:475-477 | confirming sets the last will and death-confirmed and changes no other field, so the key and the mirror are kept |
| `KillRules.WritesKeepMirror` | aws-sam-assassin/src/main/java/com/assassin/service/KillService.java:196-200 | the Kill written by an accepted report, a verification or a confirmation keeps every stored partition equal to its status |
| `TargetCycle.RewireActivePlayers` | aws-sam-assassin/src/main/java/com/assassin/service/KillService.java:208 | after rewiring, the ACTIVE players of the game are the former ones minus the victim |
| `TargetCycle.RewireKeepsSingleCycle` | aws-sam-assassin/src/main/java/com/assassin/service/KillService.java:206-219 | if the targets of the ACTIVE players form one cycle and the killer targets the victim, after rewiring they form one cycle over the remaining ACTIVE players, one shorter |
| `TargetCycle.LastTwoPlayers` | aws-sam-assassin/src/main/java/com/assassin/service/KillService.java:209-217 | with two ACTIVE players in the cycle the surviving killer is given itself as target and is the only ACTIVE player left |
| `TargetCycle.RewireLeavesOtherGames` | aws-sam-assassin/src/main/java/com/assassin/service/KillService.java:206-219 | a target cycle of any other game is unchanged by the rewiring |
| `TargetCycle.AcceptedKillKeepsSingleCycle` | aws-sam-assassin/src/main/java/com/assassin/service/KillService.java:185-224 | an accepted normal-mode report keeps a single target cycle in every game, and removes exactly the victim from the killer's game |
| `KillLifecycle.KillService.constructor` | aws-sam-assassin/src/main/java/com/assassin/service/KillService.java:64-72 | the service starts over the given stores and collaborators, with test mode an explicit parameter |
| `KillLifecycle.KillService.ReportKill` | aws-sam-assassin/src/main/java/com/assassin/service/KillService.java:103-264 | on failure nothing is written; on success exactly one Kill is saved under its key, the player store is rewired (normal mode) or only the victim killed (test mode), the kill count is bumped only in normal mode with a counting store and no failure, and in normal mode the mirror and every single target cycle are kept |
| `KillLifecycle.KillService.IncrementKillerCount` | aws-sam-assassin/src/main/java/com/assassin/service/KillService.java:412-423 | the killer's count goes up by one only for a counting store without failure; a failure changes nothing and raises nothing |
| `KillLifecycle.KillService.GetKill` | aws-sam-assassin/src/main/java/com/assassin/service/KillService.java:388-392 | returns the kill stored under that killer id and time exactly when one is stored, else KillNotFound |
| `KillLifecycle.KillService.VerifyKill` | aws-sam-assassin/src/main/java/com/assassin/service/KillService.java:278-313 | result and kill store follow the verification rules, nothing is written on failure, a notification is queued only for a VERIFIED verdict and only if sending does not fail, and the mirror is kept |
| `KillLifecycle.KillService.SendKillVerifiedNotification` | aws-sam-assassin/src/main/java/com/assassin/service/KillService.java:491-532 | a failing send is swallowed and queues nothing; otherwise the kill-verified notification is queued |
| `KillLifecycle.KillService.RecordsDeath` | aws-sam-assassin/src/main/java/com/assassin/service/KillService.java:469 | the kill store's victim-and-game lookup: a stored kill matches when its victim is the victim and the store places it in the game |
| `KillLifecycle.KillService.ConfirmDeath` | aws-sam-assassin/src/main/java/com/assassin/service/KillService.java:438-483 | the guard errors come first and write nothing; with no kill of this victim in this game the result is KillNotFound; on success only that kill changes, by its last will and confirmation, and the mirror is kept |

## Left out

- Storage wiring and the DAO implementations (`KillService.java:52-85`) are not part of this model. The stores are in-memory maps. Storage failures (`PersistenceException`) are not modelled.
- Concurrency and conditional writes are left out. The code does plain saves, and the model is sequential.
- Boundary and safe-zone geometry (`GeoUtils.isPointInBoundary`, `SafeZoneService.isLocationInSafeZone`) are abstract predicates. Coordinates are opaque `real` values, and no floating-point arithmetic is modelled.
- `VerificationManager` and its per-method strategies are not part of this model. Their verdict, or the error they raise, is an input. So the verifier id and the submitted evidence do not appear.
- `Instant.now()` is the `now` parameter. Logging is not modelled. The human-readable notification message (`String.format`) is not modelled; only the recipient, type and data map are.
- The pass-through queries `getKillsByKiller`, `getKillsByVictim`, `findRecentKills`, `getAllKills` and `getKillsByGameId` only delegate to the kill store, so they are left out.
- `findKillRecordByVictimAndGame` is in the kill DAO, whose implementation is not shown; the kill store itself is modelled as `kills`. A stored kill belongs to a game when the constructor's `killInGame` predicate says so. When several kills match, which one is picked is left open.
- `incrementPlayerKillCount` is in the player DAO, whose implementation is not shown; the player store itself is modelled as `players`. Its effect is a per-player counter map, `killCounts`.
- The test-mode fallback method `"TEST_MODE"` (`KillService.java:236`) is unreachable, because a null method is rejected first. It is not modelled.
- Exceptions swallowed around the test-mode player updates (`KillService.java:258-260`) need a failing store, and store failures are not modelled.
- `VerificationResult` is not part of this model. `StatusName` assumes `toKillVerificationStatus` returns the name of the verdict: VERIFIED, REJECTED or PENDING_REVIEW.
- `PlayerStats` is a plain data holder with no behaviour, so it is left out. `PlayerNotFoundException` is the `PlayerNotFound` error case.
- JavaStrings.ToUpper: maps only the ASCII letters. Java's `toUpperCase` and `equalsIgnoreCase` also map other Unicode letters, and `toUpperCase` uses the default locale.
- JavaStrings.EqualsIgnoreCase: compares through the ASCII-only case mapping, so the two status checks of `confirmDeath` can disagree with Java's: `"ACTIVE".equalsIgnoreCase("ACTıVE")` (dotless ı, U+0131) is true in Java and false in the model.
