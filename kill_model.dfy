/**
  Entities of the kill lifecycle, as the stores hold them, and the error
  kinds the service raises. Nullable Java references are `Option`s.
 */
module KillModel {

  datatype Option<+T> = None | Some(value: T)

  type PlayerId = string
  type GameId = string

  /** Status names, as `PlayerStatus`, `GameState` and the kill's
      verification status spell them. */
  const ActiveStatus: string := "ACTIVE"
  const DeadStatus: string := "DEAD"
  const PendingStatus: string := "PENDING"
  const PendingReviewStatus: string := "PENDING_REVIEW"
  const VerifiedStatus: string := "VERIFIED"
  const RejectedStatus: string := "REJECTED"
  const KillVerifiedType: string := "KILL_VERIFIED"

  /** A reported position. Coordinates are opaque: nothing here computes
      with them, the geometry belongs to the boundary and safe-zone checkers. */
  datatype Location = Location(latitude: real, longitude: real)

  datatype Player = Player(
    gameId: Option<GameId>,
    status: Option<string>,
    targetId: Option<PlayerId>,
    secret: Option<string>,
    targetSecret: Option<string>,
    playerName: Option<string>)

  datatype Game = Game(status: Option<string>, boundary: Option<seq<Location>>)

  /** The kill store's composite key. */
  datatype KillKey = KillKey(killerId: PlayerId, time: string)

  datatype Kill = Kill(
    killerId: PlayerId,
    victimId: PlayerId,
    time: string,
    latitude: Option<real>,
    longitude: Option<real>,
    verificationMethod: Option<string>,
    verificationStatus: Option<string>,
    verificationData: Option<map<string, string>>,
    verificationNotes: Option<string>,
    killStatusPartition: Option<string>,
    lastWill: Option<string>,
    deathConfirmed: bool)
  {
    function Key(): KillKey {
      KillKey(killerId, time)
    }

    /** The status-partition field mirrors the verification status. */
    predicate Mirrors() {
      killStatusPartition == verificationStatus
    }
  }

  /** Which check of the report chain raised the `ValidationException`. */
  datatype Violation =
    | InvalidIds
    | MissingLocation
    | MissingMethod
    | KillerNotFound
    | KillerNotActive
    | VictimNotFound
    | VictimNotActive
    | KillerHasNoGame
    | DifferentGames
    | OutsideBoundary
    | NotYourTarget

  /** One case per exception class the service throws. */
  datatype Error =
    | Validation(violation: Violation)
    | GameNotFound
    | InvalidGameState
    | SafeZone
    | PlayerNotFound
    | KillNotFound
    /** The current status is carried only where the exception's message
        names it (verifyKill); confirmDeath only logs it. */
    | ActionNotAllowed(currentStatus: Option<string>)

  datatype Result<+T> = Ok(value: T) | Err(error: Error)

  /** The verdict of the verification strategy for a kill's method. */
  datatype Verdict = Verified | Rejected | NeedsReview

  datatype VerificationResult = VerificationResult(verdict: Verdict, notes: Option<string>)

  /** `VerificationResult.toKillVerificationStatus()`. */
  function StatusName(v: Verdict): (s: string)
    ensures s in {VerifiedStatus, RejectedStatus, PendingReviewStatus}
    ensures s == VerifiedStatus <==> v == Verified
    ensures s == PendingReviewStatus <==> v == NeedsReview
  {
    match v
    case Verified => VerifiedStatus
    case Rejected => RejectedStatus
    case NeedsReview => PendingReviewStatus
  }

  /** A notification handed to the notification service: recipient, type
      and structured data (the human-readable message is not modelled). */
  datatype Notification = Notification(recipientId: PlayerId, kind: string, data: map<string, string>)
}
