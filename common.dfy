/** Identifiers, statuses and failures shared by the match and application services. */
module Common {

  datatype Option<+T> = None | Some(value: T)

  datatype Result<+T, +E> = Success(value: T) | Failure(error: E)

  /** Database ids are plain numbers; the store hands out new ones from counters. */
  type PlayerId = int
  type MatchId = int
  type ApplicationId = int

  /** The four rows of the MATCH_STATUS table. */
  datatype MatchStatus = Pending | Closed | Completed | Cancelled

  /** The schema's ApplicationStatus enum (PENDING, ACCEPTED, REJECTED). */
  datatype ApplicationStatus = ApplicationPending | ApplicationAccepted | ApplicationRejected

  /** The machine-readable codes carried by the services' CustomError. */
  datatype ErrorCode =
    | NoMatch
    | NoPlayer
    | Unauthorized
    | PlayerAlreadyInMatch
    | ApplicationAlreadyExists
    | ApplicationNoExist
    | ApplicationClosed
    | ApplicationMatchClosed
    | ApplicationTeamFull

  /** How an operation can fail:
      - Custom: a CustomError thrown by the service itself;
      - NotFound: the store refuses a write because a record it must update or connect is absent;
      - TypeError: a dereference of an `undefined` lookup result. */
  datatype Error = Custom(code: ErrorCode) | NotFound | TypeError

  /** JavaScript truthiness of an optional number: present and non-zero. */
  predicate Truthy(n: Option<int>) {
    n.Some? && n.value != 0
  }
}
