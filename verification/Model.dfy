/** The entities of the review engine: rows, replies, emitted facts, and the
    store that holds them. */
module Model {

  datatype Option<+T> = None | Some(value: T)

  datatype Result<+T> = Ok(value: T) | Err(error: Error)

  /** What the service layer raises. HostFailure is an exception that escaped a
      host callback; IntegrityError is the database refusing a row. */
  datatype Error =
    | UnknownTargetType
    | InvalidRating
    | DuplicateReview
    | NotAllowedToReview
    | SelfReview
    | HostFailure
    | IntegrityError
    | InvalidModerationAction
    | NotAllowedToModerate
    | InvalidVerdictDecision
    | ResponseNotAllowed
    | NotAllowedToRespond
    | AlreadyResponded
    | MergeTargetNotReady
    | InvalidExportCursor

  /** User ids are compared as strings (`str(actor_id)`). */
  type UserId = string

  /** The opaque reviewed thing. */
  datatype Target = Target(ttype: string, tkey: string)

  datatype Status = Pending | Published | Hidden

  /** VISIBLE_STATUSES has one member. */
  predicate Visible(s: Status) {
    s == Published
  }

  datatype Review = Review(
    target: Target,
    ownerKey: string,
    author: UserId,
    rating: int,
    body: string,
    status: Status,
    uniquePerAuthor: bool,
    updatedAt: nat)

  /** A review's single reply; the table is keyed by the review's id. */
  datatype Response = Response(author: UserId, body: string)

  /** Review rows by id. Ids are creation numbers: never reused, and a larger
      id is a newer row. */
  type Table = map<nat, Review>

  /** Mean in thousandths, and count. */
  datatype Aggregate = Aggregate(avg: int, count: nat)

  datatype FactKind = PublishedFact | HiddenFact

  /** An emitted visibility fact. `time` is the event's timestamp. */
  datatype Fact = Fact(
    kind: FactKind,
    reviewId: nat,
    target: Target,
    author: UserId,
    rating: int,
    status: Status,
    reason: string,
    aggregate: Aggregate,
    time: nat)

  /** Both tables, the fact log, the next review id and the clock. `lag` is how
      long after a row was saved the fact about it is emitted. */
  datatype Db = Db(
    reviews: Table,
    responses: map<nat, Response>,
    log: seq<Fact>,
    nextId: nat,
    clock: nat,
    lag: nat)

  const EMPTY_DB := Db(map[], map[], [], 0, 0, 0)
}
