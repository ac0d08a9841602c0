/**
 * The canonical commit record and the inbound message, defined from how the
 * translators use them (the types assembly itself is not part of this model).
 */
module CommitTypes {
  import opened Wrappers

  /** A raw webhook request: the body (null allowed) and the header dictionary. */
  datatype InboundMessage = InboundMessage(body: Option<string>, headers: map<string, string>)

  /** A `DateTimeOffset`: ticks of local time and the offset from UTC in minutes. */
  datatype Timestamp = Timestamp(ticks: int, offsetMinutes: int)

  /** `new DateTimeOffset()`: 0001-01-01 00:00:00 at offset +00:00. */
  const DefaultTimestamp := Timestamp(0, 0)

  datatype Author = Author(name: string, email: Option<string>, url: Option<string>)

  datatype Repo = Repo(name: Option<string>, url: Option<string>)

  datatype CommitId = CommitId(name: string, url: Option<string>)

  datatype CommitMessage = CommitMessage(
    author: Author,
    timestamp: Timestamp,
    comment: string,
    repo: Repo,
    source: string,
    id: CommitId,
    parent: Option<CommitId>)

  /** The synchronous reply a provider's protocol may require. */
  datatype Response = Response(body: string, headers: map<string, string>)
}

/** The tagged outcome every translator returns. */
module Translation {
  import opened CommitTypes

  datatype Result =
    | Success(commits: seq<CommitMessage>)
    | Failure(reason: string)
    | SuccessWithResponse(commits: seq<CommitMessage>, response: Response)
    | FailureWithResponse(reason: string, response: Response)
  {
    /** True of the two variants that carry a reply for the caller. */
    predicate HasResponse() {
      SuccessWithResponse? || FailureWithResponse?
    }
  }
}
