/**
 * The status badge (`src/server/repositories/status.rs`): the outcome of
 * probing the site becomes a shields.io endpoint badge.
 */
module Status {

  /** The shields.io endpoint schema (`labelText` is the `label` field). */
  datatype StatusBadge = StatusBadge(schemaVersion: nat, labelText: string, message: string, color: string)

  /** `http::StatusCode` accepts the three-digit codes 100 to 999. */
  type StatusCode = n: int | 100 <= n <= 999 witness 200

  /** What the probe returned: a transport failure, or a response with a status. */
  datatype FetchOutcome = RequestFailed | Responded(status: StatusCode)

  /** The site's health as the badge reports it. */
  datatype Health = Up | Degraded | Down | Maintenance | Unrecognised

  /** A badge of the schema and label every status badge carries. */
  predicate Conforms(b: StatusBadge) {
    b.schemaVersion == 1 && b.labelText == "status"
  }

  /** `StatusBadge::unknown`: the badge for a status the site cannot account for. */
  function Unknown(): (b: StatusBadge)
    ensures Conforms(b) && b.message == "unknown" && b.color == "lightgrey"
  {
    StatusBadge(1, "status", "unknown", "lightgrey")
  }

  /**
   * The reference classification: by the class digit of the status code
   * (section 15 of RFC 9110: 2xx successful, 4xx client error, 5xx server
   * error); a failed request means the site is down for maintenance.
   */
  function Assess(outcome: FetchOutcome): Health {
    match outcome
    case RequestFailed => Maintenance
    case Responded(code) =>
      var hundreds := code / 100;
      if hundreds == 2 then Up
      else if hundreds == 5 then Degraded
      else if hundreds == 4 then Down
      else Unrecognised
  }

  /** The message and colour each health is shown with. */
  function Face(h: Health): (string, string) {
    match h
    case Up => ("up", "brightgreen")
    case Degraded => ("degraded", "yellow")
    case Down => ("down", "red")
    case Maintenance => ("maintenance", "blue")
    case Unrecognised => ("unknown", "lightgrey")
  }

  /**
   * The classification in `check_status`, with the probe's result given:
   * the `is_success`, `is_server_error` and `is_client_error` ranges in
   * that order, and `unknown()` for anything else.
   */
  function CheckStatus(outcome: FetchOutcome): (b: StatusBadge)
    ensures Conforms(b)
    ensures (b.message, b.color) == Face(Assess(outcome))
  {
    match outcome
    case RequestFailed => StatusBadge(1, "status", "maintenance", "blue")
    case Responded(status) =>
      if 200 <= status < 300 then StatusBadge(1, "status", "up", "brightgreen")
      else if 500 <= status < 600 then StatusBadge(1, "status", "degraded", "yellow")
      else if 400 <= status < 500 then StatusBadge(1, "status", "down", "red")
      else Unknown()
  }

  /** The badge tells the health apart: different health, different message. */
  lemma {:induction false} BadgeDeterminesHealth(o1: FetchOutcome, o2: FetchOutcome)
    requires CheckStatus(o1).message == CheckStatus(o2).message
    ensures Assess(o1) == Assess(o2)
  {
    var h1, h2 := Assess(o1), Assess(o2);
    assert Face(h1).0 == CheckStatus(o1).message;
    assert Face(h2).0 == CheckStatus(o2).message;
  }

  /** Informational (1xx) and redirection (3xx) statuses show the unknown badge. */
  lemma OtherClassesUnknown(code: StatusCode)
    requires code < 200 || 300 <= code < 400 || code >= 600
    ensures CheckStatus(Responded(code)) == Unknown()
  {
  }
}
