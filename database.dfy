/** The three stores the services write through the database client. */
module Store {
  import opened Common
  import opened Records
  import Engine

  class Database {
    var meetings: seq<Meeting>
    var participations: seq<Participation>
    var notifications: seq<Notification>

    function Snapshot(): Engine.Tables
      reads this
    {
      Engine.Tables(meetings, participations, notifications)
    }

    constructor ()
      ensures Snapshot() == Engine.Tables([], [], [])
    {
      meetings := [];
      participations := [];
      notifications := [];
    }
  }

  /** A transaction either commits the state the transition computes and
      reports success, or raises that transition's error with nothing
      written. */
  ghost predicate Committed(spec: Result<Engine.Tables>, r: Outcome, before: Engine.Tables, after: Engine.Tables) {
    match spec
    case Ok(t) => r == Done && after == t
    case Err(e) => r == Failed(e) && after == before
  }
}
