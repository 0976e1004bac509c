/** ParticipationsService: the six transactions, each written as the
    source's sequence of reads, checks and writes on the stores, and proved
    to commit exactly the transition of `Engine`; and the two read queries. */
module ParticipationsService {
  import opened Common
  import opened Records
  import opened ParticipationTable
  import opened NotificationTable
  import opened Sorting
  import opened Store
  import E = Engine

  method CreateParticipation(db: Database, meetingId: int, userId: int, now: int) returns (r: Outcome)
    modifies db
    ensures Committed(E.CreateParticipation(old(db.Snapshot()), meetingId, userId, now), r, old(db.Snapshot()), db.Snapshot())
  {
    if !(0 <= meetingId < |db.meetings|) {
      return Failed(NotFound);
    }
    var meeting := db.meetings[meetingId];
    if meeting.meetingDeleted {
      return Failed(Gone);
    }
    if meeting.meetingDate < now {
      return Failed(BadRequest(PastDeadline));
    }
    if meeting.hostId == userId {
      return Failed(BadRequest(HostCannotJoin));
    }
    if meeting.currentParticipants >= meeting.maxParticipants {
      return Failed(BadRequest(MeetingFull));
    }
    var existing := FindRow(db.participations, userId, meetingId);
    if existing.Some? {
      return Failed(Conflict(AlreadyApplied));
    }
    db.participations := db.participations + [Participation(meetingId, userId, Pending, now)];
    db.notifications := db.notifications + [NewNotice(E.RequestAddr(meetingId, meeting.hostId, userId))];
    r := Done;
  }

  method ApproveOne(db: Database, meetingId: int, hostId: int, pId: int) returns (r: Outcome)
    modifies db
    ensures Committed(E.ApproveOne(old(db.Snapshot()), meetingId, hostId, pId), r, old(db.Snapshot()), db.Snapshot())
  {
    if !(0 <= meetingId < |db.meetings|) {
      return Failed(NotFound);
    }
    var meeting := db.meetings[meetingId];
    if meeting.hostId != hostId {
      return Failed(Forbidden);
    }
    if meeting.currentParticipants >= meeting.maxParticipants {
      return Failed(BadRequest(MeetingFull));
    }
    if !(0 <= pId < |db.participations|) || db.participations[pId].status != Pending {
      return Failed(BadRequest(NotPending));
    }
    var participation := db.participations[pId];
    db.participations := db.participations[pId := participation.(status := Accepted)];
    db.meetings := db.meetings[meetingId := meeting.(currentParticipants := meeting.currentParticipants + 1)];
    db.notifications := SetRead(db.notifications, E.RequestAddr(meetingId, hostId, participation.userId), true);
    db.notifications := db.notifications
      + [NewNotice(E.DecisionAddr(meetingId, hostId, participation.userId, ParticipationAccepted))];
    r := Done;
  }

  method RejectOne(db: Database, meetingId: int, hostId: int, pId: int) returns (r: Outcome)
    modifies db
    ensures Committed(E.RejectOne(old(db.Snapshot()), meetingId, hostId, pId), r, old(db.Snapshot()), db.Snapshot())
  {
    if !(0 <= meetingId < |db.meetings|) {
      return Failed(NotFound);
    }
    var meeting := db.meetings[meetingId];
    if meeting.hostId != hostId {
      return Failed(Forbidden);
    }
    if !(0 <= pId < |db.participations|) || db.participations[pId].status != Pending {
      return Failed(BadRequest(NotPending));
    }
    var participation := db.participations[pId];
    db.participations := db.participations[pId := participation.(status := Rejected)];
    db.notifications := SetRead(db.notifications, E.RequestAddr(meetingId, hostId, participation.userId), true);
    db.notifications := db.notifications
      + [NewNotice(E.DecisionAddr(meetingId, hostId, participation.userId, ParticipationRejected))];
    r := Done;
  }

  /** One round of approve-all's notification loop, as the fold unfolds it. */
  lemma AcceptEachStep(ns: seq<Notification>, m: nat, host: int, users: seq<int>, k: nat)
    requires k < |users|
    ensures E.AcceptEach(E.AcceptStep(ns, m, host, users[k]), m, host, users[k + 1..])
         == E.AcceptEach(ns, m, host, users[k..])
  {
    assert users[k..][0] == users[k] && users[k..][1..] == users[k + 1..];
  }

  method ApproveAll(db: Database, meetingId: int, hostId: int) returns (r: Outcome)
    modifies db
    ensures Committed(E.ApproveAll(old(db.Snapshot()), meetingId, hostId), r, old(db.Snapshot()), db.Snapshot())
  {
    if !(0 <= meetingId < |db.meetings|) {
      return Failed(NotFound);
    }
    var meeting := db.meetings[meetingId];
    if meeting.hostId != hostId {
      return Failed(Forbidden);
    }
    var rows := db.participations;
    var pendings := MeetingRows(rows, meetingId, Pending);
    if |pendings| == 0 {
      return Done;
    }
    var remainingSlots := meeting.maxParticipants - meeting.currentParticipants;
    if |pendings| > remainingSlots {
      return Failed(BadRequest(NotEnoughSlots));
    }
    ghost var committed := E.Tables(
      db.meetings[meetingId := meeting.(currentParticipants := meeting.currentParticipants + |pendings|)],
      SetStatusAt(rows, pendings, Accepted),
      E.AcceptEach(db.notifications, meetingId, hostId, E.UsersOf(rows, pendings)));
    E.ApproveAllCommits(db.Snapshot(), meetingId, hostId);
    assert E.ApproveAll(db.Snapshot(), meetingId, hostId) == Ok(committed);
    db.participations := SetStatusAt(rows, pendings, Accepted);
    db.meetings := db.meetings[meetingId := meeting.(currentParticipants := meeting.currentParticipants + |pendings|)];
    NotifyAccepted(db, meetingId, hostId, rows, pendings);
    assert db.Snapshot() == committed;
    r := Done;
  }


  /** The per-applicant part of approveAll: for each PENDING row in turn,
      the applicant's request is marked read and an acceptance is sent. */
  method NotifyAccepted(db: Database, meetingId: nat, hostId: int, rows: seq<Participation>, pendings: seq<nat>)
    requires forall i :: i in pendings ==> i < |rows|
    modifies db
    ensures db.notifications == E.AcceptEach(old(db.notifications), meetingId, hostId, E.UsersOf(rows, pendings))
    ensures db.meetings == old(db.meetings) && db.participations == old(db.participations)
  {
    ghost var users := E.UsersOf(rows, pendings);
    for k := 0 to |pendings|
      invariant db.meetings == old(db.meetings) && db.participations == old(db.participations)
      invariant E.AcceptEach(db.notifications, meetingId, hostId, users[k..]) == E.AcceptEach(old(db.notifications), meetingId, hostId, users)
    {
      assert pendings[k] in pendings;
      var p := rows[pendings[k]];
      AcceptEachStep(db.notifications, meetingId, hostId, users, k);
      db.notifications := SetRead(db.notifications, E.RequestAddr(meetingId, hostId, p.userId), true);
      db.notifications := db.notifications
        + [NewNotice(E.DecisionAddr(meetingId, hostId, p.userId, ParticipationAccepted))];
    }
  }

  method CancelApproval(db: Database, meetingId: int, hostId: int, pId: int) returns (r: Outcome)
    modifies db
    ensures Committed(E.CancelApproval(old(db.Snapshot()), meetingId, hostId, pId), r, old(db.Snapshot()), db.Snapshot())
  {
    if !(0 <= meetingId < |db.meetings|) {
      return Failed(NotFound);
    }
    var meeting := db.meetings[meetingId];
    if meeting.hostId != hostId {
      return Failed(Forbidden);
    }
    if !(0 <= pId < |db.participations|) || db.participations[pId].status != Accepted {
      return Failed(BadRequest(NotAccepted));
    }
    var participation := db.participations[pId];
    db.participations := db.participations[pId := participation.(status := Pending)];
    db.meetings := db.meetings[meetingId := meeting.(currentParticipants := meeting.currentParticipants - 1)];
    db.notifications := DeleteWhere(db.notifications, E.DecisionAddr(meetingId, hostId, participation.userId, ParticipationAccepted));
    db.notifications := db.notifications
      + [NewNotice(E.DecisionAddr(meetingId, hostId, participation.userId, ParticipationCancelled))];
    db.notifications := SetRead(db.notifications, E.RequestAddr(meetingId, hostId, participation.userId), false);
    r := Done;
  }

  method CancelRejection(db: Database, meetingId: int, hostId: int, pId: int) returns (r: Outcome)
    modifies db
    ensures Committed(E.CancelRejection(old(db.Snapshot()), meetingId, hostId, pId), r, old(db.Snapshot()), db.Snapshot())
  {
    if !(0 <= meetingId < |db.meetings|) {
      return Failed(NotFound);
    }
    var meeting := db.meetings[meetingId];
    if meeting.hostId != hostId {
      return Failed(Forbidden);
    }
    if !(0 <= pId < |db.participations|) || db.participations[pId].status != Rejected {
      return Failed(BadRequest(NotRejected));
    }
    var participation := db.participations[pId];
    db.participations := db.participations[pId := participation.(status := Pending)];
    db.notifications := DeleteWhere(db.notifications, E.DecisionAddr(meetingId, hostId, participation.userId, ParticipationRejected));
    db.notifications := SetRead(db.notifications, E.RequestAddr(meetingId, hostId, participation.userId), false);
    r := Done;
  }

  // ---------------------------------------------------------------------
  // Read queries
  // ---------------------------------------------------------------------

  /** Rows of meeting `m` other than the host's, in table order. */
  function OthersRows(ps: seq<Participation>, m: int, host: int): (r: seq<nat>)
    ensures forall i: nat :: i in r <==> i < |ps| && ps[i].meetingId == m && ps[i].userId != host
    ensures forall k, l :: 0 <= k < l < |r| ==> r[k] < r[l]
  {
    if |ps| == 0 then []
    else
      var prefix := OthersRows(ps[..|ps| - 1], m, host);
      assert forall k :: 0 <= k < |prefix| ==> prefix[k] in prefix;
      assert forall k :: 0 <= k < |prefix| ==> prefix[k] < |ps| - 1;
      if ps[|ps| - 1].meetingId == m && ps[|ps| - 1].userId != host then prefix + [|ps| - 1] else prefix
  }

  datatype Applicant = Applicant(participationId: nat, userId: int, status: Status)

  /** Newest first: the descending `createdAt` order as an ascending key. */
  function NewestFirst(ps: seq<Participation>): nat -> int {
    (i: nat) => if i < |ps| then -ps[i].createdAt else 0
  }

  function ApplicantsAt(ps: seq<Participation>, ids: seq<nat>): (r: seq<Applicant>)
    requires forall k :: 0 <= k < |ids| ==> ids[k] < |ps|
    ensures |r| == |ids|
    ensures forall k :: 0 <= k < |ids| ==> r[k] == Applicant(ids[k], ps[ids[k]].userId, ps[ids[k]].status)
  {
    seq(|ids|, k requires 0 <= k < |ids| => Applicant(ids[k], ps[ids[k]].userId, ps[ids[k]].status))
  }

  /** findApplicants: for the host only, every row of the meeting except the
      host's own, whatever its status, newest first. */
  function FindApplicants(t: E.Tables, meetingId: int, userId: int): (r: Result<seq<Applicant>>)
    ensures !E.IsMeeting(t, meetingId) ==> r == Err(NotFound)
    ensures E.IsMeeting(t, meetingId) && t.meetings[meetingId].meetingDeleted ==> r == Err(Gone)
    ensures E.IsMeeting(t, meetingId) && !t.meetings[meetingId].meetingDeleted && t.meetings[meetingId].hostId != userId
      ==> r == Err(Forbidden)
    ensures r.Ok? <==> E.IsMeeting(t, meetingId) && !t.meetings[meetingId].meetingDeleted
                       && t.meetings[meetingId].hostId == userId
  {
    if !E.IsMeeting(t, meetingId) then Err(NotFound)
    else
      var m := t.meetings[meetingId];
      if m.meetingDeleted then Err(Gone)
      else if m.hostId != userId then Err(Forbidden)
      else
        var ps := t.participations;
        var rows := OthersRows(ps, meetingId, m.hostId);
        var sorted := SortBy(rows, NewestFirst(ps));
        assert forall k :: 0 <= k < |sorted| ==> sorted[k] in multiset(rows);
        Ok(ApplicantsAt(ps, sorted))
  }

  /** Every listed applicant is a row of the meeting other than the host's,
      shown with that row's user and status. */
  lemma FindApplicantsRows(t: E.Tables, meetingId: int, userId: int)
    requires FindApplicants(t, meetingId, userId).Ok?
    ensures var items := FindApplicants(t, meetingId, userId).value;
      var ps := t.participations;
      forall k :: 0 <= k < |items| ==>
        var a := items[k];
        && a.participationId < |ps| && ps[a.participationId].meetingId == meetingId
        && a.userId == ps[a.participationId].userId && a.userId != userId
        && a.status == ps[a.participationId].status
  {
    var ps := t.participations;
    var rows := OthersRows(ps, meetingId, userId);
    var sorted := SortBy(rows, NewestFirst(ps));
    assert forall k :: 0 <= k < |sorted| ==> sorted[k] in multiset(rows);
  }

  /** Every row of the meeting other than the host's is listed exactly once. */
  lemma FindApplicantsOnce(t: E.Tables, meetingId: int, userId: int, i: nat)
    requires FindApplicants(t, meetingId, userId).Ok?
    requires i < |t.participations| && t.participations[i].meetingId == meetingId
    requires t.participations[i].userId != userId
    ensures multiset(Ids(FindApplicants(t, meetingId, userId).value))[i] == 1
  {
    var ps := t.participations;
    var rows := OthersRows(ps, meetingId, userId);
    var sorted := SortBy(rows, NewestFirst(ps));
    assert forall k :: 0 <= k < |sorted| ==> sorted[k] in multiset(rows);
    assert Ids(FindApplicants(t, meetingId, userId).value) == sorted;
    DistinctOnce(rows, i);
  }

  /** The list is newest first. */
  lemma FindApplicantsNewestFirst(t: E.Tables, meetingId: int, userId: int)
    requires FindApplicants(t, meetingId, userId).Ok?
    ensures var items := FindApplicants(t, meetingId, userId).value;
      var ps := t.participations;
      forall k, l :: 0 <= k < l < |items| ==>
        items[k].participationId < |ps| && items[l].participationId < |ps|
        && ps[items[k].participationId].createdAt >= ps[items[l].participationId].createdAt
  {
    var ps := t.participations;
    var rows := OthersRows(ps, meetingId, userId);
    var key := NewestFirst(ps);
    var sorted := SortBy(rows, key);
    var items := FindApplicants(t, meetingId, userId).value;
    assert forall k :: 0 <= k < |sorted| ==> sorted[k] in multiset(rows);
    forall k, l | 0 <= k < l < |items|
      ensures items[k].participationId < |ps| && items[l].participationId < |ps|
      ensures ps[items[k].participationId].createdAt >= ps[items[l].participationId].createdAt
    {
      assert items[k].participationId == sorted[k] && items[l].participationId == sorted[l];
      assert key(sorted[k]) <= key(sorted[l]);
    }
  }

  function Ids(items: seq<Applicant>): (r: seq<nat>)
    ensures |r| == |items| && forall k :: 0 <= k < |items| ==> r[k] == items[k].participationId
  {
    seq(|items|, k requires 0 <= k < |items| => items[k].participationId)
  }

  datatype Member = Member(userId: int, isHost: bool)

  /** User ids of the ACCEPTED rows of meeting `m` other than `host`'s, in
      table order. */
  function AcceptedOthers(ps: seq<Participation>, m: int, host: int): (r: seq<int>)
    ensures |r| + CountPairStatus(ps, host, m, Accepted) == CountStatus(ps, m, Accepted)
    ensures forall u :: u in r <==> u != host && exists i :: 0 <= i < |ps| && IsPair(ps[i], u, m) && ps[i].status == Accepted
  {
    if |ps| == 0 then []
    else
      var p := ps[|ps| - 1];
      var prefix := AcceptedOthers(ps[..|ps| - 1], m, host);
      assert forall u, i :: 0 <= i < |ps| - 1 && IsPair(ps[..|ps| - 1][i], u, m) ==> IsPair(ps[i], u, m);
      if p.meetingId == m && p.status == Accepted && p.userId != host then prefix + [p.userId] else prefix
  }

  /** The host's entry, then one non-host entry per user of `others`. */
  function HostThen(host: int, others: seq<int>): (r: seq<Member>)
    ensures |r| == 1 + |others| && r[0] == Member(host, true)
    ensures forall k :: 1 <= k < |r| ==> r[k] == Member(others[k - 1], false)
    ensures forall u :: u in others ==> exists k :: 1 <= k < |r| && r[k].userId == u
  {
    var r := [Member(host, true)] + seq(|others|, k requires 0 <= k < |others| => Member(others[k], false));
    assert forall k :: 0 <= k < |others| ==> r[k + 1].userId == others[k];
    r
  }

  /** getParticipants: the host first, then every other ACCEPTED member. It
      does not look at the deleted flag. */
  function GetParticipants(t: E.Tables, meetingId: int): (r: Result<seq<Member>>)
    ensures r.Err? <==> !E.IsMeeting(t, meetingId)
    ensures r.Err? ==> r.error == NotFound
    ensures r.Ok? ==>
      var host := t.meetings[meetingId].hostId;
      && |r.value| >= 1 && r.value[0] == Member(host, true)
      && |r.value| == 1 + CountStatus(t.participations, meetingId, Accepted)
                        - CountPairStatus(t.participations, host, meetingId, Accepted)
      && forall k :: 1 <= k < |r.value| ==>
           && !r.value[k].isHost && r.value[k].userId != host
           && exists i :: 0 <= i < |t.participations| && IsPair(t.participations[i], r.value[k].userId, meetingId)
                          && t.participations[i].status == Accepted
    ensures r.Ok? ==>
      forall u :: u != t.meetings[meetingId].hostId && HasRowWith(t.participations, u, meetingId, Accepted)
        ==> exists k :: 1 <= k < |r.value| && r.value[k].userId == u
  {
    if !E.IsMeeting(t, meetingId) then Err(NotFound)
    else
      var host := t.meetings[meetingId].hostId;
      var others := AcceptedOthers(t.participations, meetingId, host);
      assert forall k :: 0 <= k < |others| ==> others[k] in others;
      assert forall u :: u != host && HasRowWith(t.participations, u, meetingId, Accepted) ==> u in others;
      Ok(HostThen(host, others))
  }

  /** While the host's own row is ACCEPTED, the member list is as long as
      the meeting's occupancy counter. */
  lemma GetParticipantsMatchesCounter(t: E.Tables, meetingId: int)
    requires E.Valid(t) && E.IsMeeting(t, meetingId)
    requires HasRowWith(t.participations, t.meetings[meetingId].hostId, meetingId, Accepted)
    ensures GetParticipants(t, meetingId).Ok?
    ensures |GetParticipants(t, meetingId).value| == t.meetings[meetingId].currentParticipants
  {
    var ps := t.participations;
    var host := t.meetings[meetingId].hostId;
    var j :| 0 <= j < |ps| && IsPair(ps[j], host, meetingId) && ps[j].status == Accepted;
    FindRowUnique(ps, j);
    PairCountUnique(ps, host, meetingId, Accepted);
  }
}
