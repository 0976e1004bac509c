/** Properties of single transitions and of pairs of transitions: what a
    successful call leaves behind, which calls undo which, and what the
    service's guards let through. */
module EngineProperties {
  import opened Common
  import opened Records
  import opened ParticipationTable
  import opened NotificationTable
  import opened Engine
  import opened CounterLemmas
  import opened NotificationLemmas

  // ---------------------------------------------------------------------
  // Joining
  // ---------------------------------------------------------------------

  /** A successful join leaves exactly one PENDING row for the applicant and
      one unread request to the host; a second identical request is refused
      as a duplicate. */
  lemma JoinOnce(t: Tables, meetingId: int, userId: int, now: int)
    requires Valid(t)
    requires CreateParticipation(t, meetingId, userId, now).Ok?
    ensures var t' := CreateParticipation(t, meetingId, userId, now).value;
      var r := RequestAddr(meetingId, t.meetings[meetingId].hostId, userId);
      && FindRow(t'.participations, userId, meetingId) == Some(|t.participations|)
      && t'.participations[|t.participations|].status == Pending
      && Count(t'.notifications, r) == 1 && Unread(t'.notifications, r) == 1
      && CreateParticipation(t', meetingId, userId, now) == Err(Conflict(AlreadyApplied))
  {
    var t' := CreateParticipation(t, meetingId, userId, now).value;
    CreateParticipationKeepsValid(t, meetingId, userId, now);
    FindRowUnique(t'.participations, |t.participations|);
    assert RowNotified(t', |t.participations|);
  }

  // ---------------------------------------------------------------------
  // Decisions and their cancellation
  // ---------------------------------------------------------------------

  /** After an approval the applicant holds exactly one ACCEPTED notice, and
      the host's request from them is read. */
  lemma ApproveOneNotifies(t: Tables, meetingId: int, hostId: int, pId: int)
    requires Valid(t) && Targets(t, meetingId, pId)
    requires ApproveOne(t, meetingId, hostId, pId).Ok?
    requires t.participations[pId].userId != hostId
    ensures var t' := ApproveOne(t, meetingId, hostId, pId).value;
      var u := t.participations[pId].userId;
      && t'.participations[pId].status == Accepted
      && Count(t'.notifications, DecisionAddr(meetingId, hostId, u, ParticipationAccepted)) == 1
      && Count(t'.notifications, RequestAddr(meetingId, hostId, u)) == 1
      && Unread(t'.notifications, RequestAddr(meetingId, hostId, u)) == 0
      && t'.meetings[meetingId].currentParticipants == t.meetings[meetingId].currentParticipants + 1
  {
    ApproveOneKeepsValid(t, meetingId, hostId, pId);
    assert RowNotified(ApproveOne(t, meetingId, hostId, pId).value, pId);
  }

  /** After a rejection the applicant holds exactly one REJECTED notice,
      unread, the host's request from them is read, and no counter moves. */
  lemma RejectOneNotifies(t: Tables, meetingId: int, hostId: int, pId: int)
    requires Valid(t) && Targets(t, meetingId, pId)
    requires RejectOne(t, meetingId, hostId, pId).Ok?
    requires t.participations[pId].userId != hostId
    ensures var t' := RejectOne(t, meetingId, hostId, pId).value;
      var u := t.participations[pId].userId;
      var a := DecisionAddr(meetingId, hostId, u, ParticipationRejected);
      && t'.participations[pId].status == Rejected
      && Count(t'.notifications, a) == 1
      && Unread(t'.notifications, a) == 1
      && Count(t'.notifications, RequestAddr(meetingId, hostId, u)) == 1
      && Unread(t'.notifications, RequestAddr(meetingId, hostId, u)) == 0
      && t'.meetings == t.meetings
  {
    var t' := RejectOne(t, meetingId, hostId, pId).value;
    var u := t.participations[pId].userId;
    var a := DecisionAddr(meetingId, hostId, u, ParticipationRejected);
    RejectOneKeepsValid(t, meetingId, hostId, pId);
    assert RowNotified(t, pId);
    assert RowNotified(t', pId);
    RejectStepEffect(t.notifications, meetingId, hostId, u, a);
    UnreadAtMostCount(t.notifications, a);
  }

  /** Cancelling an approval takes the ACCEPTED notice away and leaves the
      request unread again; one seat is freed. */
  lemma CancelApprovalNotifies(t: Tables, meetingId: int, hostId: int, pId: int)
    requires Valid(t) && Targets(t, meetingId, pId)
    requires CancelApproval(t, meetingId, hostId, pId).Ok?
    requires t.participations[pId].userId != hostId
    ensures var t' := CancelApproval(t, meetingId, hostId, pId).value;
      var u := t.participations[pId].userId;
      && t'.participations[pId].status == Pending
      && Count(t'.notifications, DecisionAddr(meetingId, hostId, u, ParticipationAccepted)) == 0
      && Unread(t'.notifications, RequestAddr(meetingId, hostId, u)) == 1
      && t'.meetings[meetingId].currentParticipants == t.meetings[meetingId].currentParticipants - 1
  {
    CancelApprovalKeepsValid(t, meetingId, hostId, pId);
    assert RowNotified(CancelApproval(t, meetingId, hostId, pId).value, pId);
  }

  /** On the notification store alone: accepting and then withdrawing the
      acceptance leaves the store as it was plus the cancellation, provided
      there was no acceptance before and the request was unread. */
  lemma AcceptThenWithdraw(ns: seq<Notification>, m: nat, h: int, u: int)
    requires Count(ns, DecisionAddr(m, h, u, ParticipationAccepted)) == 0
    requires Unread(ns, RequestAddr(m, h, u)) == Count(ns, RequestAddr(m, h, u))
    ensures var c := NewNotice(DecisionAddr(m, h, u, ParticipationCancelled));
      SetRead(DeleteWhere(AcceptStep(ns, m, h, u), DecisionAddr(m, h, u, ParticipationAccepted)) + [c],
              RequestAddr(m, h, u), false)
      == ns + [c]
  {
    var r := RequestAddr(m, h, u);
    var a := DecisionAddr(m, h, u, ParticipationAccepted);
    var c := NewNotice(DecisionAddr(m, h, u, ParticipationCancelled));
    var read := SetRead(ns, r, true);
    DropFreshAcceptance(ns, r, a);
    SetReadConcat(read, [c], r, false);
    assert SetRead([c], r, false) == [c];
    SetReadTwice(ns, r, true, false);
    SetUnreadNoop(ns, r);
  }

  /** Deleting an acceptance that was only just appended leaves the store
      as it was before the append. */
  lemma DropFreshAcceptance(ns: seq<Notification>, r: Addr, a: Addr)
    requires Count(ns, a) == 0
    ensures DeleteWhere(SetRead(ns, r, true) + [NewNotice(a)], a) == SetRead(ns, r, true)
  {
    var read := SetRead(ns, r, true);
    CountSetRead(ns, r, true, a);
    DeleteNoop(read, a);
    DeleteConcat(read, [NewNotice(a)], a);
    assert DeleteWhere([NewNotice(a)], a) == [];
  }

  /** On the notification store alone: rejecting and then withdrawing the
      rejection leaves the store as it was. */
  lemma RejectThenWithdraw(ns: seq<Notification>, m: nat, h: int, u: int)
    requires Count(ns, DecisionAddr(m, h, u, ParticipationRejected)) == 0
    requires Unread(ns, RequestAddr(m, h, u)) == Count(ns, RequestAddr(m, h, u))
    ensures var j := DecisionAddr(m, h, u, ParticipationRejected);
      SetRead(DeleteWhere(SetRead(ns, RequestAddr(m, h, u), true) + [NewNotice(j)], j),
              RequestAddr(m, h, u), false)
      == ns
  {
    var r := RequestAddr(m, h, u);
    var j := DecisionAddr(m, h, u, ParticipationRejected);
    var read := SetRead(ns, r, true);
    CountSetRead(ns, r, true, j);
    DeleteNoop(read, j);
    DeleteConcat(read, [NewNotice(j)], j);
    assert DeleteWhere([NewNotice(j)], j) == [];
    SetReadTwice(ns, r, true, false);
    SetUnreadNoop(ns, r);
  }

  /** Approving and then cancelling the approval restores every store, except
      that the applicant keeps the cancellation notice. */
  lemma ApproveThenCancel(t: Tables, meetingId: int, hostId: int, pId: int)
    requires Valid(t) && Targets(t, meetingId, pId)
    requires ApproveOne(t, meetingId, hostId, pId).Ok?
    requires t.participations[pId].userId != hostId
    ensures var t1 := ApproveOne(t, meetingId, hostId, pId).value;
      var u := t.participations[pId].userId;
      CancelApproval(t1, meetingId, hostId, pId)
        == Ok(t.(notifications := t.notifications
                 + [NewNotice(DecisionAddr(meetingId, hostId, u, ParticipationCancelled))]))
  {
    assert RowNotified(t, pId);
    ApproveThenCancelStores(t, meetingId, hostId, pId);
  }

  /** The store-level part of `ApproveThenCancel`, from the facts about the
      applicant's notifications alone. */
  lemma ApproveThenCancelStores(t: Tables, meetingId: int, hostId: int, pId: int)
    requires Targets(t, meetingId, pId)
    requires ApproveOne(t, meetingId, hostId, pId).Ok?
    requires var u := t.participations[pId].userId;
      && Count(t.notifications, DecisionAddr(meetingId, hostId, u, ParticipationAccepted)) == 0
      && Unread(t.notifications, RequestAddr(meetingId, hostId, u)) == Count(t.notifications, RequestAddr(meetingId, hostId, u))
    ensures var t1 := ApproveOne(t, meetingId, hostId, pId).value;
      var u := t.participations[pId].userId;
      CancelApproval(t1, meetingId, hostId, pId)
        == Ok(t.(notifications := t.notifications
                 + [NewNotice(DecisionAddr(meetingId, hostId, u, ParticipationCancelled))]))
  {
    var t1 := ApproveOne(t, meetingId, hostId, pId).value;
    AcceptThenWithdraw(t.notifications, meetingId, hostId, t.participations[pId].userId);
    assert t1.meetings[meetingId := t1.meetings[meetingId].(currentParticipants := t1.meetings[meetingId].currentParticipants - 1)]
        == t.meetings;
    assert t1.participations[pId := t1.participations[pId].(status := Pending)] == t.participations;
  }

  /** Rejecting and then cancelling the rejection restores every store. */
  lemma RejectThenCancel(t: Tables, meetingId: int, hostId: int, pId: int)
    requires Valid(t) && Targets(t, meetingId, pId)
    requires RejectOne(t, meetingId, hostId, pId).Ok?
    requires t.participations[pId].userId != hostId
    ensures CancelRejection(RejectOne(t, meetingId, hostId, pId).value, meetingId, hostId, pId) == Ok(t)
  {
    var t1 := RejectOne(t, meetingId, hostId, pId).value;
    assert RowNotified(t, pId);
    RejectThenWithdraw(t.notifications, meetingId, hostId, t.participations[pId].userId);
    assert t1.participations[pId := t1.participations[pId].(status := Pending)] == t.participations;
  }

  // ---------------------------------------------------------------------
  // Approve-all
  // ---------------------------------------------------------------------

  /** Approve-all is all or nothing: it fails for lack of seats exactly when
      the meeting has more PENDING rows than free seats, and when it succeeds
      no PENDING row of the meeting is left and every one of them counts as
      a seat taken. */
  lemma ApproveAllAllOrNothing(t: Tables, meetingId: int, hostId: int)
    requires Valid(t) && IsMeeting(t, meetingId) && t.meetings[meetingId].hostId == hostId
    ensures var m := t.meetings[meetingId];
      var pending := CountStatus(t.participations, meetingId, Pending);
      (ApproveAll(t, meetingId, hostId) == Err(BadRequest(NotEnoughSlots))
       <==> pending > m.maxParticipants - m.currentParticipants)
    ensures ApproveAll(t, meetingId, hostId).Ok? ==>
      var t' := ApproveAll(t, meetingId, hostId).value;
      && CountStatus(t'.participations, meetingId, Pending) == 0
      && CountStatus(t'.participations, meetingId, Accepted)
         == CountStatus(t.participations, meetingId, Accepted) + CountStatus(t.participations, meetingId, Pending)
      && t'.meetings[meetingId].currentParticipants <= t'.meetings[meetingId].maxParticipants
  {
    var ids := MeetingRows(t.participations, meetingId, Pending);
    if ApproveAll(t, meetingId, hostId).Ok? && |ids| > 0 {
      var t' := ApproveAll(t, meetingId, hostId).value;
      ApproveAllKeepsCounters(t, meetingId, hostId);
      PendingRowsPromote(t.participations, meetingId);
      PromoteLeavesNoPending(t.participations, t'.participations, meetingId);
      CountPromote(t.participations, t'.participations, meetingId, meetingId);
    }
  }

  lemma {:induction false} PromoteLeavesNoPending(ps: seq<Participation>, qs: seq<Participation>, m: int)
    requires |qs| == |ps|
    requires forall i :: 0 <= i < |ps| ==> qs[i] == Promote(ps[i], m)
    ensures CountStatus(qs, m, Pending) == 0
  {
    if |ps| > 0 {
      PromoteLeavesNoPending(ps[..|ps| - 1], qs[..|qs| - 1], m);
    }
  }

  // ---------------------------------------------------------------------
  // Meetings
  // ---------------------------------------------------------------------

  /** A new meeting gets the next id, its host holds its one ACCEPTED row,
      and that row is the one seat counted as taken. */
  lemma CreateStarts(t: Tables, hostId: int, d: Draft, now: int)
    requires Integrity(t)
    ensures var t' := Create(t, hostId, d, now);
      var id := |t.meetings|;
      && IsMeeting(t', id) && t'.meetings[id].hostId == hostId
      && FindRow(t'.participations, hostId, id) == Some(|t.participations|)
      && t'.participations[|t.participations|].status == Accepted
      && CountStatus(t'.participations, id, Accepted) == 1
      && t'.meetings[id].currentParticipants == CountStatus(t'.participations, id, Accepted)
  {
    var t' := Create(t, hostId, d, now);
    var id := |t.meetings|;
    CountAbsent(t.participations, id, Accepted);
    CountAppend(t.participations, t'.participations[|t.participations|], id, Accepted);
    assert forall j :: 0 <= j < |t.participations| ==> !IsPair(t'.participations[j], hostId, id);
  }

  /** An edit that leaves every field out, or that gives 0 for the numbers,
      changes nothing; applying the same edit twice is applying it once. */
  lemma EditIdempotent(m: Meeting, e: Edit)
    ensures Edited(Edited(m, e), e) == Edited(m, e)
    ensures Edited(m, Edit(None, None, Some(0), Some(0), None, None)) == m
  {
  }

  /** Deleting a meeting notifies each ACCEPTED member other than the host
      once per row, and nobody else. */
  lemma {:induction false} DeletionNoticeCount(ps: seq<Participation>, m: nat, host: int, u: int)
    ensures Count(DeletionNotices(ps, m, host), DecisionAddr(m, host, u, MeetingDeleted))
         == if u == host then 0 else CountPairStatus(ps, u, m, Accepted)
  {
    if |ps| > 0 {
      var p := ps[|ps| - 1];
      var rest := DeletionNotices(ps[..|ps| - 1], m, host);
      var tail := if p.meetingId == m && p.status == Accepted && p.userId != host
                  then [NewNotice(DecisionAddr(m, host, p.userId, MeetingDeleted))] else [];
      DeletionNoticeCount(ps[..|ps| - 1], m, host, u);
      CountConcat(rest, tail, DecisionAddr(m, host, u, MeetingDeleted));
    }
  }

  lemma {:induction false} DeletionNoticeTotal(ps: seq<Participation>, m: nat, host: int)
    ensures |DeletionNotices(ps, m, host)| + CountPairStatus(ps, host, m, Accepted) == CountStatus(ps, m, Accepted)
  {
    if |ps| > 0 {
      DeletionNoticeTotal(ps[..|ps| - 1], m, host);
    }
  }

  /** In a consistent state, deleting a meeting whose host holds its seat
      notifies exactly the other `currentParticipants - 1` members, one
      notice each. */
  lemma SoftDeleteNotifiesMembers(t: Tables, meetingId: int, userId: int, now: int, u: int)
    requires Valid(t)
    requires SoftDelete(t, meetingId, userId, now).Ok?
    requires HasRow(t.participations, userId, meetingId)
    requires t.participations[FindRow(t.participations, userId, meetingId).value].status == Accepted
    ensures var notices := SoftDelete(t, meetingId, userId, now).value.notifications[|t.notifications|..];
      && |notices| == t.meetings[meetingId].currentParticipants - 1
      && Count(notices, DecisionAddr(meetingId, userId, u, MeetingDeleted))
         == if u != userId && HasRow(t.participations, u, meetingId)
               && t.participations[FindRow(t.participations, u, meetingId).value].status == Accepted
            then 1 else 0
  {
    var notices := DeletionNotices(t.participations, meetingId, userId);
    assert SoftDelete(t, meetingId, userId, now).value.notifications[|t.notifications|..] == notices;
    DeletionNoticeTotal(t.participations, meetingId, userId);
    PairCountUnique(t.participations, userId, meetingId, Accepted);
    DeletionNoticeCount(t.participations, meetingId, userId, u);
    PairCountUnique(t.participations, u, meetingId, Accepted);
  }

  // ---------------------------------------------------------------------
  // What the guards do not check
  // ---------------------------------------------------------------------

  function Sample(hostId: int, maxParticipants: int, currentParticipants: int): Meeting {
    Meeting(hostId, "t", "d", 1, "a", maxParticipants, currentParticipants, 100, false, 0, 0)
  }

  /** Two meetings, hosted by 10 and 20; user 30 waits for meeting 1. */
  function TwoMeetings(): Tables {
    Tables(
      [Sample(10, 5, 1), Sample(20, 5, 1)],
      [Participation(0, 10, Accepted, 0), Participation(1, 20, Accepted, 0), Participation(1, 30, Pending, 0)],
      [NewNotice(RequestAddr(1, 20, 30))])
  }

  /** approveOne looks the row up by its id alone: the host of meeting 0 can
      approve a request made to meeting 1, which accepts the row without
      counting it and counts a seat of meeting 0 that nobody holds. */
  lemma ForeignApprovalMiscounts()
    ensures Valid(TwoMeetings())
    ensures !Targets(TwoMeetings(), 0, 2)
    ensures ApproveOne(TwoMeetings(), 0, 10, 2).Ok?
    ensures !CountersExact(ApproveOne(TwoMeetings(), 0, 10, 2).value)
  {
    var t := TwoMeetings();
    var ps := t.participations;
    assert ps[..2][..1] == ps[..1] && ps[..1][..0] == [];
    assert CountStatus(ps[..1], 0, Accepted) == 1 && CountStatus(ps[..1], 1, Accepted) == 0;
    assert CountStatus(ps[..2], 0, Accepted) == 1 && CountStatus(ps[..2], 1, Accepted) == 1;
    assert CountStatus(ps, 0, Accepted) == 1 && CountStatus(ps, 1, Accepted) == 1;
    var r := RequestAddr(1, 20, 30);
    assert Count(t.notifications, r) == 1 && Unread(t.notifications, r) == 1;
    assert RowNotified(t, 2);
    assert FindRow(ps, 30, 1) == Some(2);
    var t' := ApproveOne(t, 0, 10, 2).value;
    var qs := t'.participations;
    assert qs[..2] == ps[..2];
    assert CountStatus(qs, 0, Accepted) == 1;
    assert t'.meetings[0].currentParticipants == 2;
  }

  /** create does not check the capacity: a meeting created with capacity 0
      starts with one seat taken out of none. */
  lemma ZeroCapacityOverfills()
    ensures var d := Draft("t", "d", 1, 0, 100, "a");
      var t' := Create(Tables([], [], []), 10, d, 0);
      t'.meetings[0].currentParticipants > t'.meetings[0].maxParticipants
      && !CountersExact(t')
  {
  }
}
