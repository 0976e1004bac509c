/** Every transition keeps the stores' integrity and the occupancy counters
    exact: `currentParticipants` is the number of ACCEPTED rows and at most
    `maxParticipants`. */
module CounterLemmas {
  import opened Common
  import opened Records
  import opened ParticipationTable
  import opened Engine

  /** The participation id handed to a host operation is a row of the
      meeting named in the same request (or no row at all). The service
      never checks this. */
  predicate Targets(t: Tables, meetingId: int, pId: int) {
    0 <= pId < |t.participations| ==> t.participations[pId].meetingId == meetingId
  }

  lemma {:induction false} CountAbsent(ps: seq<Participation>, m: int, s: Status)
    requires forall i :: 0 <= i < |ps| ==> ps[i].meetingId != m
    ensures CountStatus(ps, m, s) == 0
  {
    if |ps| > 0 {
      CountAbsent(ps[..|ps| - 1], m, s);
    }
  }

  /** Changing only statuses keeps the table's keys, hence its integrity. */
  lemma StatusChangeKeepsIntegrity(t: Tables, t': Tables)
    requires Integrity(t)
    requires |t'.meetings| == |t.meetings| && |t'.participations| == |t.participations|
    requires forall i :: 0 <= i < |t.participations| ==>
      t'.participations[i].userId == t.participations[i].userId
      && t'.participations[i].meetingId == t.participations[i].meetingId
    requires forall n :: n in t'.notifications ==> n.meetingId < |t.meetings|
    ensures Integrity(t')
  {
  }

  lemma CreateParticipationKeepsCounters(t: Tables, meetingId: int, userId: int, now: int)
    requires Integrity(t) && CountersExact(t)
    requires CreateParticipation(t, meetingId, userId, now).Ok?
    ensures Integrity(CreateParticipation(t, meetingId, userId, now).value)
    ensures CountersExact(CreateParticipation(t, meetingId, userId, now).value)
  {
    var t' := CreateParticipation(t, meetingId, userId, now).value;
    var p := Participation(meetingId, userId, Pending, now);
    assert t'.participations == t.participations + [p];
    forall m | 0 <= m < |t'.meetings|
      ensures CountStatus(t'.participations, m, Accepted) == CountStatus(t.participations, m, Accepted)
    {
      CountAppend(t.participations, p, m, Accepted);
    }
    forall n | n in t'.notifications ensures n.meetingId < |t'.meetings| {
      if n !in t.notifications {
        assert n == t'.notifications[|t.notifications|];
      }
    }
  }

  lemma ApproveOneKeepsCounters(t: Tables, meetingId: int, hostId: int, pId: int)
    requires Integrity(t) && CountersExact(t) && Targets(t, meetingId, pId)
    requires ApproveOne(t, meetingId, hostId, pId).Ok?
    ensures Integrity(ApproveOne(t, meetingId, hostId, pId).value)
    ensures CountersExact(ApproveOne(t, meetingId, hostId, pId).value)
  {
    var t' := ApproveOne(t, meetingId, hostId, pId).value;
    var p := t.participations[pId];
    forall m | 0 <= m < |t'.meetings|
      ensures CountStatus(t'.participations, m, Accepted)
           == CountStatus(t.participations, m, Accepted) + (if m == meetingId then 1 else 0)
    {
      CountUpdate(t.participations, pId, p.(status := Accepted), m, Accepted);
    }
    forall n | n in t'.notifications ensures n.meetingId < |t.meetings| {
      var k :| 0 <= k < |t'.notifications| && t'.notifications[k] == n;
      if k < |t.notifications| {
        assert t.notifications[k] in t.notifications;
      }
    }
    StatusChangeKeepsIntegrity(t, t');
  }

  lemma RejectOneKeepsCounters(t: Tables, meetingId: int, hostId: int, pId: int)
    requires Integrity(t) && CountersExact(t)
    requires RejectOne(t, meetingId, hostId, pId).Ok?
    ensures Integrity(RejectOne(t, meetingId, hostId, pId).value)
    ensures CountersExact(RejectOne(t, meetingId, hostId, pId).value)
  {
    var t' := RejectOne(t, meetingId, hostId, pId).value;
    var p := t.participations[pId];
    forall m | 0 <= m < |t'.meetings|
      ensures CountStatus(t'.participations, m, Accepted) == CountStatus(t.participations, m, Accepted)
    {
      CountUpdate(t.participations, pId, p.(status := Rejected), m, Accepted);
    }
    forall n | n in t'.notifications ensures n.meetingId < |t.meetings| {
      var k :| 0 <= k < |t'.notifications| && t'.notifications[k] == n;
      if k < |t.notifications| {
        assert t.notifications[k] in t.notifications;
      }
    }
    StatusChangeKeepsIntegrity(t, t');
  }

  lemma SetReadMeetingBound(ns: seq<Notification>, a: Addr, read: bool, bound: nat)
    requires forall n :: n in ns ==> n.meetingId < bound
    ensures forall n :: n in NotificationTable.SetRead(ns, a, read) ==> n.meetingId < bound
  {
    var r := NotificationTable.SetRead(ns, a, read);
    forall n | n in r ensures n.meetingId < bound {
      var k :| 0 <= k < |r| && r[k] == n;
      assert ns[k] in ns;
    }
  }

  lemma {:induction false} AcceptEachMeetingBound(ns: seq<Notification>, m: nat, host: int, users: seq<int>, bound: nat)
    requires m < bound
    requires forall n :: n in ns ==> n.meetingId < bound
    ensures forall n :: n in AcceptEach(ns, m, host, users) ==> n.meetingId < bound
    decreases |users|
  {
    if |users| > 0 {
      SetReadMeetingBound(ns, RequestAddr(m, host, users[0]), true, bound);
      AcceptEachMeetingBound(AcceptStep(ns, m, host, users[0]), m, host, users[1..], bound);
    }
  }

  lemma ApproveAllKeepsCounters(t: Tables, meetingId: int, hostId: int)
    requires Integrity(t) && CountersExact(t)
    requires ApproveAll(t, meetingId, hostId).Ok?
    ensures Integrity(ApproveAll(t, meetingId, hostId).value)
    ensures CountersExact(ApproveAll(t, meetingId, hostId).value)
  {
    var t' := ApproveAll(t, meetingId, hostId).value;
    var pendings := MeetingRows(t.participations, meetingId, Pending);
    if |pendings| > 0 {
      ApproveAllCommits(t, meetingId, hostId);
      PendingRowsPromote(t.participations, meetingId);
      AcceptEachMeetingBound(t.notifications, meetingId, hostId, UsersOf(t.participations, pendings), |t.meetings|);
      StatusChangeKeepsIntegrity(t, t');
      PromoteKeepsCounters(t, t', meetingId);
    }
  }

  /** Promoting the PENDING rows of `m` and adding their number to its
      counter keeps every counter exact, while the capacity holds. */
  lemma PromoteKeepsCounters(t: Tables, t': Tables, meetingId: nat)
    requires CountersExact(t) && meetingId < |t.meetings|
    requires |t'.meetings| == |t.meetings| && |t'.participations| == |t.participations|
    requires forall i :: 0 <= i < |t.participations| ==> t'.participations[i] == Promote(t.participations[i], meetingId)
    requires forall m :: 0 <= m < |t.meetings| && m != meetingId ==> t'.meetings[m] == t.meetings[m]
    requires t'.meetings[meetingId].currentParticipants
      == t.meetings[meetingId].currentParticipants + CountStatus(t.participations, meetingId, Pending)
    requires t'.meetings[meetingId].currentParticipants <= t'.meetings[meetingId].maxParticipants
    ensures CountersExact(t')
  {
    forall m | 0 <= m < |t'.meetings|
      ensures CountStatus(t'.participations, m, Accepted)
           == CountStatus(t.participations, m, Accepted)
              + (if m == meetingId then CountStatus(t.participations, meetingId, Pending) else 0)
    {
      CountPromote(t.participations, t'.participations, meetingId, m);
    }
  }

  lemma CancelApprovalKeepsCounters(t: Tables, meetingId: int, hostId: int, pId: int)
    requires Integrity(t) && CountersExact(t) && Targets(t, meetingId, pId)
    requires CancelApproval(t, meetingId, hostId, pId).Ok?
    ensures Integrity(CancelApproval(t, meetingId, hostId, pId).value)
    ensures CountersExact(CancelApproval(t, meetingId, hostId, pId).value)
  {
    var t' := CancelApproval(t, meetingId, hostId, pId).value;
    var p := t.participations[pId];
    forall m | 0 <= m < |t'.meetings|
      ensures CountStatus(t'.participations, m, Accepted)
           == CountStatus(t.participations, m, Accepted) - (if m == meetingId then 1 else 0)
    {
      CountUpdate(t.participations, pId, p.(status := Pending), m, Accepted);
    }
    var kept := NotificationTable.DeleteWhere(t.notifications, DecisionAddr(meetingId, hostId, p.userId, ParticipationAccepted))
      + [NewNotice(DecisionAddr(meetingId, hostId, p.userId, ParticipationCancelled))];
    SetReadMeetingBound(kept, RequestAddr(meetingId, hostId, p.userId), false, |t.meetings|);
    StatusChangeKeepsIntegrity(t, t');
  }

  lemma CancelRejectionKeepsCounters(t: Tables, meetingId: int, hostId: int, pId: int)
    requires Integrity(t) && CountersExact(t)
    requires CancelRejection(t, meetingId, hostId, pId).Ok?
    ensures Integrity(CancelRejection(t, meetingId, hostId, pId).value)
    ensures CountersExact(CancelRejection(t, meetingId, hostId, pId).value)
  {
    var t' := CancelRejection(t, meetingId, hostId, pId).value;
    var p := t.participations[pId];
    forall m | 0 <= m < |t'.meetings|
      ensures CountStatus(t'.participations, m, Accepted) == CountStatus(t.participations, m, Accepted)
    {
      CountUpdate(t.participations, pId, p.(status := Pending), m, Accepted);
    }
    var kept := NotificationTable.DeleteWhere(t.notifications, DecisionAddr(meetingId, hostId, p.userId, ParticipationRejected));
    SetReadMeetingBound(kept, RequestAddr(meetingId, hostId, p.userId), false, |t.meetings|);
    StatusChangeKeepsIntegrity(t, t');
  }

  /** A new meeting starts consistent: one seat taken, by the host's
      ACCEPTED row, provided its capacity is at least one. */
  lemma CreateKeepsCounters(t: Tables, hostId: int, d: Draft, now: int)
    requires Integrity(t) && CountersExact(t)
    requires d.maxParticipants >= 1
    ensures Integrity(Create(t, hostId, d, now))
    ensures CountersExact(Create(t, hostId, d, now))
  {
    var t' := Create(t, hostId, d, now);
    var id := |t.meetings|;
    var row := Participation(id, hostId, Accepted, now);
    CountAbsent(t.participations, id, Accepted);
    forall m | 0 <= m < |t'.meetings|
      ensures CountStatus(t'.participations, m, Accepted)
           == CountStatus(t.participations, m, Accepted) + (if m == id then 1 else 0)
    {
      CountAppend(t.participations, row, m, Accepted);
    }
  }

  lemma UpdateMyMeetingKeepsCounters(t: Tables, meetingId: int, userId: int, e: Edit)
    requires Integrity(t) && CountersExact(t)
    requires UpdateMyMeeting(t, meetingId, userId, e).Ok?
    ensures Integrity(UpdateMyMeeting(t, meetingId, userId, e).value)
    ensures CountersExact(UpdateMyMeeting(t, meetingId, userId, e).value)
  {
  }

  lemma SoftDeleteKeepsCounters(t: Tables, meetingId: int, userId: int, now: int)
    requires Integrity(t) && CountersExact(t)
    requires SoftDelete(t, meetingId, userId, now).Ok?
    ensures Integrity(SoftDelete(t, meetingId, userId, now).value)
    ensures CountersExact(SoftDelete(t, meetingId, userId, now).value)
  {
  }
}
