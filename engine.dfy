/** The participation engine as a state machine over the three stores.
    Each transition is the whole effect of one service call (one
    `$transaction` block): either an error, with nothing written, or the
    new contents of the stores. */
module Engine {
  import opened Common
  import opened Records
  import opened ParticipationTable
  import opened NotificationTable

  datatype Tables = Tables(
    meetings: seq<Meeting>,
    participations: seq<Participation>,
    notifications: seq<Notification>)

  predicate IsMeeting(t: Tables, m: int) {
    0 <= m < |t.meetings|
  }

  /** The request notification the applicant `u` sent to the host. */
  function RequestAddr(m: nat, host: int, u: int): Addr {
    Addr(m, host, u, ParticipationRequest)
  }

  /** A decision notification (accepted, rejected, cancelled) the host sent to `u`. */
  function DecisionAddr(m: nat, host: int, u: int, kind: NotificationType): Addr {
    Addr(m, u, host, kind)
  }

  // ---------------------------------------------------------------------
  // Invariants
  // ---------------------------------------------------------------------

  /** Every row points at a meeting, the (user, meeting) key is unique, and
      every notification is about a meeting that exists. */
  ghost predicate Integrity(t: Tables) {
    && (forall i :: 0 <= i < |t.participations| ==> t.participations[i].meetingId < |t.meetings|)
    && UniquePairs(t.participations)
    && (forall n :: n in t.notifications ==> n.meetingId < |t.meetings|)
  }

  /** The occupancy counter of every meeting is the number of its ACCEPTED
      rows and never exceeds the capacity. */
  ghost predicate CountersExact(t: Tables) {
    forall m :: 0 <= m < |t.meetings| ==>
      && t.meetings[m].currentParticipants == CountStatus(t.participations, m, Accepted)
      && t.meetings[m].currentParticipants <= t.meetings[m].maxParticipants
  }

  /** The notifications about one applicant's row: one request to the host,
      unread exactly while the row is PENDING, and one ACCEPTED (REJECTED)
      notice exactly while the row is ACCEPTED (REJECTED). */
  ghost predicate RowNotified(t: Tables, i: nat)
    requires i < |t.participations| && t.participations[i].meetingId < |t.meetings|
  {
    var p := t.participations[i];
    var h := t.meetings[p.meetingId].hostId;
    p.userId != h ==>
      && Count(t.notifications, RequestAddr(p.meetingId, h, p.userId)) == 1
      && Unread(t.notifications, RequestAddr(p.meetingId, h, p.userId)) == (if p.status == Pending then 1 else 0)
      && Count(t.notifications, DecisionAddr(p.meetingId, h, p.userId, ParticipationAccepted))
         == (if p.status == Accepted then 1 else 0)
      && Count(t.notifications, DecisionAddr(p.meetingId, h, p.userId, ParticipationRejected))
         == (if p.status == Rejected then 1 else 0)
  }

  /** A request, acceptance or rejection concerning someone other than the
      host is about an existing row. */
  ghost predicate Accounted(t: Tables, n: Notification)
    requires n.meetingId < |t.meetings|
  {
    var h := t.meetings[n.meetingId].hostId;
    && (n.kind == ParticipationRequest && n.senderId != h ==> HasRow(t.participations, n.senderId, n.meetingId))
    && ((n.kind == ParticipationAccepted || n.kind == ParticipationRejected) && n.receiverId != h
        ==> HasRow(t.participations, n.receiverId, n.meetingId))
  }

  ghost predicate NotificationsExact(t: Tables)
    requires Integrity(t)
  {
    && (forall i :: 0 <= i < |t.participations| ==> RowNotified(t, i))
    && (forall n :: n in t.notifications ==> Accounted(t, n))
  }

  ghost predicate Valid(t: Tables) {
    Integrity(t) && CountersExact(t) && NotificationsExact(t)
  }

  // ---------------------------------------------------------------------
  // Notification side effects shared by several transitions
  // ---------------------------------------------------------------------

  /** Approving `u`: the request is marked read, `u` is told. */
  function AcceptStep(ns: seq<Notification>, m: nat, host: int, u: int): seq<Notification> {
    SetRead(ns, RequestAddr(m, host, u), true) + [NewNotice(DecisionAddr(m, host, u, ParticipationAccepted))]
  }

  /** The loop of approve-all: `AcceptStep` for each requester in turn. */
  function AcceptEach(ns: seq<Notification>, m: nat, host: int, users: seq<int>): seq<Notification>
    decreases |users|
  {
    if |users| == 0 then ns else AcceptEach(AcceptStep(ns, m, host, users[0]), m, host, users[1..])
  }

  function UsersOf(ps: seq<Participation>, ids: seq<nat>): seq<int>
    requires forall i :: i in ids ==> i < |ps|
  {
    assert forall k :: 0 <= k < |ids| ==> ids[k] in ids;
    seq(|ids|, k requires 0 <= k < |ids| => ps[ids[k]].userId)
  }

  /** `createMany` of softDelete: one MEETING_DELETED per ACCEPTED row of
      `m` other than the deleting host's, in table order. */
  function DeletionNotices(ps: seq<Participation>, m: nat, host: int): (r: seq<Notification>)
    ensures forall n :: n in r ==>
      && n.meetingId == m && n.senderId == host && n.receiverId != host
      && n.kind == MeetingDeleted && !n.isRead
  {
    if |ps| == 0 then []
    else
      var p := ps[|ps| - 1];
      DeletionNotices(ps[..|ps| - 1], m, host)
      + (if p.meetingId == m && p.status == Accepted && p.userId != host
         then [NewNotice(DecisionAddr(m, host, p.userId, MeetingDeleted))] else [])
  }

  // ---------------------------------------------------------------------
  // Transitions of ParticipationsService
  // ---------------------------------------------------------------------

  /** The host of meeting `m` is `h`. */
  predicate HostedBy(t: Tables, m: int, h: int) {
    IsMeeting(t, m) && t.meetings[m].hostId == h
  }

  /** createParticipation: a join request. The guards fail in the order:
      missing, deleted, past its date, asked by the host, full, already
      applied; a request that passes them all is accepted. */
  function CreateParticipation(t: Tables, meetingId: int, userId: int, now: int): (r: Result<Tables>)
    ensures !IsMeeting(t, meetingId) ==> r == Err(NotFound)
    ensures IsMeeting(t, meetingId) ==>
      var m := t.meetings[meetingId];
      && (m.meetingDeleted ==> r == Err(Gone))
      && (!m.meetingDeleted && m.meetingDate < now ==> r == Err(BadRequest(PastDeadline)))
      && (!m.meetingDeleted && m.meetingDate >= now && m.hostId == userId ==> r == Err(BadRequest(HostCannotJoin)))
      && ((!m.meetingDeleted && m.meetingDate >= now && m.hostId != userId
           && m.currentParticipants >= m.maxParticipants) ==> r == Err(BadRequest(MeetingFull)))
      && ((!m.meetingDeleted && m.meetingDate >= now && m.hostId != userId
           && m.currentParticipants < m.maxParticipants && HasRow(t.participations, userId, meetingId))
          ==> r == Err(Conflict(AlreadyApplied)))
    ensures r.Ok? <==>
      && IsMeeting(t, meetingId) && !t.meetings[meetingId].meetingDeleted
      && t.meetings[meetingId].meetingDate >= now && t.meetings[meetingId].hostId != userId
      && t.meetings[meetingId].currentParticipants < t.meetings[meetingId].maxParticipants
      && !HasRow(t.participations, userId, meetingId)
  {
    if !IsMeeting(t, meetingId) then Err(NotFound)
    else
      var m := t.meetings[meetingId];
      if m.meetingDeleted then Err(Gone)
      else if m.meetingDate < now then Err(BadRequest(PastDeadline))
      else if m.hostId == userId then Err(BadRequest(HostCannotJoin))
      else if m.currentParticipants >= m.maxParticipants then Err(BadRequest(MeetingFull))
      else if HasRow(t.participations, userId, meetingId) then Err(Conflict(AlreadyApplied))
      else Ok(Tables(
        t.meetings,
        t.participations + [Participation(meetingId, userId, Pending, now)],
        t.notifications + [NewNotice(RequestAddr(meetingId, m.hostId, userId))]))
  }

  /** approveOne; the row is looked up by `pId` alone. The guards fail in
      the order: missing meeting, not its host, full, row not PENDING. */
  function ApproveOne(t: Tables, meetingId: int, hostId: int, pId: int): (r: Result<Tables>)
    ensures !IsMeeting(t, meetingId) ==> r == Err(NotFound)
    ensures IsMeeting(t, meetingId) && !HostedBy(t, meetingId, hostId) ==> r == Err(Forbidden)
    ensures HostedBy(t, meetingId, hostId) && t.meetings[meetingId].currentParticipants >= t.meetings[meetingId].maxParticipants
      ==> r == Err(BadRequest(MeetingFull))
    ensures HostedBy(t, meetingId, hostId) && t.meetings[meetingId].currentParticipants < t.meetings[meetingId].maxParticipants
      && !(0 <= pId < |t.participations| && t.participations[pId].status == Pending)
      ==> r == Err(BadRequest(NotPending))
    ensures r.Ok? <==>
      && HostedBy(t, meetingId, hostId)
      && t.meetings[meetingId].currentParticipants < t.meetings[meetingId].maxParticipants
      && 0 <= pId < |t.participations| && t.participations[pId].status == Pending
  {
    if !IsMeeting(t, meetingId) then Err(NotFound)
    else
      var m := t.meetings[meetingId];
      if m.hostId != hostId then Err(Forbidden)
      else if m.currentParticipants >= m.maxParticipants then Err(BadRequest(MeetingFull))
      else if !(0 <= pId < |t.participations|) || t.participations[pId].status != Pending then Err(BadRequest(NotPending))
      else
        var p := t.participations[pId];
        Ok(Tables(
          t.meetings[meetingId := m.(currentParticipants := m.currentParticipants + 1)],
          t.participations[pId := p.(status := Accepted)],
          AcceptStep(t.notifications, meetingId, hostId, p.userId)))
  }

  /** rejectOne; no capacity check, the counter is untouched. The guards
      fail in the order: missing meeting, not its host, row not PENDING. */
  function RejectOne(t: Tables, meetingId: int, hostId: int, pId: int): (r: Result<Tables>)
    ensures !IsMeeting(t, meetingId) ==> r == Err(NotFound)
    ensures IsMeeting(t, meetingId) && !HostedBy(t, meetingId, hostId) ==> r == Err(Forbidden)
    ensures HostedBy(t, meetingId, hostId) && !(0 <= pId < |t.participations| && t.participations[pId].status == Pending)
      ==> r == Err(BadRequest(NotPending))
    ensures r.Ok? <==> HostedBy(t, meetingId, hostId) && 0 <= pId < |t.participations| && t.participations[pId].status == Pending
    ensures r.Ok? ==> r.value.meetings == t.meetings
  {
    if !IsMeeting(t, meetingId) then Err(NotFound)
    else
      var m := t.meetings[meetingId];
      if m.hostId != hostId then Err(Forbidden)
      else if !(0 <= pId < |t.participations|) || t.participations[pId].status != Pending then Err(BadRequest(NotPending))
      else
        var p := t.participations[pId];
        Ok(Tables(
          t.meetings,
          t.participations[pId := p.(status := Rejected)],
          SetRead(t.notifications, RequestAddr(meetingId, hostId, p.userId), true)
          + [NewNotice(DecisionAddr(meetingId, hostId, p.userId, ParticipationRejected))]))
  }

  /** approveAll: every PENDING row of the meeting, or none of them. With no
      PENDING row nothing changes. */
  function ApproveAll(t: Tables, meetingId: int, hostId: int): (r: Result<Tables>)
    ensures !IsMeeting(t, meetingId) ==> r == Err(NotFound)
    ensures IsMeeting(t, meetingId) && !HostedBy(t, meetingId, hostId) ==> r == Err(Forbidden)
    ensures HostedBy(t, meetingId, hostId) && |MeetingRows(t.participations, meetingId, Pending)| == 0 ==> r == Ok(t)
    ensures HostedBy(t, meetingId, hostId)
      && |MeetingRows(t.participations, meetingId, Pending)| > t.meetings[meetingId].maxParticipants - t.meetings[meetingId].currentParticipants
      && |MeetingRows(t.participations, meetingId, Pending)| > 0
      ==> r == Err(BadRequest(NotEnoughSlots))
    ensures r.Ok? <==> (HostedBy(t, meetingId, hostId)
      && (|MeetingRows(t.participations, meetingId, Pending)| == 0
          || |MeetingRows(t.participations, meetingId, Pending)| <= t.meetings[meetingId].maxParticipants - t.meetings[meetingId].currentParticipants))
  {
    if !IsMeeting(t, meetingId) then Err(NotFound)
    else
      var m := t.meetings[meetingId];
      if m.hostId != hostId then Err(Forbidden)
      else
        var pendings := MeetingRows(t.participations, meetingId, Pending);
        if |pendings| == 0 then Ok(t)
        else if |pendings| > m.maxParticipants - m.currentParticipants then Err(BadRequest(NotEnoughSlots))
        else Ok(Tables(
          t.meetings[meetingId := m.(currentParticipants := m.currentParticipants + |pendings|)],
          SetStatusAt(t.participations, pendings, Accepted),
          AcceptEach(t.notifications, meetingId, hostId, UsersOf(t.participations, pendings))))
  }

  /** What approveAll commits once its checks have passed. */
  lemma ApproveAllCommits(t: Tables, meetingId: nat, hostId: int)
    requires meetingId < |t.meetings| && t.meetings[meetingId].hostId == hostId
    requires var pendings := MeetingRows(t.participations, meetingId, Pending);
      0 < |pendings| <= t.meetings[meetingId].maxParticipants - t.meetings[meetingId].currentParticipants
    ensures var m := t.meetings[meetingId];
      var pendings := MeetingRows(t.participations, meetingId, Pending);
      ApproveAll(t, meetingId, hostId) == Ok(Tables(
        t.meetings[meetingId := m.(currentParticipants := m.currentParticipants + |pendings|)],
        SetStatusAt(t.participations, pendings, Accepted),
        AcceptEach(t.notifications, meetingId, hostId, UsersOf(t.participations, pendings))))
  {
    var m := t.meetings[meetingId];
    var pendings := MeetingRows(t.participations, meetingId, Pending);
    assert !(|pendings| == 0) && !(|pendings| > m.maxParticipants - m.currentParticipants);
  }

  /** cancelApproval: back to PENDING, one seat freed, the acceptance
      withdrawn, a cancellation sent, the request reopened. */
  function CancelApproval(t: Tables, meetingId: int, hostId: int, pId: int): (r: Result<Tables>)
    ensures !IsMeeting(t, meetingId) ==> r == Err(NotFound)
    ensures IsMeeting(t, meetingId) && !HostedBy(t, meetingId, hostId) ==> r == Err(Forbidden)
    ensures HostedBy(t, meetingId, hostId) && !(0 <= pId < |t.participations| && t.participations[pId].status == Accepted)
      ==> r == Err(BadRequest(NotAccepted))
    ensures r.Ok? <==> HostedBy(t, meetingId, hostId) && 0 <= pId < |t.participations| && t.participations[pId].status == Accepted
  {
    if !IsMeeting(t, meetingId) then Err(NotFound)
    else
      var m := t.meetings[meetingId];
      if m.hostId != hostId then Err(Forbidden)
      else if !(0 <= pId < |t.participations|) || t.participations[pId].status != Accepted then Err(BadRequest(NotAccepted))
      else
        var p := t.participations[pId];
        Ok(Tables(
          t.meetings[meetingId := m.(currentParticipants := m.currentParticipants - 1)],
          t.participations[pId := p.(status := Pending)],
          SetRead(
            DeleteWhere(t.notifications, DecisionAddr(meetingId, hostId, p.userId, ParticipationAccepted))
            + [NewNotice(DecisionAddr(meetingId, hostId, p.userId, ParticipationCancelled))],
            RequestAddr(meetingId, hostId, p.userId), false)))
  }

  /** cancelRejection: back to PENDING, the rejection withdrawn, the request
      reopened; nothing new is sent. */
  function CancelRejection(t: Tables, meetingId: int, hostId: int, pId: int): (r: Result<Tables>)
    ensures !IsMeeting(t, meetingId) ==> r == Err(NotFound)
    ensures IsMeeting(t, meetingId) && !HostedBy(t, meetingId, hostId) ==> r == Err(Forbidden)
    ensures HostedBy(t, meetingId, hostId) && !(0 <= pId < |t.participations| && t.participations[pId].status == Rejected)
      ==> r == Err(BadRequest(NotRejected))
    ensures r.Ok? <==> HostedBy(t, meetingId, hostId) && 0 <= pId < |t.participations| && t.participations[pId].status == Rejected
    ensures r.Ok? ==> r.value.meetings == t.meetings
  {
    if !IsMeeting(t, meetingId) then Err(NotFound)
    else
      var m := t.meetings[meetingId];
      if m.hostId != hostId then Err(Forbidden)
      else if !(0 <= pId < |t.participations|) || t.participations[pId].status != Rejected then Err(BadRequest(NotRejected))
      else
        var p := t.participations[pId];
        Ok(Tables(
          t.meetings,
          t.participations[pId := p.(status := Pending)],
          SetRead(
            DeleteWhere(t.notifications, DecisionAddr(meetingId, hostId, p.userId, ParticipationRejected)),
            RequestAddr(meetingId, hostId, p.userId), false)))
  }

  // ---------------------------------------------------------------------
  // Transitions of MeetingsService
  // ---------------------------------------------------------------------

  /** The fields of a new meeting, after the DTO's conversions. */
  datatype Draft = Draft(
    title: string,
    description: string,
    interestId: int,
    maxParticipants: int,
    meetingDate: int,
    address: string)

  /** create: the meeting with occupancy 1 and the host's ACCEPTED row. */
  function Create(t: Tables, hostId: int, d: Draft, now: int): Tables {
    Tables(
      t.meetings + [Meeting(hostId, d.title, d.description, d.interestId, d.address,
                            d.maxParticipants, 1, d.meetingDate, false, now, now)],
      t.participations + [Participation(|t.meetings|, hostId, Accepted, now)],
      t.notifications)
  }

  /** The fields of an edit; `None` is a field the request left out (for the
      date also an empty string). */
  datatype Edit = Edit(
    title: Option<string>,
    description: Option<string>,
    interestId: Option<int>,
    maxParticipants: Option<int>,
    meetingDate: Option<int>,
    address: Option<string>)

  /** A number the service passes on only when it is truthy (present, not 0). */
  function Truthy(x: Option<int>, old_: int): int {
    if x.Some? && x.value != 0 then x.value else old_
  }

  function Edited(m: Meeting, e: Edit): Meeting {
    m.(title := e.title.GetOr(m.title),
       description := e.description.GetOr(m.description),
       interestId := Truthy(e.interestId, m.interestId),
       maxParticipants := Truthy(e.maxParticipants, m.maxParticipants),
       meetingDate := e.meetingDate.GetOr(m.meetingDate),
       address := e.address.GetOr(m.address))
  }

  /** updateMyMeeting. The guards fail in the order: missing or deleted, not
      its host, a given (non-zero) capacity below the occupancy. Only the
      edited meeting changes. */
  function UpdateMyMeeting(t: Tables, meetingId: int, userId: int, e: Edit): (r: Result<Tables>)
    ensures !IsMeeting(t, meetingId) || t.meetings[meetingId].meetingDeleted ==> r == Err(NotFound)
    ensures IsMeeting(t, meetingId) && !t.meetings[meetingId].meetingDeleted && !HostedBy(t, meetingId, userId)
      ==> r == Err(Forbidden)
    ensures r.Ok? <==>
      && HostedBy(t, meetingId, userId) && !t.meetings[meetingId].meetingDeleted
      && !(e.maxParticipants.Some? && e.maxParticipants.value != 0
           && e.maxParticipants.value < t.meetings[meetingId].currentParticipants)
    ensures r.Ok? ==>
      && r.value.participations == t.participations && r.value.notifications == t.notifications
      && |r.value.meetings| == |t.meetings|
      && (forall k :: 0 <= k < |t.meetings| && k != meetingId ==> r.value.meetings[k] == t.meetings[k])
      && r.value.meetings[meetingId].currentParticipants == t.meetings[meetingId].currentParticipants
      && r.value.meetings[meetingId].hostId == userId
  {
    if !IsMeeting(t, meetingId) || t.meetings[meetingId].meetingDeleted then Err(NotFound)
    else
      var m := t.meetings[meetingId];
      if m.hostId != userId then Err(Forbidden)
      else if e.maxParticipants.Some? && e.maxParticipants.value != 0
              && e.maxParticipants.value < m.currentParticipants then Err(BadRequest(CapacityBelowCurrent))
      else Ok(t.(meetings := t.meetings[meetingId := Edited(m, e)]))
  }

  /** softDelete. The guards fail in the order: missing, already deleted,
      not its host, past its date; on success the meeting is flagged deleted
      and the notices are appended. */
  function SoftDelete(t: Tables, meetingId: int, userId: int, now: int): (r: Result<Tables>)
    ensures !IsMeeting(t, meetingId) ==> r == Err(NotFound)
    ensures IsMeeting(t, meetingId) && t.meetings[meetingId].meetingDeleted ==> r == Err(Gone)
    ensures IsMeeting(t, meetingId) && !t.meetings[meetingId].meetingDeleted && !HostedBy(t, meetingId, userId)
      ==> r == Err(Forbidden)
    ensures HostedBy(t, meetingId, userId) && !t.meetings[meetingId].meetingDeleted && t.meetings[meetingId].meetingDate < now
      ==> r == Err(BadRequest(MeetingFinished))
    ensures r.Ok? <==> HostedBy(t, meetingId, userId) && !t.meetings[meetingId].meetingDeleted
                       && t.meetings[meetingId].meetingDate >= now
    ensures r.Ok? ==>
      && |r.value.meetings| == |t.meetings| && r.value.meetings[meetingId].meetingDeleted
      && r.value.participations == t.participations
      && |r.value.notifications| >= |t.notifications| && r.value.notifications[..|t.notifications|] == t.notifications
  {
    if !IsMeeting(t, meetingId) then Err(NotFound)
    else
      var m := t.meetings[meetingId];
      if m.meetingDeleted then Err(Gone)
      else if m.hostId != userId then Err(Forbidden)
      else if m.meetingDate < now then Err(BadRequest(MeetingFinished))
      else Ok(Tables(
        t.meetings[meetingId := m.(meetingDeleted := true)],
        t.participations,
        t.notifications + DeletionNotices(t.participations, meetingId, userId)))
  }
}
