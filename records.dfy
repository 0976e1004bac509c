/** The rows of the three stores of the participation engine.  Identifiers of
    meetings and participations are positions in their tables (rows are never
    removed, only flagged); user ids are plain integers. */
module Records {

  datatype Status = Pending | Accepted | Rejected

  datatype NotificationType =
    | ParticipationRequest
    | ParticipationAccepted
    | ParticipationRejected
    | ParticipationCancelled
    | MeetingDeleted

  datatype Meeting = Meeting(
    hostId: int,
    title: string,
    description: string,
    interestId: int,
    address: string,
    maxParticipants: int,
    currentParticipants: int,
    meetingDate: int,
    meetingDeleted: bool,
    createdAt: int,
    updatedAt: int)

  datatype Participation = Participation(meetingId: nat, userId: int, status: Status, createdAt: int)

  datatype Notification = Notification(
    meetingId: nat,
    receiverId: int,
    senderId: int,
    kind: NotificationType,
    isRead: bool)

  /** The `where` clause the services hand to `updateMany` and `deleteMany`
      on notifications: meeting, receiver, sender and type. */
  datatype Addr = Addr(meetingId: nat, receiverId: int, senderId: int, kind: NotificationType)

  predicate Matches(n: Notification, a: Addr) {
    n.meetingId == a.meetingId && n.receiverId == a.receiverId
    && n.senderId == a.senderId && n.kind == a.kind
  }

  /** A notification sent to `a`'s receiver by `a`'s sender about `a`'s meeting. */
  function NewNotice(a: Addr): Notification {
    Notification(a.meetingId, a.receiverId, a.senderId, a.kind, false)
  }
}
