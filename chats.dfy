/** ChatService: who may use a meeting's chat, the list of a user's chat
    rooms, and the message store (append and ordered read). */
module Chats {
  import opened Common
  import opened Records
  import opened ParticipationTable
  import opened Sorting
  import E = Engine
  import NotificationLemmas

  // ---------------------------------------------------------------------
  // Membership
  // ---------------------------------------------------------------------

  /** isUserInMeeting: the (user, meeting) row exists and is ACCEPTED. */
  function IsUserInMeeting(ps: seq<Participation>, u: int, m: int): bool {
    match FindRow(ps, u, m)
    case Some(j) => ps[j].status == Accepted
    case None => false
  }

  /** With the table's unique (user, meeting) key, a user is in a meeting
      exactly when some row of theirs for it is ACCEPTED; a missing row, a
      PENDING row and a REJECTED row all keep them out. */
  lemma IsUserInMeetingIff(ps: seq<Participation>, u: int, m: int)
    requires UniquePairs(ps)
    ensures IsUserInMeeting(ps, u, m) <==> HasRowWith(ps, u, m, Accepted)
    ensures !HasRow(ps, u, m) ==> !IsUserInMeeting(ps, u, m)
    ensures HasRowWith(ps, u, m, Pending) || HasRowWith(ps, u, m, Rejected) ==> !IsUserInMeeting(ps, u, m)
  {
    if HasRowWith(ps, u, m, Accepted) {
      var j :| 0 <= j < |ps| && IsPair(ps[j], u, m) && ps[j].status == Accepted;
      FindRowUnique(ps, j);
    }
    if HasRowWith(ps, u, m, Pending) {
      var j :| 0 <= j < |ps| && IsPair(ps[j], u, m) && ps[j].status == Pending;
      FindRowUnique(ps, j);
    }
    if HasRowWith(ps, u, m, Rejected) {
      var j :| 0 <= j < |ps| && IsPair(ps[j], u, m) && ps[j].status == Rejected;
      FindRowUnique(ps, j);
    }
  }

  /** Approving an applicant lets them into the chat; cancelling an approval
      shuts them out again. */
  lemma ApprovalGovernsChat(t: E.Tables, meetingId: int, hostId: int, pId: int)
    requires E.Valid(t) && 0 <= pId < |t.participations| && t.participations[pId].meetingId == meetingId
    ensures E.ApproveOne(t, meetingId, hostId, pId).Ok? ==>
      IsUserInMeeting(E.ApproveOne(t, meetingId, hostId, pId).value.participations, t.participations[pId].userId, meetingId)
    ensures E.CancelApproval(t, meetingId, hostId, pId).Ok? ==>
      !IsUserInMeeting(E.CancelApproval(t, meetingId, hostId, pId).value.participations, t.participations[pId].userId, meetingId)
  {
    var u := t.participations[pId].userId;
    if E.ApproveOne(t, meetingId, hostId, pId).Ok? {
      var t' := E.ApproveOne(t, meetingId, hostId, pId).value;
      NotificationLemmas.ApproveOneKeepsValid(t, meetingId, hostId, pId);
      FindRowUnique(t'.participations, pId);
    }
    if E.CancelApproval(t, meetingId, hostId, pId).Ok? {
      var t' := E.CancelApproval(t, meetingId, hostId, pId).value;
      NotificationLemmas.CancelApprovalKeepsValid(t, meetingId, hostId, pId);
      FindRowUnique(t'.participations, pId);
    }
  }

  /** Nothing stops cancelApproval from targeting the host's own row: the
      host of a fresh meeting can withdraw their own acceptance and so lose
      access to the meeting's chat. */
  lemma HostCanLeaveOwnChat()
    ensures var t := E.Create(E.Tables([], [], []), 10, E.Draft("t", "d", 1, 5, 100, "a"), 0);
      && IsUserInMeeting(t.participations, 10, 0)
      && E.CancelApproval(t, 0, 10, 0).Ok?
      && !IsUserInMeeting(E.CancelApproval(t, 0, 10, 0).value.participations, 10, 0)
  {
    var t := E.Create(E.Tables([], [], []), 10, E.Draft("t", "d", 1, 5, 100, "a"), 0);
    assert t.meetings[0].hostId == 10;
    assert t.participations == [Participation(0, 10, Accepted, 0)];
    FindRowUnique(t.participations, 0);
    var ps := E.CancelApproval(t, 0, 10, 0).value.participations;
    assert ps == [Participation(0, 10, Pending, 0)];
    FindRowUnique(ps, 0);
  }

  // ---------------------------------------------------------------------
  // Messages
  // ---------------------------------------------------------------------

  datatype Message = Message(meetingId: nat, senderId: int, content: string, createdAt: int)

  /** The chat message table. */
  class ChatStore {
    var messages: seq<Message>

    constructor ()
      ensures messages == []
    {
      messages := [];
    }

    /** createMessage: one new row, stamped with the time of the call. */
    method CreateMessage(meetingId: nat, senderId: int, content: string, now: int) returns (msg: Message)
      modifies this
      ensures msg == Message(meetingId, senderId, content, now)
      ensures messages == old(messages) + [msg]
    {
      msg := Message(meetingId, senderId, content, now);
      messages := messages + [msg];
    }
  }

  /** The messages of meeting `m`, in table order. */
  function OfMeeting(msgs: seq<Message>, m: int): (r: seq<Message>)
    ensures forall x :: x in r ==> x.meetingId == m
    ensures forall x: Message :: x.meetingId == m ==> multiset(r)[x] == multiset(msgs)[x]
  {
    if |msgs| == 0 then []
    else
      var last := msgs[|msgs| - 1];
      assert msgs == msgs[..|msgs| - 1] + [last];
      OfMeeting(msgs[..|msgs| - 1], m) + (if last.meetingId == m then [last] else [])
  }

  function SentAt(): Message -> int {
    (x: Message) => x.createdAt
  }

  /** getMessages: the meeting's messages, oldest first. */
  function GetMessages(msgs: seq<Message>, m: int): (r: seq<Message>)
    ensures forall x :: x in r ==> x.meetingId == m
    ensures forall x: Message :: x.meetingId == m ==> multiset(r)[x] == multiset(msgs)[x]
    ensures forall k, l :: 0 <= k < l < |r| ==> r[k].createdAt <= r[l].createdAt
  {
    var own := OfMeeting(msgs, m);
    var sorted := SortBy(own, SentAt());
    assert forall x :: x in sorted ==> x in multiset(own);
    assert forall k, l :: 0 <= k < l < |sorted| ==> SentAt()(sorted[k]) <= SentAt()(sorted[l]);
    sorted
  }

  /** A new message shows up once in its own meeting's history and leaves
      every other meeting's history as it was. */
  lemma CreateThenGet(msgs: seq<Message>, msg: Message, m: int)
    ensures multiset(GetMessages(msgs + [msg], m))
            == multiset(GetMessages(msgs, m)) + (if msg.meetingId == m then multiset{msg} else multiset{})
  {
    var a := GetMessages(msgs + [msg], m);
    var b := GetMessages(msgs, m);
    forall x: Message
      ensures multiset(a)[x] == (multiset(b) + (if msg.meetingId == m then multiset{msg} else multiset{}))[x]
    {
      if x.meetingId == m {
        assert multiset(msgs + [msg]) == multiset(msgs) + multiset{msg};
      } else {
        assert x !in a && x !in b;
      }
    }
  }

  /** The newest message of meeting `m` (`orderBy: createdAt desc, take: 1`). */
  function LastMessage(msgs: seq<Message>, m: int): (r: Option<Message>)
    ensures r.None? <==> forall x :: x in msgs ==> x.meetingId != m
    ensures r.Some? ==> r.value in msgs && r.value.meetingId == m
    ensures r.Some? ==> forall x :: x in msgs && x.meetingId == m ==> x.createdAt <= r.value.createdAt
  {
    if |msgs| == 0 then None
    else
      var last := msgs[|msgs| - 1];
      var init := msgs[..|msgs| - 1];
      assert msgs == init + [last];
      var before := LastMessage(init, m);
      if last.meetingId != m then before
      else if before.Some? && before.value.createdAt > last.createdAt then before
      else Some(last)
  }

  // ---------------------------------------------------------------------
  // Chat rooms
  // ---------------------------------------------------------------------

  datatype Room = Room(
    meetingId: nat,
    title: string,
    hostId: int,
    lastMessage: Option<Message>,
    memberCount: nat,
    isLeader: bool)

  /** Rows of user `u` whose status is `s`, over every meeting. */
  function CountUserStatus(ps: seq<Participation>, u: int, s: Status): nat {
    if |ps| == 0 then 0
    else CountUserStatus(ps[..|ps| - 1], u, s) + (if ps[|ps| - 1].userId == u && ps[|ps| - 1].status == s then 1 else 0)
  }

  /** The ids of `u`'s ACCEPTED rows, in table order. */
  function AcceptedRowsOf(ps: seq<Participation>, u: int): (r: seq<nat>)
    ensures |r| == CountUserStatus(ps, u, Accepted)
    ensures forall i: nat :: i in r <==> i < |ps| && ps[i].userId == u && ps[i].status == Accepted
    ensures forall k, l :: 0 <= k < l < |r| ==> r[k] < r[l]
  {
    if |ps| == 0 then []
    else
      var prefix := AcceptedRowsOf(ps[..|ps| - 1], u);
      assert forall k :: 0 <= k < |prefix| ==> prefix[k] in prefix && prefix[k] < |ps| - 1;
      if ps[|ps| - 1].userId == u && ps[|ps| - 1].status == Accepted then prefix + [|ps| - 1] else prefix
  }

  /** Every row names an existing meeting (the foreign key). */
  predicate RowsHaveMeetings(t: E.Tables) {
    forall i :: 0 <= i < |t.participations| ==> t.participations[i].meetingId < |t.meetings|
  }

  function RoomOf(t: E.Tables, msgs: seq<Message>, u: int, m: nat): Room
    requires m < |t.meetings|
  {
    Room(m, t.meetings[m].title, t.meetings[m].hostId, LastMessage(msgs, m),
         CountMeeting(t.participations, m), t.meetings[m].hostId == u)
  }

  /** getUserChatRooms: a room per ACCEPTED row of the user, deleted
      meetings included. */
  function GetUserChatRooms(t: E.Tables, msgs: seq<Message>, u: int): (r: seq<Room>)
    requires RowsHaveMeetings(t)
    ensures |r| == CountUserStatus(t.participations, u, Accepted)
  {
    var rows := AcceptedRowsOf(t.participations, u);
    assert forall k :: 0 <= k < |rows| ==> rows[k] in rows;
    seq(|rows|, k requires 0 <= k < |rows| => RoomOf(t, msgs, u, t.participations[rows[k]].meetingId))
  }

  /** A room for `m` is listed exactly when the user's row for `m` is
      ACCEPTED. */
  lemma ChatRoomsMembership(t: E.Tables, msgs: seq<Message>, u: int, m: nat)
    requires RowsHaveMeetings(t)
    ensures (exists k :: 0 <= k < |GetUserChatRooms(t, msgs, u)| && GetUserChatRooms(t, msgs, u)[k].meetingId == m)
            <==> HasRowWith(t.participations, u, m, Accepted)
  {
    var ps := t.participations;
    var rows := AcceptedRowsOf(ps, u);
    var rooms := GetUserChatRooms(t, msgs, u);
    if HasRowWith(ps, u, m, Accepted) {
      var j :| 0 <= j < |ps| && IsPair(ps[j], u, m) && ps[j].status == Accepted;
      assert j in rows;
      var k :| 0 <= k < |rows| && rows[k] == j;
      assert rooms[k].meetingId == m;
    }
    if exists k :: 0 <= k < |rooms| && rooms[k].meetingId == m {
      var k :| 0 <= k < |rooms| && rooms[k].meetingId == m;
      assert rows[k] in rows;
      assert IsPair(ps[rows[k]], u, m) && ps[rows[k]].status == Accepted;
    }
  }

  /** The rooms are exactly the meetings where the user's row is ACCEPTED;
      each room's leader flag says whether the user hosts it, its member
      count counts the meeting's rows of every status, and its last message
      is the meeting's newest. */
  lemma ChatRoomsExact(t: E.Tables, msgs: seq<Message>, u: int, m: nat)
    requires RowsHaveMeetings(t)
    ensures (exists k :: 0 <= k < |GetUserChatRooms(t, msgs, u)| && GetUserChatRooms(t, msgs, u)[k].meetingId == m)
            <==> HasRowWith(t.participations, u, m, Accepted)
    ensures forall room :: room in GetUserChatRooms(t, msgs, u) ==>
      && room.meetingId < |t.meetings|
      && (room.isLeader <==> t.meetings[room.meetingId].hostId == u)
      && room.memberCount == CountMeeting(t.participations, room.meetingId)
      && room.lastMessage == LastMessage(msgs, room.meetingId)
  {
    ChatRoomsMembership(t, msgs, u, m);
  }

  /** With the unique (user, meeting) key, no meeting gets two rooms. */
  lemma ChatRoomsDistinct(t: E.Tables, msgs: seq<Message>, u: int)
    requires RowsHaveMeetings(t) && UniquePairs(t.participations)
    ensures var rooms := GetUserChatRooms(t, msgs, u);
      forall a, b :: 0 <= a < b < |rooms| ==> rooms[a].meetingId != rooms[b].meetingId
  {
    var ps := t.participations;
    var rows := AcceptedRowsOf(ps, u);
    var rooms := GetUserChatRooms(t, msgs, u);
    forall a, b | 0 <= a < b < |rooms|
      ensures rooms[a].meetingId != rooms[b].meetingId
    {
      assert rows[a] in rows && rows[b] in rows;
      assert rows[a] < rows[b];
      assert !IsPair(ps[rows[b]], ps[rows[a]].userId, ps[rows[a]].meetingId);
    }
  }
}
