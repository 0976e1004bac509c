/** Every transition keeps the notifications in step with the participation
    rows: one request per applicant, unread exactly while the row is PENDING,
    one ACCEPTED (REJECTED) notice exactly while the row is ACCEPTED
    (REJECTED), and no request or decision about a row that does not exist. */
module NotificationLemmas {
  import opened Common
  import opened Records
  import opened ParticipationTable
  import opened NotificationTable
  import opened Engine
  import opened CounterLemmas
  import opened Sorting

  // ---------------------------------------------------------------------
  // What each side effect does to the count of one address
  // ---------------------------------------------------------------------

  /** The addresses that concern the applicant `u` of meeting `m`: the
      request to the host and every decision the host sends back. */
  predicate AboutApplicant(b: Addr, m: nat, h: int, u: int) {
    b == RequestAddr(m, h, u) || (b.meetingId == m && b.receiverId == u && b.senderId == h)
  }

  lemma NewNoticeMatches(a: Addr, b: Addr)
    ensures Matches(NewNotice(a), b) <==> a == b
  {
  }

  lemma KeysOne(a: Addr)
    ensures Keys([NewNotice(a)]) == {a}
  {
    assert NewNotice(a) in [NewNotice(a)];
  }

  /** The notification side of cancel-approval. */
  lemma WithdrawAcceptanceEffect(ns: seq<Notification>, m: nat, h: int, u: int, b: Addr)
    ensures var r := RequestAddr(m, h, u);
      var a := DecisionAddr(m, h, u, ParticipationAccepted);
      var c := DecisionAddr(m, h, u, ParticipationCancelled);
      var ns' := SetRead(DeleteWhere(ns, a) + [NewNotice(c)], r, false);
      && Count(ns', b) == (if b == a then 0 else Count(ns, b)) + (if b == c then 1 else 0)
      && Unread(ns', b) == if b == r then Count(ns, b)
                          else (if b == a then 0 else Unread(ns, b)) + (if b == c then 1 else 0)
  {
    var r := RequestAddr(m, h, u);
    var a := DecisionAddr(m, h, u, ParticipationAccepted);
    var c := DecisionAddr(m, h, u, ParticipationCancelled);
    var kept := DeleteWhere(ns, a);
    CountDelete(ns, a, b);
    CountAppendOne(kept, NewNotice(c), b);
    NewNoticeMatches(c, b);
    CountSetRead(kept + [NewNotice(c)], r, false, b);
    CountDelete(ns, a, r);
    CountAppendOne(kept, NewNotice(c), r);
    NewNoticeMatches(c, r);
  }

  /** The notification side of cancel-rejection. */
  lemma WithdrawRejectionEffect(ns: seq<Notification>, m: nat, h: int, u: int, b: Addr)
    ensures var r := RequestAddr(m, h, u);
      var a := DecisionAddr(m, h, u, ParticipationRejected);
      var ns' := SetRead(DeleteWhere(ns, a), r, false);
      && Count(ns', b) == (if b == a then 0 else Count(ns, b))
      && Unread(ns', b) == if b == r then Count(ns, b) else if b == a then 0 else Unread(ns, b)
  {
    var r := RequestAddr(m, h, u);
    var a := DecisionAddr(m, h, u, ParticipationRejected);
    CountDelete(ns, a, b);
    CountSetRead(DeleteWhere(ns, a), r, false, b);
    CountDelete(ns, a, r);
  }

  lemma AcceptStepEffect(ns: seq<Notification>, m: nat, h: int, u: int, b: Addr)
    ensures Count(AcceptStep(ns, m, h, u), b)
         == Count(ns, b) + (if b == DecisionAddr(m, h, u, ParticipationAccepted) then 1 else 0)
    ensures Unread(AcceptStep(ns, m, h, u), b)
         == (if b == RequestAddr(m, h, u) then 0 else Unread(ns, b))
            + (if b == DecisionAddr(m, h, u, ParticipationAccepted) then 1 else 0)
  {
    var a := DecisionAddr(m, h, u, ParticipationAccepted);
    CountSetRead(ns, RequestAddr(m, h, u), true, b);
    CountAppendOne(SetRead(ns, RequestAddr(m, h, u), true), NewNotice(a), b);
    NewNoticeMatches(a, b);
  }

  /** The notification side of reject-one: the requests from `u` are read
      and `u` gets one unread rejection; nothing else changes. */
  lemma RejectStepEffect(ns: seq<Notification>, m: nat, h: int, u: int, b: Addr)
    ensures var r := RequestAddr(m, h, u);
      var a := DecisionAddr(m, h, u, ParticipationRejected);
      var ns' := SetRead(ns, r, true) + [NewNotice(a)];
      && Count(ns', b) == Count(ns, b) + (if b == a then 1 else 0)
      && Unread(ns', b) == (if b == r then 0 else Unread(ns, b)) + (if b == a then 1 else 0)
  {
    var r := RequestAddr(m, h, u);
    var a := DecisionAddr(m, h, u, ParticipationRejected);
    CountSetRead(ns, r, true, b);
    CountAppendOne(SetRead(ns, r, true), NewNotice(a), b);
    NewNoticeMatches(a, b);
  }

  /** The notification side of approve-all: every requester in `users` is
      told once per occurrence, and every request from one of them is read. */
  lemma {:induction false} AcceptEachEffect(ns: seq<Notification>, m: nat, h: int, users: seq<int>, b: Addr)
    ensures Count(AcceptEach(ns, m, h, users), b)
         == Count(ns, b)
            + (if b.kind == ParticipationAccepted && b.meetingId == m && b.senderId == h
               then multiset(users)[b.receiverId] else 0)
    ensures Unread(AcceptEach(ns, m, h, users), b)
         == (if b.kind == ParticipationRequest && b.meetingId == m && b.receiverId == h && b.senderId in users
             then 0 else Unread(ns, b))
            + (if b.kind == ParticipationAccepted && b.meetingId == m && b.senderId == h
               then multiset(users)[b.receiverId] else 0)
    decreases |users|
  {
    if |users| > 0 {
      AcceptStepEffect(ns, m, h, users[0], b);
      AcceptEachEffect(AcceptStep(ns, m, h, users[0]), m, h, users[1..], b);
      assert users == [users[0]] + users[1..];
      assert multiset(users) == multiset{users[0]} + multiset(users[1..]);
    }
  }

  lemma {:induction false} AcceptEachKeys(ns: seq<Notification>, m: nat, h: int, users: seq<int>)
    ensures forall a :: a in Keys(AcceptEach(ns, m, h, users)) ==>
      a in Keys(ns)
      || (a.kind == ParticipationAccepted && a.meetingId == m && a.senderId == h && a.receiverId in users)
    decreases |users|
  {
    if |users| > 0 {
      var u := users[0];
      var ns1 := AcceptStep(ns, m, h, u);
      var n := NewNotice(DecisionAddr(m, h, u, ParticipationAccepted));
      KeysSetRead(ns, RequestAddr(m, h, u), true);
      KeysConcat(SetRead(ns, RequestAddr(m, h, u), true), [n]);
      assert Keys([n]) == {Key(n)};
      AcceptEachKeys(ns1, m, h, users[1..]);
      assert forall x :: x in users[1..] ==> x in users;
    }
  }

  // ---------------------------------------------------------------------
  // Frame lemmas shared by the transitions
  // ---------------------------------------------------------------------

  /** Rows other than the one of (`u`, `m`) keep their notifications when
      no count outside that applicant's addresses changes. */
  lemma OthersNotified(t: Tables, t': Tables, m: nat, h: int, u: int, i: nat)
    requires Integrity(t) && NotificationsExact(t) && Integrity(t')
    requires |t.meetings| == |t'.meetings|
    requires forall k :: 0 <= k < |t.meetings| ==> t'.meetings[k].hostId == t.meetings[k].hostId
    requires m < |t.meetings| && h == t.meetings[m].hostId
    requires |t.participations| <= |t'.participations|
    requires forall j :: 0 <= j < |t.participations| && j != i ==>
      t'.participations[j] == t.participations[j] && !IsPair(t.participations[j], u, m)
    requires forall b :: !AboutApplicant(b, m, h, u) ==>
      Count(t'.notifications, b) == Count(t.notifications, b)
      && Unread(t'.notifications, b) == Unread(t.notifications, b)
    ensures forall j :: 0 <= j < |t.participations| && j != i ==> RowNotified(t', j)
  {
    forall j | 0 <= j < |t.participations| && j != i ensures RowNotified(t', j) {
      var p := t.participations[j];
      var hj := t.meetings[p.meetingId].hostId;
      assert !AboutApplicant(RequestAddr(p.meetingId, hj, p.userId), m, h, u);
      assert !AboutApplicant(DecisionAddr(p.meetingId, hj, p.userId, ParticipationAccepted), m, h, u);
      assert !AboutApplicant(DecisionAddr(p.meetingId, hj, p.userId, ParticipationRejected), m, h, u);
      assert RowNotified(t, j);
    }
  }

  /** The notifications of `t'` stay accounted for when each is one of `t`
      or one of the accounted-for `extra` addresses, hosts are kept and no
      (user, meeting) key disappears. */
  lemma AccountedCarried(t: Tables, t': Tables, extra: set<Addr>)
    requires Integrity(t) && NotificationsExact(t)
    requires Keys(t'.notifications) <= Keys(t.notifications) + extra
    requires forall a :: a in extra ==> a.meetingId < |t'.meetings| && Accounted(t', NewNotice(a))
    requires |t.meetings| <= |t'.meetings|
    requires forall k :: 0 <= k < |t.meetings| ==> t'.meetings[k].hostId == t.meetings[k].hostId
    requires forall u, m :: HasRow(t.participations, u, m) ==> HasRow(t'.participations, u, m)
    ensures forall n :: n in t'.notifications ==> n.meetingId < |t'.meetings| && Accounted(t', n)
  {
    forall n | n in t'.notifications ensures n.meetingId < |t'.meetings| && Accounted(t', n) {
      assert Key(n) in Keys(t'.notifications);
      if Key(n) !in extra {
        var n0 :| n0 in t.notifications && Key(n0) == Key(n);
        assert Accounted(t, n0);
      } else {
        assert Accounted(t', NewNotice(Key(n)));
      }
    }
  }

  lemma SameKeysHasRow(ps: seq<Participation>, qs: seq<Participation>)
    requires |ps| == |qs|
    requires forall i :: 0 <= i < |ps| ==> qs[i].userId == ps[i].userId && qs[i].meetingId == ps[i].meetingId
    ensures forall u, m :: HasRow(ps, u, m) <==> HasRow(qs, u, m)
  {
    forall u, m ensures HasRow(ps, u, m) <==> HasRow(qs, u, m) {
      FindRowSameKeys(ps, qs, u, m);
    }
  }

  /** With no row for (`u`, `m`), nothing is addressed between `u` and the
      host of `m` (other than by the host to the host). */
  lemma NoRowNoNotices(t: Tables, m: nat, u: int, b: Addr)
    requires Integrity(t) && NotificationsExact(t)
    requires m < |t.meetings| && u != t.meetings[m].hostId
    requires !HasRow(t.participations, u, m)
    requires b == RequestAddr(m, t.meetings[m].hostId, u)
          || b == DecisionAddr(m, t.meetings[m].hostId, u, ParticipationAccepted)
          || b == DecisionAddr(m, t.meetings[m].hostId, u, ParticipationRejected)
    ensures Count(t.notifications, b) == 0 && Unread(t.notifications, b) == 0
  {
    forall n | n in t.notifications ensures !Matches(n, b) {
      assert Accounted(t, n);
    }
    CountNone(t.notifications, b);
  }

  // ---------------------------------------------------------------------
  // The transitions
  // ---------------------------------------------------------------------

  /** A join request adds the one unread request of the new PENDING row. */
  lemma CreateParticipationKeepsValid(t: Tables, meetingId: int, userId: int, now: int)
    requires Valid(t)
    requires CreateParticipation(t, meetingId, userId, now).Ok?
    ensures Valid(CreateParticipation(t, meetingId, userId, now).value)
  {
    CreateParticipationKeepsCounters(t, meetingId, userId, now);
    var t' := CreateParticipation(t, meetingId, userId, now).value;
    var h := t.meetings[meetingId].hostId;
    var r := RequestAddr(meetingId, h, userId);
    var n := NewNotice(r);
    var i := |t.participations|;
    forall b ensures Count(t'.notifications, b) == Count(t.notifications, b) + (if b == r then 1 else 0)
                 && Unread(t'.notifications, b) == Unread(t.notifications, b) + (if b == r then 1 else 0)
    {
      CountAppendOne(t.notifications, n, b);
    }
    OthersNotified(t, t', meetingId, h, userId, i);
    NoRowNoNotices(t, meetingId, userId, r);
    NoRowNoNotices(t, meetingId, userId, DecisionAddr(meetingId, h, userId, ParticipationAccepted));
    NoRowNoNotices(t, meetingId, userId, DecisionAddr(meetingId, h, userId, ParticipationRejected));
    assert RowNotified(t', i);
    forall u, m | HasRow(t.participations, u, m) ensures HasRow(t'.participations, u, m) {
      FindRowAppend(t.participations, t'.participations[i], u, m);
    }
    FindRowAppend(t.participations, t'.participations[i], userId, meetingId);
    assert Accounted(t', n);
    KeysConcat(t.notifications, [n]);
    KeysOne(r);
    AccountedCarried(t, t', {r});
  }

  /** Approving a PENDING row reads its request and adds its one ACCEPTED
      notice. */
  lemma ApproveOneKeepsValid(t: Tables, meetingId: int, hostId: int, pId: int)
    requires Valid(t) && Targets(t, meetingId, pId)
    requires ApproveOne(t, meetingId, hostId, pId).Ok?
    ensures Valid(ApproveOne(t, meetingId, hostId, pId).value)
  {
    ApproveOneKeepsCounters(t, meetingId, hostId, pId);
    var t' := ApproveOne(t, meetingId, hostId, pId).value;
    var u := t.participations[pId].userId;
    forall b ensures Count(t'.notifications, b)
                     == Count(t.notifications, b) + (if b == DecisionAddr(meetingId, hostId, u, ParticipationAccepted) then 1 else 0)
                 && Unread(t'.notifications, b)
                     == (if b == RequestAddr(meetingId, hostId, u) then 0 else Unread(t.notifications, b))
                        + (if b == DecisionAddr(meetingId, hostId, u, ParticipationAccepted) then 1 else 0)
    {
      AcceptStepEffect(t.notifications, meetingId, hostId, u, b);
    }
    OthersNotified(t, t', meetingId, hostId, u, pId);
    assert RowNotified(t, pId);
    assert RowNotified(t', pId);
    SameKeysHasRow(t.participations, t'.participations);
    var a := DecisionAddr(meetingId, hostId, u, ParticipationAccepted);
    var carried := SetRead(t.notifications, RequestAddr(meetingId, hostId, u), true);
    KeysSetRead(t.notifications, RequestAddr(meetingId, hostId, u), true);
    KeysConcat(carried, [NewNotice(a)]);
    KeysOne(a);
    FindRowUnique(t'.participations, pId);
    assert Accounted(t', NewNotice(a));
    AccountedCarried(t, t', {a});
  }

  /** Rejecting a PENDING row reads its request and adds its one REJECTED
      notice. */
  lemma RejectOneKeepsValid(t: Tables, meetingId: int, hostId: int, pId: int)
    requires Valid(t) && Targets(t, meetingId, pId)
    requires RejectOne(t, meetingId, hostId, pId).Ok?
    ensures Valid(RejectOne(t, meetingId, hostId, pId).value)
  {
    RejectOneKeepsCounters(t, meetingId, hostId, pId);
    var t' := RejectOne(t, meetingId, hostId, pId).value;
    var u := t.participations[pId].userId;
    var r := RequestAddr(meetingId, hostId, u);
    var a := DecisionAddr(meetingId, hostId, u, ParticipationRejected);
    var carried := SetRead(t.notifications, r, true);
    forall b ensures Count(t'.notifications, b) == Count(t.notifications, b) + (if b == a then 1 else 0)
                 && Unread(t'.notifications, b)
                     == (if b == r then 0 else Unread(t.notifications, b)) + (if b == a then 1 else 0)
    {
      RejectStepEffect(t.notifications, meetingId, hostId, u, b);
    }
    OthersNotified(t, t', meetingId, hostId, u, pId);
    assert RowNotified(t, pId);
    assert RowNotified(t', pId);
    SameKeysHasRow(t.participations, t'.participations);
    KeysSetRead(t.notifications, r, true);
    KeysConcat(carried, [NewNotice(a)]);
    KeysOne(a);
    FindRowUnique(t'.participations, pId);
    assert Accounted(t', NewNotice(a));
    AccountedCarried(t, t', {a});
  }

  /** Cancelling an approval removes the ACCEPTED notice, reopens the
      request and sends a cancellation. */
  lemma CancelApprovalKeepsValid(t: Tables, meetingId: int, hostId: int, pId: int)
    requires Valid(t) && Targets(t, meetingId, pId)
    requires CancelApproval(t, meetingId, hostId, pId).Ok?
    ensures Valid(CancelApproval(t, meetingId, hostId, pId).value)
  {
    CancelApprovalKeepsCounters(t, meetingId, hostId, pId);
    CancelApprovalRowsNotified(t, meetingId, hostId, pId);
    CancelApprovalAccounted(t, meetingId, hostId, pId);
  }

  lemma CancelApprovalRowsNotified(t: Tables, meetingId: int, hostId: int, pId: int)
    requires Valid(t) && Targets(t, meetingId, pId)
    requires CancelApproval(t, meetingId, hostId, pId).Ok?
    requires Integrity(CancelApproval(t, meetingId, hostId, pId).value)
    ensures var t' := CancelApproval(t, meetingId, hostId, pId).value;
      forall i :: 0 <= i < |t'.participations| ==> RowNotified(t', i)
  {
    var t' := CancelApproval(t, meetingId, hostId, pId).value;
    var u := t.participations[pId].userId;
    var r := RequestAddr(meetingId, hostId, u);
    var a := DecisionAddr(meetingId, hostId, u, ParticipationAccepted);
    var c := DecisionAddr(meetingId, hostId, u, ParticipationCancelled);
    forall b ensures Count(t'.notifications, b)
                     == (if b == a then 0 else Count(t.notifications, b)) + (if b == c then 1 else 0)
                 && Unread(t'.notifications, b)
                     == if b == r then Count(t.notifications, b)
                        else (if b == a then 0 else Unread(t.notifications, b)) + (if b == c then 1 else 0)
    {
      WithdrawAcceptanceEffect(t.notifications, meetingId, hostId, u, b);
    }
    OthersNotified(t, t', meetingId, hostId, u, pId);
    assert RowNotified(t, pId);
    assert RowNotified(t', pId);
  }

  lemma CancelApprovalAccounted(t: Tables, meetingId: int, hostId: int, pId: int)
    requires Valid(t) && Targets(t, meetingId, pId)
    requires CancelApproval(t, meetingId, hostId, pId).Ok?
    ensures var t' := CancelApproval(t, meetingId, hostId, pId).value;
      forall n :: n in t'.notifications ==> n.meetingId < |t'.meetings| && Accounted(t', n)
  {
    var t' := CancelApproval(t, meetingId, hostId, pId).value;
    var u := t.participations[pId].userId;
    var r := RequestAddr(meetingId, hostId, u);
    var a := DecisionAddr(meetingId, hostId, u, ParticipationAccepted);
    var c := DecisionAddr(meetingId, hostId, u, ParticipationCancelled);
    var kept := DeleteWhere(t.notifications, a);
    var sent := kept + [NewNotice(c)];
    SameKeysHasRow(t.participations, t'.participations);
    KeysDelete(t.notifications, a);
    KeysConcat(kept, [NewNotice(c)]);
    KeysOne(c);
    KeysSetRead(sent, r, false);
    AccountedCarried(t, t', {c});
  }

  /** Cancelling a rejection removes the REJECTED notice and reopens the
      request. */
  lemma CancelRejectionKeepsValid(t: Tables, meetingId: int, hostId: int, pId: int)
    requires Valid(t) && Targets(t, meetingId, pId)
    requires CancelRejection(t, meetingId, hostId, pId).Ok?
    ensures Valid(CancelRejection(t, meetingId, hostId, pId).value)
  {
    CancelRejectionKeepsCounters(t, meetingId, hostId, pId);
    var t' := CancelRejection(t, meetingId, hostId, pId).value;
    var u := t.participations[pId].userId;
    var r := RequestAddr(meetingId, hostId, u);
    var a := DecisionAddr(meetingId, hostId, u, ParticipationRejected);
    var kept := DeleteWhere(t.notifications, a);
    forall b ensures Count(t'.notifications, b) == (if b == a then 0 else Count(t.notifications, b))
                 && Unread(t'.notifications, b)
                     == if b == r then Count(t.notifications, b)
                        else if b == a then 0 else Unread(t.notifications, b)
    {
      WithdrawRejectionEffect(t.notifications, meetingId, hostId, u, b);
    }
    OthersNotified(t, t', meetingId, hostId, u, pId);
    assert RowNotified(t, pId);
    assert RowNotified(t', pId);
    SameKeysHasRow(t.participations, t'.participations);
    KeysDelete(t.notifications, a);
    KeysSetRead(kept, r, false);
    AccountedCarried(t, t', {});
  }

  lemma PendingUsersDistinct(ps: seq<Participation>, m: int)
    requires UniquePairs(ps)
    ensures var us := UsersOf(ps, MeetingRows(ps, m, Pending));
      forall k, l :: 0 <= k < l < |us| ==> us[k] != us[l]
  {
    var ids := MeetingRows(ps, m, Pending);
    forall k, l | 0 <= k < l < |ids| ensures ps[ids[k]].userId != ps[ids[l]].userId {
      assert ids[k] in ids && ids[l] in ids;
    }
  }

  /** A user of meeting `m` is among approve-all's requesters exactly when
      their row is PENDING. */
  lemma PendingUsersMembers(ps: seq<Participation>, m: int, j: nat)
    requires UniquePairs(ps) && j < |ps| && ps[j].meetingId == m
    ensures ps[j].userId in UsersOf(ps, MeetingRows(ps, m, Pending)) <==> ps[j].status == Pending
  {
    var ids := MeetingRows(ps, m, Pending);
    var us := UsersOf(ps, ids);
    assert |us| == |ids|;
    if ps[j].status == Pending {
      assert j in ids;
      var k :| 0 <= k < |ids| && ids[k] == j;
      assert us[k] == ps[ids[k]].userId;
    }
    if ps[j].userId in us {
      var k :| 0 <= k < |us| && us[k] == ps[j].userId;
      var i := ids[k];
      assert i in ids;
      assert us[k] == ps[i].userId;
      assert i < |ps| && ps[i].meetingId == m && ps[i].status == Pending;
      assert i == j;
    }
  }

  lemma PendingUsersHaveRows(ps: seq<Participation>, m: int, u: int)
    requires u in UsersOf(ps, MeetingRows(ps, m, Pending))
    ensures HasRow(ps, u, m)
  {
    var ids := MeetingRows(ps, m, Pending);
    var us := UsersOf(ps, ids);
    var k :| 0 <= k < |us| && us[k] == u;
    assert ids[k] in ids;
    assert IsPair(ps[ids[k]], u, m);
  }

  lemma ApproveAllRowNotified(t: Tables, meetingId: int, hostId: int, j: nat)
    requires Valid(t)
    requires ApproveAll(t, meetingId, hostId).Ok?
    requires Integrity(ApproveAll(t, meetingId, hostId).value)
    requires j < |t.participations|
    ensures RowNotified(ApproveAll(t, meetingId, hostId).value, j)
  {
    var ids := MeetingRows(t.participations, meetingId, Pending);
    if |ids| > 0 {
      ApproveAllCommits(t, meetingId, hostId);
      PendingRowsPromote(t.participations, meetingId);
      assert RowNotified(t, j);
      ApproveAllApplicantNotices(t, meetingId, hostId, j);
    }
  }

  /** The three addresses about row `j`'s applicant after approve-all's
      notification loop. */
  lemma ApproveAllApplicantNotices(t: Tables, meetingId: nat, hostId: int, j: nat)
    requires Integrity(t) && j < |t.participations|
    requires meetingId < |t.meetings| && t.meetings[meetingId].hostId == hostId
    ensures var ns := AcceptEach(t.notifications, meetingId, hostId, UsersOf(t.participations, MeetingRows(t.participations, meetingId, Pending)));
      var p := t.participations[j];
      var h := t.meetings[p.meetingId].hostId;
      && Count(ns, RequestAddr(p.meetingId, h, p.userId)) == Count(t.notifications, RequestAddr(p.meetingId, h, p.userId))
      && Unread(ns, RequestAddr(p.meetingId, h, p.userId))
         == (if p.meetingId == meetingId && p.status == Pending then 0 else Unread(t.notifications, RequestAddr(p.meetingId, h, p.userId)))
      && Count(ns, DecisionAddr(p.meetingId, h, p.userId, ParticipationAccepted))
         == Count(t.notifications, DecisionAddr(p.meetingId, h, p.userId, ParticipationAccepted))
            + (if p.meetingId == meetingId && p.status == Pending then 1 else 0)
      && Count(ns, DecisionAddr(p.meetingId, h, p.userId, ParticipationRejected))
         == Count(t.notifications, DecisionAddr(p.meetingId, h, p.userId, ParticipationRejected))
  {
    var users := UsersOf(t.participations, MeetingRows(t.participations, meetingId, Pending));
    var p := t.participations[j];
    var h := t.meetings[p.meetingId].hostId;
    AcceptEachEffect(t.notifications, meetingId, hostId, users, RequestAddr(p.meetingId, h, p.userId));
    AcceptEachEffect(t.notifications, meetingId, hostId, users, DecisionAddr(p.meetingId, h, p.userId, ParticipationAccepted));
    AcceptEachEffect(t.notifications, meetingId, hostId, users, DecisionAddr(p.meetingId, h, p.userId, ParticipationRejected));
    if p.meetingId == meetingId {
      PendingUsersDistinct(t.participations, meetingId);
      PendingUsersMembers(t.participations, meetingId, j);
      DistinctOnce(users, p.userId);
    }
  }

  /** Approving every PENDING row reads every request of the meeting and
      adds one ACCEPTED notice per newly accepted row. */
  lemma ApproveAllKeepsValid(t: Tables, meetingId: int, hostId: int)
    requires Valid(t)
    requires ApproveAll(t, meetingId, hostId).Ok?
    ensures Valid(ApproveAll(t, meetingId, hostId).value)
  {
    ApproveAllKeepsCounters(t, meetingId, hostId);
    var t' := ApproveAll(t, meetingId, hostId).value;
    forall j | 0 <= j < |t'.participations| ensures RowNotified(t', j) {
      ApproveAllRowNotified(t, meetingId, hostId, j);
    }
    ApproveAllAccounted(t, meetingId, hostId);
  }

  lemma ApproveAllAccounted(t: Tables, meetingId: int, hostId: int)
    requires Valid(t)
    requires ApproveAll(t, meetingId, hostId).Ok?
    ensures var t' := ApproveAll(t, meetingId, hostId).value;
      forall n :: n in t'.notifications ==> n.meetingId < |t'.meetings| && Accounted(t', n)
  {
    var t' := ApproveAll(t, meetingId, hostId).value;
    var ids := MeetingRows(t.participations, meetingId, Pending);
    if |ids| > 0 {
      ApproveAllCommits(t, meetingId, hostId);
      var users := UsersOf(t.participations, ids);
      PendingRowsPromote(t.participations, meetingId);
      SameKeysHasRow(t.participations, t'.participations);
      AcceptEachKeys(t.notifications, meetingId, hostId, users);
      var extra := set u | u in users :: DecisionAddr(meetingId, hostId, u, ParticipationAccepted);
      forall a | a in Keys(t'.notifications) ensures a in Keys(t.notifications) + extra {
        if a !in Keys(t.notifications) {
          assert a == DecisionAddr(meetingId, hostId, a.receiverId, ParticipationAccepted);
        }
      }
      forall a | a in extra ensures a.meetingId < |t'.meetings| && Accounted(t', NewNotice(a)) {
        var u :| u in users && a == DecisionAddr(meetingId, hostId, u, ParticipationAccepted);
        PendingUsersHaveRows(t.participations, meetingId, u);
      }
      AccountedCarried(t, t', extra);
    }
  }

  /** A new meeting adds only the host's row, which needs no notification. */
  lemma CreateKeepsValid(t: Tables, hostId: int, d: Draft, now: int)
    requires Valid(t) && d.maxParticipants >= 1
    ensures Valid(Create(t, hostId, d, now))
  {
    CreateKeepsCounters(t, hostId, d, now);
    var t' := Create(t, hostId, d, now);
    forall j | 0 <= j < |t'.participations| ensures RowNotified(t', j) {
      if j < |t.participations| {
        assert RowNotified(t, j);
        assert t'.participations[j] == t.participations[j];
      }
    }
    forall u, m | HasRow(t.participations, u, m) ensures HasRow(t'.participations, u, m) {
      FindRowAppend(t.participations, t'.participations[|t.participations|], u, m);
    }
    AccountedCarried(t, t', {});
  }

  /** Editing a meeting keeps its host, so every notification fact holds on. */
  lemma UpdateMyMeetingKeepsValid(t: Tables, meetingId: int, userId: int, e: Edit)
    requires Valid(t)
    requires UpdateMyMeeting(t, meetingId, userId, e).Ok?
    ensures Valid(UpdateMyMeeting(t, meetingId, userId, e).value)
  {
    UpdateMyMeetingKeepsCounters(t, meetingId, userId, e);
    var t' := UpdateMyMeeting(t, meetingId, userId, e).value;
    forall j | 0 <= j < |t'.participations| ensures RowNotified(t', j) {
      assert RowNotified(t, j);
    }
    AccountedCarried(t, t', {});
  }

  /** Deleting a meeting only adds MEETING_DELETED notices, which no row
      counts. */
  lemma SoftDeleteKeepsValid(t: Tables, meetingId: int, userId: int, now: int)
    requires Valid(t)
    requires SoftDelete(t, meetingId, userId, now).Ok?
    ensures Valid(SoftDelete(t, meetingId, userId, now).value)
  {
    SoftDeleteKeepsCounters(t, meetingId, userId, now);
    var t' := SoftDelete(t, meetingId, userId, now).value;
    var notices := DeletionNotices(t.participations, meetingId, userId);
    forall j | 0 <= j < |t'.participations| ensures RowNotified(t', j) {
      var p := t.participations[j];
      var h := t.meetings[p.meetingId].hostId;
      assert RowNotified(t, j);
      var addrs := [RequestAddr(p.meetingId, h, p.userId),
                    DecisionAddr(p.meetingId, h, p.userId, ParticipationAccepted),
                    DecisionAddr(p.meetingId, h, p.userId, ParticipationRejected)];
      forall k | 0 <= k < 3
        ensures Count(t'.notifications, addrs[k]) == Count(t.notifications, addrs[k])
        ensures Unread(t'.notifications, addrs[k]) == Unread(t.notifications, addrs[k])
      {
        CountConcat(t.notifications, notices, addrs[k]);
        CountNone(notices, addrs[k]);
      }
      assert addrs[0] == RequestAddr(p.meetingId, h, p.userId);
      assert addrs[1] == DecisionAddr(p.meetingId, h, p.userId, ParticipationAccepted);
      assert addrs[2] == DecisionAddr(p.meetingId, h, p.userId, ParticipationRejected);
    }
    KeysConcat(t.notifications, notices);
    forall a | a in Keys(notices) ensures a.meetingId < |t'.meetings| && Accounted(t', NewNotice(a)) {
      var n :| n in notices && Key(n) == a;
    }
    AccountedCarried(t, t', Keys(notices));
  }
}
