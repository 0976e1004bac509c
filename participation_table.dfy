/** Queries over the participation table: counting rows by meeting and
    status, the lookup by the (user, meeting) unique key, and the `findMany`
    of a meeting's rows in a given status (in table order). */
module ParticipationTable {
  import opened Common
  import opened Records

  /** Rows of meeting `m` whose status is `s`. */
  function CountStatus(ps: seq<Participation>, m: int, s: Status): nat {
    if |ps| == 0 then 0
    else CountStatus(ps[..|ps| - 1], m, s) + (if ps[|ps| - 1].meetingId == m && ps[|ps| - 1].status == s then 1 else 0)
  }

  /** All rows of meeting `m`, whatever their status. */
  function CountMeeting(ps: seq<Participation>, m: int): nat {
    if |ps| == 0 then 0
    else CountMeeting(ps[..|ps| - 1], m) + (if ps[|ps| - 1].meetingId == m then 1 else 0)
  }

  predicate IsPair(p: Participation, u: int, m: int) {
    p.userId == u && p.meetingId == m
  }

  /** `findUnique({ userIdMeetingId })`: the first row for (u, m). */
  function FindRow(ps: seq<Participation>, u: int, m: int): (r: Option<nat>)
    ensures r.Some? ==> r.value < |ps| && IsPair(ps[r.value], u, m)
    ensures r.Some? ==> forall j :: 0 <= j < r.value ==> !IsPair(ps[j], u, m)
    ensures r.None? <==> forall j :: 0 <= j < |ps| ==> !IsPair(ps[j], u, m)
  {
    if |ps| == 0 then None
    else
      var prefix := FindRow(ps[..|ps| - 1], u, m);
      if prefix.Some? then prefix
      else if IsPair(ps[|ps| - 1], u, m) then Some(|ps| - 1)
      else None
  }

  predicate HasRow(ps: seq<Participation>, u: int, m: int) {
    FindRow(ps, u, m).Some?
  }

  /** `some: { userId: u, status: s }` on the rows of meeting `m`. */
  predicate HasRowWith(ps: seq<Participation>, u: int, m: int, s: Status) {
    exists j :: 0 <= j < |ps| && IsPair(ps[j], u, m) && ps[j].status == s
  }

  /** `findMany({ where: { meetingId: m, status: s } })`, in table order. */
  function MeetingRows(ps: seq<Participation>, m: int, s: Status): (r: seq<nat>)
    ensures |r| == CountStatus(ps, m, s)
    ensures forall i: nat :: i in r <==> i < |ps| && ps[i].meetingId == m && ps[i].status == s
    ensures forall k, l :: 0 <= k < l < |r| ==> r[k] < r[l]
  {
    if |ps| == 0 then []
    else
      var prefix := MeetingRows(ps[..|ps| - 1], m, s);
      assert forall k :: 0 <= k < |prefix| ==> prefix[k] in prefix && prefix[k] < |ps| - 1;
      if ps[|ps| - 1].meetingId == m && ps[|ps| - 1].status == s then prefix + [|ps| - 1] else prefix
  }

  /** `updateMany({ where: { id: { in: ids } }, data: { status: s } })`. */
  function SetStatusAt(ps: seq<Participation>, ids: seq<nat>, s: Status): seq<Participation> {
    seq(|ps|, i requires 0 <= i < |ps| => if i in ids then ps[i].(status := s) else ps[i])
  }

  /** At most one row per (user, meeting): the unique key of the table. */
  ghost predicate UniquePairs(ps: seq<Participation>) {
    forall i, j :: 0 <= i < j < |ps| ==> !IsPair(ps[j], ps[i].userId, ps[i].meetingId)
  }

  lemma CountAppend(ps: seq<Participation>, p: Participation, m: int, s: Status)
    ensures CountStatus(ps + [p], m, s) == CountStatus(ps, m, s) + (if p.meetingId == m && p.status == s then 1 else 0)
    ensures CountMeeting(ps + [p], m) == CountMeeting(ps, m) + (if p.meetingId == m then 1 else 0)
  {
    assert (ps + [p])[..|ps|] == ps;
  }

  /** Changing one row moves it from one (meeting, status) class to another. */
  lemma {:induction false} CountUpdate(ps: seq<Participation>, i: nat, q: Participation, m: int, s: Status)
    requires i < |ps|
    ensures CountStatus(ps[i := q], m, s)
         == CountStatus(ps, m, s)
            - (if ps[i].meetingId == m && ps[i].status == s then 1 else 0)
            + (if q.meetingId == m && q.status == s then 1 else 0)
  {
    var n := |ps|;
    if i == n - 1 {
      assert ps[i := q][..n - 1] == ps[..n - 1];
    } else {
      assert ps[i := q][..n - 1] == ps[..n - 1][i := q];
      CountUpdate(ps[..n - 1], i, q, m, s);
    }
  }

  /** Rows whose status changed, but whose key did not, keep their lookups. */
  lemma {:induction false} FindRowSameKeys(ps: seq<Participation>, qs: seq<Participation>, u: int, m: int)
    requires |ps| == |qs|
    requires forall i :: 0 <= i < |ps| ==> qs[i].userId == ps[i].userId && qs[i].meetingId == ps[i].meetingId
    ensures FindRow(qs, u, m) == FindRow(ps, u, m)
  {
    if |ps| > 0 {
      FindRowSameKeys(ps[..|ps| - 1], qs[..|qs| - 1], u, m);
    }
  }

  lemma FindRowAppend(ps: seq<Participation>, p: Participation, u: int, m: int)
    ensures HasRow(ps + [p], u, m) <==> HasRow(ps, u, m) || IsPair(p, u, m)
  {
    assert (ps + [p])[..|ps|] == ps;
  }

  /** A row that the key lookup finds is the only one for its pair. */
  lemma FindRowUnique(ps: seq<Participation>, i: nat)
    requires UniquePairs(ps) && i < |ps|
    ensures FindRow(ps, ps[i].userId, ps[i].meetingId) == Some(i)
  {
  }

  /** Promoting every PENDING row of `m` to ACCEPTED, as approve-all does. */
  function Promote(p: Participation, m: int): Participation {
    if p.meetingId == m && p.status == Pending then p.(status := Accepted) else p
  }

  lemma {:induction false} CountPromote(ps: seq<Participation>, qs: seq<Participation>, m: int, m': int)
    requires |qs| == |ps|
    requires forall i :: 0 <= i < |ps| ==> qs[i] == Promote(ps[i], m)
    ensures CountStatus(qs, m', Accepted)
         == CountStatus(ps, m', Accepted) + (if m' == m then CountStatus(ps, m, Pending) else 0)
  {
    if |ps| > 0 {
      CountPromote(ps[..|ps| - 1], qs[..|qs| - 1], m, m');
    }
  }

  lemma PendingRowsPromote(ps: seq<Participation>, m: int)
    ensures var qs := SetStatusAt(ps, MeetingRows(ps, m, Pending), Accepted);
      |qs| == |ps| && forall i :: 0 <= i < |ps| ==> qs[i] == Promote(ps[i], m)
  {
  }

  /** Rows of (u, m) whose status is s. */
  function CountPairStatus(ps: seq<Participation>, u: int, m: int, s: Status): (r: nat)
    ensures r <= CountStatus(ps, m, s)
  {
    if |ps| == 0 then 0
    else CountPairStatus(ps[..|ps| - 1], u, m, s)
         + (if IsPair(ps[|ps| - 1], u, m) && ps[|ps| - 1].status == s then 1 else 0)
  }

  lemma {:induction false} PairCountUnique(ps: seq<Participation>, u: int, m: int, s: Status)
    requires UniquePairs(ps)
    ensures CountPairStatus(ps, u, m, s)
         == if FindRow(ps, u, m).Some? && ps[FindRow(ps, u, m).value].status == s then 1 else 0
  {
    if |ps| > 0 {
      var init := ps[..|ps| - 1];
      assert UniquePairs(init);
      PairCountUnique(init, u, m, s);
    }
  }
}
