/** MeetingsService: the three writing operations (create, updateMyMeeting,
    softDelete) as steps on the stores proved to commit the transitions of
    `Engine`, and the two paged listings (findAll, getMyMeetings) as
    selection, ordering, windowing and mapping of the meeting table. */
module MeetingsService {
  import opened Common
  import opened Records
  import opened ParticipationTable
  import opened Sorting
  import opened Store
  import opened PageMeta
  import E = Engine

  // ---------------------------------------------------------------------
  // Writes
  // ---------------------------------------------------------------------

  /** create: the meeting row with occupancy 1, then the host's ACCEPTED
      participation; the new meeting is returned with its id. */
  method Create(db: Database, hostId: int, d: E.Draft, now: int) returns (meetingId: nat, meeting: Meeting)
    modifies db
    ensures db.Snapshot() == E.Create(old(db.Snapshot()), hostId, d, now)
    ensures meetingId == |old(db.meetings)| && meetingId < |db.meetings| && meeting == db.meetings[meetingId]
  {
    meetingId := |db.meetings|;
    meeting := Meeting(hostId, d.title, d.description, d.interestId, d.address,
                       d.maxParticipants, 1, d.meetingDate, false, now, now);
    db.meetings := db.meetings + [meeting];
    db.participations := db.participations + [Participation(meetingId, hostId, Accepted, now)];
  }

  method UpdateMyMeeting(db: Database, meetingId: int, userId: int, e: E.Edit) returns (r: Outcome)
    modifies db
    ensures Committed(E.UpdateMyMeeting(old(db.Snapshot()), meetingId, userId, e), r, old(db.Snapshot()), db.Snapshot())
  {
    if !(0 <= meetingId < |db.meetings|) || db.meetings[meetingId].meetingDeleted {
      return Failed(NotFound);
    }
    var existing := db.meetings[meetingId];
    if existing.hostId != userId {
      return Failed(Forbidden);
    }
    if e.maxParticipants.Some? && e.maxParticipants.value != 0
       && e.maxParticipants.value < existing.currentParticipants {
      return Failed(BadRequest(CapacityBelowCurrent));
    }
    var updated := existing.(
      title := e.title.GetOr(existing.title),
      description := e.description.GetOr(existing.description),
      interestId := if e.interestId.Some? && e.interestId.value != 0 then e.interestId.value else existing.interestId,
      maxParticipants := if e.maxParticipants.Some? && e.maxParticipants.value != 0
                         then e.maxParticipants.value else existing.maxParticipants,
      meetingDate := e.meetingDate.GetOr(existing.meetingDate),
      address := e.address.GetOr(existing.address));
    db.meetings := db.meetings[meetingId := updated];
    r := Done;
  }

  method SoftDelete(db: Database, meetingId: int, userId: int, now: int) returns (r: Outcome)
    modifies db
    ensures Committed(E.SoftDelete(old(db.Snapshot()), meetingId, userId, now), r, old(db.Snapshot()), db.Snapshot())
  {
    if !(0 <= meetingId < |db.meetings|) {
      return Failed(NotFound);
    }
    var meeting := db.meetings[meetingId];
    if meeting.meetingDeleted {
      return Failed(Gone);
    }
    if meeting.hostId != userId {
      return Failed(Forbidden);
    }
    if meeting.meetingDate < now {
      return Failed(BadRequest(MeetingFinished));
    }
    db.meetings := db.meetings[meetingId := meeting.(meetingDeleted := true)];
    var notices := E.DeletionNotices(db.participations, meetingId, userId);
    if |notices| > 0 {
      db.notifications := db.notifications + notices;
    } else {
      assert db.notifications + notices == db.notifications;
    }
    r := Done;
  }

  // ---------------------------------------------------------------------
  // Paged listings
  // ---------------------------------------------------------------------

  /** The ids below `n` that `keep` accepts, ascending: a `findMany` whose
      `where` is `keep`, before any `orderBy`. */
  function Select(n: nat, keep: nat -> bool): (r: seq<nat>)
    ensures forall i: nat :: i in r <==> i < n && keep(i)
    ensures forall k, l :: 0 <= k < l < |r| ==> r[k] < r[l]
    ensures |r| == CountBelow(n, keep)
  {
    if n == 0 then []
    else
      var prefix := Select(n - 1, keep);
      assert forall k :: 0 <= k < |prefix| ==> prefix[k] in prefix;
      if keep(n - 1) then prefix + [n - 1] else prefix
  }

  /** `count({ where })`: how many ids below `n` `keep` accepts. */
  function CountBelow(n: nat, keep: nat -> bool): nat {
    if n == 0 then 0 else CountBelow(n - 1, keep) + (if keep(n - 1) then 1 else 0)
  }

  /** `findMany({ where, orderBy })` before `skip`/`take`: every accepted id,
      in the order of `key`. */
  function Ordered(n: nat, keep: nat -> bool, key: nat -> int): (r: seq<nat>)
    ensures forall i: nat :: i in r <==> i < n && keep(i)
    ensures SortedBy(r, key)
    ensures |r| == CountBelow(n, keep)
  {
    var found := Select(n, keep);
    var sorted := SortBy(found, key);
    assert |multiset(sorted)| == |multiset(found)|;
    forall i: nat
      ensures i in sorted <==> i in found
    {
      assert i in sorted <==> i in multiset(sorted);
      assert i in found <==> i in multiset(found);
    }
    sorted
  }

  /** Each accepted id is listed exactly once. */
  lemma OrderedOnce(n: nat, keep: nat -> bool, key: nat -> int, i: nat)
    ensures multiset(Ordered(n, keep, key))[i] == if i < n && keep(i) then 1 else 0
  {
    DistinctOnce(Select(n, keep), i);
  }

  datatype Page<T> = Page(items: seq<T>, meta: PageMeta)

  /** The page options after their defaults: page 1, ten rows. */
  datatype PageOptions = PageOptions(page: Option<int>, limit: Option<int>)

  predicate ValidPageOptions(o: PageOptions) {
    o.page.GetOr(1) >= 1 && o.limit.GetOr(10) >= 1
  }

  function Skip(o: PageOptions): (r: nat)
    requires ValidPageOptions(o)
    ensures r == (o.page.GetOr(1) - 1) * o.limit.GetOr(10)
  {
    (o.page.GetOr(1) - 1) * o.limit.GetOr(10)
  }

  /** `skip`/`take` and the page meta over a full ordering. */
  function Paged<T>(order: seq<nat>, o: PageOptions, item: nat -> T): (r: Page<T>)
    requires ValidPageOptions(o)
    ensures r.meta == NewPageMeta(|order|, o.page.GetOr(1), o.limit.GetOr(10))
    ensures |r.items| == if Skip(o) >= |order| then 0 else Min(o.limit.GetOr(10), |order| - Skip(o))
    ensures forall k :: 0 <= k < |r.items| ==> r.items[k] == item(order[Skip(o) + k])
  {
    var window := Window(order, Skip(o), o.limit.GetOr(10));
    Page(seq(|window|, k requires 0 <= k < |window| => item(window[k])),
         NewPageMeta(|order|, o.page.GetOr(1), o.limit.GetOr(10)))
  }

  // findAll

  datatype MeetingSort = New | Update | Deadline

  /** `interestFilter`: absent and 'ALL' keep every interest; any other
      value is the number of the one interest kept. */
  datatype InterestFilter = AllInterests | OnlyInterest(interestId: int)

  datatype FindAllOptions = FindAllOptions(
    paging: PageOptions,
    sort: Option<MeetingSort>,
    interest: Option<InterestFilter>,
    finishedFilter: Option<bool>)

  /** The `where` of findAll. */
  predicate Listed(m: Meeting, q: FindAllOptions, now: int) {
    && !m.meetingDeleted
    && (q.finishedFilter.GetOr(false) || m.meetingDate >= now)
    && (match q.interest.GetOr(AllInterests)
        case AllInterests => true
        case OnlyInterest(id) => m.interestId == id)
  }

  /** The `orderBy` of findAll as an ascending key: UPDATE is newest update
      first, DEADLINE earliest date first, NEW (and the default) newest
      creation first. */
  function SortKey(sort: Option<MeetingSort>, m: Meeting): int {
    match sort.GetOr(New)
    case Update => -m.updatedAt
    case Deadline => m.meetingDate
    case New => -m.createdAt
  }

  datatype MeetingItem = MeetingItem(
    meetingId: nat,
    title: string,
    maxParticipants: int,
    currentParticipants: int,
    address: string,
    meetingDate: int)

  function Keep(ms: seq<Meeting>, q: FindAllOptions, now: int): nat -> bool {
    (i: nat) => i < |ms| && Listed(ms[i], q, now)
  }

  function OrderKey(ms: seq<Meeting>, sort: Option<MeetingSort>): nat -> int {
    (i: nat) => if i < |ms| then SortKey(sort, ms[i]) else 0
  }

  function ItemOf(ms: seq<Meeting>): nat -> MeetingItem {
    (i: nat) =>
      if i < |ms| then MeetingItem(i, ms[i].title, ms[i].maxParticipants, ms[i].currentParticipants,
                                   ms[i].address, ms[i].meetingDate)
      else MeetingItem(i, [], 0, 0, [], 0)
  }

  /** findAll: one page of the matching meetings, and the page meta. */
  function FindAll(ms: seq<Meeting>, q: FindAllOptions, now: int): (r: Page<MeetingItem>)
    requires ValidPageOptions(q.paging)
  {
    Paged(Ordered(|ms|, Keep(ms, q, now), OrderKey(ms, q.sort)), q.paging, ItemOf(ms))
  }

  /** The page is the `skip`-th and following matches, at most `limit` of
      them, and the total counts every match. */
  lemma FindAllPage(ms: seq<Meeting>, q: FindAllOptions, now: int)
    requires ValidPageOptions(q.paging)
    ensures var r := FindAll(ms, q, now);
      var total := CountBelow(|ms|, Keep(ms, q, now));
      var skip := Skip(q.paging);
      && r.meta == NewPageMeta(total, q.paging.page.GetOr(1), q.paging.limit.GetOr(10))
      && |r.items| == (if skip >= total then 0 else Min(q.paging.limit.GetOr(10), total - skip))
  {
  }

  /** Every listed item is a meeting that matches the filters, shown with
      its own fields. */
  lemma FindAllMatches(ms: seq<Meeting>, q: FindAllOptions, now: int)
    requires ValidPageOptions(q.paging)
    ensures var r := FindAll(ms, q, now);
      forall k :: 0 <= k < |r.items| ==>
        var i := r.items[k].meetingId;
        && i < |ms| && Listed(ms[i], q, now)
        && r.items[k] == MeetingItem(i, ms[i].title, ms[i].maxParticipants, ms[i].currentParticipants,
                                     ms[i].address, ms[i].meetingDate)
  {
    var order := Ordered(|ms|, Keep(ms, q, now), OrderKey(ms, q.sort));
    var r := FindAll(ms, q, now);
    forall k | 0 <= k < |r.items|
      ensures r.items[k] == ItemOf(ms)(order[Skip(q.paging) + k])
      ensures Keep(ms, q, now)(order[Skip(q.paging) + k])
    {
      assert order[Skip(q.paging) + k] in order;
    }
  }

  /** The items come in the order the sort option asks for. */
  lemma FindAllSorted(ms: seq<Meeting>, q: FindAllOptions, now: int)
    requires ValidPageOptions(q.paging)
    ensures var r := FindAll(ms, q, now);
      forall k, l :: 0 <= k < l < |r.items| ==>
        && r.items[k].meetingId < |ms| && r.items[l].meetingId < |ms|
        && SortKey(q.sort, ms[r.items[k].meetingId]) <= SortKey(q.sort, ms[r.items[l].meetingId])
  {
    var key := OrderKey(ms, q.sort);
    var order := Ordered(|ms|, Keep(ms, q, now), key);
    var r := FindAll(ms, q, now);
    var skip := Skip(q.paging);
    forall k | 0 <= k < |r.items|
      ensures r.items[k].meetingId == order[skip + k] && order[skip + k] < |ms|
    {
      assert order[skip + k] in order;
    }
    forall k, l | 0 <= k < l < |r.items|
      ensures SortKey(q.sort, ms[r.items[k].meetingId]) <= SortKey(q.sort, ms[r.items[l].meetingId])
    {
      assert key(order[skip + k]) <= key(order[skip + l]);
    }
  }

  /** Across all pages each matching meeting is listed exactly once. */
  lemma FindAllOnce(ms: seq<Meeting>, q: FindAllOptions, now: int, i: nat)
    ensures multiset(Ordered(|ms|, Keep(ms, q, now), OrderKey(ms, q.sort)))[i]
            == if i < |ms| && Listed(ms[i], q, now) then 1 else 0
  {
    OrderedOnce(|ms|, Keep(ms, q, now), OrderKey(ms, q.sort), i);
  }

  // getMyMeetings

  /** The `view` condition: 'hosted', 'joined', and anything else. */
  predicate InView(ps: seq<Participation>, ms: seq<Meeting>, i: nat, u: int, view: string)
    requires i < |ms|
  {
    if view == "hosted" then ms[i].hostId == u
    else if view == "joined" then ms[i].hostId != u && HasRow(ps, u, i)
    else HasRow(ps, u, i)
  }

  /** The `status` condition: 'pending', 'accepted', 'completed', and
      anything else (no condition). */
  predicate InStatus(ps: seq<Participation>, ms: seq<Meeting>, i: nat, u: int, status: string, now: int)
    requires i < |ms|
  {
    if status == "pending" then HasRowWith(ps, u, i, Pending)
    else if status == "accepted" then ms[i].meetingDate >= now && HasRowWith(ps, u, i, Accepted)
    else if status == "completed" then ms[i].meetingDate < now && HasRowWith(ps, u, i, Accepted)
    else true
  }

  datatype MyMeetingsQuery = MyMeetingsQuery(
    paging: PageOptions,
    status: Option<string>,
    view: Option<string>)

  function Mine(t: E.Tables, u: int, q: MyMeetingsQuery, now: int): nat -> bool {
    (i: nat) =>
      && i < |t.meetings| && !t.meetings[i].meetingDeleted
      && InView(t.participations, t.meetings, i, u, q.view.GetOr("all"))
      && InStatus(t.participations, t.meetings, i, u, q.status.GetOr("all"), now)
  }

  /** `orderBy: { meetingDate: 'desc' }`. */
  function LatestDateFirst(ms: seq<Meeting>): nat -> int {
    (i: nat) => if i < |ms| then -ms[i].meetingDate else 0
  }

  datatype MyMeeting = MyMeeting(
    meetingId: nat,
    title: string,
    maxParticipants: int,
    currentParticipants: int,
    address: string,
    meetingDate: int,
    status: Status,
    isHost: bool,
    isCompleted: bool)

  /** The caller's status in meeting `i`: ACCEPTED for its host, else the
      status of the caller's first row, PENDING when there is none. */
  function MyStatus(ps: seq<Participation>, ms: seq<Meeting>, i: nat, u: int): Status
    requires i < |ms|
  {
    if ms[i].hostId == u then Accepted
    else match FindRow(ps, u, i)
      case Some(j) => ps[j].status
      case None => Pending
  }

  function MyItemOf(t: E.Tables, u: int, now: int): nat -> MyMeeting {
    (i: nat) =>
      if i < |t.meetings| then
        var m := t.meetings[i];
        MyMeeting(i, m.title, m.maxParticipants, m.currentParticipants, m.address, m.meetingDate,
                  MyStatus(t.participations, t.meetings, i, u), m.hostId == u, m.meetingDate < now)
      else MyMeeting(i, [], 0, 0, [], 0, Pending, false, false)
  }

  /** getMyMeetings: one page of the caller's meetings, latest date first. */
  function GetMyMeetings(t: E.Tables, u: int, q: MyMeetingsQuery, now: int): (r: Page<MyMeeting>)
    requires ValidPageOptions(q.paging)
  {
    Paged(Ordered(|t.meetings|, Mine(t, u, q, now), LatestDateFirst(t.meetings)), q.paging, MyItemOf(t, u, now))
  }

  /** Every item is a live meeting that meets the view and status
      conditions; it is flagged as hosted exactly when the caller is its
      host, as completed exactly when its date has passed, and carries the
      caller's status in it. */
  lemma GetMyMeetingsMatches(t: E.Tables, u: int, q: MyMeetingsQuery, now: int)
    requires ValidPageOptions(q.paging)
    ensures var r := GetMyMeetings(t, u, q, now);
      forall k :: 0 <= k < |r.items| ==>
        var i := r.items[k].meetingId;
        && i < |t.meetings| && !t.meetings[i].meetingDeleted
        && InView(t.participations, t.meetings, i, u, q.view.GetOr("all"))
        && InStatus(t.participations, t.meetings, i, u, q.status.GetOr("all"), now)
        && (r.items[k].isHost <==> t.meetings[i].hostId == u)
        && (r.items[k].isCompleted <==> t.meetings[i].meetingDate < now)
        && r.items[k].status == MyStatus(t.participations, t.meetings, i, u)
  {
    var order := Ordered(|t.meetings|, Mine(t, u, q, now), LatestDateFirst(t.meetings));
    var r := GetMyMeetings(t, u, q, now);
    forall k | 0 <= k < |r.items|
      ensures r.items[k] == MyItemOf(t, u, now)(order[Skip(q.paging) + k])
      ensures Mine(t, u, q, now)(order[Skip(q.paging) + k])
    {
      assert order[Skip(q.paging) + k] in order;
    }
  }

  /** The items run from the latest meeting date to the earliest, and the
      total counts every meeting that meets the conditions. */
  lemma GetMyMeetingsSorted(t: E.Tables, u: int, q: MyMeetingsQuery, now: int)
    requires ValidPageOptions(q.paging)
    ensures var r := GetMyMeetings(t, u, q, now);
      && r.meta.totalCount == CountBelow(|t.meetings|, Mine(t, u, q, now))
      && forall k, l :: 0 <= k < l < |r.items| ==>
           && r.items[k].meetingId < |t.meetings| && r.items[l].meetingId < |t.meetings|
           && t.meetings[r.items[k].meetingId].meetingDate >= t.meetings[r.items[l].meetingId].meetingDate
  {
    var key := LatestDateFirst(t.meetings);
    var order := Ordered(|t.meetings|, Mine(t, u, q, now), key);
    var r := GetMyMeetings(t, u, q, now);
    var skip := Skip(q.paging);
    forall k | 0 <= k < |r.items|
      ensures r.items[k].meetingId == order[skip + k] && order[skip + k] < |t.meetings|
    {
      assert order[skip + k] in order;
    }
    forall k, l | 0 <= k < l < |r.items|
      ensures t.meetings[r.items[k].meetingId].meetingDate >= t.meetings[r.items[l].meetingId].meetingDate
    {
      assert key(order[skip + k]) <= key(order[skip + l]);
    }
  }

  /** The page is the `skip`-th and following of the caller's meetings, at
      most `limit` of them, and the total counts every one of them. */
  lemma GetMyMeetingsPage(t: E.Tables, u: int, q: MyMeetingsQuery, now: int)
    requires ValidPageOptions(q.paging)
    ensures var r := GetMyMeetings(t, u, q, now);
      var total := CountBelow(|t.meetings|, Mine(t, u, q, now));
      var skip := Skip(q.paging);
      && r.meta == NewPageMeta(total, q.paging.page.GetOr(1), q.paging.limit.GetOr(10))
      && |r.items| == (if skip >= total then 0 else Min(q.paging.limit.GetOr(10), total - skip))
  {
  }

  /** Across all pages each of the caller's meetings is listed exactly once,
      and no other meeting is. */
  lemma GetMyMeetingsOnce(t: E.Tables, u: int, q: MyMeetingsQuery, now: int, i: nat)
    ensures multiset(Ordered(|t.meetings|, Mine(t, u, q, now), LatestDateFirst(t.meetings)))[i]
            == if Mine(t, u, q, now)(i) then 1 else 0
  {
    OrderedOnce(|t.meetings|, Mine(t, u, q, now), LatestDateFirst(t.meetings), i);
  }

  /** With one row per (user, meeting), the status shown agrees with the
      status query: under 'pending' a joined meeting shows PENDING, under
      'accepted' and 'completed' every meeting shows ACCEPTED. */
  lemma MyStatusFollowsQuery(t: E.Tables, u: int, q: MyMeetingsQuery, now: int, i: nat)
    requires UniquePairs(t.participations)
    requires Mine(t, u, q, now)(i)
    ensures q.status.GetOr("all") == "pending" && t.meetings[i].hostId != u
            ==> MyStatus(t.participations, t.meetings, i, u) == Pending
    ensures q.status.GetOr("all") in {"accepted", "completed"}
            ==> MyStatus(t.participations, t.meetings, i, u) == Accepted
  {
    var ps := t.participations;
    var status := q.status.GetOr("all");
    if status == "pending" || status == "accepted" || status == "completed" {
      var s := if status == "pending" then Pending else Accepted;
      assert HasRowWith(ps, u, i, s);
      var j :| 0 <= j < |ps| && IsPair(ps[j], u, i) && ps[j].status == s;
      FindRowUnique(ps, j);
    }
  }
}
