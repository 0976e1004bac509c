/** The notification store as the services use it: rows appended by
    `create`/`createMany`, the read flag rewritten by `updateMany`, rows
    removed by `deleteMany`; all three select rows by an `Addr`. */
module NotificationTable {
  import opened Records

  /** Rows that `a` selects. */
  function Count(ns: seq<Notification>, a: Addr): nat {
    if |ns| == 0 then 0 else (if Matches(ns[0], a) then 1 else 0) + Count(ns[1..], a)
  }

  /** Rows that `a` selects and whose receiver has not read them. */
  function Unread(ns: seq<Notification>, a: Addr): nat {
    if |ns| == 0 then 0 else (if Matches(ns[0], a) && !ns[0].isRead then 1 else 0) + Unread(ns[1..], a)
  }

  /** `updateMany({ where: a, data: { isRead: read } })`: every selected row
      gets the new flag, every other row is left as it was. */
  function SetRead(ns: seq<Notification>, a: Addr, read: bool): (r: seq<Notification>)
    ensures |r| == |ns|
    ensures forall k :: 0 <= k < |ns| ==> r[k] == if Matches(ns[k], a) then ns[k].(isRead := read) else ns[k]
  {
    if |ns| == 0 then []
    else [if Matches(ns[0], a) then ns[0].(isRead := read) else ns[0]] + SetRead(ns[1..], a, read)
  }

  /** `deleteMany({ where: a })`: exactly the rows `a` selects disappear. */
  function DeleteWhere(ns: seq<Notification>, a: Addr): (r: seq<Notification>)
    ensures forall n :: n in r <==> n in ns && !Matches(n, a)
    ensures |r| + Count(ns, a) == |ns|
  {
    if |ns| == 0 then []
    else (if Matches(ns[0], a) then [] else [ns[0]]) + DeleteWhere(ns[1..], a)
  }

  lemma {:induction false} UnreadAtMostCount(ns: seq<Notification>, a: Addr)
    ensures Unread(ns, a) <= Count(ns, a)
  {
    if |ns| > 0 {
      UnreadAtMostCount(ns[1..], a);
    }
  }

  lemma {:induction false} CountConcat(ns: seq<Notification>, extra: seq<Notification>, a: Addr)
    ensures Count(ns + extra, a) == Count(ns, a) + Count(extra, a)
    ensures Unread(ns + extra, a) == Unread(ns, a) + Unread(extra, a)
  {
    if |ns| > 0 {
      assert (ns + extra)[1..] == ns[1..] + extra;
      CountConcat(ns[1..], extra, a);
    } else {
      assert ns + extra == extra;
    }
  }

  /** Appending one notification adds one selected row exactly when `a`
      selects it. */
  lemma CountAppendOne(ns: seq<Notification>, n: Notification, a: Addr)
    ensures Count(ns + [n], a) == Count(ns, a) + (if Matches(n, a) then 1 else 0)
    ensures Unread(ns + [n], a) == Unread(ns, a) + (if Matches(n, a) && !n.isRead then 1 else 0)
  {
    CountConcat(ns, [n], a);
    assert [n][1..] == [];
  }

  lemma {:induction false} CountNone(ns: seq<Notification>, a: Addr)
    requires forall n :: n in ns ==> !Matches(n, a)
    ensures Count(ns, a) == 0 && Unread(ns, a) == 0
  {
    if |ns| > 0 {
      assert ns[0] in ns;
      assert forall n :: n in ns[1..] ==> n in ns;
      CountNone(ns[1..], a);
    }
  }

  /** Rewriting the read flag of `a`'s rows keeps every row, so every count
      is unchanged, and leaves the unread rows of any other `b` alone. */
  lemma {:induction false} CountSetRead(ns: seq<Notification>, a: Addr, read: bool, b: Addr)
    ensures Count(SetRead(ns, a, read), b) == Count(ns, b)
    ensures Unread(SetRead(ns, a, read), b)
         == if a == b then (if read then 0 else Count(ns, b)) else Unread(ns, b)
  {
    if |ns| > 0 {
      assert SetRead(ns, a, read)[1..] == SetRead(ns[1..], a, read);
      CountSetRead(ns[1..], a, read, b);
    }
  }

  /** `deleteMany` on `a` empties `a` and leaves every other `b` alone. */
  lemma {:induction false} CountDelete(ns: seq<Notification>, a: Addr, b: Addr)
    ensures Count(DeleteWhere(ns, a), b) == if a == b then 0 else Count(ns, b)
    ensures Unread(DeleteWhere(ns, a), b) == if a == b then 0 else Unread(ns, b)
  {
    if |ns| > 0 {
      var rest := DeleteWhere(ns[1..], a);
      CountDelete(ns[1..], a, b);
      if !Matches(ns[0], a) {
        assert DeleteWhere(ns, a) == [ns[0]] + rest;
        assert ([ns[0]] + rest)[1..] == rest;
      } else {
        assert DeleteWhere(ns, a) == rest;
      }
    }
  }

  lemma SetReadConcat(ns: seq<Notification>, extra: seq<Notification>, a: Addr, read: bool)
    ensures SetRead(ns + extra, a, read) == SetRead(ns, a, read) + SetRead(extra, a, read)
  {
  }

  lemma {:induction false} DeleteConcat(ns: seq<Notification>, extra: seq<Notification>, a: Addr)
    ensures DeleteWhere(ns + extra, a) == DeleteWhere(ns, a) + DeleteWhere(extra, a)
  {
    if |ns| > 0 {
      assert (ns + extra)[1..] == ns[1..] + extra;
      DeleteConcat(ns[1..], extra, a);
    } else {
      assert ns + extra == extra;
    }
  }

  /** Only the last `updateMany` on the same rows matters. */
  lemma SetReadTwice(ns: seq<Notification>, a: Addr, first: bool, second: bool)
    ensures SetRead(SetRead(ns, a, first), a, second) == SetRead(ns, a, second)
  {
  }

  /** Marking unread rows that are all unread already changes nothing. */
  lemma {:induction false} SetUnreadNoop(ns: seq<Notification>, a: Addr)
    requires Unread(ns, a) == Count(ns, a)
    ensures SetRead(ns, a, false) == ns
  {
    if |ns| > 0 {
      UnreadAtMostCount(ns[1..], a);
      SetUnreadNoop(ns[1..], a);
      assert SetRead(ns, a, false) == [ns[0]] + SetRead(ns[1..], a, false);
    }
  }

  /** Deleting rows that are not there changes nothing. */
  lemma {:induction false} DeleteNoop(ns: seq<Notification>, a: Addr)
    requires Count(ns, a) == 0
    ensures DeleteWhere(ns, a) == ns
  {
    if |ns| > 0 {
      DeleteNoop(ns[1..], a);
      assert ns == [ns[0]] + ns[1..];
    }
  }

  /** The `Addr` that selects exactly the rows equal to `n` up to the read flag. */
  function Key(n: Notification): Addr {
    Addr(n.meetingId, n.receiverId, n.senderId, n.kind)
  }

  ghost function Keys(ns: seq<Notification>): set<Addr> {
    set n | n in ns :: Key(n)
  }

  lemma KeysSetRead(ns: seq<Notification>, a: Addr, read: bool)
    ensures Keys(SetRead(ns, a, read)) == Keys(ns)
  {
    var r := SetRead(ns, a, read);
    forall x | x in Keys(r) ensures x in Keys(ns) {
      var n :| n in r && Key(n) == x;
      var k :| 0 <= k < |r| && r[k] == n;
      assert Key(ns[k]) == x && ns[k] in ns;
    }
    forall x | x in Keys(ns) ensures x in Keys(r) {
      var n :| n in ns && Key(n) == x;
      var k :| 0 <= k < |ns| && ns[k] == n;
      assert Key(r[k]) == x && r[k] in r;
    }
  }

  lemma KeysDelete(ns: seq<Notification>, a: Addr)
    ensures Keys(DeleteWhere(ns, a)) <= Keys(ns)
  {
  }

  lemma KeysConcat(ns: seq<Notification>, extra: seq<Notification>)
    ensures Keys(ns + extra) == Keys(ns) + Keys(extra)
  {
    forall x | x in Keys(ns + extra) ensures x in Keys(ns) + Keys(extra) {
      var n :| n in ns + extra && Key(n) == x;
    }
  }
}
