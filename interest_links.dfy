/** The reconciliation of a user's interest links in updateUser: which of
    the requested interests exist, which current links go, which interests
    are added, and the link table that results. */
module InterestLinks {

  /** A row of the user-interest link table. */
  datatype Link = Link(id: nat, userId: int, interestId: int)

  predicate Ascending(s: seq<int>) {
    forall k, l :: 0 <= k < l < |s| ==> s[k] < s[l]
  }

  /** A selection from all but the last element of an ascending sequence
      stays ascending when that last element is added. */
  lemma AscendingSnoc(s: seq<int>, sub: seq<int>)
    requires |s| > 0 && forall x :: x in sub ==> x in s[..|s| - 1]
    ensures Ascending(s) && Ascending(sub) ==> Ascending(sub + [s[|s| - 1]])
  {
    if Ascending(s) && Ascending(sub) {
      var r := sub + [s[|s| - 1]];
      forall k, l | 0 <= k < l < |r|
        ensures r[k] < r[l]
      {
        if l == |sub| {
          assert r[k] in sub;
          var j :| 0 <= j < |s| - 1 && s[j] == r[k];
        }
      }
    }
  }

  /** Link ids are handed out in increasing order and rows are only ever
      removed, so the table is ascending by id. */
  predicate IdsAscending(links: seq<Link>) {
    forall k, l :: 0 <= k < l < |links| ==> links[k].id < links[l].id
  }

  predicate IdsBelow(links: seq<Link>, next: nat) {
    forall l :: l in links ==> l.id < next
  }

  /** At most one link per (user, interest). */
  predicate OneLinkPerInterest(links: seq<Link>) {
    forall k, l :: 0 <= k < l < |links| ==>
      !(links[k].userId == links[l].userId && links[k].interestId == links[l].interestId)
  }

  /** `u` is linked to interest `x`. */
  predicate Linked(links: seq<Link>, u: int, x: int) {
    exists l :: l in links && l.userId == u && l.interestId == x
  }

  /** `userInterest.findMany({ where: { userId } })`, in table order. */
  function UserLinks(links: seq<Link>, u: int): (r: seq<Link>)
    ensures forall l :: l in r <==> l in links && l.userId == u
  {
    if |links| == 0 then []
    else
      var last := links[|links| - 1];
      assert links == links[..|links| - 1] + [last];
      UserLinks(links[..|links| - 1], u) + (if last.userId == u then [last] else [])
  }

  /** `interest.findMany({ where: { id: { in: requested } } })`: the
      requested ids that name an interest, in table order and without
      repeats. */
  function ValidIds(table: seq<int>, requested: seq<int>): (r: seq<int>)
    ensures forall x :: x in r <==> x in table && x in requested
    ensures Ascending(table) ==> Ascending(r)
  {
    if |table| == 0 then []
    else
      var last := table[|table| - 1];
      var init := table[..|table| - 1];
      assert table == init + [last];
      var prefix := ValidIds(init, requested);
      AscendingSnoc(table, prefix);
      prefix + (if last in requested then [last] else [])
  }

  /** `toDelete`: the ids of the current links whose interest is not wanted. */
  function ToDelete(current: seq<Link>, valid: seq<int>): (r: seq<nat>)
    ensures forall i :: i in r <==> exists l :: l in current && l.interestId !in valid && l.id == i
  {
    if |current| == 0 then []
    else
      var last := current[|current| - 1];
      assert current == current[..|current| - 1] + [last];
      ToDelete(current[..|current| - 1], valid) + (if last.interestId !in valid then [last.id] else [])
  }

  /** `currentIds`: the interests the current links point at. */
  function CurrentIds(current: seq<Link>): (r: set<int>)
    ensures forall x :: x in r <==> exists l :: l in current && l.interestId == x
  {
    set l | l in current :: l.interestId
  }

  /** `toAdd`: the wanted interests not linked yet, in the order given. */
  function ToAdd(desired: seq<int>, current: set<int>): (r: seq<int>)
    ensures forall x :: x in r <==> x in desired && x !in current
    ensures Ascending(desired) ==> Ascending(r)
  {
    if |desired| == 0 then []
    else
      var last := desired[|desired| - 1];
      var init := desired[..|desired| - 1];
      assert desired == init + [last];
      var prefix := ToAdd(init, current);
      AscendingSnoc(desired, prefix);
      prefix + (if last !in current then [last] else [])
  }

  /** `deleteMany({ where: { id: { in: ids } } })`. */
  function DropIds(links: seq<Link>, ids: seq<nat>): (r: seq<Link>)
    ensures forall l :: l in r <==> l in links && l.id !in ids
  {
    if |links| == 0 then []
    else
      var last := links[|links| - 1];
      assert links == links[..|links| - 1] + [last];
      DropIds(links[..|links| - 1], ids) + (if last.id !in ids then [last] else [])
  }

  /** Deleting rows keeps the table ascending by id and keeps at most one
      link per (user, interest). */
  lemma {:induction false} DropKeepsTable(links: seq<Link>, ids: seq<nat>)
    ensures IdsAscending(links) ==> IdsAscending(DropIds(links, ids))
    ensures OneLinkPerInterest(links) ==> OneLinkPerInterest(DropIds(links, ids))
  {
    if |links| > 0 {
      var last := links[|links| - 1];
      var init := links[..|links| - 1];
      assert links == init + [last];
      DropKeepsTable(init, ids);
      var prefix := DropIds(init, ids);
      assert DropIds(links, ids) == prefix + (if last.id !in ids then [last] else []);
      if IdsAscending(links) {
        assert IdsAscending(init);
        IdsAscendingSnoc(links, prefix);
      }
      if OneLinkPerInterest(links) {
        assert OneLinkPerInterest(init);
        OneLinkSnoc(links, prefix);
      }
    }
  }

  lemma IdsAscendingSnoc(links: seq<Link>, sub: seq<Link>)
    requires |links| > 0 && forall l :: l in sub ==> l in links[..|links| - 1]
    requires IdsAscending(links) && IdsAscending(sub)
    ensures IdsAscending(sub + [links[|links| - 1]])
  {
    var r := sub + [links[|links| - 1]];
    forall k, l | 0 <= k < l < |r|
      ensures r[k].id < r[l].id
    {
      if l == |sub| {
        assert r[k] in sub;
        var j :| 0 <= j < |links| - 1 && links[j] == r[k];
      }
    }
  }

  lemma OneLinkSnoc(links: seq<Link>, sub: seq<Link>)
    requires |links| > 0 && forall l :: l in sub ==> l in links[..|links| - 1]
    requires OneLinkPerInterest(links) && OneLinkPerInterest(sub)
    ensures OneLinkPerInterest(sub + [links[|links| - 1]])
  {
    var r := sub + [links[|links| - 1]];
    forall k, l | 0 <= k < l < |r|
      ensures !(r[k].userId == r[l].userId && r[k].interestId == r[l].interestId)
    {
      if l == |sub| {
        assert r[k] in sub;
        var j :| 0 <= j < |links| - 1 && links[j] == r[k];
      }
    }
  }

  /** The rows `create` adds for `adds`, one per interest, with fresh ids
      from `next` on. */
  function NewLinks(u: int, adds: seq<int>, next: nat): (r: seq<Link>)
    ensures |r| == |adds|
    ensures forall k :: 0 <= k < |r| ==> r[k] == Link(next + k, u, adds[k])
  {
    seq(|adds|, k requires 0 <= k < |adds| => Link(next + k, u, adds[k]))
  }

  /** Creating one more link extends the created rows by one. */
  lemma NewLinksSnoc(u: int, adds: seq<int>, x: int, next: nat)
    ensures NewLinks(u, adds + [x], next) == NewLinks(u, adds, next) + [Link(next + |adds|, u, x)]
  {
    var a := NewLinks(u, adds + [x], next);
    var b := NewLinks(u, adds, next) + [Link(next + |adds|, u, x)];
    assert |a| == |b|;
    forall k | 0 <= k < |a|
      ensures a[k] == b[k]
    {
      if k < |adds| {
        assert (adds + [x])[k] == adds[k];
      }
    }
  }

  lemma NewLinksPrefix(u: int, adds: seq<int>, k: nat, next: nat)
    requires k < |adds|
    ensures NewLinks(u, adds[..k + 1], next) == NewLinks(u, adds[..k], next) + [Link(next + k, u, adds[k])]
  {
    assert adds[..k + 1] == adds[..k] + [adds[k]];
    NewLinksSnoc(u, adds[..k], adds[k], next);
  }

  /** The link table after updateUser's interest step. */
  function Reconcile(links: seq<Link>, u: int, table: seq<int>, requested: seq<int>, next: nat): seq<Link> {
    var current := UserLinks(links, u);
    var valid := ValidIds(table, requested);
    DropIds(links, ToDelete(current, valid)) + NewLinks(u, ToAdd(valid, CurrentIds(current)), next)
  }

  /** Equal ids in an id-ascending table are the same row. */
  lemma SameIdSameLink(links: seq<Link>, a: Link, b: Link)
    requires IdsAscending(links) && a in links && b in links && a.id == b.id
    ensures a == b
  {
    var i :| 0 <= i < |links| && links[i] == a;
    var j :| 0 <= j < |links| && links[j] == b;
  }

  /** The rows the deletion keeps: every link except the user's links to
      interests no longer wanted. */
  lemma KeptLinks(links: seq<Link>, u: int, table: seq<int>, requested: seq<int>, l: Link)
    requires IdsAscending(links)
    ensures var valid := ValidIds(table, requested);
      l in DropIds(links, ToDelete(UserLinks(links, u), valid))
      <==> l in links && !(l.userId == u && l.interestId !in valid)
  {
    var valid := ValidIds(table, requested);
    var current := UserLinks(links, u);
    if l in links && l.id in ToDelete(current, valid) {
      var l' :| l' in current && l'.interestId !in valid && l'.id == l.id;
      SameIdSameLink(links, l, l');
    }
  }

  /** After the step the user is linked to exactly the requested interests
      that exist. */
  lemma ReconcileLinksValid(links: seq<Link>, u: int, table: seq<int>, requested: seq<int>, next: nat, x: int)
    requires IdsAscending(links)
    ensures Linked(Reconcile(links, u, table, requested, next), u, x) <==> x in table && x in requested
  {
    var current := UserLinks(links, u);
    var valid := ValidIds(table, requested);
    var kept := DropIds(links, ToDelete(current, valid));
    var added := NewLinks(u, ToAdd(valid, CurrentIds(current)), next);
    var r := Reconcile(links, u, table, requested, next);
    assert r == kept + added;
    if Linked(r, u, x) {
      var l :| l in r && l.userId == u && l.interestId == x;
      if l in kept {
        KeptLinks(links, u, table, requested, l);
      } else {
        var k :| 0 <= k < |added| && added[k] == l;
        assert ToAdd(valid, CurrentIds(current))[k] in ToAdd(valid, CurrentIds(current));
      }
    }
    if x in valid {
      if x in CurrentIds(current) {
        var l :| l in current && l.interestId == x;
        KeptLinks(links, u, table, requested, l);
        assert l in r;
      } else {
        var adds := ToAdd(valid, CurrentIds(current));
        assert x in adds;
        var k :| 0 <= k < |adds| && adds[k] == x;
        assert added[k] in r;
      }
    }
  }

  /** A link of the user to an interest still wanted is not deleted... */
  lemma ReconcileKeepsWanted(links: seq<Link>, u: int, table: seq<int>, requested: seq<int>, next: nat, l: Link)
    requires IdsAscending(links)
    requires l in links && l.userId == u && l.interestId in table && l.interestId in requested
    ensures l in Reconcile(links, u, table, requested, next)
  {
    KeptLinks(links, u, table, requested, l);
  }

  /** ... nor created a second time: the interests added are ones the user
      was not linked to. */
  lemma ReconcileAddsMissing(links: seq<Link>, u: int, table: seq<int>, requested: seq<int>, next: nat, k: int)
    requires 0 <= k < |Reconcile(links, u, table, requested, next)|
    requires Reconcile(links, u, table, requested, next)[k] !in links
    ensures var l := Reconcile(links, u, table, requested, next)[k];
      && l.userId == u && l.id >= next && !Linked(links, u, l.interestId)
  {
    var current := UserLinks(links, u);
    var valid := ValidIds(table, requested);
    var kept := DropIds(links, ToDelete(current, valid));
    var adds := ToAdd(valid, CurrentIds(current));
    var r := kept + NewLinks(u, adds, next);
    assert r == Reconcile(links, u, table, requested, next);
    assert r[k] !in kept;
    assert adds[k - |kept|] in adds;
  }

  /** Other users' links are left exactly as they were. */
  lemma ReconcileOthersUntouched(links: seq<Link>, u: int, table: seq<int>, requested: seq<int>, next: nat, v: int)
    requires IdsAscending(links) && v != u
    ensures UserLinks(Reconcile(links, u, table, requested, next), v) == UserLinks(links, v)
  {
    var current := UserLinks(links, u);
    var valid := ValidIds(table, requested);
    var kept := DropIds(links, ToDelete(current, valid));
    var added := NewLinks(u, ToAdd(valid, CurrentIds(current)), next);
    assert forall l :: l in added ==> l.userId == u;
    NoLinksOf(added, v);
    UserLinksConcat(kept, added, v);
    forall l | l in links && l.id in ToDelete(current, valid)
      ensures l.userId == u
    {
      var l' :| l' in current && l'.interestId !in valid && l'.id == l.id;
      SameIdSameLink(links, l, l');
    }
    DropOthers(links, ToDelete(current, valid), u, v);
  }

  lemma {:induction false} NoLinksOf(s: seq<Link>, v: int)
    requires forall l :: l in s ==> l.userId != v
    ensures UserLinks(s, v) == []
  {
    if |s| > 0 {
      assert s[..|s| - 1] + [s[|s| - 1]] == s;
      NoLinksOf(s[..|s| - 1], v);
    }
  }

  lemma {:induction false} UserLinksConcat(a: seq<Link>, b: seq<Link>, v: int)
    ensures UserLinks(a + b, v) == UserLinks(a, v) + UserLinks(b, v)
  {
    if |b| > 0 {
      var last := b[|b| - 1];
      assert (a + b)[..|a + b| - 1] == a + b[..|b| - 1];
      UserLinksConcat(a, b[..|b| - 1], v);
    } else {
      assert a + b == a;
    }
  }

  /** Deleting only links of `u` leaves `v`'s links as they were. */
  lemma {:induction false} DropOthers(links: seq<Link>, ids: seq<nat>, u: int, v: int)
    requires v != u
    requires forall l :: l in links && l.id in ids ==> l.userId == u
    ensures UserLinks(DropIds(links, ids), v) == UserLinks(links, v)
  {
    if |links| > 0 {
      var last := links[|links| - 1];
      var init := links[..|links| - 1];
      assert links == init + [last];
      DropOthers(init, ids, u, v);
      UserLinksConcat(DropIds(init, ids), if last.id !in ids then [last] else [], v);
    }
  }

  /** The step keeps ids ascending and below the next free id, and adds no
      second link between the user and an interest. */
  lemma ReconcileKeepsTable(links: seq<Link>, u: int, table: seq<int>, requested: seq<int>, next: nat)
    requires IdsAscending(links) && IdsBelow(links, next) && OneLinkPerInterest(links) && Ascending(table)
    ensures var r := Reconcile(links, u, table, requested, next);
      && IdsAscending(r)
      && IdsBelow(r, next + |ToAdd(ValidIds(table, requested), CurrentIds(UserLinks(links, u)))|)
      && OneLinkPerInterest(r)
  {
    var current := UserLinks(links, u);
    var valid := ValidIds(table, requested);
    var kept := DropIds(links, ToDelete(current, valid));
    var adds := ToAdd(valid, CurrentIds(current));
    DropKeepsTable(links, ToDelete(current, valid));
    forall a | a in kept && a.userId == u
      ensures a.interestId !in adds
    {
      assert a in current;
    }
    AppendKeepsIds(kept, u, adds, next);
    AppendKeepsPairs(kept, u, adds, next);
  }

  /** Links with fresh, increasing ids go after the kept ones. */
  lemma AppendKeepsIds(kept: seq<Link>, u: int, adds: seq<int>, next: nat)
    requires IdsAscending(kept) && IdsBelow(kept, next)
    ensures IdsAscending(kept + NewLinks(u, adds, next))
    ensures IdsBelow(kept + NewLinks(u, adds, next), next + |adds|)
  {
    var r := kept + NewLinks(u, adds, next);
    forall k, l | 0 <= k < l < |r|
      ensures r[k].id < r[l].id
    {
      if k < |kept| {
        assert r[k] in kept;
      }
    }
    forall x | x in r
      ensures x.id < next + |adds|
    {
      if x in kept {
      } else {
        var k :| |kept| <= k < |r| && r[k] == x;
      }
    }
  }

  /** Adding distinct interests the user is not linked to yet keeps one link
      per (user, interest). */
  lemma AppendKeepsPairs(kept: seq<Link>, u: int, adds: seq<int>, next: nat)
    requires OneLinkPerInterest(kept) && Ascending(adds)
    requires forall a :: a in kept && a.userId == u ==> a.interestId !in adds
    ensures OneLinkPerInterest(kept + NewLinks(u, adds, next))
  {
    var r := kept + NewLinks(u, adds, next);
    forall k, l | 0 <= k < l < |r|
      ensures !(r[k].userId == r[l].userId && r[k].interestId == r[l].interestId)
    {
      if k < |kept| && l >= |kept| {
        assert r[k] in kept;
        assert adds[l - |kept|] in adds;
      } else if k >= |kept| {
        assert adds[k - |kept|] < adds[l - |kept|];
      }
    }
  }
}
