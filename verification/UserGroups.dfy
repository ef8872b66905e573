// The groups of one user: memberships merged with the Azure AD groups of the
// user's pivot row, then cut into pages.
module UserGroups {
  import opened Basics

  datatype Group = Group(id: Id, adId: Option<string>, isActive: bool)

  datatype Membership = Membership(isActive: bool, group: Group)

  // A group row, or a stand-in for an AD group that has no row.
  datatype Entry = Row(group: Group) | Placeholder(adId: string)

  function AdIdOf(e: Entry): Option<string> {
    match e
    case Row(g) => g.adId
    case Placeholder(a) => Some(a)
  }

  // ---------- the three sources ----------

  function MemberRows(ms: seq<Membership>): seq<Entry> {
    if ms == [] then []
    else
      var m := ms[|ms| - 1];
      MemberRows(ms[..|ms| - 1]) + if m.isActive && m.group.isActive then [Row(m.group)] else []
  }

  function Matching(table: seq<Group>, adIds: set<string>): seq<Group> {
    if table == [] then []
    else
      var g := table[|table| - 1];
      Matching(table[..|table| - 1], adIds) + if g.adId.Some? && g.adId.value in adIds && g.isActive then [g] else []
  }

  predicate HasRow(es: seq<Entry>, id: Id) {
    exists i :: 0 <= i < |es| && es[i].Row? && es[i].group.id == id
  }

  predicate HasAdId(es: seq<Entry>, a: string) {
    exists i :: 0 <= i < |es| && AdIdOf(es[i]) == Some(a)
  }

  // Rows not listed yet.
  function AddRows(es: seq<Entry>, gs: seq<Group>): seq<Entry> {
    if gs == [] then es
    else
      var sofar := AddRows(es, gs[..|gs| - 1]);
      if HasRow(sofar, gs[|gs| - 1].id) then sofar else sofar + [Row(gs[|gs| - 1])]
  }

  // AD groups not listed yet.
  function AddPlaceholders(es: seq<Entry>, adIds: seq<string>): seq<Entry> {
    if adIds == [] then es
    else
      var sofar := AddPlaceholders(es, adIds[..|adIds| - 1]);
      var a := adIds[|adIds| - 1];
      if HasAdId(sofar, a) then sofar else sofar + [Placeholder(a)]
  }

  function AsSet(adIds: seq<string>): set<string> {
    set a | a in adIds
  }

  function Merged(ms: seq<Membership>, table: seq<Group>, adIds: seq<string>): seq<Entry> {
    AddPlaceholders(AddRows(MemberRows(ms), Matching(table, AsSet(adIds))), adIds)
  }

  // ---------- exactly once ----------

  ghost predicate NoRepeat(es: seq<Entry>) {
    forall i, j :: 0 <= i < j < |es| ==>
                     && (es[i].Row? && es[j].Row? ==> es[i].group.id != es[j].group.id)
                     && (AdIdOf(es[i]).Some? ==> AdIdOf(es[i]) != AdIdOf(es[j]))
  }

  // The schema: ids and AD ids are unique, and memberships point at rows.
  ghost predicate WellFormed(ms: seq<Membership>, table: seq<Group>) {
    && (forall g, h :: g in table && h in table && (g.id == h.id || (g.adId.Some? && g.adId == h.adId)) ==> g == h)
    && (forall g :: g in table ==> g.adId != Some(""))
    && (forall m :: m in ms ==> m.group in table)
  }

  ghost predicate DistinctMemberships(ms: seq<Membership>) {
    forall i, j :: 0 <= i < j < |ms| && ms[i].isActive && ms[j].isActive ==> ms[i].group.id != ms[j].group.id
  }

  ghost predicate RowsFrom(es: seq<Entry>, table: seq<Group>) {
    forall i :: 0 <= i < |es| && es[i].Row? ==> es[i].group in table
  }

  lemma HasSnoc(es: seq<Entry>, e: Entry, id: Id, a: string)
    ensures HasRow(es + [e], id) <==> HasRow(es, id) || (e.Row? && e.group.id == id)
    ensures HasAdId(es + [e], a) <==> HasAdId(es, a) || AdIdOf(e) == Some(a)
  {
    var all := es + [e];
    assert all[|es|] == e;
    if HasRow(es, id) {
      var i :| 0 <= i < |es| && es[i].Row? && es[i].group.id == id;
      assert all[i] == es[i];
    }
    if HasAdId(es, a) {
      var i :| 0 <= i < |es| && AdIdOf(es[i]) == Some(a);
      assert all[i] == es[i];
    }
  }

  lemma {:induction false} MemberRowsOnce(ms: seq<Membership>, table: seq<Group>)
    requires WellFormed(ms, table) && DistinctMemberships(ms)
    ensures NoRepeat(MemberRows(ms)) && RowsFrom(MemberRows(ms), table)
    ensures forall e :: e in MemberRows(ms) <==>
                        exists m :: m in ms && m.isActive && m.group.isActive && e == Row(m.group)
  {
    if ms != [] {
      var front, last := ms[..|ms| - 1], ms[|ms| - 1];
      assert ms == front + [last];
      MemberRowsOnce(front, table);
      var es := MemberRows(front);
      if last.isActive && last.group.isActive {
        forall i | 0 <= i < |es| ensures es[i].Row? && es[i].group.id != last.group.id {
          assert es[i] in es;
          var m :| m in front && m.isActive && es[i] == Row(m.group);
        }
      }
    }
  }

  lemma {:induction false} MatchingHolds(table: seq<Group>, adIds: set<string>)
    ensures forall g :: g in Matching(table, adIds) <==>
                          g in table && g.isActive && g.adId.Some? && g.adId.value in adIds
  {
    if table != [] {
      MatchingHolds(table[..|table| - 1], adIds);
      assert table == table[..|table| - 1] + [table[|table| - 1]];
    }
  }

  lemma AddRowOnce(es: seq<Entry>, g: Group, table: seq<Group>)
    requires NoRepeat(es) && RowsFrom(es, table) && (forall i :: 0 <= i < |es| ==> es[i].Row?)
    requires g in table && WellFormed([], table)
    ensures HasRow(es, g.id) ==> Row(g) in es
    ensures !HasRow(es, g.id) ==> NoRepeat(es + [Row(g)]) && RowsFrom(es + [Row(g)], table)
  {
    if i :| 0 <= i < |es| && es[i].Row? && es[i].group.id == g.id {
      assert es[i].group == g;
    } else {
      forall i | 0 <= i < |es| ensures es[i].group.id != g.id && (g.adId.Some? ==> es[i].group.adId != g.adId) {
        assert es[i].group in table;
      }
    }
  }

  lemma {:induction false} AddRowsOnce(es: seq<Entry>, gs: seq<Group>, table: seq<Group>)
    requires NoRepeat(es) && RowsFrom(es, table) && (forall i :: 0 <= i < |es| ==> es[i].Row?)
    requires forall g :: g in gs ==> g in table
    requires WellFormed([], table)
    ensures var r := AddRows(es, gs);
            && NoRepeat(r) && RowsFrom(r, table) && es <= r
            && (forall i :: 0 <= i < |r| ==> r[i].Row?)
            && (forall i :: |es| <= i < |r| ==> r[i].group in gs)
            && (forall g :: g in gs ==> Row(g) in r)
  {
    if gs != [] {
      var front, g := gs[..|gs| - 1], gs[|gs| - 1];
      assert gs == front + [g];
      AddRowsOnce(es, front, table);
      AddRowOnce(AddRows(es, front), g, table);
    }
  }

  lemma {:induction false} AddPlaceholdersOnce(es: seq<Entry>, adIds: seq<string>)
    requires NoRepeat(es) && (forall i :: 0 <= i < |es| ==> es[i].Row?)
    ensures var r := AddPlaceholders(es, adIds);
            && NoRepeat(r) && es <= r
            && (forall i :: |es| <= i < |r| ==> r[i].Placeholder? && r[i].adId in adIds && !HasAdId(es, r[i].adId))
            && (forall a :: a in adIds ==> HasAdId(r, a))
  {
    if adIds != [] {
      var front, a := adIds[..|adIds| - 1], adIds[|adIds| - 1];
      assert adIds == front + [a];
      AddPlaceholdersOnce(es, front);
      var sofar := AddPlaceholders(es, front);
      forall b ensures HasAdId(sofar + [Placeholder(a)], b) <==> HasAdId(sofar, b) || b == a {
        HasSnoc(sofar, Placeholder(a), 0, b);
      }
      HasAdIdGrows(es, sofar, a);
    }
  }

  lemma HasAdIdGrows(es: seq<Entry>, more: seq<Entry>, a: string)
    requires es <= more
    ensures HasAdId(es, a) ==> HasAdId(more, a)
  {
    if i :| 0 <= i < |es| && AdIdOf(es[i]) == Some(a) {
      assert AdIdOf(more[i]) == Some(a);
    }
  }

  // Why an entry is on the list: a group of the user, or an AD group without an active row.
  ghost predicate Justified(e: Entry, ms: seq<Membership>, table: seq<Group>, adIds: seq<string>) {
    match e
    case Row(g) =>
      && g.isActive
      && ((exists m :: m in ms && m.isActive && m.group == g) || (g in table && g.adId.Some? && g.adId.value in adIds))
    case Placeholder(a) => a in adIds && forall g :: g in table && g.isActive ==> g.adId != Some(a)
  }

  // Every active membership group and every AD group of the user is on the list,
  // no group row and no AD group twice, and nothing else is.
  lemma MergedExactlyOnce(ms: seq<Membership>, table: seq<Group>, adIds: seq<string>)
    requires WellFormed(ms, table) && DistinctMemberships(ms)
    ensures NoRepeat(Merged(ms, table, adIds))
    ensures forall m :: m in ms && m.isActive && m.group.isActive ==> Row(m.group) in Merged(ms, table, adIds)
    ensures forall a :: a in adIds ==> HasAdId(Merged(ms, table, adIds), a)
    ensures forall e :: e in Merged(ms, table, adIds) ==> Justified(e, ms, table, adIds)
  {
    var members := MemberRows(ms);
    var matching := Matching(table, AsSet(adIds));
    var rows := AddRows(members, matching);
    var r := Merged(ms, table, adIds);
    MemberRowsOnce(ms, table);
    MatchingHolds(table, AsSet(adIds));
    assert forall i :: 0 <= i < |members| ==> members[i] in members;
    AddRowsOnce(members, matching, table);
    AddPlaceholdersOnce(rows, adIds);
    forall m | m in ms && m.isActive && m.group.isActive ensures Row(m.group) in r {
      assert Row(m.group) in members;
    }
    forall k | 0 <= k < |r| ensures Justified(r[k], ms, table, adIds) {
      if k < |members| {
        assert r[k] in members;
      } else if k < |rows| {
        assert r[k].group in matching;
      } else {
        PlaceholderHasNoRow(rows, matching, table, adIds, r[k].adId);
      }
    }
  }

  lemma PlaceholderHasNoRow(rows: seq<Entry>, matching: seq<Group>, table: seq<Group>, adIds: seq<string>, a: string)
    requires matching == Matching(table, AsSet(adIds)) && a in adIds && !HasAdId(rows, a)
    requires forall g :: g in matching ==> Row(g) in rows
    ensures forall g :: g in table && g.isActive ==> g.adId != Some(a)
  {
    MatchingHolds(table, AsSet(adIds));
    forall g | g in matching ensures HasAdId(rows, g.adId.value) {
      var i :| 0 <= i < |rows| && rows[i] == Row(g);
      assert AdIdOf(rows[i]) == g.adId;
    }
  }

  // ---------- the endpoint ----------

  method MergeGroups(ms: seq<Membership>, table: seq<Group>, adIds: seq<string>) returns (es: seq<Entry>)
    requires WellFormed(ms, table)
    ensures es == Merged(ms, table, adIds)
  {
    es := [];
    var ids: set<Id>, adSeen: set<string> := {}, {};
    for i := 0 to |ms|
      invariant es == MemberRows(ms[..i]) && Tracked(es, ids, adSeen) && RowsFrom(es, table)
    {
      assert ms[..i + 1][..i] == ms[..i];
      var m := ms[i];
      if m.isActive && m.group.isActive {
        TrackedSnoc(es, ids, adSeen, Row(m.group));
        es := es + [Row(m.group)];
        ids := ids + {m.group.id};
        adSeen := adSeen + if m.group.adId.Some? && m.group.adId.value != "" then {m.group.adId.value} else {};
      }
    }
    assert ms[..|ms|] == ms;
    if adIds == [] {
      MatchingNothing(table);
      assert AsSet(adIds) == {};
      return;
    }
    var matching := Matching(table, AsSet(adIds));
    MatchingHolds(table, AsSet(adIds));
    ghost var members := es;
    for i := 0 to |matching|
      invariant es == AddRows(members, matching[..i]) && Tracked(es, ids, adSeen)
    {
      assert matching[..i + 1][..i] == matching[..i];
      var g := matching[i];
      if g.id !in ids {
        TrackedSnoc(es, ids, adSeen, Row(g));
        es := es + [Row(g)];
        ids := ids + {g.id};
        adSeen := adSeen + {g.adId.value};
      }
    }
    assert matching[..|matching|] == matching;
    ghost var rows := es;
    for i := 0 to |adIds|
      invariant es == AddPlaceholders(rows, adIds[..i]) && Tracked(es, ids, adSeen)
    {
      assert adIds[..i + 1][..i] == adIds[..i];
      var a := adIds[i];
      if a !in adSeen {
        TrackedSnoc(es, ids, adSeen, Placeholder(a));
        es := es + [Placeholder(a)];
        adSeen := adSeen + {a};
      }
    }
    assert adIds[..|adIds|] == adIds;
  }

  // The two seen-sets say what is on the list.
  ghost predicate Tracked(es: seq<Entry>, ids: set<Id>, adSeen: set<string>) {
    (forall id :: id in ids <==> HasRow(es, id)) && (forall a :: a in adSeen <==> HasAdId(es, a))
  }

  lemma TrackedSnoc(es: seq<Entry>, ids: set<Id>, adSeen: set<string>, e: Entry)
    requires Tracked(es, ids, adSeen)
    ensures Tracked(es + [e], ids + if e.Row? then {e.group.id} else {},
                    adSeen + if AdIdOf(e).Some? then {AdIdOf(e).value} else {})
  {
    forall id ensures HasRow(es + [e], id) <==> HasRow(es, id) || (e.Row? && e.group.id == id) {
      HasSnoc(es, e, id, "");
    }
    forall a ensures HasAdId(es + [e], a) <==> HasAdId(es, a) || AdIdOf(e) == Some(a) {
      HasSnoc(es, e, 0, a);
    }
  }

  lemma {:induction false} MatchingNothing(table: seq<Group>)
    ensures Matching(table, {}) == []
  {
    if table != [] {
      MatchingNothing(table[..|table| - 1]);
    }
  }

  // ---------- pages ----------

  datatype Page<T> = Page(items: seq<T>, total: nat, page: nat, totalPages: nat)

  function Least(a: nat, b: nat): nat {
    if a < b then a else b
  }

  // The slice list[offset : offset + limit] and its numbers.
  function Paginate<T>(list: seq<T>, offset: nat, limit: nat): Page<T>
    requires limit >= 1
  {
    var n := |list|;
    Page(list[Least(offset, n)..Least(offset + limit, n)], n,
         if n == 0 then 0 else offset / limit + 1,
         if n == 0 then 0 else (n + limit - 1) / limit)
  }

  // Any page, also one that starts between two pages: its items are those from the
  // offset on, at most `limit`, and its numbers those of the whole list.
  lemma PageMeaning<T>(list: seq<T>, offset: nat, limit: nat)
    requires limit >= 1
    ensures var p := Paginate(list, offset, limit);
            && p.total == |list|
            && (offset >= |list| ==> p.items == [])
            && (offset < |list| ==> |p.items| == if |list| - offset < limit then |list| - offset else limit)
            && (forall i :: 0 <= i < |p.items| ==> p.items[i] == list[offset + i])
            && (list == [] ==> p.page == 0 && p.totalPages == 0)
            && (list != [] ==>
                  && (p.page - 1) * limit <= offset < p.page * limit
                  && (p.totalPages - 1) * limit < |list| <= p.totalPages * limit)
  {
    if list != [] {
      CeilingBounds(|list|, limit);
      var q := offset / limit;
      assert q * limit + offset % limit == offset;
      assert (q + 1) * limit == q * limit + limit;
    }
  }

  // The items of the first k pages.
  function FirstPages<T>(list: seq<T>, limit: nat, k: nat): seq<T>
    requires limit >= 1
  {
    if k == 0 then [] else FirstPages(list, limit, k - 1) + Paginate(list, (k - 1) * limit, limit).items
  }

  lemma {:induction false} PagesTile<T>(list: seq<T>, limit: nat, k: nat)
    requires limit >= 1
    ensures FirstPages(list, limit, k) == list[..Least(k * limit, |list|)]
  {
    if k > 0 {
      PagesTile(list, limit, k - 1);
      assert k * limit == (k - 1) * limit + limit;
      SlicesJoin(list, Least((k - 1) * limit, |list|), Least(k * limit, |list|));
    }
  }

  lemma SlicesJoin<T>(list: seq<T>, a: nat, b: nat)
    requires a <= b <= |list|
    ensures list[..a] + list[a..b] == list[..b]
  {
  }

  // Reading the reported number of pages gives the list, each page but the last
  // is full, the last is not empty, and page k is reported as page k.
  lemma PagesReproduceTheList<T>(list: seq<T>, limit: nat)
    requires limit >= 1
    ensures var pages := Paginate(list, 0, limit).totalPages;
            && FirstPages(list, limit, pages) == list
            && (forall k :: 0 <= k < pages ==> Paginate(list, k * limit, limit).page == k + 1)
            && (forall k :: 0 <= k < pages - 1 ==> |Paginate(list, k * limit, limit).items| == limit)
            && (pages > 0 ==> Paginate(list, (pages - 1) * limit, limit).items != [])
  {
    var n, pages := |list|, Paginate(list, 0, limit).totalPages;
    PagesTile(list, limit, pages);
    assert list[..n] == list;
    if n > 0 {
      CeilingBounds(n, limit);
      forall k | 0 <= k < pages
        ensures Paginate(list, k * limit, limit).page == k + 1
        ensures k < pages - 1 ==> |Paginate(list, k * limit, limit).items| == limit
      {
        PageNumber(list, limit, k);
      }
    }
  }

  lemma PageNumber<T>(list: seq<T>, limit: nat, k: nat)
    requires limit >= 1 && list != [] && k < Paginate(list, 0, limit).totalPages
    ensures Paginate(list, k * limit, limit).page == k + 1
    ensures k < Paginate(list, 0, limit).totalPages - 1 ==> |Paginate(list, k * limit, limit).items| == limit
  {
    var pages := Paginate(list, 0, limit).totalPages;
    CeilingBounds(|list|, limit);
    MultipleDivides(k, limit);
    if k < pages - 1 {
      MultiplesGrow(k + 1, pages - 1, limit);
    }
  }

  lemma CeilingBounds(n: nat, limit: nat)
    requires n >= 1 && limit >= 1
    ensures var pages := (n + limit - 1) / limit; (pages - 1) * limit < n <= pages * limit
  {
    var q := (n + limit - 1) / limit;
    assert q * limit + (n + limit - 1) % limit == n + limit - 1;
    assert (q - 1) * limit == q * limit - limit;
  }

  lemma MultipleDivides(k: nat, limit: nat)
    requires limit >= 1
    ensures k * limit / limit == k
  {
    var q, r := k * limit / limit, k * limit % limit;
    assert q * limit + r == k * limit && 0 <= r < limit;
    assert (k - q) * limit == r;
    SmallMultipleIsZero(k - q, limit);
  }

  lemma SmallMultipleIsZero(d: int, limit: nat)
    requires 0 <= d * limit < limit
    ensures d == 0
  {
  }

  lemma MultiplesGrow(a: nat, b: nat, limit: nat)
    requires a <= b
    ensures a * limit <= b * limit
    ensures a >= 1 ==> (a - 1) * limit + limit == a * limit
  {
  }
}
