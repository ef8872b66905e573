// Relinking attachments that point at no message or at a message that is not a
// user's.  Times are microseconds.
module AttachmentRepair {
  import opened Basics

  datatype Message = Message(sessionId: Id, userId: Id, role: string, createdAt: Time)

  datatype Attachment = Attachment(
    messageId: Option<Id>, entityId: Option<Id>, userId: Id, entityType: string, isActive: bool, createdAt: Time)

  type Messages = map<Id, Message>
  type Attachments = map<Id, Attachment>

  const WINDOW: nat := 5_000_000

  // ---------- what is wrong, and what would put it right ----------

  predicate Checked(a: Attachment) {
    a.entityType == "message" && a.isActive
  }

  predicate Orphan(ms: Messages, a: Attachment) {
    a.messageId.None? || a.messageId.value !in ms
  }

  predicate WrongRole(ms: Messages, a: Attachment) {
    a.messageId.Some? && a.messageId.value in ms && ms[a.messageId.value].role != "user"
  }

  predicate Issue(ms: Messages, a: Attachment) {
    Checked(a) && (Orphan(ms, a) || WrongRole(ms, a))
  }

  function Distance(m: Message, a: Attachment): nat {
    if m.createdAt >= a.createdAt then m.createdAt - a.createdAt else a.createdAt - m.createdAt
  }

  // An orphan looks among its user's messages, an attachment on another role's
  // message within that message's session.
  predicate Eligible(ms: Messages, a: Attachment, id: Id) {
    && id in ms && ms[id].role == "user" && Distance(ms[id], a) < WINDOW
    && if Orphan(ms, a) then ms[id].userId == a.userId else ms[id].sessionId == ms[a.messageId.value].sessionId
  }

  ghost predicate Nearest(ms: Messages, a: Attachment, id: Id) {
    Eligible(ms, a, id) && forall other :: Eligible(ms, a, other) ==> Distance(ms[id], a) <= Distance(ms[other], a)
  }

  ghost predicate Repairable(ms: Messages, a: Attachment) {
    Issue(ms, a) && exists id :: Eligible(ms, a, id)
  }

  function Relinked(a: Attachment, id: Id): Attachment {
    a.(messageId := Some(id), entityId := Some(id))
  }

  // Rows without an issue and issues without a candidate stay; the others move
  // to a nearest eligible message.
  ghost predicate Repaired(ms: Messages, a: Attachment, b: Attachment) {
    if Repairable(ms, a) then exists id :: Nearest(ms, a, id) && b == Relinked(a, id) else b == a
  }

  function Abs(x: int): nat {
    if x < 0 then -x else x
  }

  // A user's message less than five seconds away: of the same user, for an active
  // message attachment that points at no message ...
  predicate FitsOrphan(ms: Messages, a: Attachment, id: Id) {
    && a.entityType == "message" && a.isActive && (a.messageId.None? || a.messageId.value !in ms)
    && id in ms && ms[id].role == "user" && ms[id].userId == a.userId
    && -5_000_000 < ms[id].createdAt - a.createdAt < 5_000_000
  }

  // ... or in the same session, for one that points at a message of another role.
  predicate FitsMisplaced(ms: Messages, a: Attachment, id: Id) {
    && a.entityType == "message" && a.isActive
    && a.messageId.Some? && a.messageId.value in ms && ms[a.messageId.value].role != "user"
    && id in ms && ms[id].role == "user" && ms[id].sessionId == ms[a.messageId.value].sessionId
    && -5_000_000 < ms[id].createdAt - a.createdAt < 5_000_000
  }

  ghost predicate FitsNearest(ms: Messages, a: Attachment, id: Id) {
    && (FitsOrphan(ms, a, id) || FitsMisplaced(ms, a, id))
    && forall other :: FitsOrphan(ms, a, other) || FitsMisplaced(ms, a, other) ==>
                         Abs(ms[id].createdAt - a.createdAt) <= Abs(ms[other].createdAt - a.createdAt)
  }

  // In message times and ids: a fitting message is taken when there is one, none
  // is nearer in time, and nothing else in the row changes.
  lemma RepairMeaning(ms: Messages, a: Attachment, b: Attachment)
    ensures Repaired(ms, a, b) <==>
            if forall id :: !FitsOrphan(ms, a, id) && !FitsMisplaced(ms, a, id) then b == a
            else
              exists id :: FitsNearest(ms, a, id) && b == a.(messageId := Some(id), entityId := Some(id))
  {
    forall id
      ensures Issue(ms, a) && Eligible(ms, a, id) <==> FitsOrphan(ms, a, id) || FitsMisplaced(ms, a, id)
      ensures id in ms ==> Distance(ms[id], a) == Abs(ms[id].createdAt - a.createdAt)
    {
    }
    forall id ensures FitsNearest(ms, a, id) <==> Issue(ms, a) && Nearest(ms, a, id) {
    }
  }

  lemma RelinkedHasNoIssue(ms: Messages, a: Attachment, id: Id)
    requires Eligible(ms, a, id)
    ensures !Issue(ms, Relinked(a, id))
  {
  }

  lemma RepairedIsFinal(ms: Messages, a: Attachment, b: Attachment)
    requires Repaired(ms, a, b)
    ensures Issue(ms, b) <==> Issue(ms, a) && !Repairable(ms, a)
    ensures !Repairable(ms, b)
  {
    if Repairable(ms, a) {
      var id :| Nearest(ms, a, id) && b == Relinked(a, id);
      RelinkedHasNoIssue(ms, a, id);
    }
  }

  // What a pass leaves as an issue cannot be repaired, so a second pass changes nothing.
  lemma SecondPassChangesNothing(ms: Messages, xs: Attachments, ys: Attachments, zs: Attachments)
    requires AllRepaired(ms, xs, ys) && AllRepaired(ms, ys, zs)
    ensures zs == ys
  {
    forall id | id in ys ensures zs[id] == ys[id] {
      RepairedIsFinal(ms, xs[id], ys[id]);
    }
  }

  // ---------- counting ----------

  ghost function Issues(ms: Messages, xs: Attachments): set<Id> {
    set id | id in xs && Issue(ms, xs[id])
  }

  ghost function RepairableIds(ms: Messages, xs: Attachments): set<Id> {
    set id | id in xs && Repairable(ms, xs[id])
  }

  ghost predicate AllRepaired(ms: Messages, xs: Attachments, ys: Attachments) {
    ys.Keys == xs.Keys && forall id :: id in xs ==> Repaired(ms, xs[id], ys[id])
  }

  lemma RepairableAreIssues(ms: Messages, xs: Attachments)
    ensures RepairableIds(ms, xs) <= Issues(ms, xs)
  {
  }

  lemma RemainingIds(ms: Messages, xs: Attachments, ys: Attachments)
    requires AllRepaired(ms, xs, ys)
    ensures Issues(ms, ys) == Issues(ms, xs) - RepairableIds(ms, xs)
    ensures RepairableIds(ms, ys) == {}
  {
    forall id | id in xs
      ensures Issue(ms, ys[id]) <==> Issue(ms, xs[id]) && !Repairable(ms, xs[id])
      ensures !Repairable(ms, ys[id])
    {
      RepairedIsFinal(ms, xs[id], ys[id]);
    }
  }

  // After a pass the verifier finds exactly the issues that were not fixed.
  lemma RemainingIssues(ms: Messages, xs: Attachments, ys: Attachments)
    requires AllRepaired(ms, xs, ys)
    ensures |Issues(ms, ys)| == |Issues(ms, xs)| - |RepairableIds(ms, xs)|
    ensures |RepairableIds(ms, ys)| == 0
  {
    RemainingIds(ms, xs, ys);
    RepairableAreIssues(ms, xs);
    DifferenceSize(Issues(ms, xs), RepairableIds(ms, xs));
  }

  lemma DifferenceSize(a: set<Id>, b: set<Id>)
    requires b <= a
    ensures |a - b| == |a| - |b|
  {
    assert (a - b) + b == a;
  }

  // Repaired on the ids done so far, untouched elsewhere.
  ghost predicate PartlyRepaired(ms: Messages, xs: Attachments, ys: Attachments, done: set<Id>) {
    && ys.Keys == xs.Keys
    && forall id :: id in xs ==> if id in done then Repaired(ms, xs[id], ys[id]) else ys[id] == xs[id]
  }

  ghost function IssuesIn(ms: Messages, xs: Attachments, ids: set<Id>): set<Id>
    requires ids <= xs.Keys
  {
    set id | id in ids && Issue(ms, xs[id])
  }

  ghost function RepairableIn(ms: Messages, xs: Attachments, ids: set<Id>): set<Id>
    requires ids <= xs.Keys
  {
    set id | id in ids && Repairable(ms, xs[id])
  }

  lemma IssuesGrow(ms: Messages, xs: Attachments, ids: set<Id>, id: Id)
    requires ids <= xs.Keys && id in xs && id !in ids
    ensures |IssuesIn(ms, xs, ids + {id})| == |IssuesIn(ms, xs, ids)| + if Issue(ms, xs[id]) then 1 else 0
  {
    if Issue(ms, xs[id]) {
      assert IssuesIn(ms, xs, ids + {id}) == IssuesIn(ms, xs, ids) + {id};
    } else {
      assert IssuesIn(ms, xs, ids + {id}) == IssuesIn(ms, xs, ids);
    }
  }

  lemma RepairableGrow(ms: Messages, xs: Attachments, ids: set<Id>, id: Id)
    requires ids <= xs.Keys && id in xs && id !in ids
    ensures |RepairableIn(ms, xs, ids + {id})| == |RepairableIn(ms, xs, ids)| + if Repairable(ms, xs[id]) then 1 else 0
  {
    if Repairable(ms, xs[id]) {
      assert RepairableIn(ms, xs, ids + {id}) == RepairableIn(ms, xs, ids) + {id};
    } else {
      assert RepairableIn(ms, xs, ids + {id}) == RepairableIn(ms, xs, ids);
    }
  }

  // ---------- a pass that stops at an error ----------

  function AsSet(ids: seq<Id>): set<Id> {
    set id | id in ids
  }

  // The checked attachments, each once, in some order.
  ghost predicate Fetched(xs: Attachments, rows: seq<Id>) {
    && (forall i, j :: 0 <= i < j < |rows| ==> rows[i] != rows[j])
    && (forall id :: id in rows <==> id in xs && Checked(xs[id]))
  }

  lemma OneMore(rows: seq<Id>, i: nat)
    requires i < |rows| && forall j, k :: 0 <= j < k < |rows| ==> rows[j] != rows[k]
    ensures AsSet(rows[..i + 1]) == AsSet(rows[..i]) + {rows[i]} && rows[i] !in AsSet(rows[..i])
  {
  }

  // The first i rows are repaired and counted, the others untouched.
  ghost predicate PassedUpTo(ms: Messages, xs: Attachments, ys: Attachments, rows: seq<Id>, i: nat,
                             issueCount: nat, fixedCount: nat)
    requires i <= |rows|
  {
    var done := AsSet(rows[..i]);
    && done <= xs.Keys && PartlyRepaired(ms, xs, ys, done)
    && issueCount == |IssuesIn(ms, xs, done)| && fixedCount == |RepairableIn(ms, xs, done)|
  }

  lemma PassedOneMore(ms: Messages, xs: Attachments, before: Attachments, after: Attachments, rows: seq<Id>, i: nat,
                      issueCount: nat, fixedCount: nat)
    requires Fetched(xs, rows) && i < |rows| && PassedUpTo(ms, xs, before, rows, i, issueCount, fixedCount)
    requires rows[i] in after && after == before[rows[i] := after[rows[i]]]
    requires before[rows[i]] == xs[rows[i]] ==> Repaired(ms, xs[rows[i]], after[rows[i]])
    ensures before[rows[i]] == xs[rows[i]]
    ensures PassedUpTo(ms, xs, after, rows, i + 1, issueCount + if Issue(ms, xs[rows[i]]) then 1 else 0,
                       fixedCount + if Repairable(ms, xs[rows[i]]) then 1 else 0)
  {
    OneMore(rows, i);
    IssuesGrow(ms, xs, AsSet(rows[..i]), rows[i]);
    RepairableGrow(ms, xs, AsSet(rows[..i]), rows[i]);
  }

  // The rows that a pass changed for good.
  ghost function Fixed(xs: Attachments, ys: Attachments): set<Id> {
    set id | id in xs && id in ys && ys[id] != xs[id]
  }

  // Every fix changes its row, so the fixes made before the error are the
  // repairable rows before it, and the reported zero is their number exactly
  // when there was none.
  lemma ReportedZeroIff(ms: Messages, xs: Attachments, ys: Attachments, rows: seq<Id>, i: nat)
    requires Fetched(xs, rows) && i <= |rows| && PartlyRepaired(ms, xs, ys, AsSet(rows[..i]))
    ensures Fixed(xs, ys) == RepairableIn(ms, xs, AsSet(rows[..i]))
    ensures 0 == |Fixed(xs, ys)| <==> forall k :: 0 <= k < i ==> !Repairable(ms, xs[rows[k]])
  {
    var done := AsSet(rows[..i]);
    forall id | id in xs ensures ys[id] != xs[id] <==> id in done && Repairable(ms, xs[id]) {
      if id in done && Repairable(ms, xs[id]) {
        RepairedIsFinal(ms, xs[id], ys[id]);
      }
    }
    assert Fixed(xs, ys) == RepairableIn(ms, xs, done);
    if k :| 0 <= k < i && Repairable(ms, xs[rows[k]]) {
      assert rows[k] in Fixed(xs, ys);
    }
    if id :| id in Fixed(xs, ys) {
      var k :| 0 <= k < i && rows[..i][k] == id;
      assert Repairable(ms, xs[rows[k]]);
    }
  }

  // One orphan with a message at its own time, then an error: its fix stays and
  // zero is reported.
  const QUESTION: Message := Message(10, 20, "user", 0)
  const ORPHAN: Attachment := Attachment(None, None, 20, "message", true, 0)

  lemma ErrorHidesAFix(ys: Attachments)
    requires PartlyRepaired(map[1 := QUESTION], map[5 := ORPHAN, 6 := ORPHAN], ys, AsSet([5, 6][..1]))
    ensures ys == map[5 := Relinked(ORPHAN, 1), 6 := ORPHAN]
    ensures |Fixed(map[5 := ORPHAN, 6 := ORPHAN], ys)| == 1
  {
    assert Eligible(map[1 := QUESTION], ORPHAN, 1);
    assert [5, 6][..1] == [5] && AsSet([5]) == {5};
    var id :| Nearest(map[1 := QUESTION], ORPHAN, id) && ys[5] == Relinked(ORPHAN, id);
    assert Fixed(map[5 := ORPHAN, 6 := ORPHAN], ys) == {5};
  }

  // ---------- the scripts ----------

  class Database {
    var messages: Messages
    var attachments: Attachments

    constructor (messages: Messages, attachments: Attachments)
      ensures this.messages == messages && this.attachments == attachments
    {
      this.messages, this.attachments := messages, attachments;
    }

    // The nearest eligible message; among equally near ones any may come first.
    method FindNearest(a: Attachment) returns (r: Option<Id>)
      requires Issue(messages, a)
      ensures r.None? ==> forall id :: !Eligible(messages, a, id)
      ensures r.Some? ==> Nearest(messages, a, r.value)
    {
      r := None;
      var rest := messages.Keys;
      while rest != {}
        invariant rest <= messages.Keys
        invariant r.None? ==> forall id :: Eligible(messages, a, id) ==> id in rest
        invariant r.Some? ==> Eligible(messages, a, r.value)
        invariant r.Some? ==> forall id :: Eligible(messages, a, id) && id !in rest ==>
                                             Distance(messages[r.value], a) <= Distance(messages[id], a)
        decreases rest
      {
        var id :| id in rest;
        rest := rest - {id};
        if Eligible(messages, a, id) && (r.None? || Distance(messages[id], a) < Distance(messages[r.value], a)) {
          r := Some(id);
        }
      }
    }

    // The attachments to look at, in whatever order the query gives them.
    method FetchChecked() returns (rows: seq<Id>)
      ensures Fetched(attachments, rows)
    {
      rows := [];
      var rest := set id | id in attachments && Checked(attachments[id]);
      while rest != {}
        invariant forall i, j :: 0 <= i < j < |rows| ==> rows[i] != rows[j]
        invariant forall id :: id in attachments && Checked(attachments[id]) <==> id in rest || id in rows
        invariant forall id :: id in rest ==> id !in rows
        decreases rest
      {
        var id :| id in rest;
        rest := rest - {id};
        rows := rows + [id];
      }
    }

    // One attachment: its new row, and whether it had an issue and was fixed.
    method FixOne(id: Id) returns (issue: bool, fixed: bool)
      requires id in attachments
      modifies this`attachments
      ensures id in attachments && attachments == old(attachments)[id := attachments[id]]
      ensures Repaired(messages, old(attachments)[id], attachments[id])
      ensures issue == Issue(messages, old(attachments)[id])
      ensures fixed <==> Repairable(messages, old(attachments)[id])
    {
      var a := attachments[id];
      issue, fixed := Issue(messages, a), false;
      if issue {
        var found := FindNearest(a);
        if found.Some? {
          attachments := attachments[id := Relinked(a, found.value)];
          fixed := true;
        }
      }
      assert attachments == old(attachments)[id := attachments[id]];
    }

    // Every fix is committed on its own, so an error at row `failAt` keeps the
    // fixes of the rows before it and nothing else; the pass then reports no fix
    // at all.  `rows` is the order the query gave.
    method FixOrphanedAttachments(failAt: Option<nat>)
      returns (ok: bool, issueCount: nat, fixedCount: nat, ghost rows: seq<Id>)
      modifies this`attachments
      ensures Fetched(old(attachments), rows)
      ensures ok <==> (failAt.Some? ==> failAt.value >= |rows|)
      ensures ok ==> AllRepaired(messages, old(attachments), attachments)
      ensures ok ==> issueCount == |Issues(messages, old(attachments))|
                     && fixedCount == |RepairableIds(messages, old(attachments))|
      ensures !ok ==> PartlyRepaired(messages, old(attachments), attachments, AsSet(rows[..failAt.value]))
      ensures !ok ==> fixedCount == 0
      ensures !ok ==> issueCount == |IssuesIn(messages, old(attachments), AsSet(rows[..failAt.value]))|
    {
      var fetched := FetchChecked();
      rows := fetched;
      issueCount, fixedCount := 0, 0;
      for i := 0 to |fetched|
        invariant failAt.Some? ==> i <= failAt.value || failAt.value >= |rows|
        invariant PassedUpTo(messages, old(attachments), attachments, rows, i, issueCount, fixedCount)
      {
        if failAt == Some(i) {
          return false, issueCount, 0, rows;
        }
        var id := fetched[i];
        ghost var before := attachments;
        var issue, fixed := FixOne(id);
        PassedOneMore(messages, old(attachments), before, attachments, rows, i, issueCount, fixedCount);
        issueCount := issueCount + if issue then 1 else 0;
        fixedCount := fixedCount + if fixed then 1 else 0;
      }
      assert rows[..|rows|] == rows;
      assert IssuesIn(messages, old(attachments), AsSet(rows)) == Issues(messages, old(attachments));
      assert RepairableIn(messages, old(attachments), AsSet(rows)) == RepairableIds(messages, old(attachments));
      ok := true;
    }

    // The two counts of the verifier.
    method VerifyAttachments() returns (orphaned: nat, wrongRole: nat)
      ensures orphaned + wrongRole == |Issues(messages, attachments)|
      ensures orphaned == |set id | id in attachments && Checked(attachments[id]) && Orphan(messages, attachments[id])|
    {
      var os := set id | id in attachments && Checked(attachments[id]) && Orphan(messages, attachments[id]);
      var ws := set id | id in attachments && Checked(attachments[id]) && WrongRole(messages, attachments[id]);
      orphaned, wrongRole := |os|, |ws|;
      assert os !! ws && os + ws == Issues(messages, attachments);
    }

    // Fix, then verify: what remains is what was found less what was fixed.
    method FixAndVerify() returns (issueCount: nat, fixedCount: nat, remaining: nat)
      modifies this`attachments
      ensures AllRepaired(messages, old(attachments), attachments)
      ensures issueCount == |Issues(messages, old(attachments))|
      ensures fixedCount == |RepairableIds(messages, old(attachments))|
      ensures remaining == |Issues(messages, attachments)| == issueCount - fixedCount
    {
      var ok;
      ghost var rows;
      ok, issueCount, fixedCount, rows := FixOrphanedAttachments(None);
      var orphaned, wrongRole := VerifyAttachments();
      remaining := orphaned + wrongRole;
      RemainingIssues(messages, old(attachments), attachments);
    }
  }
}
