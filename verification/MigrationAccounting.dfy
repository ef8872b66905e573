// What the printed attachment statistics say about the rows and the target,
// whatever fails.
module MigrationAccounting {
  import opened Basics
  import opened MigrationModel
  import opened MigrationSafety
  import opened MigrationExecution

  // Did the attachment's message migrate?
  predicate Linked(a: SrcAttachment, mmap: map<Id, Id>) {
    a.messageId.Some? && a.messageId.value in mmap
  }

  // A linked attachment is handled unless the database fails; the others never are.
  lemma HandledUnlessFaulty(a: SrcAttachment, mmap: map<Id, Id>, now: Time, fault: Fault,
                            before: Db, after: Db, outcome: Outcome)
    requires Lands(mmap, before.messages)
    requires forall id :: id in before.messages ==> MessageRefs(before, before.messages[id])
    requires OutcomeStep(a, mmap, now, fault, before, after, outcome)
    ensures outcome.Some? ==> Linked(a, mmap)
    ensures fault == NoFault && Linked(a, mmap) ==> outcome.Some?
  {
    if Linked(a, mmap) {
      assert MessageRefs(before, before.messages[mmap[a.messageId.value]]);
    }
  }

  // The rows that had URLs at the start and have none now.
  ghost function Blanked(start: Db, db: Db): set<Id> {
    set id | id in start.attachments && HasUrls(start.attachments[id])
             && id in db.attachments && !HasUrls(db.attachments[id])
  }

  ghost predicate Accounted(start: Db, db: Db, stats: Stats) {
    && db == start.(attachments := db.attachments) && start.attachments.Keys <= db.attachments.Keys
    && (forall id :: id in db.attachments && HasUrls(db.attachments[id]) ==>
          id in start.attachments && HasUrls(start.attachments[id]))
    && |db.attachments| == |start.attachments| + stats.created
    && |Blanked(start, db)| == stats.updated
  }

  // A row is created, or one row that still had URLs is blanked, or nothing changes.
  lemma OutcomeEffect(a: SrcAttachment, mmap: map<Id, Id>, now: Time, fault: Fault,
                      before: Db, after: Db, outcome: Outcome) returns (id: Id)
    requires OutcomeStep(a, mmap, now, fault, before, after, outcome)
    ensures outcome != Some(Created) && outcome != Some(Updated) ==> after == before
    ensures outcome == Some(Created) ==>
              && id !in before.attachments && id in after.attachments && !HasUrls(after.attachments[id])
              && after == before.(attachments := before.attachments[id := after.attachments[id]])
    ensures outcome == Some(Updated) ==>
              && id in before.attachments && HasUrls(before.attachments[id])
              && id in after.attachments && !HasUrls(after.attachments[id])
              && after == before.(attachments := before.attachments[id := after.attachments[id]])
  {
    id := a.id;
    if outcome == Some(Updated) && a.id !in before.attachments {
      id :| IsFile(before, id, mmap[a.messageId.value], a.name) && BlankStep(id, fault, before, after, true, Updated);
    }
  }

  lemma CreatedAccounted(start: Db, before: Db, stats: Stats, id: Id, row: Attachment)
    requires Accounted(start, before, stats) && id !in before.attachments && !HasUrls(row)
    ensures Accounted(start, before.(attachments := before.attachments[id := row]), Counted(stats, Some(Created)))
  {
    var after := before.(attachments := before.attachments[id := row]);
    assert after.attachments.Keys == before.attachments.Keys + {id};
    assert |after.attachments.Keys| == |after.attachments| && |before.attachments.Keys| == |before.attachments|;
    assert Blanked(start, after) == Blanked(start, before);
  }

  lemma UpdatedAccounted(start: Db, before: Db, stats: Stats, id: Id, row: Attachment)
    requires Accounted(start, before, stats) && !HasUrls(row)
    requires id in before.attachments && HasUrls(before.attachments[id])
    ensures Accounted(start, before.(attachments := before.attachments[id := row]), Counted(stats, Some(Updated)))
  {
    var after := before.(attachments := before.attachments[id := row]);
    assert after.attachments.Keys == before.attachments.Keys;
    assert |after.attachments.Keys| == |after.attachments| && |before.attachments.Keys| == |before.attachments|;
    assert Blanked(start, after) == Blanked(start, before) + {id} && id !in Blanked(start, before);
  }

  lemma AccountedOneMore(start: Db, before: Db, stats: Stats, a: SrcAttachment, mmap: map<Id, Id>, now: Time,
                         fault: Fault, after: Db, outcome: Outcome)
    requires Accounted(start, before, stats) && OutcomeStep(a, mmap, now, fault, before, after, outcome)
    ensures Accounted(start, after, Counted(stats, outcome))
  {
    var id := OutcomeEffect(a, mmap, now, fault, before, after, outcome);
    if outcome == Some(Created) {
      CreatedAccounted(start, before, stats, id, after.attachments[id]);
    } else if outcome == Some(Updated) {
      UpdatedAccounted(start, before, stats, id, after.attachments[id]);
    }
  }

  lemma TallyOfPrefix(outcomes: seq<Outcome>, i: nat)
    requires i < |outcomes|
    ensures Tally(outcomes[..i + 1]) == Counted(Tally(outcomes[..i]), outcomes[i])
  {
    TallySnoc(outcomes[..i], outcomes[i]);
    assert outcomes[..i + 1] == outcomes[..i] + [outcomes[i]];
  }

  lemma NothingAccounted(start: Db)
    ensures Accounted(start, start, Tally([]))
  {
    assert Blanked(start, start) == {};
  }

  lemma {:induction false} PrefixAccounted(rows: seq<SrcAttachment>, mmap: map<Id, Id>, o: Oracle, t: Trace<Outcome>,
                                           i: nat)
    requires i <= |rows| && Steps(rows, AttachmentSteps(mmap, o), t)
    ensures Accounted(t.First(), t.dbs[i], Tally(t.answers[..i]))
  {
    if i == 0 {
      NothingAccounted(t.First());
    } else {
      var outcome := t.answers[i - 1];
      PrefixAccounted(rows, mmap, o, t, i - 1);
      AccountedOneMore(t.First(), t.dbs[i - 1], Tally(t.answers[..i - 1]), rows[i - 1], mmap, o.clock(i - 1),
                       o.attachmentFault(i - 1), t.dbs[i], outcome);
      TallyOfPrefix(t.answers, i - 1);
    }
  }

  // The tallies of the four kinds of outcome add up to the rows.
  lemma {:induction false} TallySum(outcomes: seq<Outcome>)
    ensures Tally(outcomes).created + Tally(outcomes).updated + Tally(outcomes).skipped
         == |outcomes| - multiset(outcomes)[None]
    ensures multiset(outcomes)[None] == 0 <==> None !in outcomes
  {
    if outcomes != [] {
      var n := |outcomes| - 1;
      TallySum(outcomes[..n]);
      assert outcomes == outcomes[..n] + [outcomes[n]];
      var before := multiset(outcomes[..n]);
      assert multiset(outcomes) == before + multiset{outcomes[n]};
      match outcomes[n]
      case None =>
      case Some(Created) =>
      case Some(Updated) =>
      case Some(Skipped) =>
    }
  }

  // The new rows are the created ones, the rows blanked are the updated ones,
  // and a row is missing from the counters only when its message did not migrate
  // or the database failed; so the counters add up to the rows exactly when
  // every row was handled, which without failures means that every row is linked.
  lemma AttachmentAccounting(rows: seq<SrcAttachment>, mmap: map<Id, Id>, o: Oracle, t: Trace<Outcome>, stats: Stats)
    requires AttachmentsTraced(rows, mmap, o, t, stats)
    requires Lands(mmap, t.First().messages)
    requires forall id :: id in t.First().messages ==> MessageRefs(t.First(), t.First().messages[id])
    ensures |t.Last().attachments| == |t.First().attachments| + stats.created
    ensures |Blanked(t.First(), t.Last())| == stats.updated
    ensures forall i :: 0 <= i < |rows| && t.answers[i].None? ==>
                          !Linked(rows[i], mmap) || o.attachmentFault(i) != NoFault
    ensures forall i :: 0 <= i < |rows| && !Linked(rows[i], mmap) ==> t.answers[i].None?
    ensures stats.created + stats.updated + stats.skipped == |rows| - multiset(t.answers)[None]
    ensures stats.created + stats.updated + stats.skipped == |rows| <==>
            forall i :: 0 <= i < |rows| ==> t.answers[i].Some?
    ensures NoFaults(o.attachmentFault) ==>
              (stats.created + stats.updated + stats.skipped == |rows| <==>
               forall i :: 0 <= i < |rows| ==> Linked(rows[i], mmap))
  {
    PrefixAccounted(rows, mmap, o, t, |rows|);
    assert t.answers[..|rows|] == t.answers;
    TallySum(t.answers);
    forall i | 0 <= i < |rows|
      ensures t.answers[i].Some? <==> t.answers[i] != None
      ensures t.answers[i].None? ==> !Linked(rows[i], mmap) || o.attachmentFault(i) != NoFault
      ensures !Linked(rows[i], mmap) ==> t.answers[i].None?
    {
      PrefixAccounted(rows, mmap, o, t, i);
      SameMessages(t.First(), t.dbs[i]);
      HandledUnlessFaulty(rows[i], mmap, o.clock(i), o.attachmentFault(i), t.dbs[i], t.dbs[i + 1], t.answers[i]);
    }
  }

  lemma SameMessages(start: Db, db: Db)
    requires db == start.(attachments := db.attachments)
    requires forall id :: id in start.messages ==> MessageRefs(start, start.messages[id])
    ensures forall id :: id in db.messages ==> MessageRefs(db, db.messages[id])
  {
    forall id | id in db.messages ensures MessageRefs(db, db.messages[id]) {
      assert MessageRefs(start, start.messages[id]);
    }
  }
}
