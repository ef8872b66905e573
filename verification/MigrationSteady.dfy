// A rerun on a run's own output that leaves the whole target as it is, also where
// the run reused rows under other ids.
module MigrationSteady {
  import opened Basics
  import opened MigrationModel
  import opened MigrationSafety
  import opened MigrationLinks
  import opened MigrationExecution
  import opened MigrationAccounting
  import opened MigrationForest
  import opened MigrationMerging
  import opened MigrationRun
  import opened MigrationForced
  import opened MigrationRecognition
  import opened MigrationRerun

  // ---------- replaying a run's own answers ----------
  // Whatever the run refreshed in between, its last refresh of a row is the one
  // that stands, and the last one of the replay.

  ghost predicate LastAnswered(answers: seq<Option<Id>>, i: nat, id: Id, j: nat)
    requires i <= |answers|
  {
    j < i && answers[j] == Some(id) && forall k :: j < k < i ==> answers[k] != Some(id)
  }

  ghost predicate Unanswered(answers: seq<Option<Id>>, i: nat, id: Id)
    requires i <= |answers|
  {
    forall k :: 0 <= k < i ==> answers[k] != Some(id)
  }

  lemma SessionReplayAt(ss: map<Id, Session>, rows: seq<SrcSession>, answers: seq<Option<Id>>, agent: int, i: nat)
    requires |rows| == |answers| && i < |rows|
    ensures var before := ReplayedSessions(ss, rows[..i], answers[..i], agent);
            ReplayedSessions(ss, rows[..i + 1], answers[..i + 1], agent) ==
            if answers[i].Some? && answers[i].value in before
            then before[answers[i].value := RefreshedSession(before[answers[i].value], rows[i], agent)] else before
  {
    assert rows[..i + 1][..i] == rows[..i] && answers[..i + 1][..i] == answers[..i];
  }

  lemma MessageReplayAt(ms: map<Id, Message>, rows: seq<SrcMessage>, answers: seq<Option<Id>>, agent: int, i: nat)
    requires |rows| == |answers| && i < |rows|
    ensures var before := ReplayedMessages(ms, rows[..i], answers[..i], agent);
            ReplayedMessages(ms, rows[..i + 1], answers[..i + 1], agent) ==
            if answers[i].Some? && answers[i].value in before
            then before[answers[i].value := RefreshedMessage(before[answers[i].value], rows[i], agent)] else before
  {
    assert rows[..i + 1][..i] == rows[..i] && answers[..i + 1][..i] == answers[..i];
  }

  // The replayed row: as it was, or refreshed by the last row that answered it.
  lemma {:induction false} SessionReplayed(ss: map<Id, Session>, rows: seq<SrcSession>, answers: seq<Option<Id>>,
                                           agent: int, i: nat, id: Id)
    requires |rows| == |answers| && i <= |rows| && id in ss
    ensures var r := ReplayedSessions(ss, rows[..i], answers[..i], agent);
            && id in r
            && (Unanswered(answers, i, id) ==> r[id] == ss[id])
            && (forall j: nat :: LastAnswered(answers, i, id, j) ==> r[id] == RefreshedSession(ss[id], rows[j], agent))
  {
    if i > 0 {
      SessionReplayed(ss, rows, answers, agent, i - 1, id);
      SessionReplayAt(ss, rows, answers, agent, i - 1);
      AnsweredBefore(answers, i - 1, id);
    }
  }

  lemma {:induction false} MessageReplayed(ms: map<Id, Message>, rows: seq<SrcMessage>, answers: seq<Option<Id>>,
                                           agent: int, i: nat, id: Id)
    requires |rows| == |answers| && i <= |rows| && id in ms
    ensures var r := ReplayedMessages(ms, rows[..i], answers[..i], agent);
            && id in r
            && (Unanswered(answers, i, id) ==> r[id] == ms[id])
            && (forall j: nat :: LastAnswered(answers, i, id, j) ==> r[id] == RefreshedMessage(ms[id], rows[j], agent))
  {
    if i > 0 {
      MessageReplayed(ms, rows, answers, agent, i - 1, id);
      MessageReplayAt(ms, rows, answers, agent, i - 1);
      AnsweredBefore(answers, i - 1, id);
    }
  }

  lemma AnsweredBefore(answers: seq<Option<Id>>, i: nat, id: Id)
    requires i < |answers|
    ensures Unanswered(answers, i + 1, id) ==> Unanswered(answers, i, id)
    ensures Unanswered(answers, i, id) || exists j: nat :: LastAnswered(answers, i, id, j)
    ensures forall j: nat :: LastAnswered(answers, i + 1, id, j) ==>
                               if j == i then answers[i] == Some(id)
                               else LastAnswered(answers, i, id, j) && answers[i] != Some(id)
  {
    SomeLastAnswer(answers, i, id);
  }

  lemma {:induction false} SomeLastAnswer(answers: seq<Option<Id>>, i: nat, id: Id)
    requires i <= |answers|
    ensures Unanswered(answers, i, id) || exists j: nat :: LastAnswered(answers, i, id, j)
  {
    if i > 0 {
      var n: nat := i - 1;
      if answers[n] == Some(id) {
        assert LastAnswered(answers, i, id, n);
      } else {
        SomeLastAnswer(answers, n, id);
        if j: nat :| LastAnswered(answers, n, id, j) {
          assert LastAnswered(answers, i, id, j);
        }
      }
    }
  }

  // The run's own row bears the refresh of the last source row that answered it.
  lemma {:induction false} SessionStands(rows: seq<SrcSession>, umap: map<Id, Id>, agent: int, o: Oracle,
                                         t: Trace<Option<Id>>, i: nat, id: Id, j: nat)
    requires i <= |rows| && Steps(rows, SessionSteps(umap, agent, o), t) && LastAnswered(t.answers, i, id, j)
    ensures id in t.dbs[i].sessions
    ensures RefreshedSession(t.dbs[i].sessions[id], rows[j], agent) == t.dbs[i].sessions[id]
  {
    assert SessionStep(rows[i - 1], umap, agent, o.clock(i - 1), o.sessionFault(i - 1),
                       t.dbs[i - 1], t.dbs[i], t.answers[i - 1]);
    if j < i - 1 {
      AnsweredBefore(t.answers, i - 1, id);
      SessionStands(rows, umap, agent, o, t, i - 1, id, j);
    }
  }

  lemma {:induction false} MessageStands(rows: seq<SrcMessage>, smap: map<Id, Id>, agent: int, o: Oracle,
                                         t: Trace<Option<Id>>, i: nat, id: Id, j: nat)
    requires i <= |rows| && Steps(rows, MessageSteps(smap, agent, o), t) && LastAnswered(t.answers, i, id, j)
    ensures id in t.dbs[i].messages
    ensures RefreshedMessage(t.dbs[i].messages[id], rows[j], agent) == t.dbs[i].messages[id]
  {
    assert MessageStep(rows[i - 1], smap, agent, o.clock(i - 1), o.messageFault(i - 1),
                       t.dbs[i - 1], t.dbs[i], t.answers[i - 1]);
    if j < i - 1 {
      AnsweredBefore(t.answers, i - 1, id);
      MessageStands(rows, smap, agent, o, t, i - 1, id, j);
    }
  }

  lemma SessionReplayStands(rows: seq<SrcSession>, umap: map<Id, Id>, agent: int, o: Oracle, t: Trace<Option<Id>>)
    requires Steps(rows, SessionSteps(umap, agent, o), t)
    ensures ReplayedSessions(t.Last().sessions, rows, t.answers, agent) == t.Last().sessions
  {
    var ss, n := t.Last().sessions, |rows|;
    assert rows[..n] == rows && t.answers[..n] == t.answers;
    ReplayedSessionsStay(ss, rows, t.answers, agent);
    forall id | id in ss ensures ReplayedSessions(ss, rows, t.answers, agent)[id] == ss[id] {
      SessionReplayed(ss, rows, t.answers, agent, n, id);
      SomeLastAnswer(t.answers, n, id);
      if j: nat :| LastAnswered(t.answers, n, id, j) {
        SessionStands(rows, umap, agent, o, t, n, id, j);
      }
    }
  }

  // For messages also after the link pass, which only sets parents.
  lemma MessageReplayStands(rows: seq<SrcMessage>, smap: map<Id, Id>, agent: int, o: Oracle, t: Trace<Option<Id>>,
                            linked: Db, links: seq<(Id, Id)>, k: nat)
    requires Steps(rows, MessageSteps(smap, agent, o), t) && LinkedUpTo(t.Last(), linked, links, k)
    ensures ReplayedMessages(linked.messages, rows, t.answers, agent) == linked.messages
  {
    var ms, n := linked.messages, |rows|;
    assert rows[..n] == rows && t.answers[..n] == t.answers;
    ReplayedMessagesStay(ms, rows, t.answers, agent);
    ApplyLinksAt(t.Last().messages, links[..k], 0);
    forall id | id in ms ensures ReplayedMessages(ms, rows, t.answers, agent)[id] == ms[id] {
      MessageReplayed(ms, rows, t.answers, agent, n, id);
      SomeLastAnswer(t.answers, n, id);
      ApplyLinksAt(t.Last().messages, links[..k], id);
      if j: nat :| LastAnswered(t.answers, n, id, j) {
        MessageStands(rows, smap, agent, o, t, n, id, j);
      }
    }
  }

  // The last stage leaves the tables of the earlier ones.
  lemma OutputTables(src: Source, agent: int, o: Oracle, x: Run)
    requires Execution(src, agent, o, x) && Consistent(x.users.First())
    ensures var db := x.attachments.Last();
            db.sessions == x.sessions.Last().sessions && db.messages == x.linked.messages
  {
    ExecutionChains(src, agent, o, x);
  }

  // Replaying a run's own answers on its own output changes nothing.
  lemma ReplayLeavesOutput(src: Source, agent: int, o: Oracle, x: Run)
    requires Execution(src, agent, o, x) && Consistent(x.users.First())
    ensures AfterSessions(src, agent, x.attachments.Last(), x) == x.attachments.Last()
    ensures AfterMessages(src, agent, x.attachments.Last(), x) == x.attachments.Last()
  {
    var links := LinksOf(src.messages, x.mmap);
    OutputTables(src, agent, o, x);
    SessionReplayStands(src.sessions, x.umap, agent, o, x.sessions);
    MessageReplayStands(src.messages, x.smap, agent, o, x.messages, x.linked, links, Persisted(|links|, o.linkFault));
  }

  // ---------- the link pass ----------

  // Every row that the source links has the parent of its merged edge.
  ghost predicate ParentsHold(db: Db, rows: seq<SrcMessage>, mmap: map<Id, Id>) {
    forall x: Id, y: Id :: MergedEdge(rows, mmap, x, y) ==> ParentIs(db, x, y)
  }

  lemma LinkPassKeepsIff(db: Db, after: Db, rows: seq<SrcMessage>, mmap: map<Id, Id>)
    requires LinkedUpTo(db, after, LinksOf(rows, mmap), |LinksOf(rows, mmap)|) && Lands(mmap, db.messages)
    ensures after == db <==> ParentsHold(db, rows, mmap)
    ensures ParentsHold(after, rows, mmap)
  {
    var links := LinksOf(rows, mmap);
    assert links[..|links|] == links;
    forall x: Id, y: Id | MergedEdge(rows, mmap, x, y) ensures ParentIs(after, x, y) {
      ParentAfterPass(db, after, rows, mmap, x, y);
    }
    if ParentsHold(db, rows, mmap) {
      ApplyLinksAt(db.messages, links, 0);
      forall id | id in db.messages ensures after.messages[id] == db.messages[id] {
        ApplyLinksAt(db.messages, links, id);
        LastParentOfRows(rows, mmap, id);
        var p := LastParent(links, id);
        if p.Some? {
          assert MergedEdge(rows, mmap, id, p.value);
        }
      }
    }
  }

  // A run whose link pass succeeded leaves the parents so.
  lemma LinkedOutputHoldsParents(src: Source, agent: int, o: Oracle, x: Run)
    requires Execution(src, agent, o, x) && Consistent(x.users.First()) && o.linkFault.LinksSucceed?
    ensures ParentsHold(x.attachments.Last(), src.messages, x.mmap)
  {
    OutputTables(src, agent, o, x);
    MessagesLand(src.messages, x.smap, agent, o, x.messages, x.mmap);
    LinkPassKeepsIff(x.messages.Last(), x.linked, src.messages, x.mmap);
    forall p: Id, q: Id | MergedEdge(src.messages, x.mmap, p, q) ensures ParentIs(x.attachments.Last(), p, q) {
      assert ParentIs(x.linked, p, q);
    }
  }

  // ---------- the attachments ----------

  // Handling this linked attachment changes nothing, whatever its lookup finds:
  // its own row, or else every row of that file, has blank URLs, and there is one.
  ghost predicate Settled(db: Db, a: SrcAttachment, mmap: map<Id, Id>)
    requires Linked(a, mmap)
  {
    if a.id in db.attachments then !HasUrls(db.attachments[a.id])
    else
      && (exists id: Id :: IsFile(db, id, mmap[a.messageId.value], a.name))
      && forall id: Id :: IsFile(db, id, mmap[a.messageId.value], a.name) ==> !HasUrls(db.attachments[id])
  }

  ghost predicate AllSettled(db: Db, rows: seq<SrcAttachment>, mmap: map<Id, Id>) {
    forall i: nat :: i < |rows| && Linked(rows[i], mmap) ==> Settled(db, rows[i], mmap)
  }

  function Idle(a: SrcAttachment, mmap: map<Id, Id>): Outcome {
    if Linked(a, mmap) then Some(Skipped) else None
  }

  function Blank(row: Attachment): Attachment {
    row.(blobUrl := "", blobName := "")
  }

  // The row that a step may blank.
  ghost predicate MayMeet(a: SrcAttachment, mmap: map<Id, Id>, db: Db, id: Id)
    requires Linked(a, mmap)
  {
    if a.id in db.attachments then id == a.id else IsFile(db, id, mmap[a.messageId.value], a.name)
  }

  lemma MeetingARow(a: SrcAttachment, mmap: map<Id, Id>, now: Time, fault: Fault, db: Db, id: Id)
    requires Linked(a, mmap) && mmap[a.messageId.value] in db.messages && fault != ReadFails && MayMeet(a, mmap, db, id)
    ensures !HasUrls(db.attachments[id]) ==> OutcomeStep(a, mmap, now, fault, db, db, Some(Skipped))
    ensures HasUrls(db.attachments[id]) && fault != NoFault ==> OutcomeStep(a, mmap, now, fault, db, db, None)
    ensures HasUrls(db.attachments[id]) && fault == NoFault ==>
              OutcomeStep(a, mmap, now, fault, db, db.(attachments := db.attachments[id := Blank(db.attachments[id])]),
                          Some(Updated))
  {
    var blanked := db.(attachments := db.attachments[id := Blank(db.attachments[id])]);
    assert !HasUrls(db.attachments[id]) ==> BlankStep(id, fault, db, db, true, Skipped);
    assert HasUrls(db.attachments[id]) && fault != NoFault ==> BlankStep(id, fault, db, db, false, Skipped);
    assert HasUrls(db.attachments[id]) && fault == NoFault ==> BlankStep(id, fault, db, blanked, true, Updated);
  }

  lemma MeetingNone(a: SrcAttachment, mmap: map<Id, Id>, now: Time, fault: Fault, db: Db)
    requires Linked(a, mmap) && mmap[a.messageId.value] in db.messages && fault != ReadFails
    requires forall id: Id :: !MayMeet(a, mmap, db, id)
    ensures var userId := db.messages[mmap[a.messageId.value]].userId;
            if fault != NoFault || userId !in db.users then OutcomeStep(a, mmap, now, fault, db, db, None)
            else
              var row := NewAttachment(a, mmap[a.messageId.value], userId, now);
              OutcomeStep(a, mmap, now, fault, db, db.(attachments := db.attachments[a.id := row]), Some(Created))
  {
    assert MayMeet(a, mmap, db, a.id) || a.id !in db.attachments;
    forall id: Id ensures !IsFile(db, id, mmap[a.messageId.value], a.name) {
      assert !MayMeet(a, mmap, db, id);
    }
  }

  lemma OutcomeStepExists(a: SrcAttachment, mmap: map<Id, Id>, now: Time, fault: Fault, db: Db)
    ensures exists after, outcome :: OutcomeStep(a, mmap, now, fault, db, after, outcome)
  {
    if Linked(a, mmap) && mmap[a.messageId.value] in db.messages && fault != ReadFails {
      if id: Id :| MayMeet(a, mmap, db, id) {
        MeetingARow(a, mmap, now, fault, db, id);
      } else {
        MeetingNone(a, mmap, now, fault, db);
      }
    } else {
      assert OutcomeStep(a, mmap, now, fault, db, db, None);
    }
  }

  lemma AttachmentCanStep(mmap: map<Id, Id>, o: Oracle, i: nat, a: SrcAttachment, db: Db)
    ensures CanStep(AttachmentSteps(mmap, o), i, a, db)
  {
    OutcomeStepExists(a, mmap, o.clock(i), o.attachmentFault(i), db);
    var after, outcome :| OutcomeStep(a, mmap, o.clock(i), o.attachmentFault(i), db, after, outcome);
    assert AttachmentSteps(mmap, o)(i, a, db, after, outcome);
  }

  // Without a failure the step of a linked attachment must do nothing exactly when it is settled.
  lemma IdleIffSettled(a: SrcAttachment, mmap: map<Id, Id>, now: Time, db: Db)
    requires Linked(a, mmap) && Lands(mmap, db.messages) && MessagesResolve(db)
    ensures (forall after, outcome :: OutcomeStep(a, mmap, now, NoFault, db, after, outcome) ==>
                                        outcome == Some(Skipped))
            <==> Settled(db, a, mmap)
  {
    var messageId := mmap[a.messageId.value];
    assert MessageRefs(db, db.messages[messageId]);
    if id: Id :| MayMeet(a, mmap, db, id) && HasUrls(db.attachments[id]) {
      MeetingARow(a, mmap, now, NoFault, db, id);
    } else if forall id: Id :: !MayMeet(a, mmap, db, id) {
      MeetingNone(a, mmap, now, NoFault, db);
      assert !MayMeet(a, mmap, db, a.id);
    } else {
      assert Settled(db, a, mmap) by {
        var id: Id :| MayMeet(a, mmap, db, id);
      }
    }
  }

  lemma AttachmentForcedIff(mmap: map<Id, Id>, o: Oracle, i: nat, a: SrcAttachment, db: Db)
    requires o.attachmentFault(i) == NoFault && Lands(mmap, db.messages) && MessagesResolve(db)
    ensures Forced(AttachmentSteps(mmap, o), i, a, db, Idle(a, mmap)) <==> (Linked(a, mmap) ==> Settled(db, a, mmap))
  {
    var step := AttachmentSteps(mmap, o);
    forall after, outcome
      ensures step(i, a, db, after, outcome) <==> OutcomeStep(a, mmap, o.clock(i), NoFault, db, after, outcome)
    {
    }
    if Linked(a, mmap) {
      IdleIffSettled(a, mmap, o.clock(i), db);
    }
  }

  function AttachmentsExpected(start: Db, rows: seq<SrcAttachment>, mmap: map<Id, Id>): Trace<Outcome> {
    Trace(seq(|rows| + 1, _ => start), seq(|rows|, i requires 0 <= i < |rows| => Idle(rows[i], mmap)))
  }

  lemma AttachmentsDetermined(rows: seq<SrcAttachment>, mmap: map<Id, Id>, o: Oracle, db: Db)
    ensures Determined(rows, AttachmentSteps(mmap, o), AttachmentsExpected(db, rows, mmap))
    ensures NeverStuck(AttachmentSteps(mmap, o))
  {
    var e, step := AttachmentsExpected(db, rows, mmap), AttachmentSteps(mmap, o);
    forall i: nat, a, before ensures CanStep(step, i, a, before) {
      AttachmentCanStep(mmap, o, i, a, before);
    }
    forall i: nat, after | i < |rows| && step(i, rows[i], e.dbs[i], after, e.answers[i]) ensures after == e.dbs[i + 1] {
      var id := OutcomeEffect(rows[i], mmap, o.clock(i), o.attachmentFault(i), db, after, Idle(rows[i], mmap));
    }
  }

  lemma NothingTallied(outcomes: seq<Outcome>, i: nat)
    requires i < |outcomes| && Tally(outcomes).created == 0 && Tally(outcomes).updated == 0
    ensures outcomes[i].Some? ==> outcomes[i] == Some(Skipped)
  {
    assert outcomes[i] in multiset(outcomes);
    if outcomes[i].Some? {
      match outcomes[i].value
      case Created => assert false;
      case Updated => assert false;
      case Skipped =>
    }
  }

  // A stage that leaves its table as it was created and blanked nothing.
  lemma UnchangedMeansIdle(rows: seq<SrcAttachment>, mmap: map<Id, Id>, o: Oracle, t: Trace<Outcome>)
    requires Steps(rows, AttachmentSteps(mmap, o), t) && t.Last() == t.First() && NoFaults(o.attachmentFault)
    requires Lands(mmap, t.First().messages) && MessagesResolve(t.First())
    ensures t.answers == AttachmentsExpected(t.First(), rows, mmap).answers
  {
    AttachmentAccounting(rows, mmap, o, t, Tally(t.answers));
    assert Blanked(t.First(), t.First()) == {};
    forall i: nat | i < |rows| ensures t.answers[i] == Idle(rows[i], mmap) {
      NothingTallied(t.answers, i);
      assert o.attachmentFault(i) == NoFault;
    }
  }

  // Without failures the stage leaves the table alone, whatever its lookups find,
  // exactly when every linked attachment is settled.
  lemma AttachmentsKeepIff(rows: seq<SrcAttachment>, mmap: map<Id, Id>, o: Oracle, db: Db)
    requires NoFaults(o.attachmentFault) && Lands(mmap, db.messages) && MessagesResolve(db)
    ensures (forall t :: Runs(rows, AttachmentSteps(mmap, o), db, t) ==> t.Last() == db) <==> AllSettled(db, rows, mmap)
    ensures NeverStuck(AttachmentSteps(mmap, o))
  {
    var e, step := AttachmentsExpected(db, rows, mmap), AttachmentSteps(mmap, o);
    AttachmentsDetermined(rows, mmap, o, db);
    forall i: nat | i < |rows|
      ensures Forced(step, i, rows[i], e.dbs[i], e.answers[i]) <==>
              (Linked(rows[i], mmap) ==> Settled(db, rows[i], mmap))
    {
      AttachmentForcedIff(mmap, o, i, rows[i], db);
    }
    AnswersAgreeIff(rows, step, e);
    if AllSettled(db, rows, mmap) {
      ForcedRunsEnd(rows, step, e);
    }
    if forall t :: Runs(rows, step, db, t) ==> t.Last() == db {
      forall t | Runs(rows, step, db, t) ensures t.answers == e.answers {
        UnchangedMeansIdle(rows, mmap, o, t);
      }
    }
  }

  // ---------- the whole rerun ----------

  // Every run from `db` builds the maps of `x` and leaves `db` as it is.
  ghost predicate LeavesAll(src: Source, agent: int, o: Oracle, db: Db, x: Run) {
    forall y :: Execution(src, agent, o, y) && y.users.First() == db ==>
                  y.umap == x.umap && y.smap == x.smap && y.mmap == x.mmap && y.attachments.Last() == db
  }

  // A recognised rerun comes out of the message stage with the output as it was,
  // and sets the parents that the source tells.
  lemma RecognisedRerunStands(src: Source, agent: int, first: Oracle, x: Run, o: Oracle, y: Run)
    requires Execution(src, agent, first, x) && Consistent(x.users.First()) && UniqueIds(src)
    requires Clean(o) && NewClock(o, x.attachments.Last()) && AllRecognised(src, agent, x.attachments.Last(), x)
    requires MapsBuilt(src, agent, o, y) && y.users.First() == x.attachments.Last()
    ensures y.umap == x.umap && y.smap == x.smap && y.mmap == x.mmap
    ensures y.messages.First() == y.messages.Last() == x.attachments.Last()
  {
    ExecutionSafe(src, agent, first, x);
    RecognisedRerunRebuilds(src, agent, o, x.attachments.Last(), x);
    ReplayLeavesOutput(src, agent, first, x);
  }

  // The link pass and a run of the attachments complete the map-building stages.
  ghost predicate Completes(src: Source, o: Oracle, y: Run, linked: Db, t: Trace<Outcome>)
    requires y.messages.dbs != []
  {
    var links := LinksOf(src.messages, y.mmap);
    && LinkedUpTo(y.messages.Last(), linked, links, Persisted(|links|, o.linkFault))
    && Runs(src.attachments, AttachmentSteps(y.mmap, o), linked, t)
  }

  lemma Completed(src: Source, agent: int, o: Oracle, y: Run, linked: Db, t: Trace<Outcome>) returns (z: Run)
    requires MapsBuilt(src, agent, o, y) && Completes(src, o, y, linked, t)
    ensures Execution(src, agent, o, z) && z.users == y.users && z.attachments == t
    ensures z.umap == y.umap && z.smap == y.smap && z.mmap == y.mmap
  {
    z := y.(linked := linked, attachments := t, stats := Tally(t.answers));
  }

  ghost function AfterLinks(src: Source, o: Oracle, y: Run): Db
    requires y.messages.dbs != []
  {
    var links := LinksOf(src.messages, y.mmap);
    y.messages.Last().(messages :=
      ApplyLinks(y.messages.Last().messages, links[..Persisted(|links|, o.linkFault)]))
  }

  lemma AttachmentsNeverStuck(mmap: map<Id, Id>, o: Oracle)
    ensures NeverStuck(AttachmentSteps(mmap, o))
  {
    forall i: nat, a, db ensures CanStep(AttachmentSteps(mmap, o), i, a, db) {
      AttachmentCanStep(mmap, o, i, a, db);
    }
  }

  lemma LeavingRebuilds(src: Source, agent: int, o: Oracle, db: Db, x: Run)
    requires LeavesAll(src, agent, o, db, x)
    ensures Rebuilds(src, agent, o, db, x)
  {
    forall y | MapsBuilt(src, agent, o, y) && y.users.First() == db
      ensures y.umap == x.umap && y.smap == x.smap && y.mmap == x.mmap
    {
      AttachmentsNeverStuck(y.mmap, o);
      var t := SomeRun(src.attachments, AttachmentSteps(y.mmap, o), AfterLinks(src, o, y));
      var z := Completed(src, agent, o, y, AfterLinks(src, o, y), t);
    }
  }

  // Later stages of a rerun that leaves all leave all.
  lemma LeavingSettles(src: Source, agent: int, first: Oracle, x: Run, o: Oracle)
    requires Execution(src, agent, first, x) && Consistent(x.users.First()) && UniqueIds(src)
    requires Clean(o) && NewClock(o, x.attachments.Last()) && AllRecognised(src, agent, x.attachments.Last(), x)
    requires LeavesAll(src, agent, o, x.attachments.Last(), x)
    ensures ParentsHold(x.attachments.Last(), src.messages, x.mmap)
    ensures AllSettled(x.attachments.Last(), src.attachments, x.mmap)
  {
    var db := x.attachments.Last();
    ExecutionSafe(src, agent, first, x);
    var ut := SteadyUsers(src, o, db, x);
    var y := ContinuedFromUsers(src, agent, o, ut);
    RecognisedRerunStands(src, agent, first, x, o, y);
    var linked := AfterLinks(src, o, y);
    AttachmentsNeverStuck(x.mmap, o);
    var t := SomeRun(src.attachments, AttachmentSteps(x.mmap, o), linked);
    var z := Completed(src, agent, o, y, linked, t);
    OnlyAttachments(src.attachments, x.mmap, o, t);
    assert linked.(attachments := db.attachments) == db;
    assert linked == db;
    LinkPassKeepsIff(db, linked, src.messages, x.mmap);
    forall s | Runs(src.attachments, AttachmentSteps(x.mmap, o), db, s) ensures s.Last() == db {
      var w := Completed(src, agent, o, y, linked, s);
    }
    AttachmentsKeepIff(src.attachments, x.mmap, o, db);
  }

  lemma OnlyAttachments(rows: seq<SrcAttachment>, mmap: map<Id, Id>, o: Oracle, t: Trace<Outcome>)
    requires Steps(rows, AttachmentSteps(mmap, o), t)
    ensures t.Last() == t.First().(attachments := t.Last().attachments)
  {
    PrefixAccounted(rows, mmap, o, t, |rows|);
  }

  // When every row is recognised and the parents are those the source tells, a
  // rerun leaves users, sessions, messages and parents as they are, and the
  // attachments too when all are settled.
  lemma RecognisedRerunKeepsConversations(src: Source, agent: int, first: Oracle, x: Run, o: Oracle, y: Run)
    requires Execution(src, agent, first, x) && Consistent(x.users.First()) && UniqueIds(src)
    requires Clean(o) && NewClock(o, x.attachments.Last()) && AllRecognised(src, agent, x.attachments.Last(), x)
    requires Execution(src, agent, o, y) && y.users.First() == x.attachments.Last()
    requires ParentsHold(x.attachments.Last(), src.messages, x.mmap)
    ensures y.umap == x.umap && y.smap == x.smap && y.mmap == x.mmap
    ensures y.linked == x.attachments.Last()
    ensures AllSettled(x.attachments.Last(), src.attachments, x.mmap) ==> y.attachments.Last() == x.attachments.Last()
  {
    var db := x.attachments.Last();
    ExecutionSafe(src, agent, first, x);
    RecognisedRerunStands(src, agent, first, x, o, y);
    LinkPassKeepsIff(db, y.linked, src.messages, x.mmap);
    AttachmentsKeepIff(src.attachments, x.mmap, o, db);
    assert Runs(src.attachments, AttachmentSteps(x.mmap, o), y.linked, y.attachments);
  }

  // Clean reruns on a run's own output rebuild its maps and leave every table as
  // it is, whatever rows their lookups pick, exactly when every row is
  // recognised, the parents are those the source tells, and every linked
  // attachment is settled.  The first run may have failed anywhere; if its link
  // pass succeeded the parents are.
  lemma RerunLeavesAllIff(src: Source, agent: int, first: Oracle, x: Run, o: Oracle)
    requires Execution(src, agent, first, x) && Consistent(x.users.First()) && UniqueIds(src)
    requires Clean(o) && NewClock(o, x.attachments.Last())
    ensures var db := x.attachments.Last();
            LeavesAll(src, agent, o, db, x) <==>
            && AllRecognised(src, agent, db, x)
            && ParentsHold(db, src.messages, x.mmap)
            && AllSettled(db, src.attachments, x.mmap)
    ensures first.linkFault.LinksSucceed? ==> ParentsHold(x.attachments.Last(), src.messages, x.mmap)
  {
    var db := x.attachments.Last();
    if first.linkFault.LinksSucceed? {
      LinkedOutputHoldsParents(src, agent, first, x);
    }
    if LeavesAll(src, agent, o, db, x) {
      LeavingRebuilds(src, agent, o, db, x);
      RerunRebuildsIff(src, agent, first, x, agent, o);
      LeavingSettles(src, agent, first, x, o);
    }
    if AllRecognised(src, agent, db, x) && ParentsHold(db, src.messages, x.mmap)
       && AllSettled(db, src.attachments, x.mmap) {
      forall y | Execution(src, agent, o, y) && y.users.First() == db
        ensures y.umap == x.umap && y.smap == x.smap && y.mmap == x.mmap && y.attachments.Last() == db
      {
        RecognisedRerunKeepsConversations(src, agent, first, x, o, y);
      }
    }
  }
}
