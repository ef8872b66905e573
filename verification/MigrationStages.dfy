// What each stage of an execution establishes, row by row: safety from any
// consistent target, and progress from an image of the source.
module MigrationStages {
  import opened Basics
  import opened MigrationModel
  import opened MigrationSafety
  import opened MigrationImage
  import opened MigrationExecution

  // ---------- what a stage has established after its first i rows ----------

  ghost predicate UsersCovered(rows: seq<SrcUser>, umap: map<Id, Id>) {
    forall u :: u in rows && u.email != "" ==> u.id in umap
  }

  ghost predicate SessionsCovered(rows: seq<SrcSession>, umap: map<Id, Id>, smap: map<Id, Id>) {
    forall s :: s in rows && s.userId.Some? && s.userId.value in umap ==> s.id in smap
  }

  ghost predicate MessagesCovered(rows: seq<SrcMessage>, smap: map<Id, Id>, mmap: map<Id, Id>) {
    forall m :: m in rows && m.conversationId.Some? && m.conversationId.value in smap ==> m.id in mmap
  }

  ghost predicate AttachmentsCovered(rows: seq<SrcAttachment>, mmap: map<Id, Id>, db: Db) {
    forall a :: a in rows && a.messageId.Some? && a.messageId.value in mmap ==> a.id in db.attachments
  }

  // On an image the stage keeps the image, keeps ids, covers its rows when
  // nothing fails, and does nothing at all when its rows were already there.
  ghost predicate UsersProgress(src: Source, agent: int, clean: bool, start: Db, db: Db, umap: map<Id, Id>, i: nat)
    requires i <= |src.users|
  {
    && PartialImage(src, agent, db) && KeepsIds(umap)
    && (UsersPresent(src, start) ==> db == start)
    && (clean ==> UsersCovered(src.users[..i], umap))
  }

  ghost predicate SessionsProgress(src: Source, agent: int, umap: map<Id, Id>, clean: bool,
                                   start: Db, db: Db, smap: map<Id, Id>, i: nat)
    requires i <= |src.sessions|
  {
    && PartialImage(src, agent, db) && KeepsIds(smap)
    && (SessionsPresent(src, start) ==> db == start)
    && (clean ==> SessionsCovered(src.sessions[..i], umap, smap))
  }

  ghost predicate MessagesProgress(src: Source, agent: int, smap: map<Id, Id>, clean: bool,
                                   start: Db, db: Db, mmap: map<Id, Id>, i: nat)
    requires i <= |src.messages|
  {
    && PartialImage(src, agent, db) && KeepsIds(mmap)
    && (MessagesPresent(src, start) ==> db == start)
    && (clean ==> MessagesCovered(src.messages[..i], smap, mmap))
  }

  ghost predicate AttachmentsProgress(src: Source, agent: int, mmap: map<Id, Id>, clean: bool,
                                      start: Db, db: Db, i: nat)
    requires i <= |src.attachments|
  {
    && PartialImage(src, agent, db)
    && (AttachmentsPresent(src, start) ==> db == start)
    && (clean ==> AttachmentsCovered(src.attachments[..i], mmap, db))
  }

  lemma SessionsCoverOne(rows: seq<SrcSession>, s: SrcSession, umap: map<Id, Id>, smap: map<Id, Id>, r: Option<Id>)
    requires SessionsCovered(rows, umap, smap) && (s.userId.Some? && s.userId.value in umap ==> r.Some?)
    ensures SessionsCovered(rows + [s], umap, Extended(smap, s.id, r))
  {
  }

  lemma MessagesCoverOne(rows: seq<SrcMessage>, m: SrcMessage, smap: map<Id, Id>, mmap: map<Id, Id>, r: Option<Id>)
    requires MessagesCovered(rows, smap, mmap) && (m.conversationId.Some? && m.conversationId.value in smap ==> r.Some?)
    ensures MessagesCovered(rows + [m], smap, Extended(mmap, m.id, r))
  {
  }

  lemma UsersAdvance(src: Source, agent: int, clean: bool, start: Db, before: Db, umap: map<Id, Id>, i: nat,
                     fault: Fault, after: Db, r: Option<Id>)
    requires DistinctUsers(src) && i < |src.users| && UsersProgress(src, agent, clean, start, before, umap, i)
    requires UserStep(src.users[i], fault, before, after, r) && (clean ==> fault == NoFault)
    ensures UsersProgress(src, agent, clean, start, after, Extended(umap, src.users[i].id, r), i + 1)
  {
    UserStepOnImage(src, agent, src.users[i], fault, before, after, r);
    assert src.users[..i + 1] == src.users[..i] + [src.users[i]];
  }

  lemma SessionsAdvance(src: Source, agent: int, umap: map<Id, Id>, clean: bool, start: Db, before: Db,
                        smap: map<Id, Id>, i: nat, after: Db, r: Option<Id>)
    requires i < |src.sessions| && SessionsProgress(src, agent, umap, clean, start, before, smap, i)
    requires PartialImage(src, agent, after)
    requires r == None || r == Some(src.sessions[i].id)
    requires clean ==> (r.Some? <==> src.sessions[i].userId.Some? && src.sessions[i].userId.value in umap)
    requires after != before ==> src.sessions[i].id !in before.sessions && SessionMigrates(src, src.sessions[i])
    ensures SessionsProgress(src, agent, umap, clean, start, after, Extended(smap, src.sessions[i].id, r), i + 1)
  {
    if clean {
      SessionsCoverOne(src.sessions[..i], src.sessions[i], umap, smap, r);
      assert src.sessions[..i + 1] == src.sessions[..i] + [src.sessions[i]];
    }
  }

  lemma MessagesAdvance(src: Source, agent: int, smap: map<Id, Id>, clean: bool, start: Db, before: Db,
                        mmap: map<Id, Id>, i: nat, after: Db, r: Option<Id>)
    requires i < |src.messages| && MessagesProgress(src, agent, smap, clean, start, before, mmap, i)
    requires PartialImage(src, agent, after)
    requires r == None || r == Some(src.messages[i].id)
    requires clean ==> (r.Some? <==>
                        src.messages[i].conversationId.Some? && src.messages[i].conversationId.value in smap)
    requires after != before ==> src.messages[i].id !in before.messages && MessageMigrates(src, src.messages[i])
    ensures MessagesProgress(src, agent, smap, clean, start, after, Extended(mmap, src.messages[i].id, r), i + 1)
  {
    if clean {
      MessagesCoverOne(src.messages[..i], src.messages[i], smap, mmap, r);
      assert src.messages[..i + 1] == src.messages[..i] + [src.messages[i]];
    }
  }

  lemma AttachmentsAdvance(src: Source, agent: int, mmap: map<Id, Id>, clean: bool, start: Db, before: Db, i: nat,
                           after: Db, ok: bool)
    requires i < |src.attachments| && AttachmentsProgress(src, agent, mmap, clean, start, before, i)
    requires PartialImage(src, agent, after)
    requires before.attachments.Keys <= after.attachments.Keys
    requires ok ==> src.attachments[i].id in after.attachments
    requires clean ==> (ok <==> src.attachments[i].messageId.Some? && src.attachments[i].messageId.value in mmap)
    requires after != before ==>
               src.attachments[i].id !in before.attachments && AttachmentMigrates(src, src.attachments[i])
    ensures AttachmentsProgress(src, agent, mmap, clean, start, after, i + 1)
  {
    assert src.attachments[..i + 1] == src.attachments[..i] + [src.attachments[i]];
  }

  // What a stage guarantees after its first i rows: safety from any consistent
  // target, progress from an image.

  ghost predicate UsersSafe(base: Db, start: Db, db: Db, umap: map<Id, Id>) {
    Safe(base, db) && Lands(umap, db.users) && db == start.(users := db.users)
  }

  ghost predicate SessionsSafe(base: Db, start: Db, db: Db, smap: map<Id, Id>) {
    Safe(base, db) && Lands(smap, db.sessions) && db == start.(sessions := db.sessions)
  }

  ghost predicate MessagesSafe(base: Db, start: Db, db: Db, mmap: map<Id, Id>) {
    Safe(base, db) && Lands(mmap, db.messages) && db == start.(messages := db.messages)
  }

  ghost predicate AttachmentsSafe(base: Db, start: Db, db: Db) {
    Safe(base, db) && db == start.(attachments := db.attachments)
  }

  ghost predicate UsersDone(src: Source, agent: int, clean: bool, base: Db, start: Db, db: Db, umap: map<Id, Id>,
                            i: nat)
    requires i <= |src.users|
  {
    && UsersSafe(base, start, db, umap)
    && (DistinctUsers(src) && PartialImage(src, agent, start) ==>
          UsersProgress(src, agent, clean, start, db, umap, i))
  }

  ghost predicate SessionsDone(src: Source, agent: int, umap: map<Id, Id>, clean: bool, base: Db,
                               start: Db, db: Db, smap: map<Id, Id>, i: nat)
    requires i <= |src.sessions|
  {
    && SessionsSafe(base, start, db, smap)
    && (DistinctSessions(src) && PartialImage(src, agent, start) && KeepsIds(umap) ==>
          SessionsProgress(src, agent, umap, clean, start, db, smap, i))
  }

  ghost predicate MessagesDone(src: Source, agent: int, smap: map<Id, Id>, clean: bool, base: Db,
                               start: Db, db: Db, mmap: map<Id, Id>, i: nat)
    requires i <= |src.messages|
  {
    && MessagesSafe(base, start, db, mmap)
    && (DistinctMessages(src) && PartialImage(src, agent, start) && KeepsIds(smap) ==>
          MessagesProgress(src, agent, smap, clean, start, db, mmap, i))
  }

  ghost predicate AttachmentsDone(src: Source, agent: int, mmap: map<Id, Id>, clean: bool, base: Db,
                                  start: Db, db: Db, stats: Stats, i: nat)
    requires i <= |src.attachments|
  {
    && AttachmentsSafe(base, start, db)
    && (DistinctAttachments(src) && PartialImage(src, agent, start) && KeepsIds(mmap) ==>
          AttachmentsProgress(src, agent, mmap, clean, start, db, i) && stats.updated == 0)
  }

  lemma UsersRowSafe(base: Db, start: Db, before: Db, umap: map<Id, Id>, u: SrcUser, fault: Fault, after: Db,
                     r: Option<Id>)
    requires UsersSafe(base, start, before, umap) && UserStep(u, fault, before, after, r)
    ensures UsersSafe(base, start, after, Extended(umap, u.id, r))
  {
    UserStepSafe(base, u, fault, before, after, r);
  }

  lemma UsersRow(src: Source, agent: int, clean: bool, base: Db, start: Db, before: Db, umap: map<Id, Id>, i: nat,
                 fault: Fault, after: Db, r: Option<Id>)
    requires i < |src.users| && UsersDone(src, agent, clean, base, start, before, umap, i)
    requires UserStep(src.users[i], fault, before, after, r) && (clean ==> fault == NoFault)
    ensures UsersDone(src, agent, clean, base, start, after, Extended(umap, src.users[i].id, r), i + 1)
  {
    UsersRowSafe(base, start, before, umap, src.users[i], fault, after, r);
    if DistinctUsers(src) && PartialImage(src, agent, start) {
      UsersAdvance(src, agent, clean, start, before, umap, i, fault, after, r);
    }
  }

  lemma SessionsRowSafe(base: Db, start: Db, before: Db, umap: map<Id, Id>, agent: int, smap: map<Id, Id>,
                        s: SrcSession,
                        now: Time, fault: Fault, after: Db, r: Option<Id>)
    requires SessionsSafe(base, start, before, smap) && Lands(umap, start.users)
    requires SessionStep(s, umap, agent, now, fault, before, after, r)
    ensures SessionsSafe(base, start, after, Extended(smap, s.id, r))
  {
    SessionStepSafe(base, s, umap, agent, now, fault, before, after, r);
  }

  lemma SessionsRow(src: Source, agent: int, umap: map<Id, Id>, clean: bool, base: Db, start: Db, before: Db,
                    smap: map<Id, Id>, i: nat, now: Time, fault: Fault, after: Db, r: Option<Id>)
    requires i < |src.sessions| && Lands(umap, start.users)
    requires SessionsDone(src, agent, umap, clean, base, start, before, smap, i)
    requires SessionStep(src.sessions[i], umap, agent, now, fault, before, after, r) && (clean ==> fault == NoFault)
    ensures SessionsDone(src, agent, umap, clean, base, start, after, Extended(smap, src.sessions[i].id, r), i + 1)
  {
    SessionsRowSafe(base, start, before, umap, agent, smap, src.sessions[i], now, fault, after, r);
    if DistinctSessions(src) && PartialImage(src, agent, start) && KeepsIds(umap) {
      SessionStepOnImage(src, agent, umap, src.sessions[i], now, fault, before, after, r);
      SessionsAdvance(src, agent, umap, clean, start, before, smap, i, after, r);
    }
  }

  lemma MessagesRowSafe(base: Db, start: Db, before: Db, smap: map<Id, Id>, agent: int, mmap: map<Id, Id>,
                        m: SrcMessage,
                        now: Time, fault: Fault, after: Db, r: Option<Id>)
    requires MessagesSafe(base, start, before, mmap)
    requires MessageStep(m, smap, agent, now, fault, before, after, r)
    ensures MessagesSafe(base, start, after, Extended(mmap, m.id, r))
  {
    MessageStepSafe(base, m, smap, agent, now, fault, before, after, r);
  }

  lemma MessagesRow(src: Source, agent: int, smap: map<Id, Id>, clean: bool, base: Db, start: Db, before: Db,
                    mmap: map<Id, Id>, i: nat, now: Time, fault: Fault, after: Db, r: Option<Id>)
    requires i < |src.messages| && Lands(smap, start.sessions)
    requires MessagesDone(src, agent, smap, clean, base, start, before, mmap, i)
    requires MessageStep(src.messages[i], smap, agent, now, fault, before, after, r) && (clean ==> fault == NoFault)
    ensures MessagesDone(src, agent, smap, clean, base, start, after, Extended(mmap, src.messages[i].id, r), i + 1)
  {
    MessagesRowSafe(base, start, before, smap, agent, mmap, src.messages[i], now, fault, after, r);
    if DistinctMessages(src) && PartialImage(src, agent, start) && KeepsIds(smap) {
      MessageStepOnImage(src, agent, smap, src.messages[i], now, fault, before, after, r);
      MessagesAdvance(src, agent, smap, clean, start, before, mmap, i, after, r);
    }
  }

  lemma AttachmentsRowSafe(base: Db, start: Db, before: Db, a: SrcAttachment, mmap: map<Id, Id>, now: Time,
                           fault: Fault,
                           after: Db, ok: bool, action: Action)
    requires AttachmentsSafe(base, start, before) && AttachmentStep(a, mmap, now, fault, before, after, ok, action)
    ensures AttachmentsSafe(base, start, after)
  {
    AttachmentStepSafe(base, a, mmap, now, fault, before, after, ok, action);
  }

  lemma AttachmentsRow(src: Source, agent: int, mmap: map<Id, Id>, clean: bool, base: Db, start: Db, before: Db,
                       stats: Stats, i: nat, now: Time, fault: Fault, after: Db, outcome: Outcome)
    requires i < |src.attachments| && Lands(mmap, start.messages)
    requires AttachmentsDone(src, agent, mmap, clean, base, start, before, stats, i)
    requires OutcomeStep(src.attachments[i], mmap, now, fault, before, after, outcome) && (clean ==> fault == NoFault)
    ensures AttachmentsDone(src, agent, mmap, clean, base, start, after, Counted(stats, outcome), i + 1)
  {
    var ok, action := outcome.Some?, if outcome.Some? then outcome.value else Skipped;
    AttachmentsRowSafe(base, start, before, src.attachments[i], mmap, now, fault, after, ok, action);
    AttachmentStepExtends(src.attachments[i], mmap, now, fault, before, after, ok, action);
    if DistinctAttachments(src) && PartialImage(src, agent, start) && KeepsIds(mmap) {
      AttachmentStepOnImage(src, agent, mmap, src.attachments[i], now, fault, before, after, ok, action);
      AttachmentsAdvance(src, agent, mmap, clean, start, before, i, after, ok);
    }
  }

  // ---------- whole stages ----------

  lemma {:induction false} UsersStage(src: Source, agent: int, o: Oracle, base: Db, t: Trace<Option<Id>>, i: nat)
    requires i <= |src.users| && Steps(src.users, UserSteps(o), t) && Safe(base, t.First())
    ensures UsersDone(src, agent, NoFaults(o.userFault), base, t.First(), t.dbs[i],
                      MapOf(UserIds(src.users[..i]), t.answers[..i]), i)
  {
    if i > 0 {
      UsersStage(src, agent, o, base, t, i - 1);
      var u, r := src.users[i - 1], t.answers[i - 1];
      var umap := MapOf(UserIds(src.users[..i - 1]), t.answers[..i - 1]);
      UsersRow(src, agent, NoFaults(o.userFault), base, t.First(), t.dbs[i - 1], umap, i - 1,
               o.userFault(i - 1), t.dbs[i], r);
      MapOfSnoc(UserIds(src.users[..i - 1]), t.answers[..i - 1], u.id, r);
      assert UserIds(src.users[..i]) == UserIds(src.users[..i - 1]) + [u.id];
      assert t.answers[..i] == t.answers[..i - 1] + [r];
    }
  }

  lemma {:induction false} SessionsStage(src: Source, agent: int, umap: map<Id, Id>, o: Oracle, base: Db,
                                         t: Trace<Option<Id>>, i: nat)
    requires i <= |src.sessions| && Steps(src.sessions, SessionSteps(umap, agent, o), t)
    requires Safe(base, t.First()) && Lands(umap, t.First().users)
    ensures SessionsDone(src, agent, umap, NoFaults(o.sessionFault), base, t.First(), t.dbs[i],
                         MapOf(SessionIds(src.sessions[..i]), t.answers[..i]), i)
  {
    if i > 0 {
      SessionsStage(src, agent, umap, o, base, t, i - 1);
      var s, r := src.sessions[i - 1], t.answers[i - 1];
      var smap := MapOf(SessionIds(src.sessions[..i - 1]), t.answers[..i - 1]);
      SessionsRow(src, agent, umap, NoFaults(o.sessionFault), base, t.First(), t.dbs[i - 1], smap, i - 1,
                  o.clock(i - 1), o.sessionFault(i - 1), t.dbs[i], r);
      MapOfSnoc(SessionIds(src.sessions[..i - 1]), t.answers[..i - 1], s.id, r);
      assert SessionIds(src.sessions[..i]) == SessionIds(src.sessions[..i - 1]) + [s.id];
      assert t.answers[..i] == t.answers[..i - 1] + [r];
    }
  }

  lemma {:induction false} MessagesStage(src: Source, agent: int, smap: map<Id, Id>, o: Oracle, base: Db,
                                         t: Trace<Option<Id>>, i: nat)
    requires i <= |src.messages| && Steps(src.messages, MessageSteps(smap, agent, o), t)
    requires Safe(base, t.First()) && Lands(smap, t.First().sessions)
    ensures MessagesDone(src, agent, smap, NoFaults(o.messageFault), base, t.First(), t.dbs[i],
                         MapOf(MessageIds(src.messages[..i]), t.answers[..i]), i)
  {
    if i > 0 {
      MessagesStage(src, agent, smap, o, base, t, i - 1);
      var m, r := src.messages[i - 1], t.answers[i - 1];
      var mmap := MapOf(MessageIds(src.messages[..i - 1]), t.answers[..i - 1]);
      MessagesRow(src, agent, smap, NoFaults(o.messageFault), base, t.First(), t.dbs[i - 1], mmap, i - 1,
                  o.clock(i - 1), o.messageFault(i - 1), t.dbs[i], r);
      MapOfSnoc(MessageIds(src.messages[..i - 1]), t.answers[..i - 1], m.id, r);
      assert MessageIds(src.messages[..i]) == MessageIds(src.messages[..i - 1]) + [m.id];
      assert t.answers[..i] == t.answers[..i - 1] + [r];
    }
  }

  lemma {:induction false} AttachmentsStage(src: Source, agent: int, mmap: map<Id, Id>, o: Oracle, base: Db,
                                            t: Trace<Outcome>, i: nat)
    requires i <= |src.attachments| && Steps(src.attachments, AttachmentSteps(mmap, o), t)
    requires Safe(base, t.First()) && Lands(mmap, t.First().messages)
    ensures AttachmentsDone(src, agent, mmap, NoFaults(o.attachmentFault), base, t.First(), t.dbs[i],
                            Tally(t.answers[..i]), i)
  {
    if i > 0 {
      AttachmentsStage(src, agent, mmap, o, base, t, i - 1);
      var outcome := t.answers[i - 1];
      AttachmentsRow(src, agent, mmap, NoFaults(o.attachmentFault), base, t.First(), t.dbs[i - 1],
                     Tally(t.answers[..i - 1]), i - 1, o.clock(i - 1), o.attachmentFault(i - 1), t.dbs[i], outcome);
      TallySnoc(t.answers[..i - 1], outcome);
      assert t.answers[..i] == t.answers[..i - 1] + [outcome];
    }
  }
}
