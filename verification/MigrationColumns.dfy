// What the columns of the target's rows hold after a run, in the source's own
// terms: for any source, any consistent target and whatever fails, each row is
// as it was, or bears what the source rows that answered it say.
module MigrationColumns {
  import opened Basics
  import opened MigrationModel
  import opened MigrationSafety
  import opened MigrationImage
  import opened MigrationLinks
  import opened MigrationExecution
  import opened MigrationAccounting
  import opened MigrationRun
  import opened MigrationSteady

  // An absent source time was filled in with the clock.
  predicate TimeIs(t: Option<Time>, now: Time, stored: Time) {
    match t
    case Some(value) => stored == value
    case None => stored == now
  }

  // ---------- users ----------

  // The row of a user that a run found or inserted has its email ...
  predicate UserMatched(u: SrcUser, row: User) {
    u.email != "" && row.email == u.email
  }

  // ... and one that it inserted also the rest.
  predicate UserInserted(u: SrcUser, id: Id, row: User) {
    u.id == id && row.email == u.email && row.username == u.email && row.info == u.info
  }

  lemma {:induction false} UsersBear(rows: seq<SrcUser>, o: Oracle, t: Trace<Option<Id>>, i: nat, id: Id)
    requires i <= |rows| && Steps(rows, UserSteps(o), t) && id in t.dbs[i].users
    ensures id in t.First().users ==> t.dbs[i].users[id] == t.First().users[id]
    ensures id !in t.First().users ==>
              exists j: nat :: j < i && t.answers[j] == Some(id) && UserInserted(rows[j], id, t.dbs[i].users[id])
    ensures forall j: nat :: j < i && t.answers[j] == Some(id) ==> UserMatched(rows[j], t.dbs[i].users[id])
  {
    if i > 0 {
      assert UserStep(rows[i - 1], o.userFault(i - 1), t.dbs[i - 1], t.dbs[i], t.answers[i - 1]);
      if id in t.dbs[i - 1].users {
        UsersBear(rows, o, t, i - 1, id);
      } else {
        UserNeverAnswered(rows, o, t, i - 1, id);
      }
    }
  }

  // An id that has no row yet has answered nothing, and is no row of the start.
  lemma {:induction false} UserNeverAnswered(rows: seq<SrcUser>, o: Oracle, t: Trace<Option<Id>>, i: nat, id: Id)
    requires i <= |rows| && Steps(rows, UserSteps(o), t) && id !in t.dbs[i].users
    ensures Unanswered(t.answers, i, id) && id !in t.First().users
  {
    if i > 0 {
      assert UserStep(rows[i - 1], o.userFault(i - 1), t.dbs[i - 1], t.dbs[i], t.answers[i - 1]);
      UserNeverAnswered(rows, o, t, i - 1, id);
    }
  }

  // ---------- sessions ----------

  // The row that a run found or inserted for a session: under a graph id the
  // one with that id, otherwise one of the same creation time.
  predicate SessionMatched(s: SrcSession, umap: map<Id, Id>, now: Time, row: Session) {
    && s.userId.Some? && s.userId.value in umap && row.userId == umap[s.userId.value]
    && (s.graphId != "" ==> row.graphId == s.graphId)
    && (s.graphId == "" ==> TimeIs(s.createdAt, now, row.createdAt))
  }

  predicate SessionInserted(s: SrcSession, now: Time, id: Id, row: Session) {
    && s.id == id && row.graphId == s.graphId && row.deletedAt == s.deletedAt && row.info == s.info
    && TimeIs(s.createdAt, now, row.createdAt)
  }

  // What the last source row decides.
  predicate SessionMarked(s: SrcSession, agent: int, row: Session) {
    && row.agentId == agent
    && (s.name == "" ==> row.name == "Untitled Chat") && (s.name != "" ==> row.name == s.name)
    && (s.deletedAt.None? ==> row.status == "active") && (s.deletedAt.Some? ==> row.status == "archived")
  }

  // What one step does to a session's row.
  lemma SessionStepBears(s: SrcSession, umap: map<Id, Id>, agent: int, now: Time, fault: Fault, before: Db, after: Db,
                         r: Option<Id>, id: Id)
    requires SessionStep(s, umap, agent, now, fault, before, after, r) && id in after.sessions
    ensures r == Some(id) ==>
              SessionMatched(s, umap, now, after.sessions[id]) && SessionMarked(s, agent, after.sessions[id])
    ensures r != Some(id) ==> id in before.sessions && after.sessions[id] == before.sessions[id]
    ensures if id in before.sessions then SamePlace(before.sessions[id], after.sessions[id])
            else SessionInserted(s, now, id, after.sessions[id])
  {
  }

  lemma {:induction false} SessionsBear(rows: seq<SrcSession>, umap: map<Id, Id>, agent: int, o: Oracle,
                                        t: Trace<Option<Id>>, i: nat, id: Id)
    requires i <= |rows| && Steps(rows, SessionSteps(umap, agent, o), t) && id in t.dbs[i].sessions
    ensures Unanswered(t.answers, i, id) ==>
              id in t.First().sessions && t.dbs[i].sessions[id] == t.First().sessions[id]
    ensures id !in t.First().sessions ==>
              exists j: nat :: j < i && t.answers[j] == Some(id)
                               && SessionInserted(rows[j], o.clock(j), id, t.dbs[i].sessions[id])
    ensures forall j: nat :: j < i && t.answers[j] == Some(id) ==>
                               SessionMatched(rows[j], umap, o.clock(j), t.dbs[i].sessions[id])
    ensures forall j: nat :: LastAnswered(t.answers, i, id, j) ==>
                               SessionMarked(rows[j], agent, t.dbs[i].sessions[id])
  {
    if i > 0 {
      SessionStepBears(rows[i - 1], umap, agent, o.clock(i - 1), o.sessionFault(i - 1), t.dbs[i - 1], t.dbs[i],
                       t.answers[i - 1], id);
      AnsweredBefore(t.answers, i - 1, id);
      if id in t.dbs[i - 1].sessions {
        SessionsBear(rows, umap, agent, o, t, i - 1, id);
      } else {
        SessionNeverAnswered(rows, umap, agent, o, t, i - 1, id);
      }
    }
  }

  lemma {:induction false} SessionNeverAnswered(rows: seq<SrcSession>, umap: map<Id, Id>, agent: int, o: Oracle,
                                                t: Trace<Option<Id>>, i: nat, id: Id)
    requires i <= |rows| && Steps(rows, SessionSteps(umap, agent, o), t) && id !in t.dbs[i].sessions
    ensures Unanswered(t.answers, i, id) && id !in t.First().sessions
  {
    if i > 0 {
      assert SessionStep(rows[i - 1], umap, agent, o.clock(i - 1), o.sessionFault(i - 1),
                         t.dbs[i - 1], t.dbs[i], t.answers[i - 1]);
      SessionNeverAnswered(rows, umap, agent, o, t, i - 1, id);
    }
  }

  // ---------- messages ----------

  // The row that a run found or inserted for a message.
  predicate MessageMatched(m: SrcMessage, smap: map<Id, Id>, now: Time, row: Message) {
    && m.conversationId.Some? && m.conversationId.value in smap && row.sessionId == smap[m.conversationId.value]
    && row.content == m.rawMessage && row.sentAt == m.sentAt
    && (m.sentAt.None? ==> TimeIs(m.createdAt, now, row.createdAt))
  }

  predicate MessageInserted(m: SrcMessage, now: Time, id: Id, row: Message) {
    && m.id == id && row.isReply == m.isReply && row.info == m.info
    && TimeIs(m.createdAt, now, row.createdAt)
  }

  predicate MessageMarked(m: SrcMessage, agent: int, row: Message) {
    && row.agentId == agent
    && (m.isReply ==> row.role == "assistant") && (!m.isReply ==> row.role == "user")
  }

  lemma MessageStepBears(m: SrcMessage, smap: map<Id, Id>, agent: int, now: Time, fault: Fault, before: Db, after: Db,
                         r: Option<Id>, id: Id)
    requires MessageStep(m, smap, agent, now, fault, before, after, r) && id in after.messages
    ensures r == Some(id) ==>
              MessageMatched(m, smap, now, after.messages[id]) && MessageMarked(m, agent, after.messages[id])
    ensures r != Some(id) ==> id in before.messages && after.messages[id] == before.messages[id]
    ensures if id in before.messages then SameThread(before.messages[id], after.messages[id])
            else MessageInserted(m, now, id, after.messages[id])
  {
  }

  lemma {:induction false} MessagesBear(rows: seq<SrcMessage>, smap: map<Id, Id>, agent: int, o: Oracle,
                                        t: Trace<Option<Id>>, i: nat, id: Id)
    requires i <= |rows| && Steps(rows, MessageSteps(smap, agent, o), t) && id in t.dbs[i].messages
    ensures Unanswered(t.answers, i, id) ==>
              id in t.First().messages && t.dbs[i].messages[id] == t.First().messages[id]
    ensures id !in t.First().messages ==>
              exists j: nat :: j < i && t.answers[j] == Some(id)
                               && MessageInserted(rows[j], o.clock(j), id, t.dbs[i].messages[id])
    ensures forall j: nat :: j < i && t.answers[j] == Some(id) ==>
                               MessageMatched(rows[j], smap, o.clock(j), t.dbs[i].messages[id])
    ensures forall j: nat :: LastAnswered(t.answers, i, id, j) ==>
                               MessageMarked(rows[j], agent, t.dbs[i].messages[id])
  {
    if i > 0 {
      MessageStepBears(rows[i - 1], smap, agent, o.clock(i - 1), o.messageFault(i - 1), t.dbs[i - 1], t.dbs[i],
                       t.answers[i - 1], id);
      AnsweredBefore(t.answers, i - 1, id);
      if id in t.dbs[i - 1].messages {
        MessagesBear(rows, smap, agent, o, t, i - 1, id);
      } else {
        MessageNeverAnswered(rows, smap, agent, o, t, i - 1, id);
      }
    }
  }

  lemma {:induction false} MessageNeverAnswered(rows: seq<SrcMessage>, smap: map<Id, Id>, agent: int, o: Oracle,
                                                t: Trace<Option<Id>>, i: nat, id: Id)
    requires i <= |rows| && Steps(rows, MessageSteps(smap, agent, o), t) && id !in t.dbs[i].messages
    ensures Unanswered(t.answers, i, id) && id !in t.First().messages
  {
    if i > 0 {
      assert MessageStep(rows[i - 1], smap, agent, o.clock(i - 1), o.messageFault(i - 1),
                         t.dbs[i - 1], t.dbs[i], t.answers[i - 1]);
      MessageNeverAnswered(rows, smap, agent, o, t, i - 1, id);
    }
  }

  // ---------- attachments ----------

  predicate AttachmentInserted(a: SrcAttachment, mmap: map<Id, Id>, now: Time, id: Id, row: Attachment) {
    && a.id == id && a.messageId.Some? && a.messageId.value in mmap
    && row.messageId == Some(mmap[a.messageId.value]) && row.entityId == Some(mmap[a.messageId.value])
    && row.fileName == a.name && row.info == a.info && TimeIs(a.createdAt, now, row.createdAt)
    && (row.isActive <==> a.deletedAt == None)
  }

  // The row with the attachment's id, or one of its file, without links to the old store.
  ghost predicate FileLinked(a: SrcAttachment, mmap: map<Id, Id>, db: Db) {
    && a.messageId.Some? && a.messageId.value in mmap
    && exists id: Id :: id in db.attachments
                        && (id == a.id || (db.attachments[id].messageId == Some(mmap[a.messageId.value])
                                           && db.attachments[id].fileName == a.name))
                        && db.attachments[id].blobUrl == "" && db.attachments[id].blobName == ""
  }

  lemma {:induction false} AttachmentsBear(rows: seq<SrcAttachment>, mmap: map<Id, Id>, o: Oracle, t: Trace<Outcome>,
                                           i: nat)
    requires i <= |rows| && Steps(rows, AttachmentSteps(mmap, o), t)
    ensures forall id :: id in t.dbs[i].attachments && id !in t.First().attachments ==>
              && t.dbs[i].attachments[id].blobUrl == "" && t.dbs[i].attachments[id].blobName == ""
              && exists j: nat :: j < i && t.answers[j] == Some(Created)
                                  && AttachmentInserted(rows[j], mmap, o.clock(j), id, t.dbs[i].attachments[id])
    ensures forall j: nat :: j < i && t.answers[j].Some? ==> FileLinked(rows[j], mmap, t.dbs[i])
  {
    if i > 0 {
      AttachmentsBear(rows, mmap, o, t, i - 1);
      var before, after, a, outcome := t.dbs[i - 1], t.dbs[i], rows[i - 1], t.answers[i - 1];
      assert OutcomeStep(a, mmap, o.clock(i - 1), o.attachmentFault(i - 1), before, after, outcome);
      AttachmentStepBears(a, mmap, o.clock(i - 1), o.attachmentFault(i - 1), before, after, outcome);
      forall j: nat | j < i && t.answers[j].Some? ensures FileLinked(rows[j], mmap, after) {
        if j < i - 1 {
          LinkedStays(rows[j], mmap, before, after);
        }
      }
    }
  }

  // What one step does to the rows: it inserts one, blanks one, or leaves all.
  lemma AttachmentStepBears(a: SrcAttachment, mmap: map<Id, Id>, now: Time, fault: Fault, before: Db, after: Db,
                            outcome: Outcome)
    requires OutcomeStep(a, mmap, now, fault, before, after, outcome)
    ensures outcome.Some? ==> FileLinked(a, mmap, after)
    ensures forall id :: id in before.attachments ==>
              && id in after.attachments
              && (after.attachments[id] == before.attachments[id]
                  || after.attachments[id] == before.attachments[id].(blobUrl := "", blobName := ""))
    ensures forall id :: id in after.attachments && id !in before.attachments ==>
              && outcome == Some(Created) && AttachmentInserted(a, mmap, now, id, after.attachments[id])
              && after.attachments[id].blobUrl == "" && after.attachments[id].blobName == ""
  {
    if outcome.Some? {
      var messageId := mmap[a.messageId.value];
      var id := if a.id in after.attachments then a.id
                else var id :| IsFile(before, id, messageId, a.name)
                               && BlankStep(id, fault, before, after, true, outcome.value); id;
      assert after.attachments[id].blobUrl == "" && after.attachments[id].blobName == "";
    }
  }

  lemma LinkedStays(a: SrcAttachment, mmap: map<Id, Id>, before: Db, after: Db)
    requires FileLinked(a, mmap, before)
    requires forall id :: id in before.attachments ==>
               && id in after.attachments
               && (after.attachments[id] == before.attachments[id]
                   || after.attachments[id] == before.attachments[id].(blobUrl := "", blobName := ""))
    ensures FileLinked(a, mmap, after)
  {
    var id: Id :| id in before.attachments
                  && (id == a.id || (before.attachments[id].messageId == Some(mmap[a.messageId.value])
                                     && before.attachments[id].fileName == a.name))
                  && before.attachments[id].blobUrl == "" && before.attachments[id].blobName == "";
    assert after.attachments[id].blobUrl == "";
  }

  // ---------- after any run ----------

  // Every user's row as it was, or as the source row that inserted it says; a
  // source row that is mapped is mapped to a row of its email.
  lemma UserColumns(src: Source, agent: int, o: Oracle, x: Run, id: Id)
    requires Execution(src, agent, o, x) && Consistent(x.users.First()) && id in x.attachments.Last().users
    ensures var base, row := x.users.First(), x.attachments.Last().users[id];
            && (id in base.users ==> row == base.users[id])
            && (id !in base.users ==>
                  exists j: nat :: j < |src.users| && x.users.answers[j] == Some(id)
                                   && UserInserted(src.users[j], id, row))
            && forall j: nat :: j < |src.users| && x.users.answers[j] == Some(id) ==> UserMatched(src.users[j], row)
  {
    ExecutionChains(src, agent, o, x);
    UsersBear(src.users, o, x.users, |src.users|, id);
  }

  // The other stages leave the sessions.
  lemma SessionOutput(src: Source, agent: int, o: Oracle, x: Run)
    requires Execution(src, agent, o, x) && Consistent(x.users.First())
    ensures x.sessions.First().sessions == x.users.First().sessions
    ensures x.attachments.Last().sessions == x.sessions.Last().sessions
  {
    ExecutionChains(src, agent, o, x);
  }

  // The name and the status that the last source row mapped to a session gives it:
  // "archived" for a deleted one, and a name where it had none.
  lemma SessionColumns(src: Source, agent: int, o: Oracle, x: Run, id: Id)
    requires Execution(src, agent, o, x) && Consistent(x.users.First()) && id in x.attachments.Last().sessions
    ensures var base, row, answers := x.users.First(), x.attachments.Last().sessions[id], x.sessions.answers;
            && (Unanswered(answers, |answers|, id) ==> id in base.sessions && row == base.sessions[id])
            && (id !in base.sessions ==>
                  exists j: nat :: j < |src.sessions| && answers[j] == Some(id)
                                   && SessionInserted(src.sessions[j], o.clock(j), id, row))
            && (forall j: nat :: j < |src.sessions| && answers[j] == Some(id) ==>
                                   SessionMatched(src.sessions[j], x.umap, o.clock(j), row))
            && (forall j: nat :: LastAnswered(answers, |answers|, id, j) ==>
                                   && row.agentId == agent
                                   && (row.name == if src.sessions[j].name == "" then "Untitled Chat"
                                                   else src.sessions[j].name)
                                   && row.status == if src.sessions[j].deletedAt == None then "active" else "archived")
  {
    SessionOutput(src, agent, o, x);
    SessionsBear(src.sessions, x.umap, agent, o, x.sessions, |src.sessions|, id);
  }

  // The last stages leave a message's row but for its parent.
  lemma LinkedOutput(src: Source, agent: int, o: Oracle, x: Run, id: Id)
    requires Execution(src, agent, o, x) && Consistent(x.users.First()) && id in x.attachments.Last().messages
    ensures x.messages.First().messages == x.users.First().messages && id in x.messages.Last().messages
    ensures var row := x.attachments.Last().messages[id];
            row == x.messages.Last().messages[id].(parent := row.parent)
  {
    ExecutionChains(src, agent, o, x);
    var links := LinksOf(src.messages, x.mmap);
    ApplyLinksAt(x.messages.Last().messages, links[..Persisted(|links|, o.linkFault)], id);
  }

  // The role that the last source row mapped to a message gives it: "assistant"
  // for a reply, "user" otherwise.
  lemma MessageColumns(src: Source, agent: int, o: Oracle, x: Run, id: Id)
    requires Execution(src, agent, o, x) && Consistent(x.users.First()) && id in x.attachments.Last().messages
    ensures var base, row, answers := x.users.First(), x.attachments.Last().messages[id], x.messages.answers;
            && (Unanswered(answers, |answers|, id) ==>
                  id in base.messages && row == base.messages[id].(parent := row.parent))
            && (id !in base.messages ==>
                  exists j: nat :: j < |src.messages| && answers[j] == Some(id)
                                   && MessageInserted(src.messages[j], o.clock(j), id, row))
            && (forall j: nat :: j < |src.messages| && answers[j] == Some(id) ==>
                                   MessageMatched(src.messages[j], x.smap, o.clock(j), row))
            && (forall j: nat :: LastAnswered(answers, |answers|, id, j) ==>
                                   && row.agentId == agent
                                   && row.role == if src.messages[j].isReply then "assistant" else "user")
  {
    LinkedOutput(src, agent, o, x, id);
    MessagesBear(src.messages, x.smap, agent, o, x.messages, |src.messages|, id);
  }

  // Every new attachment as its source row says, on the row of its message; a
  // handled one has a row without links to the old store.
  lemma AttachmentColumns(src: Source, agent: int, o: Oracle, x: Run)
    requires Execution(src, agent, o, x) && Consistent(x.users.First())
    ensures var base, db := x.users.First(), x.attachments.Last();
            && (forall id :: id in db.attachments && id !in base.attachments ==>
                  && db.attachments[id].blobUrl == "" && db.attachments[id].blobName == ""
                  && exists j: nat :: j < |src.attachments| && x.attachments.answers[j] == Some(Created)
                                      && AttachmentInserted(src.attachments[j], x.mmap, o.clock(j), id,
                                                            db.attachments[id]))
            && forall j: nat :: j < |src.attachments| && x.attachments.answers[j].Some? ==>
                                  FileLinked(src.attachments[j], x.mmap, db)
  {
    ExecutionChains(src, agent, o, x);
    AttachmentsBear(src.attachments, x.mmap, o, x.attachments, |src.attachments|);
  }

  // ---------- no second row ----------

  // No two rows, one of them new, are of one email or username ...
  ghost predicate UsersApart(base: Db, db: Db) {
    forall a, b :: a in db.users && b in db.users && a != b && a !in base.users ==>
                     db.users[a].email != db.users[b].email && db.users[a].username != db.users[b].username
  }

  // ... of one graph of one user ...
  ghost predicate SessionsApart(base: Db, db: Db) {
    forall a, b :: a in db.sessions && b in db.sessions && a != b && a !in base.sessions ==>
                     !(db.sessions[a].userId == db.sessions[b].userId
                       && db.sessions[a].graphId == db.sessions[b].graphId != "")
  }

  // ... of one text sent at one time in one session, or stored at one time when
  // no sending time is known ...
  ghost predicate MessagesApart(base: Db, db: Db) {
    forall a, b :: a in db.messages && b in db.messages && a != b && a !in base.messages ==>
                     !(db.messages[a].sessionId == db.messages[b].sessionId
                       && db.messages[a].content == db.messages[b].content
                       && db.messages[a].sentAt == db.messages[b].sentAt
                       && (db.messages[a].sentAt.Some? || db.messages[a].createdAt == db.messages[b].createdAt))
  }

  // ... or of one file of one message.
  ghost predicate FilesApart(base: Db, db: Db) {
    forall a, b :: a in db.attachments && b in db.attachments && a != b && a !in base.attachments ==>
                     !(db.attachments[a].messageId == db.attachments[b].messageId
                       && db.attachments[a].fileName == db.attachments[b].fileName)
  }

  lemma {:induction false} UserRowsApart(rows: seq<SrcUser>, o: Oracle, t: Trace<Option<Id>>, i: nat)
    requires i <= |rows| && Steps(rows, UserSteps(o), t)
    ensures UsersApart(t.First(), t.dbs[i])
  {
    if i > 0 {
      UserRowsApart(rows, o, t, i - 1);
      var before, after, u := t.dbs[i - 1], t.dbs[i], rows[i - 1];
      assert UserStep(u, o.userFault(i - 1), before, after, t.answers[i - 1]);
      if after != before {
        forall id | id in before.users
          ensures before.users[id].email != u.email && before.users[id].username != u.email
        {
          assert !IsUser(before, id, u.email);
        }
      }
    }
  }

  lemma {:induction false} SessionRowsApart(rows: seq<SrcSession>, umap: map<Id, Id>, agent: int, o: Oracle,
                                            t: Trace<Option<Id>>, i: nat)
    requires i <= |rows| && Steps(rows, SessionSteps(umap, agent, o), t)
    ensures SessionsApart(t.First(), t.dbs[i])
  {
    if i > 0 {
      SessionRowsApart(rows, umap, agent, o, t, i - 1);
      SessionStepApart(t.First(), rows[i - 1], umap, agent, o.clock(i - 1), o.sessionFault(i - 1), t.dbs[i - 1],
                       t.dbs[i], t.answers[i - 1]);
    }
  }

  lemma SessionStepApart(base: Db, s: SrcSession, umap: map<Id, Id>, agent: int, now: Time, fault: Fault,
                         before: Db, after: Db, r: Option<Id>)
    requires SessionStep(s, umap, agent, now, fault, before, after, r) && SessionsApart(base, before)
    ensures SessionsApart(base, after)
  {
    if r.Some? && r.value !in before.sessions && s.graphId != "" {
      forall id | id in before.sessions
        ensures !(before.sessions[id].userId == umap[s.userId.value] && before.sessions[id].graphId == s.graphId)
      {
        assert !IsSession(before, id, umap[s.userId.value], s, now);
      }
    }
    forall id | id in before.sessions ensures id in after.sessions && SamePlace(before.sessions[id], after.sessions[id])
    {
    }
  }

  lemma {:induction false} MessageRowsApart(rows: seq<SrcMessage>, smap: map<Id, Id>, agent: int, o: Oracle,
                                            t: Trace<Option<Id>>, i: nat)
    requires i <= |rows| && Steps(rows, MessageSteps(smap, agent, o), t)
    ensures MessagesApart(t.First(), t.dbs[i])
  {
    if i > 0 {
      MessageRowsApart(rows, smap, agent, o, t, i - 1);
      MessageStepApart(t.First(), rows[i - 1], smap, agent, o.clock(i - 1), o.messageFault(i - 1), t.dbs[i - 1],
                       t.dbs[i], t.answers[i - 1]);
    }
  }

  lemma RefreshedApart(base: Db, before: Db, after: Db)
    requires MessagesApart(base, before) && after.messages.Keys == before.messages.Keys
    requires forall id :: id in before.messages ==> SameThread(before.messages[id], after.messages[id])
    ensures MessagesApart(base, after)
  {
  }

  lemma InsertedApart(base: Db, before: Db, m: SrcMessage, now: Time, id: Id, row: Message)
    requires MessagesApart(base, before) && id !in before.messages
    requires SameMessage(row, row.sessionId, m, now)
    requires forall other :: other in before.messages ==> !SameMessage(before.messages[other], row.sessionId, m, now)
    ensures MessagesApart(base, before.(messages := before.messages[id := row]))
  {
  }

  lemma MessageStepApart(base: Db, m: SrcMessage, smap: map<Id, Id>, agent: int, now: Time, fault: Fault,
                         before: Db, after: Db, r: Option<Id>)
    requires MessageStep(m, smap, agent, now, fault, before, after, r) && MessagesApart(base, before)
    ensures MessagesApart(base, after)
  {
    if r.Some? && r.value !in before.messages {
      var sessionId := smap[m.conversationId.value];
      forall id | id in before.messages ensures !SameMessage(before.messages[id], sessionId, m, now) {
        assert !IsMessage(before, id, sessionId, m, now);
      }
      InsertedApart(base, before, m, now, r.value, after.messages[r.value]);
    } else if r.Some? {
      RefreshedApart(base, before, after);
    }
  }

  lemma {:induction false} FileRowsApart(rows: seq<SrcAttachment>, mmap: map<Id, Id>, o: Oracle, t: Trace<Outcome>,
                                         i: nat)
    requires i <= |rows| && Steps(rows, AttachmentSteps(mmap, o), t)
    ensures FilesApart(t.First(), t.dbs[i])
  {
    if i > 0 {
      FileRowsApart(rows, mmap, o, t, i - 1);
      assert OutcomeStep(rows[i - 1], mmap, o.clock(i - 1), o.attachmentFault(i - 1), t.dbs[i - 1], t.dbs[i],
                         t.answers[i - 1]);
      FileStepApart(t.First(), rows[i - 1], mmap, o.clock(i - 1), o.attachmentFault(i - 1), t.dbs[i - 1],
                    t.dbs[i], t.answers[i - 1]);
    }
  }

  lemma FileStepApart(base: Db, a: SrcAttachment, mmap: map<Id, Id>, now: Time, fault: Fault, before: Db, after: Db,
                      outcome: Outcome)
    requires OutcomeStep(a, mmap, now, fault, before, after, outcome) && FilesApart(base, before)
    ensures FilesApart(base, after)
  {
    AttachmentStepBears(a, mmap, now, fault, before, after, outcome);
    if outcome == Some(Created) {
      forall id | id in before.attachments ensures !SameFile(before.attachments[id], mmap[a.messageId.value], a.name) {
        assert !IsFile(before, id, mmap[a.messageId.value], a.name);
      }
    }
  }

  // Whatever fails, and from any consistent target, a run adds no row beside
  // another one of the same email, graph, message or file.
  lemma NoSecondRow(src: Source, agent: int, o: Oracle, x: Run)
    requires Execution(src, agent, o, x) && Consistent(x.users.First())
    ensures var base, db := x.users.First(), x.attachments.Last();
            UsersApart(base, db) && SessionsApart(base, db) && MessagesApart(base, db) && FilesApart(base, db)
  {
    ExecutionChains(src, agent, o, x);
    UserRowsApart(src.users, o, x.users, |src.users|);
    SessionRowsApart(src.sessions, x.umap, agent, o, x.sessions, |src.sessions|);
    MessageRowsApart(src.messages, x.smap, agent, o, x.messages, |src.messages|);
    FileRowsApart(src.attachments, x.mmap, o, x.attachments, |src.attachments|);
    var base, db, sent := x.users.First(), x.attachments.Last(), x.messages.Last();
    forall id | id in db.messages
      ensures id in sent.messages && db.messages[id] == sent.messages[id].(parent := db.messages[id].parent)
    {
      LinkedOutput(src, agent, o, x, id);
    }
    assert MessagesApart(base, sent);
  }

  // ---------- on an image ----------

  ghost predicate OfUser(src: Source, u: SrcUser, id: Id) {
    u in src.users && u.email != "" && u.id == id
  }

  ghost predicate OfSession(src: Source, s: SrcSession, u: SrcUser, id: Id) {
    OfUser(src, u, u.id) && s in src.sessions && s.userId == Some(u.id) && s.id == id
  }

  ghost predicate OfMessage(src: Source, m: SrcMessage, s: SrcSession, u: SrcUser, id: Id) {
    OfSession(src, s, u, s.id) && m in src.messages && m.conversationId == Some(s.id) && m.id == id
  }

  ghost predicate OfAttachment(src: Source, a: SrcAttachment, m: SrcMessage, s: SrcSession, u: SrcUser, id: Id) {
    OfMessage(src, m, s, u, m.id) && a in src.attachments && a.messageId == Some(m.id) && a.id == id
  }

  lemma OriginMigrates(src: Source, m: SrcMessage, s: SrcSession, u: SrcUser)
    requires OfMessage(src, m, s, u, m.id)
    ensures SessionMigrates(src, s) && MessageMigrates(src, m)
  {
    assert UserMigrates(src, u);
    assert SessionMigrates(src, s);
  }

  lemma OwnSessionImage(src: Source, agent: int, s: SrcSession, row: Session)
    requires DistinctSessions(src) && s in src.sessions && SessionImage(src, agent, s.id, row)
    ensures CameFromSession(s, agent, row)
  {
  }

  lemma OwnMessageImage(src: Source, agent: int, m: SrcMessage, row: Message)
    requires DistinctMessages(src) && m in src.messages && MessageImage(src, agent, m.id, row)
    ensures CameFromMessage(m, agent, row)
  {
  }

  lemma OwnAttachmentImage(src: Source, a: SrcAttachment, row: Attachment)
    requires DistinctAttachments(src) && a in src.attachments && AttachmentImage(src, a.id, row)
    ensures CameFromAttachment(a, row)
  {
  }

  // The image's row of a message that migrates, and of an attachment.
  lemma FullImageRows(src: Source, agent: int, db: Db)
    requires FullImage(src, agent, db)
    ensures forall s :: SessionMigrates(src, s) ==>
                          s.id in db.sessions && SessionImage(src, agent, s.id, db.sessions[s.id])
    ensures forall m :: MessageMigrates(src, m) ==>
                          m.id in db.messages && MessageImage(src, agent, m.id, db.messages[m.id])
    ensures forall a :: AttachmentMigrates(src, a) ==>
                          a.id in db.attachments && AttachmentImage(src, a.id, db.attachments[a.id])
  {
  }

  // The rows of the full image of a source with distinct keys are those of the
  // users with an email ...
  lemma ImageOfUser(src: Source, agent: int, db: Db, u: SrcUser)
    requires Distinct(src) && FullImage(src, agent, db) && u in src.users && u.email != ""
    ensures u.id in db.users
    ensures var row := db.users[u.id]; row.email == u.email && row.username == u.email && row.info == u.info
  {
    assert UserMigrates(src, u) && UserImage(src, u.id, db.users[u.id]);
  }

  // ... of their sessions ...
  lemma ImageOfSession(src: Source, agent: int, db: Db, s: SrcSession, u: SrcUser)
    requires Distinct(src) && FullImage(src, agent, db) && u in src.users && u.email != ""
    requires s in src.sessions && s.userId == Some(u.id)
    ensures s.id in db.sessions
    ensures var row := db.sessions[s.id];
            && row.userId == u.id && row.agentId == agent && row.graphId == s.graphId
            && row.deletedAt == s.deletedAt && row.info == s.info
            && (s.createdAt.Some? ==> row.createdAt == s.createdAt.value)
            && (row.name == if s.name == "" then "Untitled Chat" else s.name)
            && row.status == if s.deletedAt == None then "active" else "archived"
  {
    assert UserMigrates(src, u);
    assert SessionMigrates(src, s);
    FullImageRows(src, agent, db);
    OwnSessionImage(src, agent, s, db.sessions[s.id]);
  }

  // ... of the messages in these, the replies being the assistant's ...
  lemma ImageOfMessage(src: Source, agent: int, db: Db, m: SrcMessage, s: SrcSession, u: SrcUser)
    requires Distinct(src) && FullImage(src, agent, db) && u in src.users && u.email != ""
    requires s in src.sessions && s.userId == Some(u.id) && m in src.messages && m.conversationId == Some(s.id)
    ensures m.id in db.messages
    ensures var row := db.messages[m.id];
            && row.sessionId == s.id && row.agentId == agent && row.content == m.rawMessage
            && row.isReply == m.isReply && row.sentAt == m.sentAt && row.info == m.info
            && (m.createdAt.Some? ==> row.createdAt == m.createdAt.value)
            && (row.role == "assistant" <==> m.isReply) && (row.role == "user" <==> !m.isReply)
  {
    OriginMigrates(src, m, s, u);
    FullImageRows(src, agent, db);
    OwnMessageImage(src, agent, m, db.messages[m.id]);
  }

  // ... and of the attachments of these.
  lemma ImageOfAttachment(src: Source, agent: int, db: Db, a: SrcAttachment, m: SrcMessage, s: SrcSession, u: SrcUser)
    requires Distinct(src) && FullImage(src, agent, db) && u in src.users && u.email != ""
    requires s in src.sessions && s.userId == Some(u.id) && m in src.messages && m.conversationId == Some(s.id)
    requires a in src.attachments && a.messageId == Some(m.id)
    ensures a.id in db.attachments
    ensures var row := db.attachments[a.id];
            && row.messageId == Some(m.id) && row.entityId == Some(m.id) && row.fileName == a.name
            && row.blobUrl == "" && row.blobName == "" && row.info == a.info
            && (row.isActive <==> a.deletedAt == None)
            && (a.createdAt.Some? ==> row.createdAt == a.createdAt.value)
  {
    OriginMigrates(src, m, s, u);
    FullImageRows(src, agent, db);
    assert AttachmentMigrates(src, a);
    OwnAttachmentImage(src, a, db.attachments[a.id]);
  }

  // No image, partial or full, holds any other row, and in each the rows of
  // the assistant are the replies.
  lemma ImageHoldsNothingElse(src: Source, agent: int, db: Db)
    requires PartialImage(src, agent, db)
    ensures forall id :: id in db.users ==> exists u :: OfUser(src, u, id)
    ensures forall id :: id in db.sessions ==> exists s, u :: OfSession(src, s, u, id)
    ensures forall id :: id in db.messages ==> exists m, s, u :: OfMessage(src, m, s, u, id)
    ensures forall id :: id in db.attachments ==> exists a, m, s, u :: OfAttachment(src, a, m, s, u, id)
    ensures forall id :: id in db.messages ==>
              && (db.messages[id].role == "assistant" <==> db.messages[id].isReply)
              && (db.messages[id].role == "user" <==> !db.messages[id].isReply)
  {
    forall id | id in db.users ensures exists u :: OfUser(src, u, id) {
      assert UserImage(src, id, db.users[id]);
      var u :| UserMigrates(src, u) && u.id == id;
      assert OfUser(src, u, id);
    }
    forall id | id in db.sessions ensures exists s, u :: OfSession(src, s, u, id) {
      assert SessionImage(src, agent, id, db.sessions[id]);
      var s :| SessionMigrates(src, s) && s.id == id;
      var u := SessionOrigin(src, s);
    }
    forall id | id in db.messages ensures exists m, s, u :: OfMessage(src, m, s, u, id) {
      assert MessageImage(src, agent, id, db.messages[id]);
      var m :| MessageMigrates(src, m) && m.id == id;
      var s, u := MessageOrigin(src, m);
    }
    forall id | id in db.attachments ensures exists a, m, s, u :: OfAttachment(src, a, m, s, u, id) {
      assert AttachmentImage(src, id, db.attachments[id]);
      var a :| AttachmentMigrates(src, a) && a.id == id;
      var m :| MessageMigrates(src, m) && m.id == a.messageId.value;
      var s, u := MessageOrigin(src, m);
      assert OfAttachment(src, a, m, s, u, id);
    }
    forall id | id in db.messages
      ensures db.messages[id].role == "assistant" <==> db.messages[id].isReply
      ensures db.messages[id].role == "user" <==> !db.messages[id].isReply
    {
      assert MessageImage(src, agent, id, db.messages[id]);
    }
  }

  lemma SessionOrigin(src: Source, s: SrcSession) returns (u: SrcUser)
    requires SessionMigrates(src, s)
    ensures OfSession(src, s, u, s.id)
  {
    u :| UserMigrates(src, u) && u.id == s.userId.value;
  }

  lemma MessageOrigin(src: Source, m: SrcMessage) returns (s: SrcSession, u: SrcUser)
    requires MessageMigrates(src, m)
    ensures OfMessage(src, m, s, u, m.id)
  {
    s :| SessionMigrates(src, s) && s.id == m.conversationId.value;
    u := SessionOrigin(src, s);
  }
}
