// Targets that also hold rows of their own.  Rows that no source row can be
// looked up by stand by: the migration neither reads nor writes them, so what
// holds of the rest of the target holds beside them.
module MigrationBystanders {
  import opened Basics
  import opened MigrationModel
  import opened MigrationSafety
  import opened MigrationImage
  import opened MigrationLinks
  import opened MigrationExecution
  import opened MigrationStages
  import opened MigrationRun

  function Minus(db: Db, rest: Db): Db {
    Db(db.users - rest.users.Keys, db.sessions - rest.sessions.Keys,
       db.messages - rest.messages.Keys, db.attachments - rest.attachments.Keys)
  }

  ghost predicate Among<V>(part: map<Id, V>, table: map<Id, V>) {
    forall id :: id in part ==> id in table && table[id] == part[id]
  }

  ghost predicate Holds(db: Db, rest: Db) {
    && Among(rest.users, db.users) && Among(rest.sessions, db.sessions)
    && Among(rest.messages, db.messages) && Among(rest.attachments, db.attachments)
  }

  // No source row has the id or the key of a bystander.  Rows that hang from a
  // bystander cannot match.

  ghost predicate UserUnmatched(u: SrcUser, rest: Db) {
    forall id :: id in rest.users ==>
                   && id != u.id
                   && (u.email != "" ==> rest.users[id].email != u.email && u.email != rest.users[id].username)
  }

  ghost predicate SessionUnmatched(s: SrcSession, rest: Db) {
    && s.id !in rest.sessions
    && forall id, userId, now :: id in rest.sessions && userId !in rest.users ==>
                                   !SameSession(rest.sessions[id], userId, s, now)
  }

  ghost predicate MessageUnmatched(m: SrcMessage, rest: Db) {
    && m.id !in rest.messages
    && forall id, sessionId, now :: id in rest.messages && sessionId !in rest.sessions ==>
                                      !SameMessage(rest.messages[id], sessionId, m, now)
  }

  ghost predicate AttachmentUnmatched(a: SrcAttachment, rest: Db) {
    && a.id !in rest.attachments
    && forall id, messageId :: id in rest.attachments && messageId !in rest.messages ==>
                                 !SameFile(rest.attachments[id], messageId, a.name)
  }

  ghost predicate Unmatched(src: Source, rest: Db) {
    && (forall u :: u in src.users ==> UserUnmatched(u, rest))
    && (forall s :: s in src.sessions ==> SessionUnmatched(s, rest))
    && (forall m :: m in src.messages ==> MessageUnmatched(m, rest))
    && (forall a :: a in src.attachments ==> AttachmentUnmatched(a, rest))
  }

  ghost predicate Avoids<V>(idMap: map<Id, Id>, rest: map<Id, V>) {
    forall k :: k in idMap ==> idMap[k] !in rest
  }

  // ---------- one row ----------

  lemma PutBeside<V>(table: map<Id, V>, rest: map<Id, V>, id: Id, row: V)
    requires id !in rest && Among(rest, table)
    ensures table[id := row] - rest.Keys == (table - rest.Keys)[id := row] && Among(rest, table[id := row])
  {
  }

  lemma UserStepBeside(u: SrcUser, fault: Fault, before: Db, after: Db, r: Option<Id>, rest: Db)
    requires UserStep(u, fault, before, after, r) && Holds(before, rest) && UserUnmatched(u, rest)
    ensures UserStep(u, fault, Minus(before, rest), Minus(after, rest), r) && Holds(after, rest)
    ensures r.Some? ==> r.value !in rest.users
  {
    var small := Minus(before, rest);
    if u.email != "" {
      forall id: Id ensures IsUser(before, id, u.email) <==> IsUser(small, id, u.email) {
      }
      if id :| id in before.users && before.users[id].username == u.email {
        assert id in small.users;
      }
      assert UsernameTaken(before, u.email) <==> UsernameTaken(small, u.email);
      if after != before {
        PutBeside(before.users, rest.users, u.id, NewUser(u));
      }
    }
  }

  lemma SessionStepBeside(s: SrcSession, umap: map<Id, Id>, agent: int, now: Time, fault: Fault,
                          before: Db, after: Db, r: Option<Id>, rest: Db)
    requires SessionStep(s, umap, agent, now, fault, before, after, r) && Holds(before, rest)
    requires SessionUnmatched(s, rest) && Avoids(umap, rest.users)
    ensures SessionStep(s, umap, agent, now, fault, Minus(before, rest), Minus(after, rest), r) && Holds(after, rest)
    ensures r.Some? ==> r.value !in rest.sessions
  {
    var small := Minus(before, rest);
    if s.userId.Some? && s.userId.value in umap && fault == NoFault {
      var userId := umap[s.userId.value];
      forall id: Id ensures IsSession(before, id, userId, s, now) <==> IsSession(small, id, userId, s, now) {
      }
      if r.Some? {
        PutBeside(before.sessions, rest.sessions, r.value, after.sessions[r.value]);
      }
    }
  }

  lemma MessageStepBeside(m: SrcMessage, smap: map<Id, Id>, agent: int, now: Time, fault: Fault,
                          before: Db, after: Db, r: Option<Id>, rest: Db)
    requires MessageStep(m, smap, agent, now, fault, before, after, r) && Holds(before, rest)
    requires MessageUnmatched(m, rest) && Avoids(smap, rest.sessions)
    requires forall id :: id in Minus(before, rest).sessions ==>
                            SessionRefs(Minus(before, rest), Minus(before, rest).sessions[id])
    ensures MessageStep(m, smap, agent, now, fault, Minus(before, rest), Minus(after, rest), r) && Holds(after, rest)
    ensures r.Some? ==> r.value !in rest.messages
  {
    var small := Minus(before, rest);
    if m.conversationId.Some? && m.conversationId.value in smap
       && smap[m.conversationId.value] in before.sessions && fault == NoFault {
      var sessionId := smap[m.conversationId.value];
      assert sessionId in small.sessions && SessionRefs(small, small.sessions[sessionId]);
      forall id: Id ensures IsMessage(before, id, sessionId, m, now) <==> IsMessage(small, id, sessionId, m, now) {
      }
      if r.Some? {
        PutBeside(before.messages, rest.messages, r.value, after.messages[r.value]);
      }
    }
  }

  lemma BlankStepBeside(id: Id, fault: Fault, before: Db, after: Db, ok: bool, action: Action, rest: Db)
    requires id in before.attachments && id !in rest.attachments && Holds(before, rest)
    requires BlankStep(id, fault, before, after, ok, action)
    ensures BlankStep(id, fault, Minus(before, rest), Minus(after, rest), ok, action) && Holds(after, rest)
  {
    if after != before {
      PutBeside(before.attachments, rest.attachments, id, after.attachments[id]);
    }
  }

  lemma FilesBeside(db: Db, rest: Db, a: SrcAttachment, messageId: Id)
    requires Holds(db, rest) && AttachmentUnmatched(a, rest) && messageId !in rest.messages
    ensures forall id: Id :: IsFile(db, id, messageId, a.name) <==> IsFile(Minus(db, rest), id, messageId, a.name)
    ensures forall id: Id :: IsFile(db, id, messageId, a.name) ==> id !in rest.attachments
  {
  }

  lemma DuplicateBeside(a: SrcAttachment, messageId: Id, fault: Fault, before: Db, after: Db, ok: bool, action: Action,
                        rest: Db)
    requires Holds(before, rest) && AttachmentUnmatched(a, rest) && messageId !in rest.messages
    requires exists id: Id :: IsFile(before, id, messageId, a.name) && BlankStep(id, fault, before, after, ok, action)
    ensures var small := Minus(before, rest);
            exists id: Id :: IsFile(small, id, messageId, a.name)
                             && BlankStep(id, fault, small, Minus(after, rest), ok, action)
    ensures Holds(after, rest)
  {
    var id: Id :| IsFile(before, id, messageId, a.name) && BlankStep(id, fault, before, after, ok, action);
    FilesBeside(before, rest, a, messageId);
    assert IsFile(Minus(before, rest), id, messageId, a.name);
    BlankStepBeside(id, fault, before, after, ok, action, rest);
  }

  lemma NewAttachmentBeside(before: Db, after: Db, id: Id, row: Attachment, rest: Db)
    requires id !in rest.attachments && Holds(before, rest)
    requires after == before.(attachments := before.attachments[id := row])
    ensures Minus(after, rest) == Minus(before, rest).(attachments := Minus(before, rest).attachments[id := row])
    ensures Holds(after, rest)
  {
    PutBeside(before.attachments, rest.attachments, id, row);
  }

  lemma AttachmentStepBeside(a: SrcAttachment, mmap: map<Id, Id>, now: Time, fault: Fault,
                             before: Db, after: Db, ok: bool, action: Action, rest: Db)
    requires AttachmentStep(a, mmap, now, fault, before, after, ok, action) && Holds(before, rest)
    requires AttachmentUnmatched(a, rest) && Avoids(mmap, rest.messages)
    requires forall id :: id in Minus(before, rest).messages ==>
                            MessageRefs(Minus(before, rest), Minus(before, rest).messages[id])
    ensures AttachmentStep(a, mmap, now, fault, Minus(before, rest), Minus(after, rest), ok, action)
    ensures Holds(after, rest)
  {
    var small := Minus(before, rest);
    if a.messageId.Some? && a.messageId.value in mmap && mmap[a.messageId.value] in before.messages
      && fault != ReadFails {
      var messageId := mmap[a.messageId.value];
      assert messageId in small.messages && MessageRefs(small, small.messages[messageId]);
      FilesBeside(before, rest, a, messageId);
      if a.id in before.attachments {
        BlankStepBeside(a.id, fault, before, after, ok, action, rest);
      } else if exists id: Id :: IsFile(before, id, messageId, a.name) {
        DuplicateBeside(a, messageId, fault, before, after, ok, action, rest);
      } else if after != before {
        NewAttachmentBeside(before, after, a.id, after.attachments[a.id], rest);
      }
    }
  }

  // ---------- one stage ----------

  function Beside<A>(t: Trace<A>, rest: Db): Trace<A> {
    Trace(seq(|t.dbs|, i requires 0 <= i < |t.dbs| => Minus(t.dbs[i], rest)), t.answers)
  }

  ghost predicate NoneIn<V>(answers: seq<Option<Id>>, rest: map<Id, V>) {
    forall i :: 0 <= i < |answers| && answers[i].Some? ==> answers[i].value !in rest
  }

  lemma MapAvoids<V>(ids: seq<Id>, answers: seq<Option<Id>>, rest: map<Id, V>)
    requires |ids| == |answers| && NoneIn(answers, rest)
    ensures Avoids(MapOf(ids, answers), rest)
  {
    MapOfValues(ids, answers);
  }

  lemma {:induction false} UsersHold(src: Source, o: Oracle, t: Trace<Option<Id>>, rest: Db, i: nat)
    requires i <= |src.users| && Steps(src.users, UserSteps(o), t) && Holds(t.First(), rest) && Unmatched(src, rest)
    ensures Holds(t.dbs[i], rest)
  {
    if i > 0 {
      UsersHold(src, o, t, rest, i - 1);
      UserStepBeside(src.users[i - 1], o.userFault(i - 1), t.dbs[i - 1], t.dbs[i], t.answers[i - 1], rest);
    }
  }

  // The stage goes through the same steps beside the bystanders.
  lemma UsersBeside(src: Source, o: Oracle, t: Trace<Option<Id>>, rest: Db)
    requires Steps(src.users, UserSteps(o), t) && Holds(t.First(), rest) && Unmatched(src, rest)
    ensures Holds(t.Last(), rest) && NoneIn(t.answers, rest.users)
    ensures Steps(src.users, UserSteps(o), Beside(t, rest))
  {
    UsersHold(src, o, t, rest, |src.users|);
    forall i: nat | i < |src.users|
      ensures UserStep(src.users[i], o.userFault(i), Minus(t.dbs[i], rest), Minus(t.dbs[i + 1], rest), t.answers[i])
      ensures t.answers[i].Some? ==> t.answers[i].value !in rest.users
    {
      UsersHold(src, o, t, rest, i);
      UserStepBeside(src.users[i], o.userFault(i), t.dbs[i], t.dbs[i + 1], t.answers[i], rest);
    }
  }

  lemma {:induction false} SessionsHold(src: Source, umap: map<Id, Id>, agent: int, o: Oracle,
                                        t: Trace<Option<Id>>, rest: Db, i: nat)
    requires i <= |src.sessions| && Steps(src.sessions, SessionSteps(umap, agent, o), t)
    requires Holds(t.First(), rest) && Unmatched(src, rest) && Avoids(umap, rest.users)
    ensures Holds(t.dbs[i], rest)
  {
    if i > 0 {
      SessionsHold(src, umap, agent, o, t, rest, i - 1);
      SessionStepBeside(src.sessions[i - 1], umap, agent, o.clock(i - 1), o.sessionFault(i - 1),
                        t.dbs[i - 1], t.dbs[i], t.answers[i - 1], rest);
    }
  }

  lemma SessionsBeside(src: Source, umap: map<Id, Id>, agent: int, o: Oracle, t: Trace<Option<Id>>, rest: Db)
    requires Steps(src.sessions, SessionSteps(umap, agent, o), t)
    requires Holds(t.First(), rest) && Unmatched(src, rest) && Avoids(umap, rest.users)
    ensures Holds(t.Last(), rest) && NoneIn(t.answers, rest.sessions)
    ensures Steps(src.sessions, SessionSteps(umap, agent, o), Beside(t, rest))
  {
    SessionsHold(src, umap, agent, o, t, rest, |src.sessions|);
    forall i: nat | i < |src.sessions|
      ensures SessionStep(src.sessions[i], umap, agent, o.clock(i), o.sessionFault(i),
                          Minus(t.dbs[i], rest), Minus(t.dbs[i + 1], rest), t.answers[i])
      ensures t.answers[i].Some? ==> t.answers[i].value !in rest.sessions
    {
      SessionsHold(src, umap, agent, o, t, rest, i);
      SessionStepBeside(src.sessions[i], umap, agent, o.clock(i), o.sessionFault(i),
                        t.dbs[i], t.dbs[i + 1], t.answers[i], rest);
    }
  }

  lemma {:induction false} MessagesHold(src: Source, smap: map<Id, Id>, agent: int, o: Oracle,
                                        t: Trace<Option<Id>>, rest: Db, i: nat)
    requires i <= |src.messages| && Steps(src.messages, MessageSteps(smap, agent, o), t)
    requires Holds(t.First(), rest) && Unmatched(src, rest) && Avoids(smap, rest.sessions)
    requires SessionsResolve(Minus(t.First(), rest))
    ensures Holds(t.dbs[i], rest) && SessionsResolve(Minus(t.dbs[i], rest))
  {
    if i > 0 {
      MessagesHold(src, smap, agent, o, t, rest, i - 1);
      MessageStepBeside(src.messages[i - 1], smap, agent, o.clock(i - 1), o.messageFault(i - 1),
                        t.dbs[i - 1], t.dbs[i], t.answers[i - 1], rest);
      OtherTablesStay(src.messages[i - 1], smap, agent, o.clock(i - 1), o.messageFault(i - 1),
                      t.dbs[i - 1], t.dbs[i], t.answers[i - 1], rest);
    }
  }

  lemma OtherTablesStay(m: SrcMessage, smap: map<Id, Id>, agent: int, now: Time, fault: Fault,
                        before: Db, after: Db, r: Option<Id>, rest: Db)
    requires MessageStep(m, smap, agent, now, fault, before, after, r) && SessionsResolve(Minus(before, rest))
    ensures SessionsResolve(Minus(after, rest))
  {
    forall id | id in Minus(after, rest).sessions
      ensures SessionRefs(Minus(after, rest), Minus(after, rest).sessions[id])
    {
      assert SessionRefs(Minus(before, rest), Minus(before, rest).sessions[id]);
    }
  }

  lemma MessagesBeside(src: Source, smap: map<Id, Id>, agent: int, o: Oracle, t: Trace<Option<Id>>, rest: Db)
    requires Steps(src.messages, MessageSteps(smap, agent, o), t)
    requires Holds(t.First(), rest) && Unmatched(src, rest) && Avoids(smap, rest.sessions)
    requires SessionsResolve(Minus(t.First(), rest))
    ensures Holds(t.Last(), rest) && NoneIn(t.answers, rest.messages)
    ensures Steps(src.messages, MessageSteps(smap, agent, o), Beside(t, rest))
  {
    MessagesHold(src, smap, agent, o, t, rest, |src.messages|);
    forall i: nat | i < |src.messages|
      ensures MessageStep(src.messages[i], smap, agent, o.clock(i), o.messageFault(i),
                          Minus(t.dbs[i], rest), Minus(t.dbs[i + 1], rest), t.answers[i])
      ensures t.answers[i].Some? ==> t.answers[i].value !in rest.messages
    {
      MessagesHold(src, smap, agent, o, t, rest, i);
      MessageStepBeside(src.messages[i], smap, agent, o.clock(i), o.messageFault(i),
                        t.dbs[i], t.dbs[i + 1], t.answers[i], rest);
    }
  }

  lemma {:induction false} AttachmentsHold(src: Source, mmap: map<Id, Id>, o: Oracle, t: Trace<Outcome>, rest: Db,
                                           i: nat)
    requires i <= |src.attachments| && Steps(src.attachments, AttachmentSteps(mmap, o), t)
    requires Holds(t.First(), rest) && Unmatched(src, rest) && Avoids(mmap, rest.messages)
    requires MessagesResolve(Minus(t.First(), rest))
    ensures Holds(t.dbs[i], rest) && MessagesResolve(Minus(t.dbs[i], rest))
  {
    if i > 0 {
      AttachmentsHold(src, mmap, o, t, rest, i - 1);
      OutcomeStepBeside(src.attachments[i - 1], mmap, o.clock(i - 1), o.attachmentFault(i - 1),
                        t.dbs[i - 1], t.dbs[i], t.answers[i - 1], rest);
    }
  }

  lemma AttachmentsBeside(src: Source, mmap: map<Id, Id>, o: Oracle, t: Trace<Outcome>, rest: Db)
    requires Steps(src.attachments, AttachmentSteps(mmap, o), t)
    requires Holds(t.First(), rest) && Unmatched(src, rest) && Avoids(mmap, rest.messages)
    requires MessagesResolve(Minus(t.First(), rest))
    ensures Holds(t.Last(), rest) && Steps(src.attachments, AttachmentSteps(mmap, o), Beside(t, rest))
  {
    AttachmentsHold(src, mmap, o, t, rest, |src.attachments|);
    forall i: nat | i < |src.attachments|
      ensures OutcomeStep(src.attachments[i], mmap, o.clock(i), o.attachmentFault(i),
                          Minus(t.dbs[i], rest), Minus(t.dbs[i + 1], rest), t.answers[i])
    {
      AttachmentsHold(src, mmap, o, t, rest, i);
      OutcomeStepBeside(src.attachments[i], mmap, o.clock(i), o.attachmentFault(i),
                        t.dbs[i], t.dbs[i + 1], t.answers[i], rest);
    }
  }

  lemma OutcomeStepBeside(a: SrcAttachment, mmap: map<Id, Id>, now: Time, fault: Fault,
                          before: Db, after: Db, outcome: Outcome, rest: Db)
    requires OutcomeStep(a, mmap, now, fault, before, after, outcome) && Holds(before, rest)
    requires AttachmentUnmatched(a, rest) && Avoids(mmap, rest.messages) && MessagesResolve(Minus(before, rest))
    ensures OutcomeStep(a, mmap, now, fault, Minus(before, rest), Minus(after, rest), outcome)
    ensures Holds(after, rest) && MessagesResolve(Minus(after, rest))
  {
    AttachmentStepBeside(a, mmap, now, fault, before, after, outcome.Some?,
                         if outcome.Some? then outcome.value else Skipped, rest);
    forall id | id in Minus(after, rest).messages
      ensures MessageRefs(Minus(after, rest), Minus(after, rest).messages[id])
    {
      assert MessageRefs(Minus(before, rest), Minus(before, rest).messages[id]);
    }
  }

  lemma LinksBeside(db: Db, after: Db, rows: seq<SrcMessage>, mmap: map<Id, Id>, k: nat, rest: Db)
    requires LinkedUpTo(db, after, LinksOf(rows, mmap), k) && Holds(db, rest) && Avoids(mmap, rest.messages)
    ensures LinkedUpTo(Minus(db, rest), Minus(after, rest), LinksOf(rows, mmap), k) && Holds(after, rest)
  {
    var links := LinksOf(rows, mmap)[..k];
    var small := Minus(db, rest).messages;
    LinksComeFromRows(rows, mmap);
    ApplyLinksAt(db.messages, links, 0);
    ApplyLinksAt(small, links, 0);
    forall id | id in db.messages
      ensures id in rest.messages ==> after.messages[id] == db.messages[id]
      ensures id !in rest.messages ==> ApplyLinks(small, links)[id] == after.messages[id]
    {
      ApplyLinksAt(db.messages, links, id);
      ApplyLinksAt(small, links, id);
      LastParentIsALink(links, id);
      if LastParent(links, id).Some? {
        assert LinkFrom(rows, mmap, (id, LastParent(links, id).value));
      }
    }
    assert Minus(after, rest).messages == ApplyLinks(small, links);
  }

  // ---------- the whole run ----------

  function RunBeside(x: Run, rest: Db): Run {
    x.(users := Beside(x.users, rest), sessions := Beside(x.sessions, rest), messages := Beside(x.messages, rest),
       linked := Minus(x.linked, rest), attachments := Beside(x.attachments, rest))
  }

  lemma UsersAndSessionsBeside(src: Source, agent: int, o: Oracle, x: Run, rest: Db)
    requires MapsBuilt(src, agent, o, x) && Holds(x.users.First(), rest) && Unmatched(src, rest)
    ensures UsersTraced(src.users, o, Beside(x.users, rest), x.umap)
    ensures SessionsTraced(src.sessions, x.umap, agent, o, Beside(x.sessions, rest), x.smap)
    ensures Holds(x.sessions.Last(), rest) && Avoids(x.smap, rest.sessions)
    ensures Beside(x.sessions, rest).First() == Beside(x.users, rest).Last()
  {
    UsersBeside(src, o, x.users, rest);
    MapAvoids(UserIds(src.users), x.users.answers, rest.users);
    SessionsBeside(src, x.umap, agent, o, x.sessions, rest);
    MapAvoids(SessionIds(src.sessions), x.sessions.answers, rest.sessions);
  }

  // The first two stages keep the rest of the target consistent.
  lemma SessionsStageResolves(src: Source, agent: int, o: Oracle, ut: Trace<Option<Id>>, st: Trace<Option<Id>>,
                              umap: map<Id, Id>, smap: map<Id, Id>)
    requires UsersTraced(src.users, o, ut, umap) && SessionsTraced(src.sessions, umap, agent, o, st, smap)
    requires Consistent(ut.First()) && st.First() == ut.Last()
    ensures Safe(ut.First(), st.Last()) && Lands(smap, st.Last().sessions)
  {
    SafeAtStart(ut.First());
    UsersStage(src, agent, o, ut.First(), ut, |src.users|);
    assert src.users[..|src.users|] == src.users && ut.answers[..|src.users|] == ut.answers;
    SessionsStage(src, agent, umap, o, ut.First(), st, |src.sessions|);
    assert src.sessions[..|src.sessions|] == src.sessions && st.answers[..|src.sessions|] == st.answers;
  }

  lemma MessagesStageResolves(src: Source, agent: int, o: Oracle, base: Db, mt: Trace<Option<Id>>,
                              smap: map<Id, Id>, mmap: map<Id, Id>, linked: Db, k: nat)
    requires MessagesTraced(src.messages, smap, agent, o, mt, mmap)
    requires Safe(base, mt.First()) && Lands(smap, mt.First().sessions)
    requires LinkedUpTo(mt.Last(), linked, LinksOf(src.messages, mmap), k)
    ensures MessagesResolve(linked)
  {
    MessagesStage(src, agent, smap, o, base, mt, |src.messages|);
    assert src.messages[..|src.messages|] == src.messages && mt.answers[..|src.messages|] == mt.answers;
    LinkPassSafe(base, mt.Last(), linked, src.messages, mmap, k);
  }

  // Every execution is one of the rest of the target beside the bystanders,
  // which it leaves as they are.
  lemma BystandersStand(src: Source, agent: int, o: Oracle, x: Run, rest: Db)
    requires Execution(src, agent, o, x) && Holds(x.users.First(), rest) && Unmatched(src, rest)
    requires Consistent(Minus(x.users.First(), rest))
    ensures Execution(src, agent, o, RunBeside(x, rest))
    ensures Holds(x.attachments.Last(), rest)
  {
    var k := Persisted(|LinksOf(src.messages, x.mmap)|, o.linkFault);
    UsersAndSessionsBeside(src, agent, o, x, rest);
    var ut, st, mt := Beside(x.users, rest), Beside(x.sessions, rest), Beside(x.messages, rest);
    SessionsStageResolves(src, agent, o, ut, st, x.umap, x.smap);
    MessagesBeside(src, x.smap, agent, o, x.messages, rest);
    MapAvoids(MessageIds(src.messages), x.messages.answers, rest.messages);
    LinksBeside(x.messages.Last(), x.linked, src.messages, x.mmap, k, rest);
    MessagesStageResolves(src, agent, o, ut.First(), mt, x.smap, x.mmap, Minus(x.linked, rest), k);
    AttachmentsBeside(src, x.mmap, o, x.attachments, rest);
  }

  // So convergence holds in a target that also holds bystanders.
  lemma ConvergesBesideBystanders(src: Source, agent: int, o: Oracle, x: Run, rest: Db)
    requires Execution(src, agent, o, x) && Holds(x.users.First(), rest) && Unmatched(src, rest)
    requires Consistent(Minus(x.users.First(), rest))
    requires Distinct(src) && PartialImage(src, agent, Minus(x.users.First(), rest))
    ensures Holds(x.attachments.Last(), rest) && PartialImage(src, agent, Minus(x.attachments.Last(), rest))
    ensures Clean(o) ==>
              && FullImage(src, agent, Minus(x.attachments.Last(), rest))
              && UserMapComplete(src, x.umap) && SessionMapComplete(src, x.smap) && MessageMapComplete(src, x.mmap)
    ensures FullImage(src, agent, Minus(x.users.First(), rest)) ==> x.attachments.Last() == x.users.First()
  {
    BystandersStand(src, agent, o, x, rest);
    ExecutionConverges(src, agent, o, RunBeside(x, rest));
    if Minus(x.attachments.Last(), rest) == Minus(x.users.First(), rest) {
      SameBeside(x.attachments.Last(), x.users.First(), rest);
    }
  }

  lemma SameBeside(a: Db, b: Db, rest: Db)
    requires Holds(a, rest) && Holds(b, rest) && Minus(a, rest) == Minus(b, rest)
    ensures a == b
  {
    TableBeside(a.users, b.users, rest.users);
    TableBeside(a.sessions, b.sessions, rest.sessions);
    TableBeside(a.messages, b.messages, rest.messages);
    TableBeside(a.attachments, b.attachments, rest.attachments);
  }

  lemma TableBeside<V>(a: map<Id, V>, b: map<Id, V>, rest: map<Id, V>)
    requires Among(rest, a) && Among(rest, b) && a - rest.Keys == b - rest.Keys
    ensures a == b
  {
    assert a.Keys == (a - rest.Keys).Keys + rest.Keys && b.Keys == (b - rest.Keys).Keys + rest.Keys;
    forall id | id in a ensures a[id] == b[id] {
      if id !in rest {
        assert a[id] == (a - rest.Keys)[id] == (b - rest.Keys)[id] == b[id];
      }
    }
  }
}
