// Convergence of the migration on a source whose dedupe keys are distinct.
// Every state it can leave behind, however many rows failed, is a partial image
// of the source; a run without failures completes any partial image and leaves
// a complete one unchanged.  A first run, a rerun and a run resumed after a
// crash are three instances.
module MigrationImage {
  import opened Basics
  import opened MigrationModel
  import opened MigrationSafety

  // ---------- which rows migrate ----------

  ghost predicate UserMigrates(src: Source, u: SrcUser) {
    u in src.users && u.email != ""
  }

  ghost predicate SessionMigrates(src: Source, s: SrcSession) {
    && s in src.sessions && s.userId.Some?
    && exists u :: UserMigrates(src, u) && u.id == s.userId.value
  }

  ghost predicate MessageMigrates(src: Source, m: SrcMessage) {
    && m in src.messages && m.conversationId.Some?
    && exists s :: SessionMigrates(src, s) && s.id == m.conversationId.value
  }

  ghost predicate AttachmentMigrates(src: Source, a: SrcAttachment) {
    && a in src.attachments && a.messageId.Some?
    && exists m :: MessageMigrates(src, m) && m.id == a.messageId.value
  }

  // ---------- distinct dedupe keys ----------

  // A row whose duplicate check does not depend on the clock.
  predicate KeyedSession(s: SrcSession) {
    s.graphId != "" || s.createdAt.Some?
  }

  predicate KeyedMessage(m: SrcMessage) {
    m.sentAt.Some? || m.createdAt.Some?
  }

  // Could looking up `a` find the row that `b` left in the target?
  predicate SessionsMayCollide(a: SrcSession, b: SrcSession) {
    && a.userId == b.userId
    && if a.graphId != "" then b.graphId == a.graphId
       else SessionName(b) == SessionName(a) && (b.createdAt == a.createdAt || b.createdAt.None?)
  }

  predicate MessagesMayCollide(a: SrcMessage, b: SrcMessage) {
    && a.conversationId == b.conversationId && a.rawMessage == b.rawMessage
    && if a.sentAt.Some? then b.sentAt == a.sentAt
       else b.sentAt == None && b.createdAt == a.createdAt
  }

  predicate AttachmentsCollide(a: SrcAttachment, b: SrcAttachment) {
    a.messageId == b.messageId && a.name == b.name
  }

  ghost predicate DistinctUsers(src: Source) {
    forall a, b :: a in src.users && b in src.users && (a.id == b.id || (a.email != "" && a.email == b.email)) ==>
                     a == b
  }

  ghost predicate DistinctSessions(src: Source) {
    && (forall s :: s in src.sessions ==> KeyedSession(s))
    && (forall a, b :: a in src.sessions && b in src.sessions && (a.id == b.id || SessionsMayCollide(a, b)) ==> a == b)
  }

  ghost predicate DistinctMessages(src: Source) {
    && (forall m :: m in src.messages ==> KeyedMessage(m))
    && (forall a, b :: a in src.messages && b in src.messages && (a.id == b.id || MessagesMayCollide(a, b)) ==> a == b)
  }

  ghost predicate DistinctAttachments(src: Source) {
    forall a, b :: a in src.attachments && b in src.attachments && (a.id == b.id || AttachmentsCollide(a, b)) ==> a == b
  }

  ghost predicate Distinct(src: Source) {
    DistinctUsers(src) && DistinctSessions(src) && DistinctMessages(src) && DistinctAttachments(src)
  }

  // ---------- images of single rows ----------

  predicate CameFromUser(u: SrcUser, row: User) {
    row.email == u.email && row.username == u.email && row.info == u.info
  }

  // A source time that is absent was filled in from some clock reading.
  predicate TimeFrom(t: Option<Time>, stored: Time) {
    t.Some? ==> stored == t.value
  }

  predicate CameFromSession(s: SrcSession, agent: int, row: Session) {
    && s.userId == Some(row.userId) && row.agentId == agent
    && row.name == SessionName(s) && row.status == SessionStatus(s) && row.graphId == s.graphId
    && row.deletedAt == s.deletedAt && row.info == s.info && TimeFrom(s.createdAt, row.createdAt)
  }

  // The parent is the source's previous message or still missing.
  predicate CameFromMessage(m: SrcMessage, agent: int, row: Message) {
    && m.conversationId == Some(row.sessionId) && row.agentId == agent
    && row.role == MessageRole(m) && row.content == m.rawMessage && row.isReply == m.isReply
    && row.sentAt == m.sentAt && row.info == m.info && TimeFrom(m.createdAt, row.createdAt)
    && (row.parent == None || row.parent == m.previousId)
  }

  predicate CameFromAttachment(a: SrcAttachment, row: Attachment) {
    && a.messageId.Some? && row.messageId == a.messageId && row.entityId == a.messageId
    && row.fileName == a.name && row.blobUrl == "" && row.blobName == ""
    && row.isActive == a.deletedAt.None? && row.info == a.info && TimeFrom(a.createdAt, row.createdAt)
  }

  // ---------- images of a whole source ----------

  ghost predicate UserImage(src: Source, id: Id, row: User) {
    exists u :: UserMigrates(src, u) && u.id == id && CameFromUser(u, row)
  }

  ghost predicate SessionImage(src: Source, agent: int, id: Id, row: Session) {
    exists s :: SessionMigrates(src, s) && s.id == id && CameFromSession(s, agent, row)
  }

  ghost predicate MessageImage(src: Source, agent: int, id: Id, row: Message) {
    exists m :: MessageMigrates(src, m) && m.id == id && CameFromMessage(m, agent, row)
  }

  ghost predicate AttachmentImage(src: Source, id: Id, row: Attachment) {
    exists a :: AttachmentMigrates(src, a) && a.id == id && CameFromAttachment(a, row)
  }

  // Every row came from a source row and kept its id.
  ghost predicate PartialImage(src: Source, agent: int, db: Db) {
    && (forall id :: id in db.users ==> UserImage(src, id, db.users[id]))
    && (forall id :: id in db.sessions ==> SessionImage(src, agent, id, db.sessions[id]))
    && (forall id :: id in db.messages ==> MessageImage(src, agent, id, db.messages[id]))
    && (forall id :: id in db.attachments ==> AttachmentImage(src, id, db.attachments[id]))
  }

  ghost predicate UsersPresent(src: Source, db: Db) {
    forall u :: UserMigrates(src, u) ==> u.id in db.users
  }

  ghost predicate SessionsPresent(src: Source, db: Db) {
    forall s :: SessionMigrates(src, s) ==> s.id in db.sessions
  }

  ghost predicate MessagesPresent(src: Source, db: Db) {
    forall m :: MessageMigrates(src, m) ==> m.id in db.messages
  }

  ghost predicate AttachmentsPresent(src: Source, db: Db) {
    forall a :: AttachmentMigrates(src, a) ==> a.id in db.attachments
  }

  // The source's previous message when it migrated, null otherwise.
  ghost predicate ParentsLinked(src: Source, db: Db) {
    forall m :: MessageMigrates(src, m) && m.id in db.messages ==>
                  db.messages[m.id].parent ==
                  if m.previousId.Some? && m.previousId.value in db.messages then m.previousId else None
  }

  // ... and every row that migrates is there, with its parent linked.
  ghost predicate FullImage(src: Source, agent: int, db: Db) {
    && PartialImage(src, agent, db)
    && UsersPresent(src, db) && SessionsPresent(src, db) && MessagesPresent(src, db) && AttachmentsPresent(src, db)
    && ParentsLinked(src, db)
  }

  // The id maps of such runs send every id to itself.
  ghost predicate KeepsIds(idMap: map<Id, Id>) {
    forall k :: k in idMap ==> idMap[k] == k
  }

  // ---------- adding an image row ----------

  lemma AddUserImage(src: Source, agent: int, db: Db, id: Id, row: User)
    requires PartialImage(src, agent, db) && UserImage(src, id, row)
    ensures PartialImage(src, agent, db.(users := db.users[id := row]))
  {
  }

  lemma AddSessionImage(src: Source, agent: int, db: Db, id: Id, row: Session)
    requires PartialImage(src, agent, db) && SessionImage(src, agent, id, row)
    ensures PartialImage(src, agent, db.(sessions := db.sessions[id := row]))
  {
  }

  lemma AddMessageImage(src: Source, agent: int, db: Db, id: Id, row: Message)
    requires PartialImage(src, agent, db) && MessageImage(src, agent, id, row)
    ensures PartialImage(src, agent, db.(messages := db.messages[id := row]))
  {
  }

  lemma AddAttachmentImage(src: Source, agent: int, db: Db, id: Id, row: Attachment)
    requires PartialImage(src, agent, db) && AttachmentImage(src, id, row)
    ensures PartialImage(src, agent, db.(attachments := db.attachments[id := row]))
  {
  }

  // ---------- row steps on a partial image ----------

  lemma UserStepOnImage(src: Source, agent: int, u: SrcUser, fault: Fault, before: Db, after: Db, r: Option<Id>)
    requires DistinctUsers(src) && PartialImage(src, agent, before)
    requires u in src.users && UserStep(u, fault, before, after, r)
    ensures PartialImage(src, agent, after)
    ensures r == None || (r == Some(u.id) && u.id in after.users)
    ensures fault == NoFault ==> (r.Some? <==> UserMigrates(src, u))
    ensures u.id in before.users ==> after == before
    ensures after != before ==> UserMigrates(src, u)
  {
    if u.email != "" {
      if id :| IsUser(before, id, u.email) {
        assert UserImage(src, id, before.users[id]);
      }
      if u.id in before.users {
        assert UserImage(src, u.id, before.users[u.id]);
        assert IsUser(before, u.id, u.email);
      }
      if id :| id in before.users && before.users[id].username == u.email {
        assert UserImage(src, id, before.users[id]);
        assert IsUser(before, id, u.email);
      }
      assert UserImage(src, u.id, NewUser(u));
      AddUserImage(src, agent, before, u.id, NewUser(u));
    }
  }

  // In an image, the lookup of a session finds exactly the row with its own id,
  // and refreshing that row does not change it.
  lemma SessionLookupOnImage(src: Source, agent: int, s: SrcSession, id: Id, row: Session, now: Time)
    requires DistinctSessions(src) && s in src.sessions && SessionImage(src, agent, id, row)
    ensures s.userId.Some? && SameSession(row, s.userId.value, s, now) <==> id == s.id
    ensures id == s.id ==> RefreshedSession(row, s, agent) == row
  {
    var t :| SessionMigrates(src, t) && t.id == id && CameFromSession(t, agent, row);
    if s.userId.Some? && SameSession(row, s.userId.value, s, now) {
      assert SessionsMayCollide(s, t);
    }
  }

  // So a step on such a table either inserts the row under its own id or finds it unchanged.
  lemma SessionStepOnUniqueKey(s: SrcSession, umap: map<Id, Id>, agent: int, now: Time, before: Db, after: Db,
                               r: Option<Id>)
    requires SessionStep(s, umap, agent, now, NoFault, before, after, r)
    requires s.userId.Some? && s.userId.value in umap && umap[s.userId.value] in before.users
    requires forall id :: id in before.sessions ==>
                            (SameSession(before.sessions[id], umap[s.userId.value], s, now) <==> id == s.id)
    requires s.id in before.sessions ==> RefreshedSession(before.sessions[s.id], s, agent) == before.sessions[s.id]
    ensures r == Some(s.id)
    ensures if s.id in before.sessions then after == before
            else after == before.(sessions := before.sessions[s.id := NewSession(s, umap[s.userId.value], agent, now)])
  {
    if s.id in before.sessions {
      assert IsSession(before, s.id, umap[s.userId.value], s, now);
      assert after.sessions == before.sessions;
    }
  }

  lemma SessionStepOnImage(src: Source, agent: int, umap: map<Id, Id>, s: SrcSession, now: Time, fault: Fault,
                           before: Db, after: Db, r: Option<Id>)
    requires DistinctSessions(src) && PartialImage(src, agent, before)
    requires KeepsIds(umap) && Lands(umap, before.users)
    requires s in src.sessions && SessionStep(s, umap, agent, now, fault, before, after, r)
    ensures PartialImage(src, agent, after)
    ensures r == None || (r == Some(s.id) && s.id in after.sessions)
    ensures fault == NoFault ==> (r.Some? <==> s.userId.Some? && s.userId.value in umap)
    ensures s.id in before.sessions ==> after == before
    ensures after != before ==> SessionMigrates(src, s)
  {
    if s.userId.Some? && s.userId.value in umap && fault == NoFault {
      var userId := umap[s.userId.value];
      forall id | id in before.sessions
        ensures SameSession(before.sessions[id], userId, s, now) <==> id == s.id
        ensures id == s.id ==> RefreshedSession(before.sessions[id], s, agent) == before.sessions[id]
      {
        SessionLookupOnImage(src, agent, s, id, before.sessions[id], now);
      }
      SessionStepOnUniqueKey(s, umap, agent, now, before, after, r);
      if s.id !in before.sessions {
        var row := NewSession(s, userId, agent, now);
        assert UserImage(src, userId, before.users[userId]);
        assert SessionMigrates(src, s) && CameFromSession(s, agent, row);
        AddSessionImage(src, agent, before, s.id, row);
      }
    }
  }

  lemma MessageLookupOnImage(src: Source, agent: int, m: SrcMessage, id: Id, row: Message, now: Time)
    requires DistinctMessages(src) && m in src.messages && MessageImage(src, agent, id, row)
    ensures m.conversationId.Some? && SameMessage(row, m.conversationId.value, m, now) <==> id == m.id
    ensures id == m.id ==> RefreshedMessage(row, m, agent) == row
  {
    var t :| MessageMigrates(src, t) && t.id == id && CameFromMessage(t, agent, row);
    if m.conversationId.Some? && SameMessage(row, m.conversationId.value, m, now) {
      assert KeyedMessage(t) && KeyedMessage(m);
      assert MessagesMayCollide(m, t);
    }
  }

  lemma MessageStepOnUniqueKey(m: SrcMessage, smap: map<Id, Id>, agent: int, now: Time, before: Db, after: Db,
                               r: Option<Id>)
    requires MessageStep(m, smap, agent, now, NoFault, before, after, r)
    requires m.conversationId.Some? && m.conversationId.value in smap
    requires smap[m.conversationId.value] in before.sessions
    requires before.sessions[smap[m.conversationId.value]].userId in before.users
    requires forall id :: id in before.messages ==>
                            (SameMessage(before.messages[id], smap[m.conversationId.value], m, now) <==> id == m.id)
    requires m.id in before.messages ==> RefreshedMessage(before.messages[m.id], m, agent) == before.messages[m.id]
    ensures r == Some(m.id)
    ensures if m.id in before.messages then after == before
            else after == before.(messages := before.messages[m.id :=
                   NewMessage(m, smap[m.conversationId.value],
                              before.sessions[smap[m.conversationId.value]].userId, agent, now)])
  {
    if m.id in before.messages {
      assert IsMessage(before, m.id, smap[m.conversationId.value], m, now);
      assert after.messages == before.messages;
    }
  }

  lemma MessageStepOnImage(src: Source, agent: int, smap: map<Id, Id>, m: SrcMessage, now: Time, fault: Fault,
                           before: Db, after: Db, r: Option<Id>)
    requires DistinctMessages(src) && PartialImage(src, agent, before)
    requires Consistent(before) && KeepsIds(smap) && Lands(smap, before.sessions)
    requires m in src.messages && MessageStep(m, smap, agent, now, fault, before, after, r)
    ensures PartialImage(src, agent, after)
    ensures r == None || (r == Some(m.id) && m.id in after.messages)
    ensures fault == NoFault ==> (r.Some? <==> m.conversationId.Some? && m.conversationId.value in smap)
    ensures m.id in before.messages ==> after == before
    ensures after != before ==> MessageMigrates(src, m)
  {
    if m.conversationId.Some? && m.conversationId.value in smap && fault == NoFault {
      var sessionId := smap[m.conversationId.value];
      assert SessionRefs(before, before.sessions[sessionId]);
      forall id | id in before.messages
        ensures SameMessage(before.messages[id], sessionId, m, now) <==> id == m.id
        ensures id == m.id ==> RefreshedMessage(before.messages[id], m, agent) == before.messages[id]
      {
        MessageLookupOnImage(src, agent, m, id, before.messages[id], now);
      }
      MessageStepOnUniqueKey(m, smap, agent, now, before, after, r);
      if m.id !in before.messages {
        var row := NewMessage(m, sessionId, before.sessions[sessionId].userId, agent, now);
        assert SessionImage(src, agent, sessionId, before.sessions[sessionId]);
        assert MessageMigrates(src, m) && CameFromMessage(m, agent, row);
        AddMessageImage(src, agent, before, m.id, row);
      }
    }
  }

  lemma AttachmentLookupOnImage(src: Source, a: SrcAttachment, id: Id, row: Attachment)
    requires DistinctAttachments(src) && a in src.attachments && AttachmentImage(src, id, row)
    ensures a.messageId.Some? && SameFile(row, a.messageId.value, a.name) <==> id == a.id
    ensures !HasUrls(row)
  {
    var t :| AttachmentMigrates(src, t) && t.id == id && CameFromAttachment(t, row);
    if a.messageId.Some? && SameFile(row, a.messageId.value, a.name) {
      assert AttachmentsCollide(a, t);
    }
  }

  lemma AttachmentStepOnImage(src: Source, agent: int, mmap: map<Id, Id>, a: SrcAttachment, now: Time, fault: Fault,
                              before: Db, after: Db, ok: bool, action: Action)
    requires DistinctAttachments(src) && PartialImage(src, agent, before)
    requires Consistent(before) && KeepsIds(mmap) && Lands(mmap, before.messages)
    requires a in src.attachments && AttachmentStep(a, mmap, now, fault, before, after, ok, action)
    ensures PartialImage(src, agent, after)
    ensures action != Updated
    ensures fault == NoFault ==> (ok <==> a.messageId.Some? && a.messageId.value in mmap)
    ensures ok ==> a.id in after.attachments
    ensures a.id in before.attachments ==> after == before && action == Skipped
    ensures after != before ==> AttachmentMigrates(src, a)
  {
    if a.messageId.Some? && a.messageId.value in mmap && fault != ReadFails {
      var messageId := mmap[a.messageId.value];
      assert MessageRefs(before, before.messages[messageId]);
      forall id | id in before.attachments
        ensures IsFile(before, id, messageId, a.name) <==> id == a.id
        ensures !HasUrls(before.attachments[id])
      {
        AttachmentLookupOnImage(src, a, id, before.attachments[id]);
      }
      if a.id !in before.attachments {
        var row := NewAttachment(a, messageId, before.messages[messageId].userId, now);
        assert MessageImage(src, agent, messageId, before.messages[messageId]);
        assert AttachmentMigrates(src, a) && CameFromAttachment(a, row);
        AddAttachmentImage(src, agent, before, a.id, row);
      }
    }
  }
}
