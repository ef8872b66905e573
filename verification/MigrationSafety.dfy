// What every row step of the migration keeps, for any source, any consistent
// target and any failures: foreign keys resolve, the id maps land on existing
// rows, owners agree along the session -> message -> attachment chain, and no
// target row is lost or moved.
module MigrationSafety {
  import opened Basics
  import opened MigrationModel

  // ---------- foreign keys ----------

  ghost predicate SessionRefs(db: Db, row: Session) {
    row.userId in db.users
  }

  ghost predicate MessageRefs(db: Db, row: Message) {
    && row.sessionId in db.sessions
    && row.userId in db.users
    && (row.parent.Some? ==> row.parent.value in db.messages)
  }

  ghost predicate AttachmentRefs(db: Db, row: Attachment) {
    && row.userId in db.users
    && (row.messageId.Some? ==> row.messageId.value in db.messages)
  }

  ghost predicate SessionsResolve(db: Db) {
    forall id :: id in db.sessions ==> SessionRefs(db, db.sessions[id])
  }

  ghost predicate MessagesResolve(db: Db) {
    forall id :: id in db.messages ==> MessageRefs(db, db.messages[id])
  }

  ghost predicate Consistent(db: Db) {
    && (forall id :: id in db.sessions ==> SessionRefs(db, db.sessions[id]))
    && (forall id :: id in db.messages ==> MessageRefs(db, db.messages[id]))
    && (forall id :: id in db.attachments ==> AttachmentRefs(db, db.attachments[id]))
  }

  // ---------- nothing lost or moved ----------

  // The columns that place a row never change once the row exists.
  predicate SamePlace(a: Session, b: Session) {
    && a.userId == b.userId && a.graphId == b.graphId && a.createdAt == b.createdAt
    && a.deletedAt == b.deletedAt && a.info == b.info
  }

  predicate SameThread(a: Message, b: Message) {
    && a.sessionId == b.sessionId && a.userId == b.userId && a.content == b.content && a.isReply == b.isReply
    && a.sentAt == b.sentAt && a.createdAt == b.createdAt && a.info == b.info
  }

  // URLs either stay or are blanked together.
  predicate SameUpload(a: Attachment, b: Attachment) {
    && a.messageId == b.messageId && a.entityId == b.entityId && a.userId == b.userId
    && a.fileName == b.fileName && a.isActive == b.isActive && a.createdAt == b.createdAt && a.info == b.info
    && ((a.blobUrl == b.blobUrl && a.blobName == b.blobName) || !HasUrls(b))
  }

  ghost predicate Grows(base: Db, db: Db) {
    && (forall id :: id in base.users ==> id in db.users && db.users[id] == base.users[id])
    && (forall id :: id in base.sessions ==> id in db.sessions && SamePlace(base.sessions[id], db.sessions[id]))
    && (forall id :: id in base.messages ==> id in db.messages && SameThread(base.messages[id], db.messages[id]))
    && (forall id :: id in base.attachments ==>
          id in db.attachments && SameUpload(base.attachments[id], db.attachments[id]))
  }

  // ---------- owners ----------

  ghost predicate MessageOwned(db: Db, row: Message) {
    row.sessionId in db.sessions && row.userId == db.sessions[row.sessionId].userId
  }

  ghost predicate AttachmentOwned(db: Db, row: Attachment) {
    && row.messageId.Some? && row.messageId.value in db.messages
    && row.entityId == row.messageId
    && row.userId == db.messages[row.messageId.value].userId
  }

  // Rows that were not in `base` belong to the owner of the row they hang from.
  ghost predicate OwnersAgree(base: Db, db: Db) {
    && (forall id :: id in db.messages && id !in base.messages ==> MessageOwned(db, db.messages[id]))
    && (forall id :: id in db.attachments && id !in base.attachments ==>
          AttachmentOwned(db, db.attachments[id]) && !HasUrls(db.attachments[id]))
  }

  ghost predicate Safe(base: Db, db: Db) {
    Consistent(db) && Grows(base, db) && OwnersAgree(base, db)
  }

  lemma SafeAtStart(db: Db)
    requires Consistent(db)
    ensures Safe(db, db)
  {
  }

  ghost predicate Lands<V>(idMap: map<Id, Id>, table: map<Id, V>) {
    forall k :: k in idMap ==> idMap[k] in table
  }

  // ---------- a database that only grows by well-placed rows stays safe ----------

  // New rows resolve, a changed parent resolves, and new rows have the right owner.
  ghost predicate WellPlaced(db: Db, after: Db) {
    && (forall id :: id in after.sessions && id !in db.sessions ==> SessionRefs(after, after.sessions[id]))
    && (forall id :: id in after.messages && id !in db.messages ==>
          MessageRefs(after, after.messages[id]) && MessageOwned(after, after.messages[id]))
    && (forall id :: id in after.messages && id in db.messages
                     && after.messages[id].parent != db.messages[id].parent ==>
                       after.messages[id].parent.Some? && after.messages[id].parent.value in after.messages)
    && (forall id :: id in after.attachments && id !in db.attachments ==>
          && AttachmentRefs(after, after.attachments[id])
          && AttachmentOwned(after, after.attachments[id])
          && !HasUrls(after.attachments[id]))
  }

  lemma GrowsTransitive(base: Db, db: Db, after: Db)
    requires Grows(base, db) && Grows(db, after)
    ensures Grows(base, after)
  {
    forall id | id in base.sessions ensures id in after.sessions && SamePlace(base.sessions[id], after.sessions[id]) {
      assert SamePlace(base.sessions[id], db.sessions[id]) && SamePlace(db.sessions[id], after.sessions[id]);
    }
    forall id | id in base.messages ensures id in after.messages && SameThread(base.messages[id], after.messages[id]) {
      assert SameThread(base.messages[id], db.messages[id]) && SameThread(db.messages[id], after.messages[id]);
    }
    forall id | id in base.attachments
      ensures id in after.attachments && SameUpload(base.attachments[id], after.attachments[id])
    {
      assert SameUpload(base.attachments[id], db.attachments[id])
             && SameUpload(db.attachments[id], after.attachments[id]);
    }
  }

  lemma GrowthKeepsRefs(db: Db, after: Db)
    requires Consistent(db) && Grows(db, after) && WellPlaced(db, after)
    ensures Consistent(after)
  {
    forall id | id in after.sessions ensures SessionRefs(after, after.sessions[id]) {
      if id in db.sessions {
        assert SamePlace(db.sessions[id], after.sessions[id]) && SessionRefs(db, db.sessions[id]);
      }
    }
    forall id | id in after.messages ensures MessageRefs(after, after.messages[id]) {
      if id in db.messages {
        assert SameThread(db.messages[id], after.messages[id]) && MessageRefs(db, db.messages[id]);
      }
    }
    forall id | id in after.attachments ensures AttachmentRefs(after, after.attachments[id]) {
      if id in db.attachments {
        assert SameUpload(db.attachments[id], after.attachments[id]) && AttachmentRefs(db, db.attachments[id]);
      }
    }
  }

  lemma GrowthKeepsOwners(base: Db, db: Db, after: Db)
    requires OwnersAgree(base, db) && Grows(db, after) && WellPlaced(db, after)
    ensures OwnersAgree(base, after)
  {
    forall id | id in after.messages && id !in base.messages ensures MessageOwned(after, after.messages[id]) {
      if id in db.messages {
        assert MessageOwned(db, db.messages[id]) && SameThread(db.messages[id], after.messages[id]);
        var s := db.messages[id].sessionId;
        assert SamePlace(db.sessions[s], after.sessions[s]);
      }
    }
    forall id | id in after.attachments && id !in base.attachments
      ensures AttachmentOwned(after, after.attachments[id]) && !HasUrls(after.attachments[id])
    {
      if id in db.attachments {
        assert AttachmentOwned(db, db.attachments[id]) && SameUpload(db.attachments[id], after.attachments[id]);
        var m := db.attachments[id].messageId.value;
        assert SameThread(db.messages[m], after.messages[m]);
      }
    }
  }

  lemma GrowthKeepsSafe(base: Db, db: Db, after: Db)
    requires Safe(base, db) && Grows(db, after) && WellPlaced(db, after)
    ensures Safe(base, after)
  {
    GrowsTransitive(base, db, after);
    GrowthKeepsRefs(db, after);
    GrowthKeepsOwners(base, db, after);
  }

  // ---------- every write of the pipeline is such a growth ----------

  ghost predicate Extends(db: Db, after: Db) {
    Grows(db, after) && WellPlaced(db, after)
  }

  lemma PutUser(db: Db, id: Id, row: User)
    requires id !in db.users
    ensures Extends(db, db.(users := db.users[id := row]))
  {
  }

  lemma PutSession(db: Db, id: Id, row: Session)
    requires if id in db.sessions then SamePlace(db.sessions[id], row) else SessionRefs(db, row)
    ensures Extends(db, db.(sessions := db.sessions[id := row]))
  {
  }

  lemma PutMessage(db: Db, id: Id, row: Message)
    requires if id in db.messages
             then SameThread(db.messages[id], row) && (row.parent == db.messages[id].parent || row.parent.Some?)
             else MessageOwned(db, row)
    requires MessageRefs(db, row)
    ensures Extends(db, db.(messages := db.messages[id := row]))
  {
  }

  lemma PutAttachment(db: Db, id: Id, row: Attachment)
    requires !HasUrls(row)
    requires if id in db.attachments then SameUpload(db.attachments[id], row)
             else AttachmentRefs(db, row) && AttachmentOwned(db, row)
    ensures Extends(db, db.(attachments := db.attachments[id := row]))
  {
  }

  // ---------- the row steps ----------

  lemma UserStepSafe(base: Db, u: SrcUser, fault: Fault, before: Db, after: Db, r: Option<Id>)
    requires Safe(base, before) && UserStep(u, fault, before, after, r)
    ensures Safe(base, after)
    ensures r.Some? ==> IsUser(after, r.value, u.email)
  {
    if after != before {
      PutUser(before, u.id, NewUser(u));
      GrowthKeepsSafe(base, before, after);
    }
  }

  lemma SessionStepSafe(base: Db, s: SrcSession, umap: map<Id, Id>, agent: int, now: Time, fault: Fault,
                        before: Db, after: Db, r: Option<Id>)
    requires Safe(base, before) && Lands(umap, before.users)
    requires SessionStep(s, umap, agent, now, fault, before, after, r)
    ensures Safe(base, after)
    ensures r.Some? ==>
              && r.value in after.sessions
              && s.userId.Some? && s.userId.value in umap
              && after.sessions[r.value].userId == umap[s.userId.value]
              && after.sessions[r.value].agentId == agent
  {
    if r.Some? {
      assert s.id !in before.sessions || r.value in before.sessions;
      PutSession(before, r.value, after.sessions[r.value]);
      GrowthKeepsSafe(base, before, after);
    }
  }

  lemma MessageStepSafe(base: Db, m: SrcMessage, smap: map<Id, Id>, agent: int, now: Time, fault: Fault,
                        before: Db, after: Db, r: Option<Id>)
    requires Safe(base, before)
    requires MessageStep(m, smap, agent, now, fault, before, after, r)
    ensures Safe(base, after)
    ensures r.Some? ==>
              && r.value in after.messages
              && m.conversationId.Some? && m.conversationId.value in smap
              && after.messages[r.value].sessionId == smap[m.conversationId.value]
              && after.messages[r.value].agentId == agent
  {
    if r.Some? {
      PutMessage(before, r.value, after.messages[r.value]);
      GrowthKeepsSafe(base, before, after);
    }
  }

  lemma AttachmentStepExtends(a: SrcAttachment, mmap: map<Id, Id>, now: Time, fault: Fault,
                              before: Db, after: Db, ok: bool, action: Action)
    requires forall id :: id in before.messages ==> MessageRefs(before, before.messages[id])
    requires AttachmentStep(a, mmap, now, fault, before, after, ok, action)
    ensures after == before || Extends(before, after)
    ensures after.attachments.Keys ==
            before.attachments.Keys + if ok && action == Created then {a.id} else {}
    ensures ok && action == Created ==> a.id !in before.attachments
  {
    if after != before {
      var id := if a.id in before.attachments || action == Created then a.id
                else var id :| IsFile(before, id, mmap[a.messageId.value], a.name)
                               && BlankStep(id, fault, before, after, ok, action); id;
      PutAttachment(before, id, after.attachments[id]);
    }
  }

  lemma AttachmentStepSafe(base: Db, a: SrcAttachment, mmap: map<Id, Id>, now: Time, fault: Fault,
                           before: Db, after: Db, ok: bool, action: Action)
    requires Safe(base, before)
    requires AttachmentStep(a, mmap, now, fault, before, after, ok, action)
    ensures Safe(base, after)
  {
    AttachmentStepExtends(a, mmap, now, fault, before, after, ok, action);
    if after != before {
      GrowthKeepsSafe(base, before, after);
    }
  }

  // A parent link between two existing messages.
  lemma LinkSafe(base: Db, db: Db, child: Id, parent: Id)
    requires Safe(base, db) && parent in db.messages
    ensures Safe(base, db.(messages := Link(db.messages, child, parent)))
  {
    if child in db.messages {
      assert MessageRefs(db, db.messages[child]);
      PutMessage(db, child, db.messages[child].(parent := Some(parent)));
      GrowthKeepsSafe(base, db, db.(messages := Link(db.messages, child, parent)));
    }
  }
}
