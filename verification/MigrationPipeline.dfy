// The migration itself: a target session with its uncommitted and committed
// state, one method per row, and one loop per stage.
module MigrationPipeline {
  import opened Basics
  import opened MigrationModel
  import opened MigrationSafety
  import opened MigrationExecution

  // The links of a longer prefix of the rows extend those of a shorter one.
  lemma {:induction false} LinksOfPrefix(rows: seq<SrcMessage>, mmap: map<Id, Id>, i: nat)
    requires i <= |rows|
    ensures LinksOf(rows[..i], mmap) <= LinksOf(rows, mmap)
  {
    if i < |rows| {
      assert rows[..|rows| - 1][..i] == rows[..i];
      LinksOfPrefix(rows[..|rows| - 1], mmap, i);
    } else {
      assert rows[..i] == rows;
    }
  }

  lemma LinksOfStep(rows: seq<SrcMessage>, mmap: map<Id, Id>, i: nat)
    requires i < |rows|
    ensures if Links(rows[i], mmap)
            then var link := (mmap[rows[i].id], mmap[rows[i].previousId.value]);
                 && LinksOf(rows[..i + 1], mmap) == LinksOf(rows[..i], mmap) + [link]
                 && LinksOf(rows[..i], mmap) + [link] <= LinksOf(rows, mmap)
            else LinksOf(rows[..i + 1], mmap) == LinksOf(rows[..i], mmap)
  {
    LinksOfPrefix(rows, mmap, i + 1);
    assert rows[..i + 1][..i] == rows[..i];
  }

  lemma LinkOneMore(start: Db, db: Db, links: seq<(Id, Id)>, k: nat, child: Id, parent: Id)
    requires LinkedUpTo(start, db, links, k) && links[..k] + [(child, parent)] <= links
    ensures LinkedUpTo(start, db.(messages := Link(db.messages, child, parent)), links, k + 1)
    ensures links[..k + 1] == links[..k] + [(child, parent)]
  {
    assert links[..k + 1] == links[..k] + [(child, parent)];
    assert links[..k + 1][..k] == links[..k];
  }

  // The pass has met the first i rows and applied `count` links, of which whole
  // batches are committed, and no failure that was due has been passed over.
  ghost predicate Linking(start: Db, live: Db, saved: Db, rows: seq<SrcMessage>, mmap: map<Id, Id>, i: nat, count: nat,
                          fault: LinkFault)
    requires i <= |rows|
  {
    var all := LinksOf(rows, mmap);
    && LinkedUpTo(start, live, all, count) && LinksOf(rows[..i], mmap) == all[..count]
    && LinkedUpTo(start, saved, all, Committed(count))
    && (fault.UpdateLost? ==> count <= fault.applied)
    && (fault.CommitLost? && 0 < fault.applied <= count ==> fault.applied % BATCH != 0)
  }

  // A row that links nothing leaves the pass as it is.
  lemma LinkingSkips(start: Db, live: Db, saved: Db, rows: seq<SrcMessage>, mmap: map<Id, Id>, i: nat, count: nat,
                     fault: LinkFault)
    requires i < |rows| && Linking(start, live, saved, rows, mmap, i, count, fault) && !Links(rows[i], mmap)
    ensures Linking(start, live, saved, rows, mmap, i + 1, count, fault)
  {
    LinksOfStep(rows, mmap, i);
  }

  // A row that links takes the pass one link further, unless its update or the
  // commit that is then due fails: what is saved is then what Persisted says.
  lemma LinkingAdvances(start: Db, live: Db, saved: Db, rows: seq<SrcMessage>, mmap: map<Id, Id>, i: nat, count: nat,
                        fault: LinkFault)
    requires i < |rows| && Linking(start, live, saved, rows, mmap, i, count, fault) && Links(rows[i], mmap)
    ensures var n := |LinksOf(rows, mmap)|;
            var after := live.(messages := Link(live.messages, mmap[rows[i].id], mmap[rows[i].previousId.value]));
            var due := (count + 1) % BATCH == 0;
            && (fault == UpdateLost(count) || (due && fault == CommitLost(count + 1)) ==>
                  Persisted(n, fault) == Committed(count))
            && (fault != UpdateLost(count) && !(due && fault == CommitLost(count + 1)) ==>
                  Linking(start, after, if due then after else saved, rows, mmap, i + 1, count + 1, fault))
  {
    LinksOfStep(rows, mmap, i);
    LinkOneMore(start, live, LinksOf(rows, mmap), count, mmap[rows[i].id], mmap[rows[i].previousId.value]);
    CommittedStep(count);
  }

  // ---------- the target session ----------

  class TargetSession {
    var live: Db   // what the open transaction sees
    var saved: Db  // what the last commit left

    constructor (db: Db)
      ensures live == db && saved == db
    {
      live, saved := db, db;
    }

    method Commit()
      modifies this
      ensures saved == live == old(live)
    {
      saved := live;
    }

    method Rollback()
      modifies this
      ensures live == saved == old(saved)
    {
      live := saved;
    }

    // ---------- lookups: any matching row may come first ----------

    method FindUser(email: string) returns (r: Option<Id>)
      ensures r.None? ==> forall id :: !IsUser(live, id, email)
      ensures r.Some? ==> IsUser(live, r.value, email)
    {
      if id :| id in live.users && SameEmail(live.users[id], email) {
        return Some(id);
      }
      return None;
    }

    method FindSession(userId: Id, s: SrcSession, now: Time) returns (r: Option<Id>)
      ensures r.None? ==> forall id :: !IsSession(live, id, userId, s, now)
      ensures r.Some? ==> IsSession(live, r.value, userId, s, now)
    {
      if id :| id in live.sessions && SameSession(live.sessions[id], userId, s, now) {
        return Some(id);
      }
      return None;
    }

    method FindMessage(sessionId: Id, m: SrcMessage, now: Time) returns (r: Option<Id>)
      ensures r.None? ==> forall id :: !IsMessage(live, id, sessionId, m, now)
      ensures r.Some? ==> IsMessage(live, r.value, sessionId, m, now)
    {
      if id :| id in live.messages && SameMessage(live.messages[id], sessionId, m, now) {
        return Some(id);
      }
      return None;
    }

    method FindFile(messageId: Id, name: string) returns (r: Option<Id>)
      ensures r.None? ==> forall id :: !IsFile(live, id, messageId, name)
      ensures r.Some? ==> IsFile(live, r.value, messageId, name)
    {
      if id :| id in live.attachments && SameFile(live.attachments[id], messageId, name) {
        return Some(id);
      }
      return None;
    }

    // ---------- one row ----------

    method MigrateUser(u: SrcUser, fault: Fault) returns (r: Option<Id>)
      requires live == saved
      modifies this
      ensures live == saved && UserStep(u, fault, old(live), live, r)
    {
      if u.email == "" {
        return None;
      }
      if fault == ReadFails {
        Rollback();
        return None;
      }
      var existing := FindUser(u.email);
      if existing.Some? {
        assert IsUser(live, existing.value, u.email);
        return existing;
      }
      if fault == WriteFails || u.id in live.users
         || exists id :: id in live.users && live.users[id].username == u.email {
        Rollback();
        return None;
      }
      live := live.(users := live.users[u.id := NewUser(u)]);
      if fault == CommitFails {
        Rollback();
        return None;
      }
      Commit();
      return Some(u.id);
    }

    method MigrateSession(s: SrcSession, umap: map<Id, Id>, agent: int, now: Time, fault: Fault) returns (r: Option<Id>)
      requires live == saved
      modifies this
      ensures live == saved && SessionStep(s, umap, agent, now, fault, old(live), live, r)
    {
      if s.userId.None? || s.userId.value !in umap {
        return None;
      }
      var userId := umap[s.userId.value];
      if fault == ReadFails {
        Rollback();
        return None;
      }
      var existing := FindSession(userId, s, now);
      if fault == WriteFails {
        Rollback();
        return None;
      }
      if existing.Some? {
        var id := existing.value;
        assert IsSession(live, id, userId, s, now);
        live := live.(sessions := live.sessions[id := RefreshedSession(live.sessions[id], s, agent)]);
        if fault == CommitFails {
          Rollback();
          return None;
        }
        Commit();
        return existing;
      }
      if s.id in live.sessions || userId !in live.users {
        Rollback();
        return None;
      }
      live := live.(sessions := live.sessions[s.id := NewSession(s, userId, agent, now)]);
      if fault == CommitFails {
        Rollback();
        return None;
      }
      Commit();
      return Some(s.id);
    }

    method MigrateMessage(m: SrcMessage, smap: map<Id, Id>, agent: int, now: Time, fault: Fault) returns (r: Option<Id>)
      requires live == saved
      modifies this
      ensures live == saved && MessageStep(m, smap, agent, now, fault, old(live), live, r)
    {
      if m.conversationId.None? || m.conversationId.value !in smap {
        return None;
      }
      var sessionId := smap[m.conversationId.value];
      if fault == ReadFails {
        Rollback();
        return None;
      }
      if sessionId !in live.sessions {
        return None;
      }
      var userId := live.sessions[sessionId].userId;
      var existing := FindMessage(sessionId, m, now);
      if fault == WriteFails {
        Rollback();
        return None;
      }
      if existing.Some? {
        var id := existing.value;
        assert IsMessage(live, id, sessionId, m, now);
        live := live.(messages := live.messages[id := RefreshedMessage(live.messages[id], m, agent)]);
        if fault == CommitFails {
          Rollback();
          return None;
        }
        Commit();
        return existing;
      }
      if m.id in live.messages || userId !in live.users {
        Rollback();
        return None;
      }
      live := live.(messages := live.messages[m.id := NewMessage(m, sessionId, userId, agent, now)]);
      if fault == CommitFails {
        Rollback();
        return None;
      }
      Commit();
      return Some(m.id);
    }

    method BlankUrls(id: Id, fault: Fault) returns (ok: bool, action: Action)
      requires live == saved && id in live.attachments
      modifies this
      ensures live == saved && BlankStep(id, fault, old(live), live, ok, action)
    {
      if !HasUrls(live.attachments[id]) {
        return true, Skipped;
      }
      live := live.(attachments := live.attachments[id := live.attachments[id].(blobUrl := "", blobName := "")]);
      if fault != NoFault {
        Rollback();
        return false, Skipped;
      }
      Commit();
      return true, Updated;
    }

    method MigrateAttachment(a: SrcAttachment, mmap: map<Id, Id>, now: Time, fault: Fault)
      returns (ok: bool, action: Action)
      requires live == saved
      modifies this
      ensures live == saved && AttachmentStep(a, mmap, now, fault, old(live), live, ok, action)
    {
      if a.messageId.None? || a.messageId.value !in mmap {
        return false, Skipped;
      }
      var messageId := mmap[a.messageId.value];
      if fault == ReadFails {
        Rollback();
        return false, Skipped;
      }
      if messageId !in live.messages {
        return false, Skipped;
      }
      var userId := live.messages[messageId].userId;
      if a.id in live.attachments {
        ok, action := BlankUrls(a.id, fault);
        return;
      }
      var duplicate := FindFile(messageId, a.name);
      if duplicate.Some? {
        assert IsFile(live, duplicate.value, messageId, a.name);
        ok, action := BlankUrls(duplicate.value, fault);
        return;
      }
      if fault == WriteFails || userId !in live.users {
        Rollback();
        return false, Skipped;
      }
      live := live.(attachments := live.attachments[a.id := NewAttachment(a, messageId, userId, now)]);
      if fault == CommitFails {
        Rollback();
        return false, Skipped;
      }
      Commit();
      return true, Created;
    }

    // ---------- stages ----------

    method MigrateUsers(src: Source, o: Oracle) returns (umap: map<Id, Id>, ghost t: Trace<Option<Id>>)
      requires live == saved
      modifies this
      ensures live == saved
      ensures UsersTraced(src.users, o, t, umap) && t.First() == old(live) && t.Last() == live
    {
      umap := map[];
      t := Trace([live], []);
      for i := 0 to |src.users|
        invariant live == saved
        invariant UsersTraced(src.users[..i], o, t, umap) && t.First() == old(live) && t.Last() == live
      {
        var r := MigrateUser(src.users[i], o.userFault(i));
        UserTraced(src.users, i, o, t, umap, live, r);
        umap, t := Extended(umap, src.users[i].id, r), Then(t, live, r);
      }
      assert src.users[..|src.users|] == src.users;
    }

    method MigrateSessions(src: Source, umap: map<Id, Id>, agent: int, o: Oracle)
      returns (smap: map<Id, Id>, ghost t: Trace<Option<Id>>)
      requires live == saved
      modifies this
      ensures live == saved
      ensures SessionsTraced(src.sessions, umap, agent, o, t, smap) && t.First() == old(live) && t.Last() == live
    {
      smap := map[];
      t := Trace([live], []);
      for i := 0 to |src.sessions|
        invariant live == saved
        invariant SessionsTraced(src.sessions[..i], umap, agent, o, t, smap)
        invariant t.First() == old(live) && t.Last() == live
      {
        var r := MigrateSession(src.sessions[i], umap, agent, o.clock(i), o.sessionFault(i));
        SessionTraced(src.sessions, i, umap, agent, o, t, smap, live, r);
        smap, t := Extended(smap, src.sessions[i].id, r), Then(t, live, r);
      }
      assert src.sessions[..|src.sessions|] == src.sessions;
    }

    method MigrateMessages(src: Source, smap: map<Id, Id>, agent: int, o: Oracle)
      returns (mmap: map<Id, Id>, ghost t: Trace<Option<Id>>)
      requires live == saved
      modifies this
      ensures live == saved
      ensures MessagesTraced(src.messages, smap, agent, o, t, mmap) && t.First() == old(live) && t.Last() == live
    {
      mmap := map[];
      t := Trace([live], []);
      for i := 0 to |src.messages|
        invariant live == saved
        invariant MessagesTraced(src.messages[..i], smap, agent, o, t, mmap)
        invariant t.First() == old(live) && t.Last() == live
      {
        var r := MigrateMessage(src.messages[i], smap, agent, o.clock(i), o.messageFault(i));
        MessageTraced(src.messages, i, smap, agent, o, t, mmap, live, r);
        mmap, t := Extended(mmap, src.messages[i].id, r), Then(t, live, r);
      }
      assert src.messages[..|src.messages|] == src.messages;
    }

    // Each counter is the number of rows with that outcome.
    method MigrateAttachments(src: Source, mmap: map<Id, Id>, o: Oracle) returns (stats: Stats, ghost t: Trace<Outcome>)
      requires live == saved
      modifies this
      ensures live == saved
      ensures AttachmentsTraced(src.attachments, mmap, o, t, stats) && t.First() == old(live) && t.Last() == live
    {
      stats := Stats(0, 0, 0);
      t := Trace([live], []);
      for i := 0 to |src.attachments|
        invariant live == saved
        invariant AttachmentsTraced(src.attachments[..i], mmap, o, t, stats)
        invariant t.First() == old(live) && t.Last() == live
      {
        var ok, action := MigrateAttachment(src.attachments[i], mmap, o.clock(i), o.attachmentFault(i));
        AttachmentTraced(src.attachments, i, mmap, o, t, stats, live, ok, action);
        stats, t := Counted(stats, OutcomeOf(ok, action)), Then(t, live, OutcomeOf(ok, action));
      }
      assert src.attachments[..|src.attachments|] == src.attachments;
    }

    // The foreign key on parent_message_id holds because the map lands.
    method UpdateMessageParents(rows: seq<SrcMessage>, mmap: map<Id, Id>, fault: LinkFault)
      requires live == saved && Lands(mmap, live.messages)
      modifies this
      ensures live == saved
      ensures var links := LinksOf(rows, mmap);
              LinkedUpTo(old(live), live, links, Persisted(|links|, fault))
    {
      var count: nat := 0;
      for i := 0 to |rows|
        invariant Linking(old(live), live, saved, rows, mmap, i, count, fault)
      {
        var m := rows[i];
        if Links(m, mmap) {
          LinkingAdvances(old(live), live, saved, rows, mmap, i, count, fault);
          if fault == UpdateLost(count) {
            Rollback();
            return;
          }
          live := live.(messages := Link(live.messages, mmap[m.id], mmap[m.previousId.value]));
          count := count + 1;
          if count % BATCH == 0 {
            if fault == CommitLost(count) {
              Rollback();
              return;
            }
            Commit();
          }
        } else {
          LinkingSkips(old(live), live, saved, rows, mmap, i, count, fault);
        }
      }
      assert rows[..|rows|] == rows;
      if fault == CommitLost(count) {
        Rollback();
        return;
      }
      Commit();
    }
  }
}
