// The whole run, and what it means for the conversations it moves.
module MigrationRun {
  import opened Basics
  import opened MigrationModel
  import opened MigrationSafety
  import opened MigrationImage
  import opened MigrationLinks
  import opened MigrationExecution
  import opened MigrationAccounting
  import opened MigrationMerging
  import opened MigrationStages
  import opened MigrationPipeline

  // ---------- chaining the stages ----------

  ghost predicate UserMapComplete(src: Source, umap: map<Id, Id>) {
    KeepsIds(umap) && forall id :: id in umap <==> exists u :: UserMigrates(src, u) && u.id == id
  }

  ghost predicate SessionMapComplete(src: Source, smap: map<Id, Id>) {
    KeepsIds(smap) && forall id :: id in smap <==> exists s :: SessionMigrates(src, s) && s.id == id
  }

  ghost predicate MessageMapComplete(src: Source, mmap: map<Id, Id>) {
    KeepsIds(mmap) && forall id :: id in mmap <==> exists m :: MessageMigrates(src, m) && m.id == id
  }

  lemma UsersComplete(src: Source, agent: int, start: Db, db: Db, umap: map<Id, Id>)
    requires UsersProgress(src, agent, true, start, db, umap, |src.users|) && Lands(umap, db.users)
    ensures UserMapComplete(src, umap) && UsersPresent(src, db)
  {
    assert src.users[..|src.users|] == src.users;
    forall id | id in umap ensures exists u :: UserMigrates(src, u) && u.id == id {
      assert UserImage(src, id, db.users[id]);
    }
  }

  lemma SessionsComplete(src: Source, agent: int, umap: map<Id, Id>, start: Db, db: Db, smap: map<Id, Id>)
    requires SessionsProgress(src, agent, umap, true, start, db, smap, |src.sessions|) && Lands(smap, db.sessions)
    requires UserMapComplete(src, umap)
    ensures SessionMapComplete(src, smap) && SessionsPresent(src, db)
  {
    assert src.sessions[..|src.sessions|] == src.sessions;
    forall id | id in smap ensures exists s :: SessionMigrates(src, s) && s.id == id {
      assert SessionImage(src, agent, id, db.sessions[id]);
    }
    forall s | SessionMigrates(src, s) ensures s.id in smap {
      assert s.userId.value in umap;
    }
  }

  lemma MessagesComplete(src: Source, agent: int, smap: map<Id, Id>, start: Db, db: Db, mmap: map<Id, Id>)
    requires MessagesProgress(src, agent, smap, true, start, db, mmap, |src.messages|) && Lands(mmap, db.messages)
    requires SessionMapComplete(src, smap)
    ensures MessageMapComplete(src, mmap) && MessagesPresent(src, db)
  {
    assert src.messages[..|src.messages|] == src.messages;
    forall id | id in mmap ensures exists m :: MessageMigrates(src, m) && m.id == id {
      assert MessageImage(src, agent, id, db.messages[id]);
    }
    forall m | MessageMigrates(src, m) ensures m.id in mmap {
      assert m.conversationId.value in smap;
    }
  }

  lemma AttachmentsComplete(src: Source, agent: int, mmap: map<Id, Id>, start: Db, db: Db)
    requires AttachmentsProgress(src, agent, mmap, true, start, db, |src.attachments|)
    requires MessageMapComplete(src, mmap)
    ensures AttachmentsPresent(src, db)
  {
    assert src.attachments[..|src.attachments|] == src.attachments;
    forall a | AttachmentMigrates(src, a) ensures a.id in db.attachments {
      assert a.messageId.value in mmap;
    }
  }

  // The states a run goes through: the target before and after each stage.
  datatype Stages = Stages(db0: Db, db1: Db, db2: Db, db3: Db, db4: Db, db5: Db,
                           umap: map<Id, Id>, smap: map<Id, Id>, mmap: map<Id, Id>, stats: Stats)

  ghost predicate Chain(src: Source, agent: int, o: Oracle, g: Stages) {
    && UsersDone(src, agent, NoFaults(o.userFault), g.db0, g.db0, g.db1, g.umap, |src.users|)
    && SessionsDone(src, agent, g.umap, NoFaults(o.sessionFault), g.db0, g.db1, g.db2, g.smap, |src.sessions|)
    && MessagesDone(src, agent, g.smap, NoFaults(o.messageFault), g.db0, g.db2, g.db3, g.mmap, |src.messages|)
    && LinkedUpTo(g.db3, g.db4, LinksOf(src.messages, g.mmap),
                  Persisted(|LinksOf(src.messages, g.mmap)|, o.linkFault))
    && AttachmentsDone(src, agent, g.mmap, NoFaults(o.attachmentFault), g.db0, g.db4, g.db5, g.stats, |src.attachments|)
  }

  function StagesOf(x: Run): Stages
    requires x.users.dbs != [] && x.sessions.dbs != [] && x.messages.dbs != [] && x.attachments.dbs != []
  {
    Stages(x.users.dbs[0], x.users.dbs[|x.users.dbs| - 1], x.sessions.dbs[|x.sessions.dbs| - 1],
           x.messages.dbs[|x.messages.dbs| - 1], x.linked, x.attachments.dbs[|x.attachments.dbs| - 1],
           x.umap, x.smap, x.mmap, x.stats)
  }

  lemma LinkPassSafe(base: Db, db: Db, after: Db, rows: seq<SrcMessage>, mmap: map<Id, Id>, k: nat)
    requires Safe(base, db) && Lands(mmap, db.messages) && LinkedUpTo(db, after, LinksOf(rows, mmap), k)
    ensures Safe(base, after) && after.messages.Keys == db.messages.Keys
  {
    var links := LinksOf(rows, mmap);
    LinksComeFromRows(rows, mmap);
    forall link | link in links[..k] ensures link.1 in db.messages {
      assert LinkFrom(rows, mmap, link);
    }
    ApplyLinksSafe(base, db, links[..k]);
    ApplyLinksAt(db.messages, links[..k], 0);
  }

  lemma ExecutionUsers(src: Source, agent: int, o: Oracle, x: Run)
    requires MapsBuilt(src, agent, o, x) && Consistent(x.users.First())
    ensures UsersDone(src, agent, NoFaults(o.userFault), x.users.First(), x.users.First(), x.users.Last(), x.umap,
                      |src.users|)
  {
    SafeAtStart(x.users.First());
    UsersStage(src, agent, o, x.users.First(), x.users, |src.users|);
    assert src.users[..|src.users|] == src.users && x.users.answers[..|src.users|] == x.users.answers;
  }

  lemma ExecutionSessions(src: Source, agent: int, o: Oracle, x: Run)
    requires MapsBuilt(src, agent, o, x) && Safe(x.users.First(), x.users.Last()) && Lands(x.umap, x.users.Last().users)
    ensures SessionsDone(src, agent, x.umap, NoFaults(o.sessionFault), x.users.First(), x.users.Last(),
                         x.sessions.Last(), x.smap, |src.sessions|)
  {
    SessionsStage(src, agent, x.umap, o, x.users.First(), x.sessions, |src.sessions|);
    assert src.sessions[..|src.sessions|] == src.sessions;
    assert x.sessions.answers[..|src.sessions|] == x.sessions.answers;
  }

  lemma ExecutionMessages(src: Source, agent: int, o: Oracle, x: Run)
    requires MapsBuilt(src, agent, o, x)
    requires Safe(x.users.First(), x.sessions.Last()) && Lands(x.smap, x.sessions.Last().sessions)
    ensures MessagesDone(src, agent, x.smap, NoFaults(o.messageFault), x.users.First(), x.sessions.Last(),
                         x.messages.Last(), x.mmap, |src.messages|)
  {
    MessagesStage(src, agent, x.smap, o, x.users.First(), x.messages, |src.messages|);
    assert src.messages[..|src.messages|] == src.messages;
    assert x.messages.answers[..|src.messages|] == x.messages.answers;
  }

  lemma ExecutionAttachments(src: Source, agent: int, o: Oracle, x: Run)
    requires Execution(src, agent, o, x) && Safe(x.users.First(), x.linked) && Lands(x.mmap, x.linked.messages)
    ensures AttachmentsDone(src, agent, x.mmap, NoFaults(o.attachmentFault), x.users.First(), x.linked,
                            x.attachments.Last(), x.stats, |src.attachments|)
  {
    AttachmentsStage(src, agent, x.mmap, o, x.users.First(), x.attachments, |src.attachments|);
    assert x.attachments.answers[..|src.attachments|] == x.attachments.answers;
  }

  // Every execution from a consistent target chains its stages.
  lemma ExecutionChains(src: Source, agent: int, o: Oracle, x: Run)
    requires Execution(src, agent, o, x) && Consistent(x.users.First())
    ensures Chain(src, agent, o, StagesOf(x))
  {
    ExecutionUsers(src, agent, o, x);
    ExecutionSessions(src, agent, o, x);
    ExecutionMessages(src, agent, o, x);
    LinkPassSafe(x.users.First(), x.messages.Last(), x.linked, src.messages, x.mmap,
                 Persisted(|LinksOf(src.messages, x.mmap)|, o.linkFault));
    ExecutionAttachments(src, agent, o, x);
  }

  // Failures or not, a run on an image of the source leaves an image and keeps ids.
  lemma RunKeepsImage(src: Source, agent: int, o: Oracle, g: Stages)
    requires Distinct(src) && PartialImage(src, agent, g.db0) && Chain(src, agent, o, g)
    ensures PartialImage(src, agent, g.db3) && PartialImage(src, agent, g.db4) && PartialImage(src, agent, g.db5)
    ensures KeepsIds(g.umap) && KeepsIds(g.smap) && KeepsIds(g.mmap) && g.stats.updated == 0
  {
    LinksOnImage(src, agent, g.db3, g.mmap, Persisted(|LinksOf(src.messages, g.mmap)|, o.linkFault));
  }

  lemma CleanRunMaps(src: Source, agent: int, o: Oracle, g: Stages)
    requires Distinct(src) && PartialImage(src, agent, g.db0) && Chain(src, agent, o, g) && Clean(o)
    ensures UserMapComplete(src, g.umap) && SessionMapComplete(src, g.smap) && MessageMapComplete(src, g.mmap)
    ensures UsersPresent(src, g.db1) && SessionsPresent(src, g.db2) && MessagesPresent(src, g.db3)
  {
    UsersComplete(src, agent, g.db0, g.db1, g.umap);
    SessionsComplete(src, agent, g.umap, g.db1, g.db2, g.smap);
    MessagesComplete(src, agent, g.smap, g.db2, g.db3, g.mmap);
  }

  lemma FullPassLinksParents(src: Source, agent: int, db: Db, after: Db, mmap: map<Id, Id>)
    requires DistinctMessages(src) && Consistent(db)
    requires forall id :: id in db.messages ==> MessageImage(src, agent, id, db.messages[id])
    requires MessageMapComplete(src, mmap) && Lands(mmap, db.messages)
    requires LinkedUpTo(db, after, LinksOf(src.messages, mmap), |LinksOf(src.messages, mmap)|)
    ensures ParentsLinked(src, after)
  {
    var links := LinksOf(src.messages, mmap);
    assert links[..|links|] == links;
    forall id ensures id in mmap <==> id in db.messages {
      if id in db.messages {
        assert MessageImage(src, agent, id, db.messages[id]);
      }
    }
    LinksCompleteImage(src, agent, db, mmap);
  }

  // Later stages leave the earlier tables and the linked parents alone.
  lemma PresenceSurvives(src: Source, g: Stages)
    requires UsersPresent(src, g.db1) && SessionsPresent(src, g.db2) && MessagesPresent(src, g.db3)
    requires ParentsLinked(src, g.db4)
    requires g.db2.users == g.db1.users && g.db3 == g.db2.(messages := g.db3.messages)
    requires g.db4 == g.db3.(messages := g.db4.messages) && g.db4.messages.Keys == g.db3.messages.Keys
    requires g.db5 == g.db4.(attachments := g.db5.attachments)
    ensures UsersPresent(src, g.db5) && SessionsPresent(src, g.db5) && MessagesPresent(src, g.db5)
    ensures ParentsLinked(src, g.db5)
  {
  }

  // Without failures it completes the image.
  lemma CleanRunCompletes(src: Source, agent: int, o: Oracle, g: Stages)
    requires Distinct(src) && PartialImage(src, agent, g.db0) && Chain(src, agent, o, g) && Clean(o)
    ensures FullImage(src, agent, g.db5)
    ensures UserMapComplete(src, g.umap) && SessionMapComplete(src, g.smap) && MessageMapComplete(src, g.mmap)
  {
    RunKeepsImage(src, agent, o, g);
    CleanRunMaps(src, agent, o, g);
    FullPassLinksParents(src, agent, g.db3, g.db4, g.mmap);
    AttachmentsComplete(src, agent, g.mmap, g.db4, g.db5);
    ApplyLinksAt(g.db3.messages, LinksOf(src.messages, g.mmap)[..|LinksOf(src.messages, g.mmap)|], 0);
    PresenceSurvives(src, g);
  }

  // On a complete image nothing changes, failures or not.
  lemma RerunChangesNothing(src: Source, agent: int, o: Oracle, g: Stages)
    requires Distinct(src) && FullImage(src, agent, g.db0) && Chain(src, agent, o, g)
    ensures g.db5 == g.db0 && g.stats.updated == 0
  {
    RunKeepsImage(src, agent, o, g);
    assert g.db1 == g.db0 && g.db2 == g.db0 && g.db3 == g.db0;
    RelinkingFullImage(src, agent, g.db3, g.mmap, Persisted(|LinksOf(src.messages, g.mmap)|, o.linkFault));
    assert g.db4 == g.db0;
  }

  // ---------- what every execution guarantees ----------

  // Safety, from any consistent target and whatever fails: references, owners and
  // rows hold, the id maps land, and the counters tell the new and the blanked rows.
  lemma ExecutionSafe(src: Source, agent: int, o: Oracle, x: Run)
    requires Execution(src, agent, o, x) && Consistent(x.users.First())
    ensures var base, db := x.users.First(), x.attachments.Last();
            && Safe(base, db)
            && Lands(x.umap, db.users) && Lands(x.smap, db.sessions) && Lands(x.mmap, db.messages)
            && |db.attachments| == |base.attachments| + x.stats.created
            && |Blanked(base, db)| == x.stats.updated
  {
    ExecutionChains(src, agent, o, x);
    LinkPassSafe(x.users.First(), x.messages.Last(), x.linked, src.messages, x.mmap,
                 Persisted(|LinksOf(src.messages, x.mmap)|, o.linkFault));
    RunAccounting(src, agent, o, x.users.First(), x);
  }

  // Every stage starts from a safe state with its maps landing.
  lemma StageStartsSafe(src: Source, agent: int, o: Oracle, x: Run)
    requires Execution(src, agent, o, x) && Consistent(x.users.First())
    ensures Safe(x.users.First(), x.users.First())
    ensures Safe(x.users.First(), x.users.Last()) && Lands(x.umap, x.users.Last().users)
    ensures Safe(x.users.First(), x.sessions.Last()) && Lands(x.smap, x.sessions.Last().sessions)
    ensures Safe(x.users.First(), x.messages.Last()) && Lands(x.mmap, x.messages.Last().messages)
    ensures Safe(x.users.First(), x.linked) && Lands(x.mmap, x.linked.messages)
  {
    SafeAtStart(x.users.First());
    ExecutionChains(src, agent, o, x);
    LinkPassSafe(x.users.First(), x.messages.Last(), x.linked, src.messages, x.mmap,
                 Persisted(|LinksOf(src.messages, x.mmap)|, o.linkFault));
  }

  ghost predicate UserStatesSafe(src: Source, base: Db, t: Trace<Option<Id>>)
    requires |t.dbs| == |src.users| + 1 && |t.answers| == |src.users|
  {
    forall i: nat :: i <= |src.users| ==>
                       && Safe(base, t.dbs[i])
                       && Lands(MapOf(UserIds(src.users[..i]), t.answers[..i]), t.dbs[i].users)
  }

  ghost predicate SessionStatesSafe(src: Source, base: Db, t: Trace<Option<Id>>)
    requires |t.dbs| == |src.sessions| + 1 && |t.answers| == |src.sessions|
  {
    forall i: nat :: i <= |src.sessions| ==>
                       && Safe(base, t.dbs[i])
                       && Lands(MapOf(SessionIds(src.sessions[..i]), t.answers[..i]), t.dbs[i].sessions)
  }

  ghost predicate MessageStatesSafe(src: Source, base: Db, t: Trace<Option<Id>>)
    requires |t.dbs| == |src.messages| + 1 && |t.answers| == |src.messages|
  {
    forall i: nat :: i <= |src.messages| ==>
                       && Safe(base, t.dbs[i])
                       && Lands(MapOf(MessageIds(src.messages[..i]), t.answers[..i]), t.dbs[i].messages)
  }

  // However far the link pass gets.
  ghost predicate LinkStatesSafe(src: Source, base: Db, x: Run)
    requires x.messages.dbs != []
  {
    forall db, k :: LinkedUpTo(x.messages.Last(), db, LinksOf(src.messages, x.mmap), k) ==> Safe(base, db)
  }

  ghost predicate AllSafe<A>(base: Db, t: Trace<A>) {
    forall i: nat :: i < |t.dbs| ==> Safe(base, t.dbs[i])
  }

  // In every state that an execution goes through, references, owners and rows
  // hold, and the id map built so far lands.
  lemma ExecutionSafeThroughout(src: Source, agent: int, o: Oracle, x: Run)
    requires Execution(src, agent, o, x) && Consistent(x.users.First())
    ensures UserStatesSafe(src, x.users.First(), x.users)
    ensures SessionStatesSafe(src, x.users.First(), x.sessions)
    ensures MessageStatesSafe(src, x.users.First(), x.messages)
    ensures LinkStatesSafe(src, x.users.First(), x)
    ensures AllSafe(x.users.First(), x.attachments)
  {
    var base := x.users.First();
    StageStartsSafe(src, agent, o, x);
    forall i: nat | i <= |src.users|
      ensures Safe(base, x.users.dbs[i])
      ensures Lands(MapOf(UserIds(src.users[..i]), x.users.answers[..i]), x.users.dbs[i].users)
    {
      UsersStage(src, agent, o, base, x.users, i);
    }
    forall i: nat | i <= |src.sessions|
      ensures Safe(base, x.sessions.dbs[i])
      ensures Lands(MapOf(SessionIds(src.sessions[..i]), x.sessions.answers[..i]), x.sessions.dbs[i].sessions)
    {
      SessionsStage(src, agent, x.umap, o, base, x.sessions, i);
    }
    forall i: nat | i <= |src.messages|
      ensures Safe(base, x.messages.dbs[i])
      ensures Lands(MapOf(MessageIds(src.messages[..i]), x.messages.answers[..i]), x.messages.dbs[i].messages)
    {
      MessagesStage(src, agent, x.smap, o, base, x.messages, i);
    }
    forall db, k | LinkedUpTo(x.messages.Last(), db, LinksOf(src.messages, x.mmap), k) ensures Safe(base, db) {
      LinkPassSafe(base, x.messages.Last(), db, src.messages, x.mmap, k);
    }
    forall i: nat | i < |x.attachments.dbs| ensures Safe(base, x.attachments.dbs[i]) {
      AttachmentsStage(src, agent, x.mmap, o, base, x.attachments, i);
    }
  }

  // The printed statistics against the target before and after the run.
  lemma RunAccounting(src: Source, agent: int, o: Oracle, base: Db, x: Run)
    requires Execution(src, agent, o, x) && Safe(base, x.linked) && Lands(x.mmap, x.linked.messages)
    requires x.linked.attachments == base.attachments
    ensures |x.attachments.Last().attachments| == |base.attachments| + x.stats.created
    ensures |Blanked(base, x.attachments.Last())| == x.stats.updated
  {
    forall id | id in x.linked.messages ensures MessageRefs(x.linked, x.linked.messages[id]) {
    }
    AttachmentAccounting(src.attachments, x.mmap, o, x.attachments, x.stats);
    assert Blanked(base, x.attachments.Last()) == Blanked(x.linked, x.attachments.Last());
  }

  // Convergence, for a source with distinct keys.
  lemma ExecutionConverges(src: Source, agent: int, o: Oracle, x: Run)
    requires Execution(src, agent, o, x) && Consistent(x.users.First())
    requires Distinct(src) && PartialImage(src, agent, x.users.First())
    ensures PartialImage(src, agent, x.attachments.Last()) && KeepsIds(x.umap) && KeepsIds(x.smap) && KeepsIds(x.mmap)
    ensures Clean(o) ==>
              && FullImage(src, agent, x.attachments.Last())
              && UserMapComplete(src, x.umap) && SessionMapComplete(src, x.smap) && MessageMapComplete(src, x.mmap)
    ensures FullImage(src, agent, x.users.First()) ==> x.attachments.Last() == x.users.First() && x.stats.updated == 0
  {
    ExecutionChains(src, agent, o, x);
    var g := StagesOf(x);
    RunKeepsImage(src, agent, o, g);
    if Clean(o) {
      CleanRunCompletes(src, agent, o, g);
    }
    if FullImage(src, agent, g.db0) {
      RerunChangesNothing(src, agent, o, g);
    }
  }

  // The whole run is an execution, recorded in `x`.
  method Migrate(t: TargetSession, src: Source, agent: int, o: Oracle)
    returns (umap: map<Id, Id>, smap: map<Id, Id>, mmap: map<Id, Id>, stats: Stats, ghost x: Run)
    requires t.live == t.saved && Consistent(t.live)
    modifies t
    ensures Execution(src, agent, o, x) && x.users.First() == old(t.live) && x.attachments.Last() == t.live == t.saved
    ensures umap == x.umap && smap == x.smap && mmap == x.mmap && stats == x.stats
    ensures Safe(old(t.live), t.live)
    ensures Lands(umap, t.live.users) && Lands(smap, t.live.sessions) && Lands(mmap, t.live.messages)
    ensures |t.live.attachments| == |old(t.live).attachments| + stats.created
    ensures |Blanked(old(t.live), t.live)| == stats.updated
    ensures Distinct(src) && PartialImage(src, agent, old(t.live)) ==>
              PartialImage(src, agent, t.live) && KeepsIds(umap) && KeepsIds(smap) && KeepsIds(mmap)
    ensures Distinct(src) && PartialImage(src, agent, old(t.live)) && Clean(o) ==>
              && FullImage(src, agent, t.live)
              && UserMapComplete(src, umap) && SessionMapComplete(src, smap) && MessageMapComplete(src, mmap)
    ensures Distinct(src) && FullImage(src, agent, old(t.live)) ==>
              t.live == old(t.live) && stats.created == 0 && stats.updated == 0
  {
    ghost var ut, st, mt, at;
    umap, ut := t.MigrateUsers(src, o);
    smap, st := t.MigrateSessions(src, umap, agent, o);
    mmap, mt := t.MigrateMessages(src, smap, agent, o);
    MessagesLand(src.messages, smap, agent, o, mt, mmap);
    t.UpdateMessageParents(src.messages, mmap, o.linkFault);
    ghost var linked := t.live;
    stats, at := t.MigrateAttachments(src, mmap, o);
    x := Run(ut, st, mt, linked, at, umap, smap, mmap, stats);
    ExecutionSafe(src, agent, o, x);
    if Distinct(src) && PartialImage(src, agent, x.users.First()) {
      ExecutionConverges(src, agent, o, x);
    }
  }
}
