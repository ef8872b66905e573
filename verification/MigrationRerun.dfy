// Running the migration again on its own output: when it rebuilds its id maps,
// and what drops out of them otherwise.
module MigrationRerun {
  import opened Basics
  import opened MigrationModel
  import opened MigrationSafety
  import opened MigrationImage
  import opened MigrationExecution
  import opened MigrationForced
  import opened MigrationRecognition
  import opened MigrationAccounting
  import opened MigrationRun

  // ---------- the whole rerun ----------

  // With unique ids a map tells the answers it was built from.
  lemma MapsEqualIff(ids: seq<Id>, a: seq<Option<Id>>, b: seq<Option<Id>>)
    requires |ids| == |a| == |b| && Unique(ids)
    ensures MapOf(ids, a) == MapOf(ids, b) <==> a == b
  {
    if MapOf(ids, a) == MapOf(ids, b) {
      forall i | 0 <= i < |ids| ensures a[i] == b[i] {
        MapOfAt(ids, a, i);
        MapOfAt(ids, b, i);
      }
    }
  }

  lemma AnswersLand<V>(ids: seq<Id>, answers: seq<Option<Id>>, table: map<Id, V>)
    requires |ids| == |answers| && Unique(ids) && Lands(MapOf(ids, answers), table)
    ensures AllIn(answers, table)
  {
    forall i | 0 <= i < |answers| && answers[i].Some? ensures answers[i].value in table {
      MapOfAt(ids, answers, i);
    }
  }

  // Every run of the map-building stages from `db` builds the maps of `x`.
  ghost predicate Rebuilds(src: Source, agent: int, o: Oracle, db: Db, x: Run) {
    forall y :: MapsBuilt(src, agent, o, y) && y.users.First() == db ==>
                  y.umap == x.umap && y.smap == x.smap && y.mmap == x.mmap
  }

  ghost predicate AllRecognised(src: Source, agent: int, db: Db, x: Run)
    requires |src.users| == |x.users.answers|
    requires |src.sessions| == |x.sessions.answers|
    requires |src.messages| == |x.messages.answers|
  {
    && UsersRecognised(db, src.users, x.users.answers)
    && SessionsRecognised(db.sessions, src.sessions, x.umap, agent, x.sessions.answers)
    && MessagesRecognised(db.messages, src.messages, x.smap, x.messages.answers)
  }

  // A database that a run may have left: consistent, with the run's maps landing.
  ghost predicate MapsHold(src: Source, x: Run, db: Db) {
    && |src.users| == |x.users.answers| && x.umap == MapOf(UserIds(src.users), x.users.answers)
    && |src.sessions| == |x.sessions.answers| && x.smap == MapOf(SessionIds(src.sessions), x.sessions.answers)
    && |src.messages| == |x.messages.answers| && x.mmap == MapOf(MessageIds(src.messages), x.messages.answers)
    && Consistent(db) && Lands(x.umap, db.users) && Lands(x.smap, db.sessions) && Lands(x.mmap, db.messages)
  }

  // The clock shows no time that the target has stored.
  ghost predicate NewClock(o: Oracle, db: Db) {
    forall i: nat :: NewToSessions(o.clock(i), db.sessions) && NewToMessages(o.clock(i), db.messages)
  }

  // What the sessions stage leaves when all sessions are recognised.
  ghost function AfterSessions(src: Source, agent: int, db: Db, x: Run): Db
    requires |src.sessions| == |x.sessions.answers|
  {
    db.(sessions := ReplayedSessions(db.sessions, src.sessions, x.sessions.answers, agent))
  }

  // ... and then the messages stage when all messages are.
  ghost function AfterMessages(src: Source, agent: int, db: Db, x: Run): Db
    requires |src.sessions| == |x.sessions.answers| && |src.messages| == |x.messages.answers|
  {
    AfterSessions(src, agent, db, x).(messages :=
      ReplayedMessages(db.messages, src.messages, x.messages.answers, agent))
  }

  lemma AfterSessionsHolds(src: Source, agent: int, db: Db, x: Run)
    requires MapsHold(src, x, db)
    ensures var e := SessionsExpected(db, src.sessions, agent, x.sessions.answers);
            e.Last() == AfterSessions(src, agent, db, x)
    ensures var s := AfterSessions(src, agent, db, x);
            && Lands(x.smap, s.sessions) && s.messages == db.messages
            && forall id :: id in s.sessions ==> SessionRefs(s, s.sessions[id])
  {
    ReplayedSessionsStay(db.sessions, src.sessions, x.sessions.answers, agent);
    assert src.sessions[..|src.sessions|] == src.sessions;
    assert x.sessions.answers[..|src.sessions|] == x.sessions.answers;
    var s := AfterSessions(src, agent, db, x);
    forall id | id in s.sessions ensures SessionRefs(s, s.sessions[id]) {
      assert SessionRefs(db, db.sessions[id]) && SamePlace(db.sessions[id], s.sessions[id]);
    }
  }

  // The three stages, one by one.

  lemma UsersAgreeIff(src: Source, o: Oracle, db: Db, x: Run)
    requires MapsHold(src, x, db) && UniqueIds(src) && Clean(o)
    ensures (forall t :: Runs(src.users, UserSteps(o), db, t) ==> t.answers == x.users.answers) <==>
            UsersRecognised(db, src.users, x.users.answers)
    ensures UsersRecognised(db, src.users, x.users.answers) ==>
              forall t :: Runs(src.users, UserSteps(o), db, t) ==> t.Last() == db
    ensures NeverStuck(UserSteps(o))
  {
    AnswersLand(UserIds(src.users), x.users.answers, db.users);
    UsersDetermined(src.users, o, db, x.users.answers);
    UsersForcedIff(src.users, o, db, x.users.answers);
    AnswersAgreeIff(src.users, UserSteps(o), UsersExpected(db, src.users, x.users.answers));
    if UsersRecognised(db, src.users, x.users.answers) {
      ForcedRunsEnd(src.users, UserSteps(o), UsersExpected(db, src.users, x.users.answers));
    }
  }

  lemma SessionsAgreeIff(src: Source, agent: int, o: Oracle, db: Db, x: Run)
    requires MapsHold(src, x, db) && UniqueIds(src) && Clean(o) && NewClock(o, db)
    ensures var step := SessionSteps(x.umap, agent, o);
            && ((forall t :: Runs(src.sessions, step, db, t) ==> t.answers == x.sessions.answers) <==>
                SessionsRecognised(db.sessions, src.sessions, x.umap, agent, x.sessions.answers))
            && (SessionsRecognised(db.sessions, src.sessions, x.umap, agent, x.sessions.answers) ==>
                  forall t :: Runs(src.sessions, step, db, t) ==> t.Last() == AfterSessions(src, agent, db, x))
    ensures NeverStuck(SessionSteps(x.umap, agent, o))
  {
    var e := SessionsExpected(db, src.sessions, agent, x.sessions.answers);
    AnswersLand(SessionIds(src.sessions), x.sessions.answers, db.sessions);
    SessionsDetermined(src.sessions, x.umap, agent, o, db, x.sessions.answers);
    SessionsForcedIff(src.sessions, x.umap, agent, o, db, x.sessions.answers);
    AnswersAgreeIff(src.sessions, SessionSteps(x.umap, agent, o), e);
    AfterSessionsHolds(src, agent, db, x);
    if SessionsRecognised(db.sessions, src.sessions, x.umap, agent, x.sessions.answers) {
      ForcedRunsEnd(src.sessions, SessionSteps(x.umap, agent, o), e);
    }
  }

  lemma MessagesAgreeIff(src: Source, agent: int, o: Oracle, db: Db, x: Run)
    requires MapsHold(src, x, db) && UniqueIds(src) && Clean(o) && NewClock(o, db)
    ensures var start := AfterSessions(src, agent, db, x);
            (forall t :: Runs(src.messages, MessageSteps(x.smap, agent, o), start, t) ==>
                t.answers == x.messages.answers)
            <==> MessagesRecognised(db.messages, src.messages, x.smap, x.messages.answers)
    ensures MessagesRecognised(db.messages, src.messages, x.smap, x.messages.answers) ==>
              forall t :: Runs(src.messages, MessageSteps(x.smap, agent, o), AfterSessions(src, agent, db, x), t) ==>
                            t.Last() == AfterMessages(src, agent, db, x)
    ensures NeverStuck(MessageSteps(x.smap, agent, o))
  {
    var start := AfterSessions(src, agent, db, x);
    var e := MessagesExpected(start, src.messages, agent, x.messages.answers);
    AfterSessionsHolds(src, agent, db, x);
    AnswersLand(MessageIds(src.messages), x.messages.answers, db.messages);
    MessagesDetermined(src.messages, x.smap, agent, o, start, x.messages.answers);
    MessagesForcedIff(src.messages, x.smap, agent, o, start, x.messages.answers);
    AnswersAgreeIff(src.messages, MessageSteps(x.smap, agent, o), e);
    if MessagesRecognised(db.messages, src.messages, x.smap, x.messages.answers) {
      ForcedRunsEnd(src.messages, MessageSteps(x.smap, agent, o), e);
      assert src.messages[..|src.messages|] == src.messages;
      assert x.messages.answers[..|src.messages|] == x.messages.answers;
    }
  }

  lemma SessionsNeverStuck(umap: map<Id, Id>, agent: int, o: Oracle)
    ensures NeverStuck(SessionSteps(umap, agent, o))
  {
    forall i: nat, s, db ensures CanStep(SessionSteps(umap, agent, o), i, s, db) {
      SessionCanStep(umap, agent, o, i, s, db);
    }
  }

  lemma MessagesNeverStuck(smap: map<Id, Id>, agent: int, o: Oracle)
    ensures NeverStuck(MessageSteps(smap, agent, o))
  {
    forall i: nat, m, db ensures CanStep(MessageSteps(smap, agent, o), i, m, db) {
      MessageCanStep(smap, agent, o, i, m, db);
    }
  }

  ghost function BuiltBy(src: Source, ut: Trace<Option<Id>>, st: Trace<Option<Id>>, mt: Trace<Option<Id>>): Run
    requires |ut.answers| == |src.users| && |st.answers| == |src.sessions| && |mt.answers| == |src.messages|
    requires mt.dbs != []
  {
    Run(ut, st, mt, mt.Last(), Trace([mt.Last()], []), MapOf(UserIds(src.users), ut.answers),
        MapOf(SessionIds(src.sessions), st.answers), MapOf(MessageIds(src.messages), mt.answers), Stats(0, 0, 0))
  }

  // A run of the first two stages can be continued.
  lemma ContinuedFromSessions(src: Source, agent: int, o: Oracle, ut: Trace<Option<Id>>, st: Trace<Option<Id>>)
    returns (y: Run)
    requires Steps(src.users, UserSteps(o), ut)
    requires Runs(src.sessions, SessionSteps(MapOf(UserIds(src.users), ut.answers), agent, o), ut.Last(), st)
    ensures MapsBuilt(src, agent, o, y) && y.users == ut && y.sessions == st
  {
    var smap := MapOf(SessionIds(src.sessions), st.answers);
    MessagesNeverStuck(smap, agent, o);
    var mt := SomeRun(src.messages, MessageSteps(smap, agent, o), st.Last());
    y := BuiltBy(src, ut, st, mt);
  }

  lemma ContinuedFromUsers(src: Source, agent: int, o: Oracle, ut: Trace<Option<Id>>) returns (y: Run)
    requires Steps(src.users, UserSteps(o), ut)
    ensures MapsBuilt(src, agent, o, y) && y.users == ut
  {
    var umap := MapOf(UserIds(src.users), ut.answers);
    SessionsNeverStuck(umap, agent, o);
    var st := SomeRun(src.sessions, SessionSteps(umap, agent, o), ut.Last());
    y := ContinuedFromSessions(src, agent, o, ut, st);
  }

  lemma RecognisedRerunRebuilds(src: Source, agent: int, o: Oracle, db: Db, x: Run)
    requires MapsHold(src, x, db) && UniqueIds(src) && Clean(o) && NewClock(o, db) && AllRecognised(src, agent, db, x)
    ensures Rebuilds(src, agent, o, db, x)
    ensures forall y :: MapsBuilt(src, agent, o, y) && y.users.First() == db ==>
                          && y.sessions.First() == db && y.messages.First() == AfterSessions(src, agent, db, x)
                          && y.messages.Last() == AfterMessages(src, agent, db, x)
  {
    UsersAgreeIff(src, o, db, x);
    SessionsAgreeIff(src, agent, o, db, x);
    MessagesAgreeIff(src, agent, o, db, x);
    forall y | MapsBuilt(src, agent, o, y) && y.users.First() == db
      ensures y.umap == x.umap && y.smap == x.smap && y.mmap == x.mmap
      ensures y.sessions.First() == db && y.messages.First() == AfterSessions(src, agent, db, x)
      ensures y.messages.Last() == AfterMessages(src, agent, db, x)
    {
      assert Runs(src.users, UserSteps(o), db, y.users);
      assert Runs(src.sessions, SessionSteps(x.umap, agent, o), db, y.sessions);
      assert Runs(src.messages, MessageSteps(x.smap, agent, o), AfterSessions(src, agent, db, x), y.messages);
    }
  }

  lemma RebuildingRecognisesUsers(src: Source, agent: int, o: Oracle, db: Db, x: Run)
    requires MapsHold(src, x, db) && UniqueIds(src) && Clean(o) && Rebuilds(src, agent, o, db, x)
    ensures UsersRecognised(db, src.users, x.users.answers)
  {
    UsersAgreeIff(src, o, db, x);
    forall t | Runs(src.users, UserSteps(o), db, t) ensures t.answers == x.users.answers {
      var y := ContinuedFromUsers(src, agent, o, t);
      MapsEqualIff(UserIds(src.users), t.answers, x.users.answers);
    }
  }

  // A users stage that recognises all users.
  lemma SteadyUsers(src: Source, o: Oracle, db: Db, x: Run) returns (ut: Trace<Option<Id>>)
    requires MapsHold(src, x, db) && UniqueIds(src) && Clean(o) && UsersRecognised(db, src.users, x.users.answers)
    ensures Runs(src.users, UserSteps(o), db, ut) && ut.Last() == db && ut.answers == x.users.answers
  {
    UsersAgreeIff(src, o, db, x);
    ut := SomeRun(src.users, UserSteps(o), db);
  }

  lemma RebuildingRecognisesSessions(src: Source, agent: int, o: Oracle, db: Db, x: Run)
    requires MapsHold(src, x, db) && UniqueIds(src) && Clean(o) && NewClock(o, db) && Rebuilds(src, agent, o, db, x)
    ensures SessionsRecognised(db.sessions, src.sessions, x.umap, agent, x.sessions.answers)
  {
    RebuildingRecognisesUsers(src, agent, o, db, x);
    var ut := SteadyUsers(src, o, db, x);
    SessionsAgreeIff(src, agent, o, db, x);
    forall t | Runs(src.sessions, SessionSteps(x.umap, agent, o), db, t) ensures t.answers == x.sessions.answers {
      var y := ContinuedFromSessions(src, agent, o, ut, t);
      MapsEqualIff(SessionIds(src.sessions), t.answers, x.sessions.answers);
    }
  }

  lemma RebuildingRecognisesMessages(src: Source, agent: int, o: Oracle, db: Db, x: Run)
    requires MapsHold(src, x, db) && UniqueIds(src) && Clean(o) && NewClock(o, db) && Rebuilds(src, agent, o, db, x)
    ensures MessagesRecognised(db.messages, src.messages, x.smap, x.messages.answers)
  {
    RebuildingRecognisesUsers(src, agent, o, db, x);
    RebuildingRecognisesSessions(src, agent, o, db, x);
    var ut := SteadyUsers(src, o, db, x);
    SessionsAgreeIff(src, agent, o, db, x);
    var st := SomeRun(src.sessions, SessionSteps(x.umap, agent, o), db);
    MessagesAgreeIff(src, agent, o, db, x);
    forall t | Runs(src.messages, MessageSteps(x.smap, agent, o), AfterSessions(src, agent, db, x), t)
      ensures t.answers == x.messages.answers
    {
      var y := BuiltBy(src, ut, st, t);
      assert MapsBuilt(src, agent, o, y) && y.users.First() == db;
      MapsEqualIff(MessageIds(src.messages), t.answers, x.messages.answers);
    }
  }

  // Clean reruns on a run's own output rebuild the id maps of that run, whatever
  // rows their lookups pick, exactly when every row is recognised: each row that
  // migrated has a key of its own and no other target row matches it, and each
  // row that was refused is refused again.
  lemma RerunRebuildsIff(src: Source, agent: int, first: Oracle, x: Run, again: int, o: Oracle)
    requires Execution(src, agent, first, x) && Consistent(x.users.First()) && UniqueIds(src)
    requires Clean(o) && NewClock(o, x.attachments.Last())
    ensures Rebuilds(src, again, o, x.attachments.Last(), x) <==> AllRecognised(src, again, x.attachments.Last(), x)
  {
    var db := x.attachments.Last();
    ExecutionSafe(src, agent, first, x);
    if Rebuilds(src, again, o, db, x) {
      RebuildingRecognisesUsers(src, again, o, db, x);
      RebuildingRecognisesSessions(src, again, o, db, x);
      RebuildingRecognisesMessages(src, again, o, db, x);
    }
    if AllRecognised(src, again, db, x) {
      RecognisedRerunRebuilds(src, again, o, db, x);
    }
  }

  // Both sessions below have keys of their own, and both are in the target; yet
  // a rerun may take the second for the first and reopen it.
  const FIRST_CHAT := SrcSession(1, Some(3), "chat", "", Some(5), None, "")
  const CLOSED_CHAT := SrcSession(2, Some(3), "chat", "g", Some(5), Some(6), "")

  lemma KeyedSessionMayBeTakenForAnother(db: Db, now: Time)
    requires db == Db(map[3 := User("a", "a", "")],
                      map[1 := NewSession(FIRST_CHAT, 3, 1, 0), 2 := NewSession(CLOSED_CHAT, 3, 1, 0)], map[], map[])
    ensures KeyedSession(FIRST_CHAT) && db.sessions[2].status == "archived"
    ensures !SessionRecognised(db.sessions, FIRST_CHAT, map[3 := 3], Some(1))
    ensures var after := db.(sessions := db.sessions[2 := db.sessions[2].(status := "active")]);
            SessionStep(FIRST_CHAT, map[3 := 3], 1, now, NoFault, db, after, Some(2))
  {
    assert IsSession(db, 2, 3, FIRST_CHAT, now) && FindsSession(db.sessions, 2, 3, FIRST_CHAT);
    assert RefreshedSession(db.sessions[2], FIRST_CHAT, 1) == db.sessions[2].(status := "active");
  }

  // ---------- what drops out of a rerun ----------

  // No two readings of the clock agree, and none is a time of the source.
  ghost predicate LateClock(o: Oracle, src: Source) {
    && (forall i: nat, j: nat :: i != j ==> o.clock(i) != o.clock(j))
    && (forall i: nat, s :: s in src.sessions ==> s.createdAt != Some(o.clock(i)))
    && (forall i: nat, m :: m in src.messages ==> m.createdAt != Some(o.clock(i)))
  }

  // Until row i the sessions have times other than that row's clock reading.
  lemma {:induction false} SessionTimesStayOld(src: Source, umap: map<Id, Id>, agent: int, o: Oracle,
                                               t: Trace<Option<Id>>, i: nat, j: nat)
    requires j <= i < |src.sessions| && Steps(src.sessions, SessionSteps(umap, agent, o), t)
    requires LateClock(o, src) && NewToSessions(o.clock(i), t.First().sessions)
    ensures NewToSessions(o.clock(i), t.dbs[j].sessions) && t.First().sessions.Keys <= t.dbs[j].sessions.Keys
  {
    if j > 0 {
      SessionTimesStayOld(src, umap, agent, o, t, i, j - 1);
      var s := src.sessions[j - 1];
      assert SessionStep(s, umap, agent, o.clock(j - 1), o.sessionFault(j - 1), t.dbs[j - 1], t.dbs[j],
                         t.answers[j - 1]);
      assert OrNow(s.createdAt, o.clock(j - 1)) != o.clock(i);
    }
  }

  lemma {:induction false} MessageTimesStayOld(src: Source, smap: map<Id, Id>, agent: int, o: Oracle,
                                               t: Trace<Option<Id>>, i: nat, j: nat)
    requires j <= i < |src.messages| && Steps(src.messages, MessageSteps(smap, agent, o), t)
    requires LateClock(o, src) && NewToMessages(o.clock(i), t.First().messages)
    ensures NewToMessages(o.clock(i), t.dbs[j].messages) && t.First().messages.Keys <= t.dbs[j].messages.Keys
  {
    if j > 0 {
      MessageTimesStayOld(src, smap, agent, o, t, i, j - 1);
      var m := src.messages[j - 1];
      assert MessageStep(m, smap, agent, o.clock(j - 1), o.messageFault(j - 1), t.dbs[j - 1], t.dbs[j],
                         t.answers[j - 1]);
      assert OrNow(m.createdAt, o.clock(j - 1)) != o.clock(i);
    }
  }

  // A session without a key whose row is in the target collides with its own
  // row and drops out of the map.
  lemma UnkeyedSessionDropsOut(src: Source, umap: map<Id, Id>, agent: int, o: Oracle, t: Trace<Option<Id>>,
                               smap: map<Id, Id>, i: nat)
    requires SessionsTraced(src.sessions, umap, agent, o, t, smap) && Unique(SessionIds(src.sessions))
    requires i < |src.sessions| && !KeyedSession(src.sessions[i]) && src.sessions[i].id in t.First().sessions
    requires LateClock(o, src) && NewToSessions(o.clock(i), t.First().sessions)
    ensures src.sessions[i].id !in smap && t.dbs[i + 1] == t.dbs[i]
  {
    SessionTimesStayOld(src, umap, agent, o, t, i, i);
    assert SessionStep(src.sessions[i], umap, agent, o.clock(i), o.sessionFault(i), t.dbs[i], t.dbs[i + 1],
                       t.answers[i]);
    MapOfAt(SessionIds(src.sessions), t.answers, i);
  }

  lemma UnkeyedMessageDropsOut(src: Source, smap: map<Id, Id>, agent: int, o: Oracle, t: Trace<Option<Id>>,
                               mmap: map<Id, Id>, i: nat)
    requires MessagesTraced(src.messages, smap, agent, o, t, mmap) && Unique(MessageIds(src.messages))
    requires i < |src.messages| && !KeyedMessage(src.messages[i]) && src.messages[i].id in t.First().messages
    requires LateClock(o, src) && NewToMessages(o.clock(i), t.First().messages)
    ensures src.messages[i].id !in mmap && t.dbs[i + 1] == t.dbs[i]
  {
    MessageTimesStayOld(src, smap, agent, o, t, i, i);
    assert MessageStep(src.messages[i], smap, agent, o.clock(i), o.messageFault(i), t.dbs[i], t.dbs[i + 1],
                       t.answers[i]);
    MapOfAt(MessageIds(src.messages), t.answers, i);
  }

  // The messages of a session that is not in the map are not in theirs, nor are
  // the attachments of such messages handled.
  lemma MessagesBelowDropOut(src: Source, agent: int, o: Oracle, y: Run, i: nat)
    requires MapsBuilt(src, agent, o, y) && Unique(MessageIds(src.messages)) && i < |src.messages|
    requires var c := src.messages[i].conversationId; c.None? || c.value !in y.smap
    ensures src.messages[i].id !in y.mmap
  {
    MapOfAt(MessageIds(src.messages), y.messages.answers, i);
    assert MessageStep(src.messages[i], y.smap, agent, o.clock(i), o.messageFault(i),
                       y.messages.dbs[i], y.messages.dbs[i + 1], y.messages.answers[i]);
  }

  lemma AttachmentsBelowDropOut(src: Source, agent: int, o: Oracle, y: Run, k: nat)
    requires Execution(src, agent, o, y) && k < |src.attachments|
    requires var c := src.attachments[k].messageId; c.None? || c.value !in y.mmap
    ensures y.attachments.answers[k].None? && y.attachments.dbs[k + 1] == y.attachments.dbs[k]
  {
    assert OutcomeStep(src.attachments[k], y.mmap, o.clock(k), o.attachmentFault(k),
                       y.attachments.dbs[k], y.attachments.dbs[k + 1], y.attachments.answers[k]);
  }

  // So a session without a key takes its messages and their attachments with it ...
  lemma UnkeyedSessionTakesItsRows(src: Source, agent: int, o: Oracle, y: Run, i: nat)
    requires Execution(src, agent, o, y) && UniqueIds(src)
    requires i < |src.sessions| && !KeyedSession(src.sessions[i]) && src.sessions[i].id in y.sessions.First().sessions
    requires LateClock(o, src) && NewToSessions(o.clock(i), y.sessions.First().sessions)
    ensures src.sessions[i].id !in y.smap
    ensures forall m :: m in src.messages && m.conversationId == Some(src.sessions[i].id) ==> m.id !in y.mmap
    ensures forall m, k :: m in src.messages && m.conversationId == Some(src.sessions[i].id)
                           && 0 <= k < |src.attachments| && src.attachments[k].messageId == Some(m.id) ==>
                             y.attachments.answers[k].None?
  {
    UnkeyedSessionDropsOut(src, y.umap, agent, o, y.sessions, y.smap, i);
    forall m | m in src.messages && m.conversationId == Some(src.sessions[i].id) ensures m.id !in y.mmap {
      var j :| 0 <= j < |src.messages| && src.messages[j] == m;
      MessagesBelowDropOut(src, agent, o, y, j);
    }
    forall k | 0 <= k < |src.attachments| && !Linked(src.attachments[k], y.mmap)
      ensures y.attachments.answers[k].None?
    {
      AttachmentsBelowDropOut(src, agent, o, y, k);
    }
  }

  // ... and a message without a key its attachments.
  lemma UnkeyedMessageTakesItsRows(src: Source, agent: int, o: Oracle, y: Run, i: nat)
    requires Execution(src, agent, o, y) && UniqueIds(src)
    requires i < |src.messages| && !KeyedMessage(src.messages[i]) && src.messages[i].id in y.messages.First().messages
    requires LateClock(o, src) && NewToMessages(o.clock(i), y.messages.First().messages)
    ensures src.messages[i].id !in y.mmap
    ensures forall k :: 0 <= k < |src.attachments| && src.attachments[k].messageId == Some(src.messages[i].id) ==>
                          y.attachments.answers[k].None?
  {
    UnkeyedMessageDropsOut(src, y.smap, agent, o, y.messages, y.mmap, i);
    forall k | 0 <= k < |src.attachments| && !Linked(src.attachments[k], y.mmap)
      ensures y.attachments.answers[k].None?
    {
      AttachmentsBelowDropOut(src, agent, o, y, k);
    }
  }
}
