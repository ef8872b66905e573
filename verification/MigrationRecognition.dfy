// When a rerun recognises a row: its lookup sees the row it went to and no
// other.  The answers of a stage are then forced, whatever its lookups pick.
module MigrationRecognition {
  import opened Basics
  import opened MigrationModel
  import opened MigrationSafety
  import opened MigrationImage
  import opened MigrationExecution
  import opened MigrationForced

  // ---------- recognising one row ----------
  // `want` is what the first run answered.  A row is recognised when its lookup
  // sees the row it went to and no other, or, if it was refused, is refused again.

  ghost predicate UserRecognised(db: Db, u: SrcUser, want: Option<Id>) {
    if u.email == "" then want == None
    else if want.Some? then forall id: Id :: IsUser(db, id, u.email) <==> id == want.value
    else (u.id in db.users || UsernameTaken(db, u.email)) && forall id: Id :: !IsUser(db, id, u.email)
  }

  // A match that does not depend on the clock.
  ghost predicate FindsSession(ss: map<Id, Session>, id: Id, userId: Id, s: SrcSession) {
    KeyedSession(s) && id in ss && SameSession(ss[id], userId, s, 0)
  }

  ghost predicate SessionRecognised(ss: map<Id, Session>, s: SrcSession, umap: map<Id, Id>, want: Option<Id>) {
    if s.userId.None? || s.userId.value !in umap then want == None
    else if want.Some? then
      KeyedSession(s) && forall id: Id :: FindsSession(ss, id, umap[s.userId.value], s) <==> id == want.value
    else
      s.id in ss && forall id: Id :: !FindsSession(ss, id, umap[s.userId.value], s)
  }

  ghost predicate FindsMessage(ms: map<Id, Message>, id: Id, sessionId: Id, m: SrcMessage) {
    KeyedMessage(m) && id in ms && SameMessage(ms[id], sessionId, m, 0)
  }

  ghost predicate MessageRecognised(ms: map<Id, Message>, m: SrcMessage, smap: map<Id, Id>, want: Option<Id>) {
    if m.conversationId.None? || m.conversationId.value !in smap then want == None
    else if want.Some? then
      KeyedMessage(m) && forall id: Id :: FindsMessage(ms, id, smap[m.conversationId.value], m) <==> id == want.value
    else
      m.id in ms && forall id: Id :: !FindsMessage(ms, id, smap[m.conversationId.value], m)
  }

  // The clock shows no time that the table has stored.
  ghost predicate NewToSessions(now: Time, ss: map<Id, Session>) {
    forall id :: id in ss ==> ss[id].createdAt != now
  }

  ghost predicate NewToMessages(now: Time, ms: map<Id, Message>) {
    forall id :: id in ms ==> ms[id].createdAt != now
  }

  lemma UserCanStep(o: Oracle, i: nat, u: SrcUser, db: Db)
    ensures CanStep(UserSteps(o), i, u, db)
  {
    var step, fault := UserSteps(o), o.userFault(i);
    if u.email != "" && fault != ReadFails {
      if id: Id :| IsUser(db, id, u.email) {
        assert step(i, u, db, db, Some(id));
      } else if fault == NoFault && u.id !in db.users && !UsernameTaken(db, u.email) {
        assert step(i, u, db, db.(users := db.users[u.id := NewUser(u)]), Some(u.id));
      } else {
        assert step(i, u, db, db, None);
      }
    } else {
      assert step(i, u, db, db, None);
    }
  }

  lemma SessionCanStep(umap: map<Id, Id>, agent: int, o: Oracle, i: nat, s: SrcSession, db: Db)
    ensures CanStep(SessionSteps(umap, agent, o), i, s, db)
  {
    var step, now := SessionSteps(umap, agent, o), o.clock(i);
    if s.userId.Some? && s.userId.value in umap && o.sessionFault(i) == NoFault {
      var userId := umap[s.userId.value];
      if id: Id :| IsSession(db, id, userId, s, now) {
        var row := RefreshedSession(db.sessions[id], s, agent);
        assert step(i, s, db, db.(sessions := db.sessions[id := row]), Some(id));
      } else if s.id !in db.sessions && userId in db.users {
        assert step(i, s, db, db.(sessions := db.sessions[s.id := NewSession(s, userId, agent, now)]), Some(s.id));
      } else {
        assert step(i, s, db, db, None);
      }
    } else {
      assert step(i, s, db, db, None);
    }
  }

  lemma MessageCanStep(smap: map<Id, Id>, agent: int, o: Oracle, i: nat, m: SrcMessage, db: Db)
    ensures CanStep(MessageSteps(smap, agent, o), i, m, db)
  {
    var step, now := MessageSteps(smap, agent, o), o.clock(i);
    if m.conversationId.Some? && m.conversationId.value in smap
       && smap[m.conversationId.value] in db.sessions && o.messageFault(i) == NoFault {
      var sessionId := smap[m.conversationId.value];
      var userId := db.sessions[sessionId].userId;
      if id: Id :| IsMessage(db, id, sessionId, m, now) {
        var row := RefreshedMessage(db.messages[id], m, agent);
        assert step(i, m, db, db.(messages := db.messages[id := row]), Some(id));
      } else if m.id !in db.messages && userId in db.users {
        var row := NewMessage(m, sessionId, userId, agent, now);
        assert step(i, m, db, db.(messages := db.messages[m.id := row]), Some(m.id));
      } else {
        assert step(i, m, db, db, None);
      }
    } else {
      assert step(i, m, db, db, None);
    }
  }

  // The answer of a clean rerun is forced to be the first run's exactly when the
  // row is recognised.
  lemma UserForcedIff(o: Oracle, i: nat, u: SrcUser, db: Db, want: Option<Id>)
    requires o.userFault(i) == NoFault && (want.Some? ==> want.value in db.users)
    ensures Forced(UserSteps(o), i, u, db, want) <==> UserRecognised(db, u, want)
  {
    var step := UserSteps(o);
    if u.email == "" {
      assert step(i, u, db, db, None);
    } else if forall id: Id :: !IsUser(db, id, u.email) {
      assert want.Some? ==> !IsUser(db, want.value, u.email);
      if u.id in db.users || UsernameTaken(db, u.email) {
        assert step(i, u, db, db, None);
      } else {
        assert step(i, u, db, db.(users := db.users[u.id := NewUser(u)]), Some(u.id));
      }
    } else {
      if Forced(step, i, u, db, want) {
        forall id: Id | IsUser(db, id, u.email) ensures want == Some(id) {
          assert step(i, u, db, db, Some(id));
        }
      }
      if UserRecognised(db, u, want) {
        forall after, r | step(i, u, db, after, r) ensures r == want {
        }
      }
    }
  }

  lemma SessionLookup(db: Db, id: Id, userId: Id, s: SrcSession, now: Time)
    requires NewToSessions(now, db.sessions)
    ensures IsSession(db, id, userId, s, now) <==> FindsSession(db.sessions, id, userId, s)
  {
  }

  lemma MessageLookup(db: Db, id: Id, sessionId: Id, m: SrcMessage, now: Time)
    requires NewToMessages(now, db.messages)
    ensures IsMessage(db, id, sessionId, m, now) <==> FindsMessage(db.messages, id, sessionId, m)
  {
  }

  lemma SessionForcedIff(umap: map<Id, Id>, agent: int, o: Oracle, i: nat, s: SrcSession, db: Db, want: Option<Id>)
    requires o.sessionFault(i) == NoFault && NewToSessions(o.clock(i), db.sessions)
    requires Lands(umap, db.users) && (want.Some? ==> want.value in db.sessions)
    ensures Forced(SessionSteps(umap, agent, o), i, s, db, want) <==> SessionRecognised(db.sessions, s, umap, want)
  {
    var step, now := SessionSteps(umap, agent, o), o.clock(i);
    if s.userId.None? || s.userId.value !in umap {
      assert step(i, s, db, db, None);
    } else {
      var userId := umap[s.userId.value];
      forall id: Id ensures IsSession(db, id, userId, s, now) <==> FindsSession(db.sessions, id, userId, s) {
        SessionLookup(db, id, userId, s, now);
      }
      if forall id: Id :: !IsSession(db, id, userId, s, now) {
        assert want.Some? ==> !IsSession(db, want.value, userId, s, now);
        if s.id in db.sessions {
          assert step(i, s, db, db, None);
        } else {
          assert step(i, s, db, db.(sessions := db.sessions[s.id := NewSession(s, userId, agent, now)]), Some(s.id));
        }
      } else {
        if Forced(step, i, s, db, want) {
          forall id: Id | IsSession(db, id, userId, s, now) ensures want == Some(id) {
            var row := RefreshedSession(db.sessions[id], s, agent);
            assert step(i, s, db, db.(sessions := db.sessions[id := row]), Some(id));
          }
        }
        if SessionRecognised(db.sessions, s, umap, want) {
          forall after, r | step(i, s, db, after, r) ensures r == want {
          }
        }
      }
    }
  }

  lemma MessageForcedIff(smap: map<Id, Id>, agent: int, o: Oracle, i: nat, m: SrcMessage, db: Db, want: Option<Id>)
    requires o.messageFault(i) == NoFault && NewToMessages(o.clock(i), db.messages)
    requires Lands(smap, db.sessions) && (want.Some? ==> want.value in db.messages)
    requires forall id :: id in db.sessions ==> SessionRefs(db, db.sessions[id])
    ensures Forced(MessageSteps(smap, agent, o), i, m, db, want) <==> MessageRecognised(db.messages, m, smap, want)
  {
    var step, now := MessageSteps(smap, agent, o), o.clock(i);
    if m.conversationId.None? || m.conversationId.value !in smap {
      assert step(i, m, db, db, None);
    } else {
      var sessionId := smap[m.conversationId.value];
      assert SessionRefs(db, db.sessions[sessionId]);
      forall id: Id ensures IsMessage(db, id, sessionId, m, now) <==> FindsMessage(db.messages, id, sessionId, m) {
        MessageLookup(db, id, sessionId, m, now);
      }
      if forall id: Id :: !IsMessage(db, id, sessionId, m, now) {
        assert want.Some? ==> !IsMessage(db, want.value, sessionId, m, now);
        if m.id in db.messages {
          assert step(i, m, db, db, None);
        } else {
          var row := NewMessage(m, sessionId, db.sessions[sessionId].userId, agent, now);
          assert step(i, m, db, db.(messages := db.messages[m.id := row]), Some(m.id));
        }
      } else {
        if Forced(step, i, m, db, want) {
          forall id: Id | IsMessage(db, id, sessionId, m, now) ensures want == Some(id) {
            var row := RefreshedMessage(db.messages[id], m, agent);
            assert step(i, m, db, db.(messages := db.messages[id := row]), Some(id));
          }
        }
        if MessageRecognised(db.messages, m, smap, want) {
          forall after, r | step(i, m, db, after, r) ensures r == want {
          }
        }
      }
    }
  }

  // ---------- the tables as the rerun meets them ----------
  // Recognised rows are refreshed in place; a session's new name may be what a
  // later session is looked up by.

  function ReplayedSessions(ss: map<Id, Session>, rows: seq<SrcSession>, answers: seq<Option<Id>>, agent: int)
    : map<Id, Session>
    requires |rows| == |answers|
  {
    if rows == [] then ss
    else
      var n := |rows| - 1;
      var before := ReplayedSessions(ss, rows[..n], answers[..n], agent);
      if answers[n].Some? && answers[n].value in before then
        before[answers[n].value := RefreshedSession(before[answers[n].value], rows[n], agent)]
      else
        before
  }

  function ReplayedMessages(ms: map<Id, Message>, rows: seq<SrcMessage>, answers: seq<Option<Id>>, agent: int)
    : map<Id, Message>
    requires |rows| == |answers|
  {
    if rows == [] then ms
    else
      var n := |rows| - 1;
      var before := ReplayedMessages(ms, rows[..n], answers[..n], agent);
      if answers[n].Some? && answers[n].value in before then
        before[answers[n].value := RefreshedMessage(before[answers[n].value], rows[n], agent)]
      else
        before
  }

  lemma {:induction false} ReplayedSessionsStay(ss: map<Id, Session>, rows: seq<SrcSession>, answers: seq<Option<Id>>,
                                                agent: int)
    requires |rows| == |answers|
    ensures var r := ReplayedSessions(ss, rows, answers, agent);
            r.Keys == ss.Keys && forall id :: id in ss ==> SamePlace(ss[id], r[id])
  {
    if rows != [] {
      ReplayedSessionsStay(ss, rows[..|rows| - 1], answers[..|rows| - 1], agent);
    }
  }

  lemma {:induction false} ReplayedMessagesStay(ms: map<Id, Message>, rows: seq<SrcMessage>, answers: seq<Option<Id>>,
                                                agent: int)
    requires |rows| == |answers|
    ensures var r := ReplayedMessages(ms, rows, answers, agent);
            && r.Keys == ms.Keys
            && forall id :: id in ms ==> SameThread(ms[id], r[id]) && r[id].parent == ms[id].parent
  {
    if rows != [] {
      ReplayedMessagesStay(ms, rows[..|rows| - 1], answers[..|rows| - 1], agent);
    }
  }

  ghost predicate UsersRecognised(db: Db, rows: seq<SrcUser>, answers: seq<Option<Id>>)
    requires |rows| == |answers|
  {
    forall i: nat :: i < |rows| ==> UserRecognised(db, rows[i], answers[i])
  }

  ghost predicate SessionsRecognised(ss: map<Id, Session>, rows: seq<SrcSession>, umap: map<Id, Id>, agent: int,
                                     answers: seq<Option<Id>>)
    requires |rows| == |answers|
  {
    forall i: nat :: i < |rows| ==>
                       SessionRecognised(ReplayedSessions(ss, rows[..i], answers[..i], agent), rows[i], umap,
                                         answers[i])
  }

  // A refresh never changes what a message is looked up by, so the table as it
  // was decides.
  ghost predicate MessagesRecognised(ms: map<Id, Message>, rows: seq<SrcMessage>, smap: map<Id, Id>,
                                     answers: seq<Option<Id>>)
    requires |rows| == |answers|
  {
    forall i: nat :: i < |rows| ==> MessageRecognised(ms, rows[i], smap, answers[i])
  }

  // ---------- one stage ----------

  function UsersExpected(start: Db, rows: seq<SrcUser>, answers: seq<Option<Id>>): Trace<Option<Id>> {
    Trace(seq(|rows| + 1, _ => start), answers)
  }

  function SessionsExpected(start: Db, rows: seq<SrcSession>, agent: int, answers: seq<Option<Id>>): Trace<Option<Id>>
    requires |rows| == |answers|
  {
    Trace(seq(|rows| + 1, i requires 0 <= i <= |rows| =>
                start.(sessions := ReplayedSessions(start.sessions, rows[..i], answers[..i], agent))), answers)
  }

  function MessagesExpected(start: Db, rows: seq<SrcMessage>, agent: int, answers: seq<Option<Id>>): Trace<Option<Id>>
    requires |rows| == |answers|
  {
    Trace(seq(|rows| + 1, i requires 0 <= i <= |rows| =>
                start.(messages := ReplayedMessages(start.messages, rows[..i], answers[..i], agent))), answers)
  }

  ghost predicate AllIn<V>(answers: seq<Option<Id>>, table: map<Id, V>) {
    forall i :: 0 <= i < |answers| && answers[i].Some? ==> answers[i].value in table
  }

  // A step that answers an existing row refreshes it; one that answers none changes nothing.

  lemma SessionAfter(s: SrcSession, umap: map<Id, Id>, agent: int, now: Time, fault: Fault,
                     before: Db, after: Db, r: Option<Id>)
    requires SessionStep(s, umap, agent, now, fault, before, after, r) && (r.Some? ==> r.value in before.sessions)
    ensures after == if r.Some? then before.(sessions :=
                       before.sessions[r.value := RefreshedSession(before.sessions[r.value], s, agent)]) else before
  {
  }

  lemma MessageAfter(m: SrcMessage, smap: map<Id, Id>, agent: int, now: Time, fault: Fault,
                     before: Db, after: Db, r: Option<Id>)
    requires MessageStep(m, smap, agent, now, fault, before, after, r) && (r.Some? ==> r.value in before.messages)
    ensures after == if r.Some? then before.(messages :=
                       before.messages[r.value := RefreshedMessage(before.messages[r.value], m, agent)]) else before
  {
  }

  lemma UsersDetermined(rows: seq<SrcUser>, o: Oracle, start: Db, answers: seq<Option<Id>>)
    requires |rows| == |answers| && AllIn(answers, start.users)
    ensures Determined(rows, UserSteps(o), UsersExpected(start, rows, answers))
    ensures UsersExpected(start, rows, answers).First() == start
    ensures NeverStuck(UserSteps(o))
  {
    forall i: nat, u, db ensures CanStep(UserSteps(o), i, u, db) {
      UserCanStep(o, i, u, db);
    }
    var e, step := UsersExpected(start, rows, answers), UserSteps(o);
    forall i: nat, after | i < |rows| && step(i, rows[i], e.dbs[i], after, e.answers[i]) ensures after == e.dbs[i + 1] {
      assert answers[i].Some? ==> answers[i].value in start.users;
      assert UserStep(rows[i], o.userFault(i), start, after, answers[i]);
    }
  }

  lemma SessionsDetermined(rows: seq<SrcSession>, umap: map<Id, Id>, agent: int, o: Oracle, start: Db,
                           answers: seq<Option<Id>>)
    requires |rows| == |answers| && AllIn(answers, start.sessions)
    ensures Determined(rows, SessionSteps(umap, agent, o), SessionsExpected(start, rows, agent, answers))
    ensures SessionsExpected(start, rows, agent, answers).First() == start
    ensures NeverStuck(SessionSteps(umap, agent, o))
  {
    forall i: nat, s, db ensures CanStep(SessionSteps(umap, agent, o), i, s, db) {
      SessionCanStep(umap, agent, o, i, s, db);
    }
    var e, step := SessionsExpected(start, rows, agent, answers), SessionSteps(umap, agent, o);
    forall i: nat, after | i < |rows| && step(i, rows[i], e.dbs[i], after, e.answers[i]) ensures after == e.dbs[i + 1] {
      ReplayedSessionsStay(start.sessions, rows[..i], answers[..i], agent);
      SessionAfter(rows[i], umap, agent, o.clock(i), o.sessionFault(i), e.dbs[i], after, answers[i]);
      assert rows[..i + 1][..i] == rows[..i] && answers[..i + 1][..i] == answers[..i];
    }
  }

  lemma MessagesDetermined(rows: seq<SrcMessage>, smap: map<Id, Id>, agent: int, o: Oracle, start: Db,
                           answers: seq<Option<Id>>)
    requires |rows| == |answers| && AllIn(answers, start.messages)
    ensures Determined(rows, MessageSteps(smap, agent, o), MessagesExpected(start, rows, agent, answers))
    ensures MessagesExpected(start, rows, agent, answers).First() == start
    ensures NeverStuck(MessageSteps(smap, agent, o))
  {
    forall i: nat, m, db ensures CanStep(MessageSteps(smap, agent, o), i, m, db) {
      MessageCanStep(smap, agent, o, i, m, db);
    }
    var e, step := MessagesExpected(start, rows, agent, answers), MessageSteps(smap, agent, o);
    forall i: nat, after | i < |rows| && step(i, rows[i], e.dbs[i], after, e.answers[i]) ensures after == e.dbs[i + 1] {
      ReplayedMessagesStay(start.messages, rows[..i], answers[..i], agent);
      MessageAfter(rows[i], smap, agent, o.clock(i), o.messageFault(i), e.dbs[i], after, answers[i]);
      assert rows[..i + 1][..i] == rows[..i] && answers[..i + 1][..i] == answers[..i];
    }
  }

  lemma UsersForcedIff(rows: seq<SrcUser>, o: Oracle, start: Db, answers: seq<Option<Id>>)
    requires |rows| == |answers| && AllIn(answers, start.users) && NoFaults(o.userFault)
    ensures ForcedUpTo(rows, UserSteps(o), UsersExpected(start, rows, answers), |rows|) <==>
            UsersRecognised(start, rows, answers)
  {
    var e := UsersExpected(start, rows, answers);
    forall i: nat | i < |rows|
      ensures Forced(UserSteps(o), i, rows[i], e.dbs[i], e.answers[i]) <==> UserRecognised(start, rows[i], answers[i])
    {
      UserForcedIff(o, i, rows[i], start, answers[i]);
    }
  }

  lemma SessionsForcedIff(rows: seq<SrcSession>, umap: map<Id, Id>, agent: int, o: Oracle, start: Db,
                          answers: seq<Option<Id>>)
    requires |rows| == |answers| && AllIn(answers, start.sessions) && NoFaults(o.sessionFault)
    requires Lands(umap, start.users) && forall i: nat :: NewToSessions(o.clock(i), start.sessions)
    ensures ForcedUpTo(rows, SessionSteps(umap, agent, o), SessionsExpected(start, rows, agent, answers), |rows|) <==>
            SessionsRecognised(start.sessions, rows, umap, agent, answers)
  {
    var e, step := SessionsExpected(start, rows, agent, answers), SessionSteps(umap, agent, o);
    forall i: nat | i < |rows|
      ensures Forced(step, i, rows[i], e.dbs[i], e.answers[i]) <==>
              SessionRecognised(ReplayedSessions(start.sessions, rows[..i], answers[..i], agent), rows[i], umap,
                                answers[i])
    {
      ReplayedSessionsStay(start.sessions, rows[..i], answers[..i], agent);
      assert NewToSessions(o.clock(i), start.sessions);
      SessionForcedIff(umap, agent, o, i, rows[i], e.dbs[i], answers[i]);
    }
  }

  lemma ReplayKeepsRecognition(ms: map<Id, Message>, later: map<Id, Message>, m: SrcMessage, smap: map<Id, Id>,
                               want: Option<Id>)
    requires later.Keys == ms.Keys && forall id :: id in ms ==> SameThread(ms[id], later[id])
    ensures MessageRecognised(later, m, smap, want) <==> MessageRecognised(ms, m, smap, want)
  {
    if m.conversationId.Some? && m.conversationId.value in smap {
      var sessionId := smap[m.conversationId.value];
      forall id: Id ensures FindsMessage(later, id, sessionId, m) <==> FindsMessage(ms, id, sessionId, m) {
      }
    }
  }

  lemma MessagesForcedIff(rows: seq<SrcMessage>, smap: map<Id, Id>, agent: int, o: Oracle, start: Db,
                          answers: seq<Option<Id>>)
    requires |rows| == |answers| && AllIn(answers, start.messages) && NoFaults(o.messageFault)
    requires Lands(smap, start.sessions) && forall i: nat :: NewToMessages(o.clock(i), start.messages)
    requires forall id :: id in start.sessions ==> SessionRefs(start, start.sessions[id])
    ensures ForcedUpTo(rows, MessageSteps(smap, agent, o), MessagesExpected(start, rows, agent, answers), |rows|) <==>
            MessagesRecognised(start.messages, rows, smap, answers)
  {
    var e, step := MessagesExpected(start, rows, agent, answers), MessageSteps(smap, agent, o);
    forall i: nat | i < |rows|
      ensures Forced(step, i, rows[i], e.dbs[i], e.answers[i]) <==>
              MessageRecognised(start.messages, rows[i], smap, answers[i])
    {
      ReplayedMessagesStay(start.messages, rows[..i], answers[..i], agent);
      assert NewToMessages(o.clock(i), start.messages);
      MessageForcedIff(smap, agent, o, i, rows[i], e.dbs[i], answers[i]);
      ReplayKeepsRecognition(start.messages, e.dbs[i].messages, rows[i], smap, answers[i]);
    }
  }
}
