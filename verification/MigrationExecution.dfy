// Executions of the migration: what a run is told of failures and of the
// clock, and the states its stages go through, row by row.
module MigrationExecution {
  import opened Basics
  import opened MigrationModel

  // How the parent-link pass may fail: at an UPDATE or at a COMMIT, after `applied` updates.
  datatype LinkFault = LinksSucceed | UpdateLost(applied: nat) | CommitLost(applied: nat)

  // Everything the run does not decide: failures and the clock, row by row.
  datatype Oracle = Oracle(
    userFault: nat -> Fault, sessionFault: nat -> Fault, messageFault: nat -> Fault,
    attachmentFault: nat -> Fault, linkFault: LinkFault, clock: nat -> Time)

  ghost predicate NoFaults(fault: nat -> Fault) {
    forall i: nat :: fault(i) == NoFault
  }

  ghost predicate Clean(o: Oracle) {
    && NoFaults(o.userFault) && NoFaults(o.sessionFault) && NoFaults(o.messageFault)
    && NoFaults(o.attachmentFault) && o.linkFault.LinksSucceed?
  }

  // ---------- the link pass ----------

  const BATCH: nat := 1000

  // Commits happen every BATCH updates and once at the end, and a failure loses
  // what was not committed.
  function Committed(count: nat): nat {
    count / BATCH * BATCH
  }

  lemma CommittedStep(count: nat)
    ensures Committed(count) <= count
    ensures Committed(count + 1) == if (count + 1) % BATCH == 0 then count + 1 else Committed(count)
    ensures (count + 1) % BATCH == 0 ==> Committed(count) == count + 1 - BATCH
  {
  }

  // How many of `n` link updates outlive the pass.
  function Persisted(n: nat, fault: LinkFault): (k: nat)
    ensures k <= n
  {
    match fault
    case LinksSucceed => n
    case UpdateLost(applied) => if applied < n then Committed(applied) else n
    case CommitLost(applied) =>
      if 0 < applied <= n && applied % BATCH == 0 then applied - BATCH
      else if applied == n then Committed(n)
      else n
  }

  // Exactly the first k links have been applied.
  ghost predicate LinkedUpTo(start: Db, db: Db, links: seq<(Id, Id)>, k: nat) {
    k <= |links| && db == start.(messages := ApplyLinks(start.messages, links[..k]))
  }

  // ---------- one stage ----------

  // Row number i takes the first database to the second and gives the answer.
  type Step<-R, -A> = (nat, R, Db, Db, A) -> bool

  // The database before the first row, after each row, and each row's answer.
  datatype Trace<A> = Trace(dbs: seq<Db>, answers: seq<A>) {
    ghost function First(): Db
      requires dbs != []
    {
      dbs[0]
    }

    ghost function Last(): Db
      requires dbs != []
    {
      dbs[|dbs| - 1]
    }
  }

  ghost predicate Steps<R, A>(rows: seq<R>, step: Step<R, A>, t: Trace<A>) {
    && |t.dbs| == |rows| + 1 && |t.answers| == |rows|
    && forall i :: 0 <= i < |rows| ==> step(i, rows[i], t.dbs[i], t.dbs[i + 1], t.answers[i])
  }

  function Then<A>(t: Trace<A>, after: Db, answer: A): Trace<A> {
    Trace(t.dbs + [after], t.answers + [answer])
  }

  lemma StepsSnoc<R, A>(rows: seq<R>, row: R, step: Step<R, A>, t: Trace<A>, after: Db, answer: A)
    requires Steps(rows, step, t) && step(|rows|, row, t.Last(), after, answer)
    ensures Steps(rows + [row], step, Then(t, after, answer))
  {
  }

  // The id map that a stage builds from its rows' answers.
  function Extended(idMap: map<Id, Id>, key: Id, r: Option<Id>): map<Id, Id> {
    if r.Some? then idMap[key := r.value] else idMap
  }

  function MapOf(ids: seq<Id>, answers: seq<Option<Id>>): map<Id, Id>
    requires |ids| == |answers|
  {
    if ids == [] then map[]
    else
      var n := |ids| - 1;
      Extended(MapOf(ids[..n], answers[..n]), ids[n], answers[n])
  }

  lemma MapOfSnoc(ids: seq<Id>, answers: seq<Option<Id>>, id: Id, r: Option<Id>)
    requires |ids| == |answers|
    ensures MapOf(ids + [id], answers + [r]) == Extended(MapOf(ids, answers), id, r)
  {
    assert (ids + [id])[..|ids|] == ids && (answers + [r])[..|ids|] == answers;
  }

  ghost predicate Unique(ids: seq<Id>) {
    forall i, j :: 0 <= i < j < |ids| ==> ids[i] != ids[j]
  }

  // With unique ids a row is in the map exactly when it was answered.
  lemma {:induction false} MapOfAt(ids: seq<Id>, answers: seq<Option<Id>>, i: nat)
    requires |ids| == |answers| && Unique(ids) && i < |ids|
    ensures ids[i] in MapOf(ids, answers) <==> answers[i].Some?
    ensures answers[i].Some? ==> MapOf(ids, answers)[ids[i]] == answers[i].value
  {
    var n := |ids| - 1;
    if i < n {
      MapOfAt(ids[..n], answers[..n], i);
    } else {
      MapOfKeys(ids[..n], answers[..n]);
    }
  }

  lemma {:induction false} MapOfKeys(ids: seq<Id>, answers: seq<Option<Id>>)
    requires |ids| == |answers|
    ensures forall id :: id in MapOf(ids, answers) ==> exists i :: 0 <= i < |ids| && ids[i] == id && answers[i].Some?
  {
    if ids != [] {
      var n := |ids| - 1;
      MapOfKeys(ids[..n], answers[..n]);
      forall id | id in MapOf(ids, answers)
        ensures exists i :: 0 <= i < |ids| && ids[i] == id && answers[i].Some?
      {
        if id in MapOf(ids[..n], answers[..n]) {
          var i :| 0 <= i < n && ids[..n][i] == id && answers[..n][i].Some?;
          assert ids[i] == id && answers[i].Some?;
        } else {
          assert ids[n] == id;
        }
      }
    }
  }

  lemma {:induction false} MapOfValues(ids: seq<Id>, answers: seq<Option<Id>>)
    requires |ids| == |answers|
    ensures forall id :: id in MapOf(ids, answers) ==>
                           exists i :: 0 <= i < |ids| && answers[i] == Some(MapOf(ids, answers)[id])
  {
    if ids != [] {
      var n := |ids| - 1;
      MapOfValues(ids[..n], answers[..n]);
      forall id | id in MapOf(ids, answers)
        ensures exists i :: 0 <= i < |ids| && answers[i] == Some(MapOf(ids, answers)[id])
      {
        if answers[n].Some? && ids[n] == id {
          assert answers[n] == Some(MapOf(ids, answers)[id]);
        } else {
          var i :| 0 <= i < n && answers[..n][i] == Some(MapOf(ids[..n], answers[..n])[id]);
          assert answers[i] == Some(MapOf(ids, answers)[id]);
        }
      }
    }
  }

  // ---------- the four stages ----------

  function UserIds(rows: seq<SrcUser>): seq<Id> {
    seq(|rows|, i requires 0 <= i < |rows| => rows[i].id)
  }

  function SessionIds(rows: seq<SrcSession>): seq<Id> {
    seq(|rows|, i requires 0 <= i < |rows| => rows[i].id)
  }

  function MessageIds(rows: seq<SrcMessage>): seq<Id> {
    seq(|rows|, i requires 0 <= i < |rows| => rows[i].id)
  }

  // The source's primary keys.
  ghost predicate UniqueIds(src: Source) {
    Unique(UserIds(src.users)) && Unique(SessionIds(src.sessions)) && Unique(MessageIds(src.messages))
  }

  ghost function UserSteps(o: Oracle): Step<SrcUser, Option<Id>> {
    (i: nat, u, before, after, r) => UserStep(u, o.userFault(i), before, after, r)
  }

  ghost function SessionSteps(umap: map<Id, Id>, agent: int, o: Oracle): Step<SrcSession, Option<Id>> {
    (i: nat, s, before, after, r) => SessionStep(s, umap, agent, o.clock(i), o.sessionFault(i), before, after, r)
  }

  ghost function MessageSteps(smap: map<Id, Id>, agent: int, o: Oracle): Step<SrcMessage, Option<Id>> {
    (i: nat, m, before, after, r) => MessageStep(m, smap, agent, o.clock(i), o.messageFault(i), before, after, r)
  }

  // What became of an attachment: None when the row was not handled.
  type Outcome = Option<Action>

  function OutcomeOf(ok: bool, action: Action): Outcome {
    if ok then Some(action) else None
  }

  // The statistics that the attachment stage prints.
  datatype Stats = Stats(created: nat, updated: nat, skipped: nat)

  // A row that was not handled is not counted anywhere.
  function Counted(stats: Stats, outcome: Outcome): Stats {
    match outcome
    case None => stats
    case Some(Created) => stats.(created := stats.created + 1)
    case Some(Updated) => stats.(updated := stats.updated + 1)
    case Some(Skipped) => stats.(skipped := stats.skipped + 1)
  }

  // How often each outcome occurred.
  function Tally(outcomes: seq<Outcome>): Stats {
    Stats(multiset(outcomes)[Some(Created)], multiset(outcomes)[Some(Updated)], multiset(outcomes)[Some(Skipped)])
  }

  lemma TallySnoc(outcomes: seq<Outcome>, outcome: Outcome)
    ensures Tally(outcomes + [outcome]) == Counted(Tally(outcomes), outcome)
  {
  }

  ghost predicate OutcomeStep(a: SrcAttachment, mmap: map<Id, Id>, now: Time, fault: Fault,
                              before: Db, after: Db, outcome: Outcome) {
    AttachmentStep(a, mmap, now, fault, before, after, outcome.Some?, if outcome.Some? then outcome.value else Skipped)
  }

  ghost function AttachmentSteps(mmap: map<Id, Id>, o: Oracle): Step<SrcAttachment, Outcome> {
    (i: nat, a, before, after, outcome) =>
      OutcomeStep(a, mmap, o.clock(i), o.attachmentFault(i), before, after, outcome)
  }

  // ---------- a whole run ----------

  datatype Run = Run(
    users: Trace<Option<Id>>, sessions: Trace<Option<Id>>, messages: Trace<Option<Id>>,
    linked: Db, attachments: Trace<Outcome>,
    umap: map<Id, Id>, smap: map<Id, Id>, mmap: map<Id, Id>, stats: Stats)

  ghost predicate UsersTraced(rows: seq<SrcUser>, o: Oracle, t: Trace<Option<Id>>, umap: map<Id, Id>) {
    Steps(rows, UserSteps(o), t) && umap == MapOf(UserIds(rows), t.answers)
  }

  ghost predicate SessionsTraced(rows: seq<SrcSession>, umap: map<Id, Id>, agent: int, o: Oracle,
                                 t: Trace<Option<Id>>, smap: map<Id, Id>) {
    Steps(rows, SessionSteps(umap, agent, o), t) && smap == MapOf(SessionIds(rows), t.answers)
  }

  ghost predicate MessagesTraced(rows: seq<SrcMessage>, smap: map<Id, Id>, agent: int, o: Oracle,
                                 t: Trace<Option<Id>>, mmap: map<Id, Id>) {
    Steps(rows, MessageSteps(smap, agent, o), t) && mmap == MapOf(MessageIds(rows), t.answers)
  }

  ghost predicate AttachmentsTraced(rows: seq<SrcAttachment>, mmap: map<Id, Id>, o: Oracle,
                                    t: Trace<Outcome>, stats: Stats) {
    Steps(rows, AttachmentSteps(mmap, o), t) && stats == Tally(t.answers)
  }

  lemma UserTraced(rows: seq<SrcUser>, i: nat, o: Oracle, t: Trace<Option<Id>>, umap: map<Id, Id>, after: Db,
                   r: Option<Id>)
    requires i < |rows| && UsersTraced(rows[..i], o, t, umap)
    requires UserStep(rows[i], o.userFault(i), t.Last(), after, r)
    ensures UsersTraced(rows[..i + 1], o, Then(t, after, r), Extended(umap, rows[i].id, r))
  {
    StepsSnoc(rows[..i], rows[i], UserSteps(o), t, after, r);
    MapOfSnoc(UserIds(rows[..i]), t.answers, rows[i].id, r);
    assert rows[..i + 1] == rows[..i] + [rows[i]];
    assert UserIds(rows[..i + 1]) == UserIds(rows[..i]) + [rows[i].id];
  }

  lemma SessionTraced(rows: seq<SrcSession>, i: nat, umap: map<Id, Id>, agent: int, o: Oracle, t: Trace<Option<Id>>,
                      smap: map<Id, Id>, after: Db, r: Option<Id>)
    requires i < |rows| && SessionsTraced(rows[..i], umap, agent, o, t, smap)
    requires SessionStep(rows[i], umap, agent, o.clock(i), o.sessionFault(i), t.Last(), after, r)
    ensures SessionsTraced(rows[..i + 1], umap, agent, o, Then(t, after, r), Extended(smap, rows[i].id, r))
  {
    StepsSnoc(rows[..i], rows[i], SessionSteps(umap, agent, o), t, after, r);
    MapOfSnoc(SessionIds(rows[..i]), t.answers, rows[i].id, r);
    assert rows[..i + 1] == rows[..i] + [rows[i]];
    assert SessionIds(rows[..i + 1]) == SessionIds(rows[..i]) + [rows[i].id];
  }

  lemma MessageTraced(rows: seq<SrcMessage>, i: nat, smap: map<Id, Id>, agent: int, o: Oracle, t: Trace<Option<Id>>,
                      mmap: map<Id, Id>, after: Db, r: Option<Id>)
    requires i < |rows| && MessagesTraced(rows[..i], smap, agent, o, t, mmap)
    requires MessageStep(rows[i], smap, agent, o.clock(i), o.messageFault(i), t.Last(), after, r)
    ensures MessagesTraced(rows[..i + 1], smap, agent, o, Then(t, after, r), Extended(mmap, rows[i].id, r))
  {
    StepsSnoc(rows[..i], rows[i], MessageSteps(smap, agent, o), t, after, r);
    MapOfSnoc(MessageIds(rows[..i]), t.answers, rows[i].id, r);
    assert rows[..i + 1] == rows[..i] + [rows[i]];
    assert MessageIds(rows[..i + 1]) == MessageIds(rows[..i]) + [rows[i].id];
  }

  lemma AttachmentTraced(rows: seq<SrcAttachment>, i: nat, mmap: map<Id, Id>, o: Oracle, t: Trace<Outcome>,
                         stats: Stats, after: Db, ok: bool, action: Action)
    requires i < |rows| && AttachmentsTraced(rows[..i], mmap, o, t, stats)
    requires AttachmentStep(rows[i], mmap, o.clock(i), o.attachmentFault(i), t.Last(), after, ok, action)
    ensures AttachmentsTraced(rows[..i + 1], mmap, o, Then(t, after, OutcomeOf(ok, action)),
                              Counted(stats, OutcomeOf(ok, action)))
  {
    var outcome := OutcomeOf(ok, action);
    assert OutcomeStep(rows[i], mmap, o.clock(i), o.attachmentFault(i), t.Last(), after, outcome);
    StepsSnoc(rows[..i], rows[i], AttachmentSteps(mmap, o), t, after, outcome);
    assert rows[..i + 1] == rows[..i] + [rows[i]];
  }

  // The first three stages, which build the id maps.
  ghost predicate MapsBuilt(src: Source, agent: int, o: Oracle, x: Run) {
    && UsersTraced(src.users, o, x.users, x.umap)
    && SessionsTraced(src.sessions, x.umap, agent, o, x.sessions, x.smap) && x.sessions.First() == x.users.Last()
    && MessagesTraced(src.messages, x.smap, agent, o, x.messages, x.mmap) && x.messages.First() == x.sessions.Last()
  }

  ghost predicate Execution(src: Source, agent: int, o: Oracle, x: Run) {
    && MapsBuilt(src, agent, o, x)
    && LinkedUpTo(x.messages.Last(), x.linked, LinksOf(src.messages, x.mmap),
                  Persisted(|LinksOf(src.messages, x.mmap)|, o.linkFault))
    && AttachmentsTraced(src.attachments, x.mmap, o, x.attachments, x.stats)
    && x.attachments.First() == x.linked
  }
}
