// Grouping a conversation into runs, and reconciling the agent's session table
// with the grouped source.
module RunGrouping {
  import opened Basics

  datatype Message = Message(id: Id, content: Option<string>, isReply: bool, createdAt: Time)

  // A run: its id is generated anew by every execution of the query.
  datatype Run = Run(runId: Id, input: Option<string>, output: Option<string>, messages: seq<Message>)

  // ---------- the grouping query ----------

  // CEILING(msg_num / 2), with msg_num counted from 1.
  function RunNumber(k: nat): nat
    requires k >= 1
  {
    (k + 1) / 2
  }

  // The messages of run r, in order; ms is in the order of the row numbers.
  function Group(ms: seq<Message>, r: nat): seq<Message> {
    if ms == [] then []
    else Group(ms[..|ms| - 1], r) + if RunNumber(|ms|) == r then [ms[|ms| - 1]] else []
  }

  function RunCount(ms: seq<Message>): nat {
    if ms == [] then 0 else RunNumber(|ms|)
  }

  // GROUP BY run_num, ordered by run_num: the first n groups.
  function Groups(ms: seq<Message>, n: nat): (gs: seq<seq<Message>>)
    ensures |gs| == n
  {
    if n == 0 then [] else Groups(ms, n - 1) + [Group(ms, n)]
  }

  function Concat(gs: seq<seq<Message>>): seq<Message> {
    if gs == [] then [] else Concat(gs[..|gs| - 1]) + gs[|gs| - 1]
  }

  function Texts(ms: seq<Message>, isReply: bool): seq<string> {
    if ms == [] then []
    else
      var m := ms[|ms| - 1];
      Texts(ms[..|ms| - 1], isReply) + if m.isReply == isReply && m.content.Some? then [m.content.value] else []
  }

  // MIN or MAX of the texts that are not null, for whatever order the database compares by.
  function Best(ts: seq<string>, better: (string, string) -> bool): Option<string> {
    if ts == [] then None
    else
      var before := Best(ts[..|ts| - 1], better);
      if before.Some? && !better(ts[|ts| - 1], before.value) then before else Some(ts[|ts| - 1])
  }

  // MIN of the user messages and MAX of the replies.
  function InputOf(g: seq<Message>, less: (string, string) -> bool): Option<string> {
    Best(Texts(g, false), less)
  }

  function OutputOf(g: seq<Message>, less: (string, string) -> bool): Option<string> {
    Best(Texts(g, true), (a, b) => less(b, a))
  }

  function MakeRun(g: seq<Message>, runId: Id, less: (string, string) -> bool): Run {
    Run(runId, InputOf(g, less), OutputOf(g, less), g)
  }

  // ---------- runs partition the conversation ----------

  function Upto(r: nat, n: nat): nat {
    if 2 * r < n then 2 * r else n
  }

  lemma RunNumberIs(k: nat, r: nat)
    requires k >= 1 && r >= 1
    ensures RunNumber(k) == r <==> k == 2 * r - 1 || k == 2 * r
  {
  }

  lemma SliceSnoc(ms: seq<Message>, i: nat)
    requires ms != [] && i < |ms|
    ensures ms[..|ms| - 1][i..] + [ms[|ms| - 1]] == ms[i..]
  {
  }

  lemma {:induction false} GroupIsASlice(ms: seq<Message>, r: nat)
    requires r >= 1
    ensures Group(ms, r) == ms[Upto(r - 1, |ms|)..Upto(r, |ms|)]
  {
    if ms != [] {
      var n, front := |ms|, ms[..|ms| - 1];
      GroupIsASlice(front, r);
      RunNumberIs(n, r);
      if n == 2 * r - 1 || n == 2 * r {
        SliceSnoc(ms, 2 * r - 2);
        assert front[2 * r - 2..n - 1] == front[2 * r - 2..];
        assert ms[2 * r - 2..n] == ms[2 * r - 2..];
      } else {
        assert Upto(r - 1, n - 1) == Upto(r - 1, n) || n < 2 * r - 1;
        assert Group(ms, r) == Group(front, r);
      }
    }
  }

  lemma {:induction false} GroupAt(ms: seq<Message>, n: nat, i: nat)
    requires i < n
    ensures Groups(ms, n)[i] == ms[Upto(i, |ms|)..Upto(i + 1, |ms|)]
  {
    if i < n - 1 {
      GroupAt(ms, n - 1, i);
    } else {
      GroupIsASlice(ms, n);
    }
  }

  lemma {:induction false} GroupsTile(ms: seq<Message>, n: nat)
    ensures Concat(Groups(ms, n)) == ms[..Upto(n, |ms|)]
  {
    if n > 0 {
      GroupsTile(ms, n - 1);
      GroupIsASlice(ms, n);
      assert Groups(ms, n)[..n - 1] == Groups(ms, n - 1);
      assert ms[..Upto(n - 1, |ms|)] + ms[Upto(n - 1, |ms|)..Upto(n, |ms|)] == ms[..Upto(n, |ms|)];
    }
  }

  // The runs put end to end are the conversation; there are ceil(n / 2), each of
  // two messages except perhaps the last, which then has one.
  lemma RunsPartitionConversation(ms: seq<Message>)
    ensures Concat(Groups(ms, RunCount(ms))) == ms
    ensures RunCount(ms) == (|ms| + 1) / 2
    ensures forall i :: 0 <= i < RunCount(ms) ==>
                          |Groups(ms, RunCount(ms))[i]| == if 2 * i + 1 < |ms| then 2 else 1
  {
    GroupsTile(ms, RunCount(ms));
    assert ms[..|ms|] == ms;
    forall i | 0 <= i < RunCount(ms)
      ensures |Groups(ms, RunCount(ms))[i]| == if 2 * i + 1 < |ms| then 2 else 1
    {
      GroupAt(ms, RunCount(ms), i);
    }
  }

  lemma FullGroup(ms: seq<Message>, r: nat)
    requires 2 * r + 1 < |ms|
    ensures r < RunCount(ms) && Groups(ms, RunCount(ms))[r] == [ms[2 * r], ms[2 * r + 1]]
  {
    GroupAt(ms, RunCount(ms), r);
    UptoFull(r, |ms|);
    PairSlice(ms, 2 * r);
  }

  lemma UptoFull(r: nat, n: nat)
    requires 2 * r + 1 < n
    ensures Upto(r, n) == 2 * r && Upto(r + 1, n) == 2 * r + 2
  {
  }

  lemma PairSlice(ms: seq<Message>, i: nat)
    requires i + 1 < |ms|
    ensures ms[i..i + 2] == [ms[i], ms[i + 1]]
  {
  }

  lemma TextsOfTwo(a: Message, b: Message, isReply: bool)
    requires a.content.Some? && b.content.Some?
    ensures Texts([a, b], isReply) == (if a.isReply == isReply then [a.content.value] else [])
                                     + (if b.isReply == isReply then [b.content.value] else [])
  {
    assert [a, b][..1] == [a] && [a][..0] == [];
    assert Texts([a], isReply) == if a.isReply == isReply then [a.content.value] else [];
  }

  lemma BestOfUpToTwo(ts: seq<string>, better: (string, string) -> bool)
    requires |ts| <= 2
    ensures ts == [] ==> Best(ts, better) == None
    ensures |ts| == 1 ==> Best(ts, better) == Some(ts[0])
    ensures |ts| == 2 ==> Best(ts, better).Some?
  {
    if |ts| == 1 {
      assert ts[..0] == [];
    }
  }

  // A full run shows both an input and an output exactly when its two messages
  // have different roles, and then they are those messages' texts.
  lemma RunShowsBothIff(a: Message, b: Message, runId: Id, less: (string, string) -> bool)
    requires a.content.Some? && b.content.Some?
    ensures var run := MakeRun([a, b], runId, less);
            && (run.input.Some? && run.output.Some? <==> a.isReply != b.isReply)
            && (!a.isReply && b.isReply ==> run.input == a.content && run.output == b.content)
            && (a.isReply && !b.isReply ==> run.input == b.content && run.output == a.content)
  {
    TextsOfTwo(a, b, false);
    TextsOfTwo(a, b, true);
    BestOfUpToTwo(Texts([a, b], false), less);
    BestOfUpToTwo(Texts([a, b], true), (s, t) => less(t, s));
  }

  // The database's order of texts.
  ghost predicate TotalOrder(less: (string, string) -> bool) {
    && (forall a :: !less(a, a))
    && (forall a, b :: a != b ==> less(a, b) || less(b, a))
    && (forall a, b, c :: less(a, b) && less(b, c) ==> less(a, c))
  }

  // One of the texts, and none is before it in the order.
  lemma {:induction false} BestIsExtreme(ts: seq<string>, better: (string, string) -> bool)
    requires TotalOrder(better)
    ensures Best(ts, better).None? <==> ts == []
    ensures Best(ts, better).Some? ==>
              Best(ts, better).value in ts && forall t :: t in ts ==> !better(t, Best(ts, better).value)
  {
    if ts != [] {
      BestIsExtreme(ts[..|ts| - 1], better);
      assert ts == ts[..|ts| - 1] + [ts[|ts| - 1]];
    }
  }

  lemma {:induction false} TextsAre(ms: seq<Message>, isReply: bool, t: string)
    ensures t in Texts(ms, isReply) <==> exists m :: m in ms && m.isReply == isReply && m.content == Some(t)
  {
    if ms != [] {
      TextsAre(ms[..|ms| - 1], isReply, t);
      assert ms == ms[..|ms| - 1] + [ms[|ms| - 1]];
    }
  }

  // A message of this role in the group has the text.
  ghost predicate Says(g: seq<Message>, isReply: bool, t: string) {
    exists m :: m in g && m.isReply == isReply && m.content == Some(t)
  }

  // A run's input is the least text of its user messages, its output the
  // greatest of its replies, and each is null exactly when there is no text.
  lemma RunTexts(g: seq<Message>, runId: Id, less: (string, string) -> bool)
    requires TotalOrder(less)
    ensures var run := MakeRun(g, runId, less);
            && run.runId == runId && run.messages == g
            && (forall t :: run.input == Some(t) <==>
                              Says(g, false, t) && forall other :: Says(g, false, other) ==> !less(other, t))
            && (forall t :: run.output == Some(t) <==>
                              Says(g, true, t) && forall other :: Says(g, true, other) ==> !less(t, other))
            && (run.input == None <==> forall t :: !Says(g, false, t))
            && (run.output == None <==> forall t :: !Says(g, true, t))
  {
    var users, replies := Texts(g, false), Texts(g, true);
    forall t ensures (t in users <==> Says(g, false, t)) && (t in replies <==> Says(g, true, t)) {
      TextsAre(g, false, t);
      TextsAre(g, true, t);
    }
    var more := (a, b) => less(b, a);
    BestIsExtreme(users, less);
    BestIsExtreme(replies, more);
    assert users == [] <==> forall t :: t !in users by {
      assert users != [] ==> users[0] in users;
    }
    assert replies == [] <==> forall t :: t !in replies by {
      assert replies != [] ==> replies[0] in replies;
    }
  }

  // Even positions are user messages with a text, odd ones replies with a text.
  predicate InTurn(ms: seq<Message>, i: nat)
    requires i < |ms|
  {
    ms[i].content.Some? && ms[i].isReply == (i % 2 == 1)
  }

  ghost predicate Alternating(ms: seq<Message>) {
    forall i :: 0 <= i < |ms| ==> InTurn(ms, i)
  }

  // The runs of one conversation; `ids(r)` is the id generated for run r.
  function RunsOf(ms: seq<Message>, ids: nat -> Id, less: (string, string) -> bool): (runs: seq<Run>)
    ensures |runs| == RunCount(ms)
  {
    seq(RunCount(ms), r requires 0 <= r < RunCount(ms) => MakeRun(Groups(ms, RunCount(ms))[r], ids(r), less))
  }

  // In a conversation that alternates from a user message on, every run carries
  // its own question and its own reply; a last question without a reply makes a
  // run with that input and no output.
  lemma AlternatingRunsAreExchanges(ms: seq<Message>, ids: nat -> Id, less: (string, string) -> bool, r: nat)
    requires Alternating(ms) && r < RunCount(ms)
    ensures 2 * r < |ms|
    ensures RunsOf(ms, ids, less)[r] ==
            if 2 * r + 1 < |ms| then
              Run(ids(r), ms[2 * r].content, ms[2 * r + 1].content, [ms[2 * r], ms[2 * r + 1]])
            else
              Run(ids(r), ms[2 * r].content, None, [ms[2 * r]])
  {
    if 2 * r + 1 < |ms| {
      FullGroup(ms, r);
      PairInTurn(ms, r);
      RunShowsBothIff(ms[2 * r], ms[2 * r + 1], ids(r), less);
    } else {
      GroupAt(ms, RunCount(ms), r);
      assert InTurn(ms, 2 * r);
      assert Groups(ms, RunCount(ms))[r] == [ms[2 * r]];
      HalfRun(ms[2 * r], ids(r), less);
    }
  }

  lemma HalfRun(m: Message, runId: Id, less: (string, string) -> bool)
    requires m.content.Some? && !m.isReply
    ensures MakeRun([m], runId, less) == Run(runId, m.content, None, [m])
  {
    assert [m][..0] == [];
    assert Texts([m], false) == [m.content.value] && Texts([m], true) == [];
    BestOfUpToTwo(Texts([m], false), less);
  }

  lemma PairInTurn(ms: seq<Message>, r: nat)
    requires Alternating(ms) && 2 * r + 1 < |ms|
    ensures !ms[2 * r].isReply && ms[2 * r + 1].isReply && ms[2 * r].content.Some? && ms[2 * r + 1].content.Some?
  {
    assert InTurn(ms, 2 * r) && InTurn(ms, 2 * r + 1);
  }

  // ---------- reconciling the session table ----------

  datatype Row = Row(
    sessionId: Id, agentId: string, agentData: string, userId: string, sessionData: string,
    runs: seq<Run>, createdAt: Time, updatedAt: Time)

  datatype Record = Record(
    agentId: string, agentData: string, userId: string, sessionData: string,
    runs: seq<Run>, createdAt: Time, updatedAt: Time)

  function Inserted(row: Row): Record {
    Record(row.agentId, row.agentData, row.userId, row.sessionData, row.runs, row.createdAt, row.updatedAt)
  }

  // ON CONFLICT DO UPDATE: the user and the creation time stay.
  function Merged(stored: Record, row: Row): Record {
    stored.(agentId := row.agentId, agentData := row.agentData, runs := row.runs,
          sessionData := row.sessionData, updatedAt := row.updatedAt)
  }

  predicate UpToDate(r: Record, row: Row) {
    r.agentId == row.agentId && r.agentData == row.agentData && r.runs == row.runs
  }

  function ReconcileOne(table: map<Id, Record>, row: Row): map<Id, Record> {
    if row.sessionId !in table then table[row.sessionId := Inserted(row)]
    else if UpToDate(table[row.sessionId], row) then table
    else table[row.sessionId := Merged(table[row.sessionId], row)]
  }

  function Reconciled(table: map<Id, Record>, rows: seq<Row>): map<Id, Record> {
    if rows == [] then table
    else ReconcileOne(Reconciled(table, rows[..|rows| - 1]), rows[|rows| - 1])
  }

  // GROUP BY session: one row for each.
  ghost predicate OneRowEach(rows: seq<Row>) {
    forall i, j :: 0 <= i < j < |rows| ==> rows[i].sessionId != rows[j].sessionId
  }

  ghost predicate InRows(rows: seq<Row>, id: Id) {
    exists i :: 0 <= i < |rows| && rows[i].sessionId == id
  }

  lemma InRowsSnoc(front: seq<Row>, last: Row, id: Id)
    ensures InRows(front + [last], id) <==> InRows(front, id) || last.sessionId == id
  {
    var rows := front + [last];
    assert rows[|front|] == last;
    if i :| 0 <= i < |front| && front[i].sessionId == id {
      assert rows[i].sessionId == id;
    }
  }

  // Each source row decides its own session and no other changes.
  lemma {:induction false} ReconciledRows(table: map<Id, Record>, rows: seq<Row>, id: Id)
    requires OneRowEach(rows)
    ensures id in Reconciled(table, rows) <==> id in table || InRows(rows, id)
    ensures id in table && !InRows(rows, id) ==> Reconciled(table, rows)[id] == table[id]
    ensures forall i :: 0 <= i < |rows| && rows[i].sessionId == id ==>
                          Reconciled(table, rows)[id] == ReconcileOne(table, rows[i])[id]
  {
    if rows != [] {
      var n := |rows| - 1;
      var front, last := rows[..n], rows[n];
      assert forall i :: 0 <= i < n ==> front[i] == rows[i];
      assert rows == front + [last];
      ReconciledRows(table, front, id);
      InRowsSnoc(front, last, id);
      assert !InRows(front, last.sessionId);
    }
  }

  // Afterwards agent, agent data and runs equal the source in every session.
  lemma ReconciledIsUpToDate(table: map<Id, Record>, rows: seq<Row>, i: nat)
    requires OneRowEach(rows) && i < |rows|
    ensures var r := Reconciled(table, rows);
            rows[i].sessionId in r && UpToDate(r[rows[i].sessionId], rows[i])
  {
    ReconciledRows(table, rows, rows[i].sessionId);
  }

  // What each column holds afterwards: a new session is the source row; in a
  // known one the user and the creation time stay, and the rest is the source
  // row's, unless agent, agent data and runs were so already.
  lemma ReconciledColumns(table: map<Id, Record>, rows: seq<Row>, i: nat)
    requires OneRowEach(rows) && i < |rows|
    ensures var row := rows[i];
            && row.sessionId in Reconciled(table, rows)
            && var r := Reconciled(table, rows)[row.sessionId];
            && r.agentId == row.agentId && r.agentData == row.agentData && r.runs == row.runs
            && (row.sessionId !in table ==>
                  && r.userId == row.userId && r.sessionData == row.sessionData
                  && r.createdAt == row.createdAt && r.updatedAt == row.updatedAt)
            && (row.sessionId in table ==>
                  var was := table[row.sessionId];
                  && r.userId == was.userId && r.createdAt == was.createdAt
                  && if was.agentId == row.agentId && was.agentData == row.agentData && was.runs == row.runs
                     then r.sessionData == was.sessionData && r.updatedAt == was.updatedAt
                     else r.sessionData == row.sessionData && r.updatedAt == row.updatedAt)
  {
    ReconciledRows(table, rows, rows[i].sessionId);
  }

  // ---------- a rerun ----------

  function WithoutIds(runs: seq<Run>): seq<Run> {
    seq(|runs|, i requires 0 <= i < |runs| => runs[i].(runId := 0))
  }

  // The same source queried again: equal but for the generated run ids.
  ghost predicate SameSource(a: seq<Row>, b: seq<Row>) {
    && |a| == |b|
    && forall i :: 0 <= i < |a| ==> a[i] == b[i].(runs := a[i].runs) && WithoutIds(a[i].runs) == WithoutIds(b[i].runs)
  }

  function SkippedRows(table: map<Id, Record>, rows: seq<Row>, n: nat): nat
    requires n <= |rows|
  {
    if n == 0 then 0
    else SkippedRows(table, rows, n - 1)
         + var row := rows[n - 1];
           if row.sessionId in table && UpToDate(table[row.sessionId], row) then 1 else 0
  }

  function InsertedRows(table: map<Id, Record>, rows: seq<Row>, n: nat): nat
    requires n <= |rows|
  {
    if n == 0 then 0
    else InsertedRows(table, rows, n - 1) + if rows[n - 1].sessionId in table then 0 else 1
  }

  // A rerun inserts nothing, skips exactly the rows whose run ids came out the
  // same, and changes nothing but run ids.
  lemma {:induction false} RerunCounts(table: map<Id, Record>, first: seq<Row>, again: seq<Row>, n: nat)
    requires OneRowEach(first) && SameSource(first, again) && n <= |again|
    ensures InsertedRows(Reconciled(table, first), again, n) == 0
    ensures SkippedRows(Reconciled(table, first), again, n) == EqualRuns(first, again, n)
  {
    if n > 0 {
      RerunCounts(table, first, again, n - 1);
      ReconciledIsUpToDate(table, first, n - 1);
    }
  }

  function EqualRuns(a: seq<Row>, b: seq<Row>, n: nat): nat
    requires n <= |a| && n <= |b|
  {
    if n == 0 then 0 else EqualRuns(a, b, n - 1) + if a[n - 1].runs == b[n - 1].runs then 1 else 0
  }

  // With different first run ids no session is skipped.
  lemma {:induction false} DifferentIdsSkipNothing(a: seq<Row>, b: seq<Row>, n: nat)
    requires n <= |a| && n <= |b|
    requires forall i :: 0 <= i < n ==> a[i].runs != [] && b[i].runs != [] && a[i].runs[0].runId != b[i].runs[0].runId
    ensures EqualRuns(a, b, n) == 0
  {
    if n > 0 {
      DifferentIdsSkipNothing(a, b, n - 1);
    }
  }

  lemma SameRowsSameSessions(a: seq<Row>, b: seq<Row>, id: Id)
    requires SameSource(a, b)
    ensures InRows(a, id) <==> InRows(b, id)
  {
    if i :| 0 <= i < |a| && a[i].sessionId == id {
      assert b[i].sessionId == id;
    }
    if i :| 0 <= i < |b| && b[i].sessionId == id {
      assert a[i].sessionId == id;
    }
  }

  // Equal but for run ids and the columns an update does not compare.
  predicate SameButRunIds(a: Record, b: Record) {
    && WithoutIds(a.runs) == WithoutIds(b.runs)
    && a.agentId == b.agentId && a.agentData == b.agentData && a.userId == b.userId && a.createdAt == b.createdAt
  }

  // Writing the same source again keeps the sessions, and changes nothing in them but run ids.
  lemma SameSourceChangesOnlyRunIds(table: map<Id, Record>, first: seq<Row>, again: seq<Row>, id: Id)
    requires OneRowEach(first) && OneRowEach(again) && SameSource(first, again)
    ensures var once := Reconciled(table, first);
            var twice := Reconciled(once, again);
            && (id in twice <==> id in once)
            && (id in once ==> SameButRunIds(twice[id], once[id]))
  {
    var once := Reconciled(table, first);
    ReconciledRows(once, again, id);
    ReconciledRows(table, first, id);
    SameRowsSameSessions(first, again, id);
    if i :| 0 <= i < |again| && again[i].sessionId == id {
      assert first[i] == again[i].(runs := first[i].runs);
      assert UpToDate(once[id], first[i]);
    }
  }

  // ---------- the source query ----------

  // A conversation with its messages in the order of the row numbers.  `email`
  // is its user's, None when it has no user.
  datatype Conversation = Conversation(
    id: Id, email: Option<string>, sessionData: string, messages: seq<Message>, createdAt: Time, updatedAt: Time)

  const AGENT_ID := "606770b4-80c2-46a8-b86d-693f74684907"
  const AGENT_DATA := "AiQ MCP Agent DEV"

  // The joins keep conversations with a user and at least one message.
  predicate Joined(c: Conversation) {
    c.email.Some? && c.messages != []
  }

  // `ids(session, r)` is the id that this execution of the query generates for run r.
  function RowOf(c: Conversation, ids: (Id, nat) -> Id, less: (string, string) -> bool): Row
    requires Joined(c)
  {
    Row(c.id, AGENT_ID, AGENT_DATA, c.email.value, c.sessionData, RunsOf(c.messages, r => ids(c.id, r), less),
        c.createdAt, c.updatedAt)
  }

  function SourceRows(cs: seq<Conversation>, ids: (Id, nat) -> Id, less: (string, string) -> bool): seq<Row> {
    if cs == [] then []
    else
      var last := cs[|cs| - 1];
      SourceRows(cs[..|cs| - 1], ids, less) + if Joined(last) then [RowOf(last, ids, less)] else []
  }

  // The row that the query gives for a conversation with a user and a message.
  predicate RowIs(row: Row, c: Conversation, ids: (Id, nat) -> Id, less: (string, string) -> bool) {
    && c.email == Some(row.userId) && c.messages != []
    && row.sessionId == c.id && row.sessionData == c.sessionData
    && row.agentId == "606770b4-80c2-46a8-b86d-693f74684907" && row.agentData == "AiQ MCP Agent DEV"
    && row.runs == RunsOf(c.messages, r => ids(c.id, r), less)
    && row.createdAt == c.createdAt && row.updatedAt == c.updatedAt
  }

  lemma {:induction false} SourceRowsIff(cs: seq<Conversation>, ids: (Id, nat) -> Id, less: (string, string) -> bool,
                                         row: Row)
    ensures row in SourceRows(cs, ids, less) <==> exists c :: c in cs && RowIs(row, c, ids, less)
  {
    if cs != [] {
      var front, last := cs[..|cs| - 1], cs[|cs| - 1];
      SourceRowsIff(front, ids, less, row);
      assert cs == front + [last];
      assert RowIs(row, last, ids, less) <==> Joined(last) && row == RowOf(last, ids, less);
    }
  }

  ghost predicate UniqueConversations(cs: seq<Conversation>) {
    forall i, j :: 0 <= i < j < |cs| ==> cs[i].id != cs[j].id
  }

  // Both rows come from one joined conversation, with either execution's ids.
  ghost predicate FromOne(cs: seq<Conversation>, x: Row, y: Row, a: (Id, nat) -> Id, b: (Id, nat) -> Id,
                          less: (string, string) -> bool) {
    exists c :: c in cs && Joined(c) && x == RowOf(c, a, less) && y == RowOf(c, b, less)
  }

  lemma FromOneOfMore(front: seq<Conversation>, last: Conversation, x: Row, y: Row, a: (Id, nat) -> Id,
                      b: (Id, nat) -> Id, less: (string, string) -> bool)
    ensures FromOne(front, x, y, a, b, less) ==> FromOne(front + [last], x, y, a, b, less)
  {
    if c :| c in front && Joined(c) && x == RowOf(c, a, less) && y == RowOf(c, b, less) {
      assert c in front + [last];
    }
  }

  // Two executions of the query give rows of the same conversations in the same order.
  lemma {:induction false} QueriesCorrespond(cs: seq<Conversation>, a: (Id, nat) -> Id, b: (Id, nat) -> Id,
                                             less: (string, string) -> bool)
    ensures |SourceRows(cs, a, less)| == |SourceRows(cs, b, less)|
    ensures forall i :: 0 <= i < |SourceRows(cs, a, less)| ==>
                          FromOne(cs, SourceRows(cs, a, less)[i], SourceRows(cs, b, less)[i], a, b, less)
  {
    if cs != [] {
      var front, last := cs[..|cs| - 1], cs[|cs| - 1];
      QueriesCorrespond(front, a, b, less);
      assert cs == front + [last];
      var x, y := SourceRows(front, a, less), SourceRows(front, b, less);
      forall i | 0 <= i < |x| ensures FromOne(cs, x[i], y[i], a, b, less) {
        FromOneOfMore(front, last, x[i], y[i], a, b, less);
      }
      if Joined(last) {
        assert last in cs;
        assert FromOne(cs, RowOf(last, a, less), RowOf(last, b, less), a, b, less);
      }
    }
  }

  lemma {:induction false} OneRowForEachConversation(cs: seq<Conversation>, ids: (Id, nat) -> Id,
                                                     less: (string, string) -> bool)
    requires UniqueConversations(cs)
    ensures OneRowEach(SourceRows(cs, ids, less))
  {
    if cs != [] {
      var front, last := cs[..|cs| - 1], cs[|cs| - 1];
      OneRowForEachConversation(front, ids, less);
      forall row | row in SourceRows(front, ids, less) ensures row.sessionId != last.id {
        SourceRowsIff(front, ids, less, row);
        var c :| c in front && RowIs(row, c, ids, less);
        var k :| 0 <= k < |front| && front[k] == c;
        assert cs[k].id != last.id;
      }
      if Joined(last) {
        OneRowMore(SourceRows(front, ids, less), RowOf(last, ids, less));
      }
    }
  }

  lemma OneRowMore(rows: seq<Row>, row: Row)
    requires OneRowEach(rows) && forall other :: other in rows ==> other.sessionId != row.sessionId
    ensures OneRowEach(rows + [row])
  {
    forall i | 0 <= i < |rows| ensures rows[i].sessionId != row.sessionId {
      assert rows[i] in rows;
    }
  }

  lemma SameGroupSameRun(g: seq<Message>, a: Id, b: Id, less: (string, string) -> bool)
    ensures MakeRun(g, a, less).(runId := 0) == MakeRun(g, b, less).(runId := 0)
    ensures MakeRun(g, a, less) == MakeRun(g, b, less) <==> a == b
  {
  }

  lemma WithoutIdsAgree(x: seq<Run>, y: seq<Run>)
    requires |x| == |y| && forall i :: 0 <= i < |x| ==> x[i].(runId := 0) == y[i].(runId := 0)
    ensures WithoutIds(x) == WithoutIds(y)
  {
  }

  lemma RunsDifferOnlyInIds(ms: seq<Message>, a: nat -> Id, b: nat -> Id, less: (string, string) -> bool)
    ensures WithoutIds(RunsOf(ms, a, less)) == WithoutIds(RunsOf(ms, b, less))
    ensures RunsOf(ms, a, less) == RunsOf(ms, b, less) <==> forall r: nat :: r < RunCount(ms) ==> a(r) == b(r)
  {
    var x, y := RunsOf(ms, a, less), RunsOf(ms, b, less);
    forall r: nat | r < RunCount(ms)
      ensures x[r].(runId := 0) == y[r].(runId := 0) && (x[r] == y[r] <==> a(r) == b(r))
    {
      SameGroupSameRun(Groups(ms, RunCount(ms))[r], a(r), b(r), less);
    }
    WithoutIdsAgree(x, y);
    if x == y {
      forall r: nat | r < RunCount(ms) ensures a(r) == b(r) {
        assert x[r] == y[r];
      }
    }
  }

  // The source queried again differs in nothing but the generated run ids, and
  // every row has at least one run.
  lemma QueriedAgain(cs: seq<Conversation>, a: (Id, nat) -> Id, b: (Id, nat) -> Id, less: (string, string) -> bool)
    ensures SameSource(SourceRows(cs, a, less), SourceRows(cs, b, less))
    ensures forall row :: row in SourceRows(cs, a, less) ==> row.runs != [] && row.runs[0].runId == a(row.sessionId, 0)
  {
    QueriesCorrespond(cs, a, b, less);
    var x, y := SourceRows(cs, a, less), SourceRows(cs, b, less);
    forall i | 0 <= i < |x|
      ensures x[i] == y[i].(runs := x[i].runs) && WithoutIds(x[i].runs) == WithoutIds(y[i].runs)
      ensures x[i].runs != [] && x[i].runs[0].runId == a(x[i].sessionId, 0)
    {
      var c :| c in cs && Joined(c) && x[i] == RowOf(c, a, less) && y[i] == RowOf(c, b, less);
      RunsDifferOnlyInIds(c.messages, r => a(c.id, r), r => b(c.id, r), less);
    }
  }

  // The second execution generates other ids than the first.
  ghost predicate FreshIds(a: (Id, nat) -> Id, b: (Id, nat) -> Id) {
    forall s: Id, r: nat :: a(s, r) != b(s, r)
  }

  // With fresh run ids no session is ever skipped: a rerun writes every row of the source.
  lemma FreshIdsSkipNothing(table: map<Id, Record>, cs: seq<Conversation>, a: (Id, nat) -> Id, b: (Id, nat) -> Id,
                            less: (string, string) -> bool)
    requires UniqueConversations(cs) && FreshIds(a, b)
    ensures var once, again := Reconciled(table, SourceRows(cs, a, less)), SourceRows(cs, b, less);
            SkippedRows(once, again, |again|) == 0 && InsertedRows(once, again, |again|) == 0
  {
    var first, again := SourceRows(cs, a, less), SourceRows(cs, b, less);
    OneRowForEachConversation(cs, a, less);
    QueriedAgain(cs, a, b, less);
    QueriedAgain(cs, b, a, less);
    RerunCounts(table, first, again, |again|);
    forall i | 0 <= i < |again|
      ensures first[i].runs != [] && again[i].runs != [] && first[i].runs[0].runId != again[i].runs[0].runId
    {
      assert first[i] in first && again[i] in again;
    }
    DifferentIdsSkipNothing(first, again, |again|);
  }

  // ... yet it keeps the sessions and changes nothing in them but run ids.
  lemma RerunChangesOnlyRunIds(table: map<Id, Record>, cs: seq<Conversation>, a: (Id, nat) -> Id, b: (Id, nat) -> Id,
                               less: (string, string) -> bool, id: Id)
    requires UniqueConversations(cs)
    ensures var once := Reconciled(table, SourceRows(cs, a, less));
            var twice := Reconciled(once, SourceRows(cs, b, less));
            && (id in twice <==> id in once)
            && (id in once ==> SameButRunIds(twice[id], once[id]))
  {
    OneRowForEachConversation(cs, a, less);
    OneRowForEachConversation(cs, b, less);
    QueriedAgain(cs, a, b, less);
    SameSourceChangesOnlyRunIds(table, SourceRows(cs, a, less), SourceRows(cs, b, less), id);
  }

  // ---------- the scripts ----------

  class SessionTable {
    var records: map<Id, Record>

    constructor (records: map<Id, Record>)
      ensures this.records == records
    {
      this.records := records;
    }

    method MigrateData(rows: seq<Row>) returns (inserted: nat, updated: nat, skipped: nat)
      requires OneRowEach(rows)
      modifies this
      ensures records == Reconciled(old(records), rows)
      ensures inserted + updated + skipped == |rows|
      ensures inserted == InsertedRows(old(records), rows, |rows|)
      ensures skipped == SkippedRows(old(records), rows, |rows|)
    {
      inserted, updated, skipped := 0, 0, 0;
      for i := 0 to |rows|
        invariant records == Reconciled(old(records), rows[..i])
        invariant inserted + updated + skipped == i
        invariant inserted == InsertedRows(old(records), rows, i)
        invariant skipped == SkippedRows(old(records), rows, i)
      {
        var row := rows[i];
        NextRowIsUntouched(old(records), rows, i);
        if row.sessionId in records {
          if UpToDate(records[row.sessionId], row) {
            skipped := skipped + 1;
          } else {
            records := records[row.sessionId := Merged(records[row.sessionId], row)];
            updated := updated + 1;
          }
        } else {
          records := records[row.sessionId := Inserted(row)];
          inserted := inserted + 1;
        }
      }
      assert rows[..|rows|] == rows;
    }
  }

  // A row meets its session as it was before the run.
  lemma NextRowIsUntouched(table: map<Id, Record>, rows: seq<Row>, i: nat)
    requires OneRowEach(rows) && i < |rows|
    ensures var before := Reconciled(table, rows[..i]);
            && Reconciled(table, rows[..i + 1]) == ReconcileOne(before, rows[i])
            && (rows[i].sessionId in before <==> rows[i].sessionId in table)
            && (rows[i].sessionId in table ==> before[rows[i].sessionId] == table[rows[i].sessionId])
  {
    assert rows[..i + 1][..i] == rows[..i];
    ReconciledRows(table, rows[..i], rows[i].sessionId);
    assert !InRows(rows[..i], rows[i].sessionId);
  }
}
