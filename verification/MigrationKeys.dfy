// Cycles told from the source alone: by the keys that its messages are looked up
// by, without the rows and ids they end under.
module MigrationKeys {
  import opened Basics
  import opened MigrationModel
  import opened MigrationSafety
  import opened MigrationExecution
  import opened MigrationForest
  import opened MigrationMerging

  // ---------- which messages migrate ----------

  predicate InSession(m: SrcMessage, smap: map<Id, Id>) {
    m.conversationId.Some? && m.conversationId.value in smap
  }

  // The key that row i is looked up by.
  function KeyOf(rows: seq<SrcMessage>, smap: map<Id, Id>, o: Oracle, i: nat): MessageKey
    requires i < |rows| && InSession(rows[i], smap)
  {
    LookupKey(rows[i], smap[rows[i].conversationId.value], o.clock(i))
  }

  ghost predicate NewIds(rows: seq<SrcMessage>, db: Db) {
    forall m :: m in rows ==> m.id !in db.messages
  }

  lemma DifferentIds(rows: seq<SrcMessage>, i: nat, j: nat)
    requires Unique(MessageIds(rows)) && i < j < |rows|
    ensures rows[i].id != rows[j].id
  {
    assert MessageIds(rows)[i] == rows[i].id && MessageIds(rows)[j] == rows[j].id;
  }

  // Until row i the stage adds no other ids than those of the rows before.
  lemma {:induction false} OnlyEarlierIds(rows: seq<SrcMessage>, smap: map<Id, Id>, agent: int, o: Oracle,
                                          t: Trace<Option<Id>>, i: nat)
    requires i <= |rows| && Steps(rows, MessageSteps(smap, agent, o), t)
    ensures t.dbs[i] == t.First().(messages := t.dbs[i].messages)
    ensures forall id :: id in t.dbs[i].messages ==>
                           id in t.First().messages || exists j :: 0 <= j < i && rows[j].id == id
  {
    if i > 0 {
      OnlyEarlierIds(rows, smap, agent, o, t, i - 1);
      assert MessageStep(rows[i - 1], smap, agent, o.clock(i - 1), o.messageFault(i - 1),
                         t.dbs[i - 1], t.dbs[i], t.answers[i - 1]);
      forall id | id in t.dbs[i].messages
        ensures id in t.First().messages || exists j :: 0 <= j < i && rows[j].id == id
      {
        if id !in t.dbs[i - 1].messages {
          assert rows[i - 1].id == id;
        }
      }
    }
  }

  // Without failures, and with ids that the target does not use, exactly the
  // messages of migrated sessions migrate.
  lemma CleanStageMigratesIff(rows: seq<SrcMessage>, smap: map<Id, Id>, agent: int, o: Oracle, t: Trace<Option<Id>>,
                              mmap: map<Id, Id>, i: nat)
    requires MessagesTraced(rows, smap, agent, o, t, mmap) && Unique(MessageIds(rows)) && i < |rows|
    requires NoFaults(o.messageFault) && NewIds(rows, t.First())
    requires Lands(smap, t.First().sessions) && SessionsResolve(t.First())
    ensures rows[i].id in mmap <==> InSession(rows[i], smap)
  {
    MapOfAt(MessageIds(rows), t.answers, i);
    OnlyEarlierIds(rows, smap, agent, o, t, i);
    assert MessageStep(rows[i], smap, agent, o.clock(i), NoFault, t.dbs[i], t.dbs[i + 1], t.answers[i]);
    if InSession(rows[i], smap) {
      var sessionId := smap[rows[i].conversationId.value];
      assert SessionRefs(t.First(), t.First().sessions[sessionId]);
      forall j | 0 <= j < i ensures rows[j].id != rows[i].id {
        DifferentIds(rows, j, i);
      }
    }
  }

  // ---------- edges between keys ----------

  // Row i is in a migrated session and is one of the messages that migrate.
  predicate Moves(rows: seq<SrcMessage>, smap: map<Id, Id>, moved: set<Id>, i: nat) {
    i < |rows| && rows[i].id in moved && InSession(rows[i], smap)
  }

  predicate Replies(rows: seq<SrcMessage>, smap: map<Id, Id>, moved: set<Id>, i: nat) {
    Moves(rows, smap, moved, i) && rows[i].previousId.Some? && rows[i].previousId.value in moved
  }

  // Row k is the last reply among the messages with this key.
  ghost predicate LastReply(rows: seq<SrcMessage>, smap: map<Id, Id>, moved: set<Id>, o: Oracle, k: nat,
                            key: MessageKey) {
    && Replies(rows, smap, moved, k) && KeyOf(rows, smap, o, k) == key
    && forall j: nat :: k < j && Replies(rows, smap, moved, j) ==> KeyOf(rows, smap, o, j) != key
  }

  // ... and what it replies to has this other key.
  ghost predicate KeyEdge(rows: seq<SrcMessage>, smap: map<Id, Id>, moved: set<Id>, o: Oracle,
                          from: MessageKey, to: MessageKey) {
    exists k: nat, p: nat :: LastReply(rows, smap, moved, o, k, from) && Moves(rows, smap, moved, p)
                             && rows[k].previousId == Some(rows[p].id) && KeyOf(rows, smap, o, p) == to
  }

  ghost predicate KeyPath(rows: seq<SrcMessage>, smap: map<Id, Id>, moved: set<Id>, o: Oracle, keys: seq<MessageKey>) {
    forall i {:trigger keys[i]} :: 0 <= i < |keys| - 1 ==> KeyEdge(rows, smap, moved, o, keys[i], keys[i + 1])
  }

  ghost predicate KeyCycle(rows: seq<SrcMessage>, smap: map<Id, Id>, moved: set<Id>, o: Oracle) {
    exists keys: seq<MessageKey> :: KeyPath(rows, smap, moved, o, keys) && |keys| >= 2 && keys[0] == keys[|keys| - 1]
  }

  // The target rows hold the keys of the messages that went to them, each key once.
  ghost predicate KeysHeld(rows: seq<SrcMessage>, smap: map<Id, Id>, mmap: map<Id, Id>, o: Oracle, db: Db) {
    && DistinctKeys(db)
    && (forall i: nat :: i < |rows| && rows[i].id in mmap ==>
                           && Moves(rows, smap, mmap.Keys, i) && mmap[rows[i].id] in db.messages
                           && RowKey(db.messages[mmap[rows[i].id]]) == KeyOf(rows, smap, o, i))
    && (forall id :: id in mmap ==> exists i: nat :: i < |rows| && rows[i].id == id)
  }

  lemma AnsweredRowHoldsKey(rows: seq<SrcMessage>, smap: map<Id, Id>, agent: int, o: Oracle, t: Trace<Option<Id>>,
                            mmap: map<Id, Id>, i: nat)
    requires MessagesTraced(rows, smap, agent, o, t, mmap) && Unique(MessageIds(rows))
    requires i < |rows| && rows[i].id in mmap
    ensures HoldsKey(t.Last(), mmap[rows[i].id], rows[i], smap, o.clock(i))
  {
    AnswersHoldKeys(rows, smap, agent, o, t, |rows|);
    MapOfAt(MessageIds(rows), t.answers, i);
    assert MessageIds(rows)[i] == rows[i].id;
  }

  lemma MapComesFromRows(rows: seq<SrcMessage>, answers: seq<Option<Id>>)
    requires |rows| == |answers|
    ensures forall id :: id in MapOf(MessageIds(rows), answers) ==> exists i: nat :: i < |rows| && rows[i].id == id
  {
    MapOfKeys(MessageIds(rows), answers);
    forall id | id in MapOf(MessageIds(rows), answers) ensures exists i: nat :: i < |rows| && rows[i].id == id {
      var i :| 0 <= i < |rows| && MessageIds(rows)[i] == id;
      assert rows[i].id == id;
    }
  }

  lemma StageHoldsKeys(rows: seq<SrcMessage>, smap: map<Id, Id>, agent: int, o: Oracle, t: Trace<Option<Id>>,
                       mmap: map<Id, Id>)
    requires MessagesTraced(rows, smap, agent, o, t, mmap) && Unique(MessageIds(rows)) && DistinctKeys(t.First())
    ensures KeysHeld(rows, smap, mmap, o, t.Last())
  {
    AnswersHoldKeys(rows, smap, agent, o, t, |rows|);
    forall i: nat | i < |rows| && rows[i].id in mmap
      ensures HoldsKey(t.Last(), mmap[rows[i].id], rows[i], smap, o.clock(i))
    {
      AnsweredRowHoldsKey(rows, smap, agent, o, t, mmap, i);
    }
    MapComesFromRows(rows, t.answers);
  }

  // The merged edges between target rows are the edges between their keys.
  lemma MergedEdgeIff(rows: seq<SrcMessage>, smap: map<Id, Id>, mmap: map<Id, Id>, o: Oracle, db: Db, x: Id, y: Id)
    requires KeysHeld(rows, smap, mmap, o, db) && x in db.messages && y in db.messages
    ensures MergedEdge(rows, mmap, x, y) <==>
            KeyEdge(rows, smap, mmap.Keys, o, RowKey(db.messages[x]), RowKey(db.messages[y]))
  {
    var from, to := RowKey(db.messages[x]), RowKey(db.messages[y]);
    forall k: nat ensures LastLinking(rows, mmap, k, x) <==> LastReply(rows, smap, mmap.Keys, o, k, from) {
      LastLinkingIff(rows, smap, mmap, o, db, x, k);
    }
    if k: nat :| LastLinking(rows, mmap, k, x) && mmap[rows[k].previousId.value] == y {
      var p: nat :| p < |rows| && rows[p].id == rows[k].previousId.value;
      assert LastReply(rows, smap, mmap.Keys, o, k, from) && KeyOf(rows, smap, o, p) == to;
    }
    if k: nat, p: nat :| LastReply(rows, smap, mmap.Keys, o, k, from) && Moves(rows, smap, mmap.Keys, p)
                         && rows[k].previousId == Some(rows[p].id) && KeyOf(rows, smap, o, p) == to {
      assert LastLinking(rows, mmap, k, x) && mmap[rows[k].previousId.value] == y;
    }
  }

  lemma LastLinkingIff(rows: seq<SrcMessage>, smap: map<Id, Id>, mmap: map<Id, Id>, o: Oracle, db: Db, x: Id, k: nat)
    requires KeysHeld(rows, smap, mmap, o, db) && x in db.messages
    ensures LastLinking(rows, mmap, k, x) <==> LastReply(rows, smap, mmap.Keys, o, k, RowKey(db.messages[x]))
  {
    forall j: nat | j < |rows|
      ensures Links(rows[j], mmap) <==> Replies(rows, smap, mmap.Keys, j)
      ensures Links(rows[j], mmap) ==> (mmap[rows[j].id] == x <==> KeyOf(rows, smap, o, j) == RowKey(db.messages[x]))
    {
    }
  }

  ghost predicate IsKey(db: Db, key: MessageKey) {
    exists id :: id in db.messages && RowKey(db.messages[id]) == key
  }

  ghost function IdOf(db: Db, key: MessageKey): (id: Id)
    requires IsKey(db, key)
    ensures id in db.messages && RowKey(db.messages[id]) == key
  {
    var id :| id in db.messages && RowKey(db.messages[id]) == key; id
  }

  lemma EdgeToKeys(rows: seq<SrcMessage>, smap: map<Id, Id>, mmap: map<Id, Id>, o: Oracle, db: Db, x: Id, y: Id)
    requires KeysHeld(rows, smap, mmap, o, db) && MergedEdge(rows, mmap, x, y)
    ensures x in db.messages && y in db.messages
    ensures KeyEdge(rows, smap, mmap.Keys, o, RowKey(db.messages[x]), RowKey(db.messages[y]))
  {
    var k: nat :| LastLinking(rows, mmap, k, x) && mmap[rows[k].previousId.value] == y;
    var p: nat :| p < |rows| && rows[p].id == rows[k].previousId.value;
    MergedEdgeIff(rows, smap, mmap, o, db, x, y);
  }

  lemma EdgeFromKeys(rows: seq<SrcMessage>, smap: map<Id, Id>, mmap: map<Id, Id>, o: Oracle, db: Db,
                     from: MessageKey, to: MessageKey)
    requires KeysHeld(rows, smap, mmap, o, db) && KeyEdge(rows, smap, mmap.Keys, o, from, to)
    ensures IsKey(db, from) && IsKey(db, to) && MergedEdge(rows, mmap, IdOf(db, from), IdOf(db, to))
  {
    var k: nat, p: nat :| LastReply(rows, smap, mmap.Keys, o, k, from) && Moves(rows, smap, mmap.Keys, p)
                          && rows[k].previousId == Some(rows[p].id) && KeyOf(rows, smap, o, p) == to;
    assert RowKey(db.messages[mmap[rows[k].id]]) == from && RowKey(db.messages[mmap[rows[p].id]]) == to;
    MergedEdgeIff(rows, smap, mmap, o, db, IdOf(db, from), IdOf(db, to));
  }

  function KeysAlong(db: Db, path: seq<Id>): seq<MessageKey>
    requires forall i :: 0 <= i < |path| ==> path[i] in db.messages
  {
    seq(|path|, i requires 0 <= i < |path| => RowKey(db.messages[path[i]]))
  }

  ghost function IdsAlong(db: Db, keys: seq<MessageKey>): seq<Id>
    requires forall i :: 0 <= i < |keys| ==> IsKey(db, keys[i])
  {
    seq(|keys|, i requires 0 <= i < |keys| => IdOf(db, keys[i]))
  }

  lemma RowsOfPath(rows: seq<SrcMessage>, mmap: map<Id, Id>, db: Db, path: seq<Id>)
    requires forall x: Id, y: Id :: MergedEdge(rows, mmap, x, y) ==> x in db.messages && y in db.messages
    requires MergedPath(rows, mmap, path) && |path| >= 2
    ensures forall i :: 0 <= i < |path| ==> path[i] in db.messages
  {
    forall i | 0 <= i < |path| ensures path[i] in db.messages {
      var e := if i < |path| - 1 then i else i - 1;
      assert MergedEdge(rows, mmap, path[e], path[e + 1]);
    }
  }

  lemma KeysOfPath(rows: seq<SrcMessage>, smap: map<Id, Id>, mmap: map<Id, Id>, o: Oracle, db: Db, path: seq<Id>)
    requires forall i :: 0 <= i < |path| ==> path[i] in db.messages
    requires forall i {:trigger path[i]} :: 0 <= i < |path| - 1 ==>
               KeyEdge(rows, smap, mmap.Keys, o, RowKey(db.messages[path[i]]), RowKey(db.messages[path[i + 1]]))
    requires Cycle(path)
    ensures KeyCycle(rows, smap, mmap.Keys, o)
  {
    var keys := KeysAlong(db, path);
    forall i | 0 <= i < |keys| - 1 ensures KeyEdge(rows, smap, mmap.Keys, o, keys[i], keys[i + 1]) {
      assert keys[i] == RowKey(db.messages[path[i]]) && keys[i + 1] == RowKey(db.messages[path[i + 1]]);
    }
    assert KeyPath(rows, smap, mmap.Keys, o, keys);
  }

  lemma PathOfKeys(rows: seq<SrcMessage>, smap: map<Id, Id>, mmap: map<Id, Id>, o: Oracle, db: Db,
                   keys: seq<MessageKey>) returns (path: seq<Id>)
    requires forall from, to :: KeyEdge(rows, smap, mmap.Keys, o, from, to) ==>
               IsKey(db, from) && IsKey(db, to) && MergedEdge(rows, mmap, IdOf(db, from), IdOf(db, to))
    requires KeyPath(rows, smap, mmap.Keys, o, keys) && |keys| >= 2 && keys[0] == keys[|keys| - 1]
    ensures MergedPath(rows, mmap, path) && Cycle(path)
  {
    forall i | 0 <= i < |keys| ensures IsKey(db, keys[i]) {
      var e := if i < |keys| - 1 then i else i - 1;
      assert KeyEdge(rows, smap, mmap.Keys, o, keys[e], keys[e + 1]);
    }
    path := IdsAlong(db, keys);
    forall i | 0 <= i < |path| - 1 ensures MergedEdge(rows, mmap, path[i], path[i + 1]) {
      assert KeyEdge(rows, smap, mmap.Keys, o, keys[i], keys[i + 1]);
    }
  }

  // The merged edges have a cycle exactly when the keys have one.
  lemma CyclesCorrespond(rows: seq<SrcMessage>, smap: map<Id, Id>, mmap: map<Id, Id>, o: Oracle, db: Db)
    requires KeysHeld(rows, smap, mmap, o, db)
    ensures (exists path :: MergedPath(rows, mmap, path) && Cycle(path)) <==> KeyCycle(rows, smap, mmap.Keys, o)
  {
    forall x: Id, y: Id | MergedEdge(rows, mmap, x, y) ensures x in db.messages && y in db.messages {
      EdgeToKeys(rows, smap, mmap, o, db, x, y);
    }
    forall from, to | KeyEdge(rows, smap, mmap.Keys, o, from, to)
      ensures IsKey(db, from) && IsKey(db, to) && MergedEdge(rows, mmap, IdOf(db, from), IdOf(db, to))
    {
      EdgeFromKeys(rows, smap, mmap, o, db, from, to);
    }
    if path :| MergedPath(rows, mmap, path) && Cycle(path) {
      RowsOfPath(rows, mmap, db, path);
      forall i | 0 <= i < |path| - 1
        ensures KeyEdge(rows, smap, mmap.Keys, o, RowKey(db.messages[path[i]]), RowKey(db.messages[path[i + 1]]))
      {
        EdgeToKeys(rows, smap, mmap, o, db, path[i], path[i + 1]);
      }
      KeysOfPath(rows, smap, mmap, o, db, path);
    }
    if keys: seq<MessageKey> :| KeyPath(rows, smap, mmap.Keys, o, keys) && |keys| >= 2 && keys[0] == keys[|keys| - 1] {
      var path := PathOfKeys(rows, smap, mmap, o, db, keys);
    }
  }

  // A run into a target without parents and with distinct keys, with a link pass
  // that succeeds and whatever else fails, leaves a parent cycle exactly when the
  // keys of the migrated messages have one.
  lemma RunCycleByKeysIff(src: Source, agent: int, o: Oracle, x: Run)
    requires Execution(src, agent, o, x) && o.linkFault.LinksSucceed? && Unique(MessageIds(src.messages))
    requires NoParents(x.messages.First()) && DistinctKeys(x.messages.First())
    ensures (exists path :: ParentPath(x.linked, path) && Cycle(path)) <==>
            KeyCycle(src.messages, x.smap, x.mmap.Keys, o)
  {
    RunCycleIff(src, agent, o, x);
    StageHoldsKeys(src.messages, x.smap, agent, o, x.messages, x.mmap);
    CyclesCorrespond(src.messages, x.smap, x.mmap, o, x.messages.Last());
  }

  // The messages of migrated sessions.
  function MessagesOf(rows: seq<SrcMessage>, smap: map<Id, Id>): set<Id> {
    set m | m in rows && InSession(m, smap) :: m.id
  }

  lemma CleanStageMoves(rows: seq<SrcMessage>, smap: map<Id, Id>, agent: int, o: Oracle, t: Trace<Option<Id>>,
                        mmap: map<Id, Id>)
    requires MessagesTraced(rows, smap, agent, o, t, mmap) && Unique(MessageIds(rows))
    requires NoFaults(o.messageFault) && NewIds(rows, t.First())
    requires Lands(smap, t.First().sessions) && SessionsResolve(t.First())
    ensures mmap.Keys == MessagesOf(rows, smap)
  {
    MapOfKeys(MessageIds(rows), t.answers);
    forall i: nat | i < |rows| ensures rows[i].id in mmap <==> InSession(rows[i], smap) {
      CleanStageMigratesIff(rows, smap, agent, o, t, mmap, i);
    }
    forall id ensures id in mmap <==> id in MessagesOf(rows, smap) {
      if id in mmap {
        var i :| 0 <= i < |rows| && MessageIds(rows)[i] == id;
        assert rows[i] in rows && rows[i].id == id;
      }
      if id in MessagesOf(rows, smap) {
        var m :| m in rows && InSession(m, smap) && m.id == id;
        var i :| 0 <= i < |rows| && rows[i] == m;
      }
    }
  }

  // When nothing fails in the message stage these are the messages that migrate,
  // so the condition is one on the source and the sessions alone.
  lemma CleanRunCycleIff(src: Source, agent: int, o: Oracle, x: Run)
    requires Execution(src, agent, o, x) && o.linkFault.LinksSucceed? && NoFaults(o.messageFault)
    requires Unique(MessageIds(src.messages)) && NewIds(src.messages, x.messages.First())
    requires NoParents(x.messages.First()) && DistinctKeys(x.messages.First())
    requires Lands(x.smap, x.messages.First().sessions) && SessionsResolve(x.messages.First())
    ensures (exists path :: ParentPath(x.linked, path) && Cycle(path)) <==>
            KeyCycle(src.messages, x.smap, MessagesOf(src.messages, x.smap), o)
  {
    RunCycleByKeysIff(src, agent, o, x);
    CleanStageMoves(src.messages, x.smap, agent, o, x.messages, x.mmap);
  }
}
