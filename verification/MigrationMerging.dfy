// What merged duplicates do to conversations: which messages share a target
// row, and when the parent links of the merged rows form a cycle.
module MigrationMerging {
  import opened Basics
  import opened MigrationModel
  import opened MigrationSafety
  import opened MigrationLinks
  import opened MigrationExecution
  import opened MigrationForest

  // ---------- merged edges ----------

  // Row k is the last source row that links target row x.
  ghost predicate LastLinking(rows: seq<SrcMessage>, mmap: map<Id, Id>, k: nat, x: Id) {
    && k < |rows| && Links(rows[k], mmap) && mmap[rows[k].id] == x
    && forall j :: k < j < |rows| && Links(rows[j], mmap) ==> mmap[rows[j].id] != x
  }

  ghost predicate MergedEdge(rows: seq<SrcMessage>, mmap: map<Id, Id>, x: Id, y: Id) {
    exists k: nat :: LastLinking(rows, mmap, k, x) && mmap[rows[k].previousId.value] == y
  }

  // No source row links x.
  ghost predicate Unlinked(rows: seq<SrcMessage>, mmap: map<Id, Id>, x: Id) {
    forall k :: 0 <= k < |rows| && Links(rows[k], mmap) ==> mmap[rows[k].id] != x
  }

  ghost predicate MergedPath(rows: seq<SrcMessage>, mmap: map<Id, Id>, path: seq<Id>) {
    forall i {:trigger path[i]} :: 0 <= i < |path| - 1 ==> MergedEdge(rows, mmap, path[i], path[i + 1])
  }

  // The parent of x after the pass, read off the source rows.
  lemma {:induction false} LastParentOfRows(rows: seq<SrcMessage>, mmap: map<Id, Id>, x: Id)
    ensures forall y: Id :: LastParent(LinksOf(rows, mmap), x) == Some(y) <==> MergedEdge(rows, mmap, x, y)
    ensures LastParent(LinksOf(rows, mmap), x) == None <==> Unlinked(rows, mmap, x)
  {
    if rows != [] {
      var n := |rows| - 1;
      var front, last := rows[..n], rows[n];
      LastParentOfRows(front, mmap, x);
      if Links(last, mmap) {
        var link := (mmap[last.id], mmap[last.previousId.value]);
        LastParentSnoc(LinksOf(front, mmap), link, x);
        assert LinksOf(rows, mmap) == LinksOf(front, mmap) + [link];
      } else {
        assert LinksOf(rows, mmap) == LinksOf(front, mmap);
      }
      if Links(last, mmap) && mmap[last.id] == x {
        LastRowDecides(rows, mmap, x);
      } else {
        OtherRowsDecide(rows, mmap, x);
        assert LastParent(LinksOf(rows, mmap), x) == LastParent(LinksOf(front, mmap), x);
      }
    }
  }

  lemma LastParentSnoc(links: seq<(Id, Id)>, link: (Id, Id), x: Id)
    ensures LastParent(links + [link], x) == if link.0 == x then Some(link.1) else LastParent(links, x)
  {
    assert (links + [link])[..|links|] == links;
  }

  lemma LastRowDecides(rows: seq<SrcMessage>, mmap: map<Id, Id>, x: Id)
    requires rows != [] && Links(rows[|rows| - 1], mmap) && mmap[rows[|rows| - 1].id] == x
    ensures forall y: Id :: MergedEdge(rows, mmap, x, y) <==> y == mmap[rows[|rows| - 1].previousId.value]
    ensures !Unlinked(rows, mmap, x)
  {
    assert LastLinking(rows, mmap, |rows| - 1, x);
  }

  lemma OtherRowsDecide(rows: seq<SrcMessage>, mmap: map<Id, Id>, x: Id)
    requires rows != [] && !(Links(rows[|rows| - 1], mmap) && mmap[rows[|rows| - 1].id] == x)
    ensures forall y: Id :: MergedEdge(rows, mmap, x, y) <==> MergedEdge(rows[..|rows| - 1], mmap, x, y)
    ensures Unlinked(rows, mmap, x) <==> Unlinked(rows[..|rows| - 1], mmap, x)
  {
    var front := rows[..|rows| - 1];
    assert forall j :: 0 <= j < |front| ==> front[j] == rows[j];
    forall k: nat ensures LastLinking(rows, mmap, k, x) <==> LastLinking(front, mmap, k, x) {
    }
    forall y: Id ensures MergedEdge(rows, mmap, x, y) <==> MergedEdge(front, mmap, x, y) {
      if k: nat :| LastLinking(rows, mmap, k, x) && mmap[rows[k].previousId.value] == y {
        assert LastLinking(front, mmap, k, x);
      }
      if k: nat :| LastLinking(front, mmap, k, x) && mmap[front[k].previousId.value] == y {
        assert LastLinking(rows, mmap, k, x);
      }
    }
  }

  // ---------- parents after the pass ----------

  ghost predicate NoParents(db: Db) {
    forall id :: id in db.messages ==> db.messages[id].parent.None?
  }

  // The pass leaves the merged edges, and the old parents of unlinked rows.
  lemma ParentAfterPass(db: Db, after: Db, rows: seq<SrcMessage>, mmap: map<Id, Id>, x: Id, y: Id)
    requires LinkedUpTo(db, after, LinksOf(rows, mmap), |LinksOf(rows, mmap)|) && Lands(mmap, db.messages)
    ensures ParentIs(after, x, y) <==>
            MergedEdge(rows, mmap, x, y) || (Unlinked(rows, mmap, x) && ParentIs(db, x, y))
  {
    var links := LinksOf(rows, mmap);
    assert links[..|links|] == links;
    ApplyLinksAt(db.messages, links, x);
    LastParentOfRows(rows, mmap, x);
  }

  // In a table without parents the pass makes a cycle exactly when the merged
  // edges have one: the two have the same paths.
  lemma ParentCycleIff(db: Db, after: Db, rows: seq<SrcMessage>, mmap: map<Id, Id>)
    requires LinkedUpTo(db, after, LinksOf(rows, mmap), |LinksOf(rows, mmap)|)
    requires Lands(mmap, db.messages) && NoParents(db)
    ensures forall path :: ParentPath(after, path) <==> MergedPath(rows, mmap, path)
    ensures (exists path :: ParentPath(after, path) && Cycle(path)) <==>
            (exists path :: MergedPath(rows, mmap, path) && Cycle(path))
  {
    forall x, y ensures ParentIs(after, x, y) <==> MergedEdge(rows, mmap, x, y) {
      ParentAfterPass(db, after, rows, mmap, x, y);
    }
    forall path ensures ParentPath(after, path) <==> MergedPath(rows, mmap, path) {
    }
  }

  // Does a reply join two source messages that share a target row?
  predicate JoinsMerged(m: SrcMessage, mmap: map<Id, Id>) {
    Links(m, mmap) && mmap[m.id] == mmap[m.previousId.value]
  }

  // A row becomes its own parent exactly when the last source row linking it
  // replies to a message merged into the same row.
  lemma SelfParentIff(db: Db, after: Db, rows: seq<SrcMessage>, mmap: map<Id, Id>, id: Id)
    requires LinkedUpTo(db, after, LinksOf(rows, mmap), |LinksOf(rows, mmap)|)
    requires Lands(mmap, db.messages) && !ParentIs(db, id, id)
    ensures ParentIs(after, id, id) <==> exists k: nat :: LastLinking(rows, mmap, k, id) && JoinsMerged(rows[k], mmap)
  {
    ParentAfterPass(db, after, rows, mmap, id, id);
  }

  // ---------- cycles come from merging or from the source ----------

  ghost predicate Injective(mmap: map<Id, Id>) {
    forall a, b :: a in mmap && b in mmap && mmap[a] == mmap[b] ==> a == b
  }

  // Without merging, a path of merged edges is a reply path of the source.
  lemma {:induction false} UnmergedPathIsAReplyPath(src: Source, mmap: map<Id, Id>, path: seq<Id>)
    returns (origin: seq<Id>)
    requires Injective(mmap) && |path| >= 2 && MergedPath(src.messages, mmap, path)
    ensures |origin| == |path| && ReplyPath(src, origin)
    ensures forall i :: 0 <= i < |path| ==> origin[i] in mmap && mmap[origin[i]] == path[i]
  {
    assert MergedEdge(src.messages, mmap, path[0], path[1]);
    var k: nat :| LastLinking(src.messages, mmap, k, path[0]) && mmap[src.messages[k].previousId.value] == path[1];
    var m := src.messages[k];
    assert RepliesTo(src, m.id, m.previousId.value);
    if |path| == 2 {
      origin := [m.id, m.previousId.value];
    } else {
      var rest := path[1..];
      forall i | 0 <= i < |rest| - 1 ensures MergedEdge(src.messages, mmap, rest[i], rest[i + 1]) {
        assert MergedEdge(src.messages, mmap, path[i + 1], path[i + 2]);
      }
      var tail := UnmergedPathIsAReplyPath(src, mmap, rest);
      assert mmap[tail[0]] == rest[0] == path[1] == mmap[m.previousId.value];
      origin := [m.id] + tail;
      forall i | 0 <= i < |origin| - 1 ensures RepliesTo(src, origin[i], origin[i + 1]) {
        if i > 0 {
          assert RepliesTo(src, tail[i - 1], tail[i]);
        }
      }
    }
  }

  // So when no two messages share a row, an acyclic source stays acyclic.
  lemma UnmergedStaysAcyclic(src: Source, db: Db, after: Db, mmap: map<Id, Id>)
    requires LinkedUpTo(db, after, LinksOf(src.messages, mmap), |LinksOf(src.messages, mmap)|)
    requires Lands(mmap, db.messages) && NoParents(db) && Injective(mmap)
    requires forall path :: ReplyPath(src, path) ==> !Cycle(path)
    ensures forall path :: ParentPath(after, path) ==> !Cycle(path)
  {
    ParentCycleIff(db, after, src.messages, mmap);
    forall path | MergedPath(src.messages, mmap, path) && |path| >= 2 ensures !Cycle(path) {
      var origin := UnmergedPathIsAReplyPath(src, mmap, path);
      CycleOfOrigin(mmap, path, origin);
    }
  }

  lemma CycleOfOrigin(mmap: map<Id, Id>, path: seq<Id>, origin: seq<Id>)
    requires Injective(mmap) && |origin| == |path|
    requires forall i :: 0 <= i < |path| ==> origin[i] in mmap && mmap[origin[i]] == path[i]
    ensures Cycle(path) ==> Cycle(origin)
  {
  }

  // ---------- which messages share a target row ----------

  // What the duplicate check compares; the creation time only counts when
  // there is no sending time.
  datatype MessageKey = MessageKey(sessionId: Id, content: string, sentAt: Option<Time>, createdAt: Option<Time>)

  function RowKey(row: Message): MessageKey {
    MessageKey(row.sessionId, row.content, row.sentAt, if row.sentAt.Some? then None else Some(row.createdAt))
  }

  function LookupKey(m: SrcMessage, sessionId: Id, now: Time): MessageKey {
    MessageKey(sessionId, m.rawMessage, m.sentAt, if m.sentAt.Some? then None else Some(OrNow(m.createdAt, now)))
  }

  lemma SameMessageIffKeysAgree(row: Message, sessionId: Id, m: SrcMessage, now: Time)
    ensures SameMessage(row, sessionId, m, now) <==> RowKey(row) == LookupKey(m, sessionId, now)
  {
  }

  ghost predicate DistinctKeys(db: Db) {
    forall a, b :: a in db.messages && b in db.messages && RowKey(db.messages[a]) == RowKey(db.messages[b]) ==> a == b
  }

  // The row holds the key that message m was looked up by.
  ghost predicate HoldsKey(db: Db, id: Id, m: SrcMessage, smap: map<Id, Id>, now: Time) {
    && id in db.messages && m.conversationId.Some? && m.conversationId.value in smap
    && RowKey(db.messages[id]) == LookupKey(m, smap[m.conversationId.value], now)
  }

  ghost predicate SameKeys(before: Db, after: Db) {
    forall id :: id in before.messages ==>
                   id in after.messages && RowKey(after.messages[id]) == RowKey(before.messages[id])
  }

  // A message step keeps all keys and keeps them distinct, and the row it
  // answers holds the message's key.
  lemma MessageStepKeys(m: SrcMessage, smap: map<Id, Id>, agent: int, now: Time, fault: Fault,
                        before: Db, after: Db, r: Option<Id>)
    requires MessageStep(m, smap, agent, now, fault, before, after, r)
    ensures SameKeys(before, after)
    ensures r.Some? ==> HoldsKey(after, r.value, m, smap, now)
    ensures DistinctKeys(before) ==> DistinctKeys(after)
    ensures NoParents(before) ==> NoParents(after)
  {
    if r.Some? {
      var sessionId := smap[m.conversationId.value];
      forall id | id in before.messages
        ensures IsMessage(before, id, sessionId, m, now) <==>
                RowKey(before.messages[id]) == LookupKey(m, sessionId, now)
      {
        SameMessageIffKeysAgree(before.messages[id], sessionId, m, now);
      }
    }
  }

  // After i rows every answered message's row still holds its key.
  lemma {:induction false} AnswersHoldKeys(rows: seq<SrcMessage>, smap: map<Id, Id>, agent: int, o: Oracle,
                                           t: Trace<Option<Id>>, i: nat)
    requires i <= |rows| && Steps(rows, MessageSteps(smap, agent, o), t)
    ensures forall j :: 0 <= j < i && t.answers[j].Some? ==>
                          HoldsKey(t.dbs[i], t.answers[j].value, rows[j], smap, o.clock(j))
    ensures DistinctKeys(t.First()) ==> DistinctKeys(t.dbs[i])
    ensures NoParents(t.First()) ==> NoParents(t.dbs[i])
  {
    if i > 0 {
      AnswersHoldKeys(rows, smap, agent, o, t, i - 1);
      MessageStepKeys(rows[i - 1], smap, agent, o.clock(i - 1), o.messageFault(i - 1),
                      t.dbs[i - 1], t.dbs[i], t.answers[i - 1]);
      forall j | 0 <= j < i && t.answers[j].Some?
        ensures HoldsKey(t.dbs[i], t.answers[j].value, rows[j], smap, o.clock(j))
      {
        if j < i - 1 {
          assert HoldsKey(t.dbs[i - 1], t.answers[j].value, rows[j], smap, o.clock(j));
        }
      }
    }
  }

  // Whatever fails, and if no two messages of the target had one key before, two
  // migrated messages share a target row exactly when they were looked up by the
  // same key.
  lemma MergedIffKeysAgree(rows: seq<SrcMessage>, smap: map<Id, Id>, agent: int, o: Oracle, t: Trace<Option<Id>>,
                           mmap: map<Id, Id>, i: nat, j: nat)
    requires MessagesTraced(rows, smap, agent, o, t, mmap) && Unique(MessageIds(rows)) && DistinctKeys(t.First())
    requires i < |rows| && j < |rows| && rows[i].id in mmap && rows[j].id in mmap
    ensures rows[i].conversationId.Some? && rows[i].conversationId.value in smap
    ensures rows[j].conversationId.Some? && rows[j].conversationId.value in smap
    ensures mmap[rows[i].id] == mmap[rows[j].id] <==>
            LookupKey(rows[i], smap[rows[i].conversationId.value], o.clock(i)) ==
            LookupKey(rows[j], smap[rows[j].conversationId.value], o.clock(j))
  {
    var ids := MessageIds(rows);
    MapOfAt(ids, t.answers, i);
    MapOfAt(ids, t.answers, j);
    AnswersHoldKeys(rows, smap, agent, o, t, |rows|);
    assert ids[i] == rows[i].id && ids[j] == rows[j].id;
    assert HoldsKey(t.Last(), mmap[rows[i].id], rows[i], smap, o.clock(i));
    assert HoldsKey(t.Last(), mmap[rows[j].id], rows[j], smap, o.clock(j));
  }

  // ---------- a whole run ----------

  lemma MessagesLand(rows: seq<SrcMessage>, smap: map<Id, Id>, agent: int, o: Oracle, t: Trace<Option<Id>>,
                     mmap: map<Id, Id>)
    requires MessagesTraced(rows, smap, agent, o, t, mmap)
    ensures Lands(mmap, t.Last().messages)
  {
    AnswersHoldKeys(rows, smap, agent, o, t, |rows|);
    MapOfValues(MessageIds(rows), t.answers);
    forall id | id in mmap ensures mmap[id] in t.Last().messages {
      var i :| 0 <= i < |rows| && t.answers[i] == Some(mmap[id]);
      assert HoldsKey(t.Last(), t.answers[i].value, rows[i], smap, o.clock(i));
    }
  }

  // A run into a target without parents, with a link pass that succeeds and
  // whatever else fails, leaves a parent cycle exactly when the merged edges of
  // the source have one.
  lemma RunCycleIff(src: Source, agent: int, o: Oracle, x: Run)
    requires Execution(src, agent, o, x) && o.linkFault.LinksSucceed? && NoParents(x.messages.First())
    ensures forall path :: ParentPath(x.linked, path) <==> MergedPath(src.messages, x.mmap, path)
    ensures (exists path :: ParentPath(x.linked, path) && Cycle(path)) <==>
            (exists path :: MergedPath(src.messages, x.mmap, path) && Cycle(path))
  {
    AnswersHoldKeys(src.messages, x.smap, agent, o, x.messages, |src.messages|);
    MessagesLand(src.messages, x.smap, agent, o, x.messages, x.mmap);
    ParentCycleIff(x.messages.Last(), x.linked, src.messages, x.mmap);
  }

  // No two migrated messages are looked up by the same key.
  ghost predicate KeysDiffer(rows: seq<SrcMessage>, smap: map<Id, Id>, mmap: map<Id, Id>, o: Oracle) {
    forall i: nat, j: nat :: i < j < |rows| && rows[i].id in mmap && rows[j].id in mmap
                             && rows[i].conversationId.Some? && rows[i].conversationId.value in smap
                             && rows[j].conversationId.Some? && rows[j].conversationId.value in smap ==>
                               LookupKey(rows[i], smap[rows[i].conversationId.value], o.clock(i)) !=
                               LookupKey(rows[j], smap[rows[j].conversationId.value], o.clock(j))
  }

  // With different keys nothing is merged.
  lemma DifferentKeysMergeNothing(rows: seq<SrcMessage>, smap: map<Id, Id>, agent: int, o: Oracle,
                                  t: Trace<Option<Id>>, mmap: map<Id, Id>)
    requires MessagesTraced(rows, smap, agent, o, t, mmap) && Unique(MessageIds(rows)) && DistinctKeys(t.First())
    requires KeysDiffer(rows, smap, mmap, o)
    ensures Injective(mmap)
  {
    var ids := MessageIds(rows);
    MapOfKeys(ids, t.answers);
    forall a, b | a in mmap && b in mmap && mmap[a] == mmap[b] ensures a == b {
      var i :| 0 <= i < |ids| && ids[i] == a;
      var j :| 0 <= j < |ids| && ids[j] == b;
      MergedIffKeysAgree(rows, smap, agent, o, t, mmap, i, j);
    }
  }

  // So an acyclic source stays acyclic.
  lemma DifferentKeysStayAcyclic(src: Source, agent: int, o: Oracle, x: Run)
    requires Execution(src, agent, o, x) && o.linkFault.LinksSucceed?
    requires NoParents(x.messages.First()) && DistinctKeys(x.messages.First())
    requires Unique(MessageIds(src.messages)) && KeysDiffer(src.messages, x.smap, x.mmap, o)
    requires forall path :: ReplyPath(src, path) ==> !Cycle(path)
    ensures forall path :: ParentPath(x.linked, path) ==> !Cycle(path)
  {
    DifferentKeysMergeNothing(src.messages, x.smap, agent, o, x.messages, x.mmap);
    AnswersHoldKeys(src.messages, x.smap, agent, o, x.messages, |src.messages|);
    MessagesLand(src.messages, x.smap, agent, o, x.messages, x.mmap);
    UnmergedStaysAcyclic(src, x.messages.Last(), x.linked, x.mmap);
  }

  // ---------- two inputs with a cycle ----------

  const ONE_CHAT := Db(map[3 := User("a", "a", "")],
                       map[7 := Session(3, 1, "chat", "active", "", 0, None, "")], map[], map[])
  const CHAT: map<Id, Id> := map[7 := 7]

  // Two messages with one key, one replying to the other, become a row that is
  // its own parent.
  const HELLO := SrcMessage(1, Some(7), false, "hello", Some(5), Some(5), None, "")
  const HELLO_AGAIN := SrcMessage(2, Some(7), false, "hello", Some(5), Some(5), Some(1), "")

  lemma MergedReplyIsItsOwnParent(mid: Db, after: Db, linked: Db, r1: Option<Id>, r2: Option<Id>, mmap: map<Id, Id>)
    requires MessageStep(HELLO, CHAT, 1, 0, NoFault, ONE_CHAT, mid, r1)
    requires MessageStep(HELLO_AGAIN, CHAT, 1, 0, NoFault, mid, after, r2)
    requires mmap == MapOf([1, 2], [r1, r2])
    requires var links := LinksOf([HELLO, HELLO_AGAIN], mmap); LinkedUpTo(after, linked, links, |links|)
    ensures r1 == r2 == Some(1) && ParentIs(linked, 1, 1)
  {
    assert IsMessage(mid, 1, 7, HELLO_AGAIN, 0);
    assert after.messages.Keys == mid.messages.Keys == {1};
    MapOfPair(1, r1, 2, r2);
    assert LastLinking([HELLO, HELLO_AGAIN], mmap, 1, 1);
    ParentAfterPass(after, linked, [HELLO, HELLO_AGAIN], mmap, 1, 1);
  }

  lemma MapOfPair(a: Id, r: Option<Id>, b: Id, s: Option<Id>)
    ensures MapOf([a, b], [r, s]) == Extended(Extended(map[], a, r), b, s)
  {
    MapOfSnoc([a], [r], b, s);
    MapOfSnoc([], [], a, r);
    assert [a, b] == [a] + [b] && [r, s] == [r] + [s] && [a] == [] + [a] && [r] == [] + [r];
  }

  // No reply joins two merged messages here, yet 1 and 2 become each other's parent.
  const OK := SrcMessage(1, Some(7), false, "ok", Some(5), None, None, "")
  const WHY := SrcMessage(2, Some(7), false, "why", Some(6), None, Some(1), "")
  const OK_AGAIN := SrcMessage(3, Some(7), false, "ok", Some(5), None, Some(2), "")

  lemma MergedRepliesFormACycle(first: Db, second: Db, after: Db, linked: Db, r1: Option<Id>, r2: Option<Id>,
                                r3: Option<Id>)
    requires MessageStep(OK, CHAT, 1, 0, NoFault, ONE_CHAT, first, r1)
    requires MessageStep(WHY, CHAT, 1, 0, NoFault, first, second, r2)
    requires MessageStep(OK_AGAIN, CHAT, 1, 0, NoFault, second, after, r3)
    requires var links := LinksOf([OK, WHY, OK_AGAIN], MapOf([1, 2, 3], [r1, r2, r3]));
             LinkedUpTo(after, linked, links, |links|)
    ensures ParentPath(linked, [1, 2, 1]) && Cycle([1, 2, 1])
    ensures forall m :: m in [OK, WHY, OK_AGAIN] ==> !JoinsMerged(m, MapOf([1, 2, 3], [r1, r2, r3]))
  {
    var rows, mmap := [OK, WHY, OK_AGAIN], MapOf([1, 2, 3], [r1, r2, r3]);
    OkIsMerged(first, second, after, r1, r2, r3);
    OkEdges(mmap);
    ParentAfterPass(after, linked, rows, mmap, 2, 1);
    ParentAfterPass(after, linked, rows, mmap, 1, 2);
  }

  lemma OkEdges(mmap: map<Id, Id>)
    requires mmap == MapOf([1, 2, 3], [Some(1), Some(2), Some(1)])
    ensures mmap == map[1 := 1, 2 := 2, 3 := 1]
    ensures MergedEdge([OK, WHY, OK_AGAIN], mmap, 2, 1) && MergedEdge([OK, WHY, OK_AGAIN], mmap, 1, 2)
  {
    MapOfPair(1, Some(1), 2, Some(2));
    MapOfSnoc([1, 2], [Some(1), Some(2)], 3, Some(1));
    assert [1, 2, 3] == [1, 2] + [3] && [Some(1), Some(2), Some(1)] == [Some(1), Some(2)] + [Some(1)];
    assert LastLinking([OK, WHY, OK_AGAIN], mmap, 1, 2) && LastLinking([OK, WHY, OK_AGAIN], mmap, 2, 1);
  }

  lemma OkIsMerged(first: Db, second: Db, after: Db, r1: Option<Id>, r2: Option<Id>, r3: Option<Id>)
    requires MessageStep(OK, CHAT, 1, 0, NoFault, ONE_CHAT, first, r1)
    requires MessageStep(WHY, CHAT, 1, 0, NoFault, first, second, r2)
    requires MessageStep(OK_AGAIN, CHAT, 1, 0, NoFault, second, after, r3)
    ensures r1 == Some(1) && r2 == Some(2) && r3 == Some(1)
    ensures 1 in after.messages && 2 in after.messages
  {
    assert IsMessage(second, 1, 7, OK_AGAIN, 0);
    assert !IsMessage(second, 2, 7, OK_AGAIN, 0);
  }
}
