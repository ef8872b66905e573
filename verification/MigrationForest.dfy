// The reply forest: what the migration does to conversations whose messages
// have distinct keys, and what an interrupted link pass leaves.
module MigrationForest {
  import opened Basics
  import opened MigrationModel
  import opened MigrationImage
  import opened MigrationLinks
  import opened MigrationExecution

  // ---------- reply paths ----------

  ghost predicate RepliesTo(src: Source, child: Id, parent: Id) {
    exists m :: m in src.messages && m.id == child && m.previousId == Some(parent)
  }

  ghost predicate ReplyPath(src: Source, path: seq<Id>) {
    forall i {:trigger path[i]} :: 0 <= i < |path| - 1 ==> RepliesTo(src, path[i], path[i + 1])
  }

  ghost predicate ParentPath(db: Db, path: seq<Id>) {
    forall i {:trigger path[i]} :: 0 <= i < |path| - 1 ==> ParentIs(db, path[i], path[i + 1])
  }

  ghost predicate ParentIs(db: Db, child: Id, parent: Id) {
    child in db.messages && db.messages[child].parent == Some(parent)
  }

  ghost predicate Cycle(path: seq<Id>) {
    |path| >= 2 && path[0] == path[|path| - 1]
  }

  lemma EdgePreserved(src: Source, agent: int, db: Db, child: Id, parent: Id)
    requires DistinctMessages(src) && ParentsLinked(src, db)
    requires child in db.messages ==> MessageImage(src, agent, child, db.messages[child])
    ensures ParentIs(db, child, parent) <==>
            RepliesTo(src, child, parent) && child in db.messages && parent in db.messages
  {
    if child in db.messages {
      var m :| MessageMigrates(src, m) && m.id == child && CameFromMessage(m, agent, db.messages[child]);
      assert RepliesTo(src, child, parent) <==> m.previousId == Some(parent);
    }
  }

  // In a complete image the parent paths are exactly the source's reply paths
  // through messages that migrated.
  lemma {:induction false} PathsPreserved(src: Source, agent: int, db: Db, path: seq<Id>)
    requires DistinctMessages(src) && FullImage(src, agent, db) && |path| >= 2
    ensures ParentPath(db, path) <==> ReplyPath(src, path) && forall k :: 0 <= k < |path| ==> path[k] in db.messages
  {
    EdgePreserved(src, agent, db, path[0], path[1]);
    var rest := path[1..];
    assert path == [path[0]] + rest && rest[0] == path[1];
    if |path| > 2 {
      PathsPreserved(src, agent, db, rest);
      assert forall i :: 0 <= i < |rest| ==> rest[i] == path[i + 1];
    }
    PathStep(src, db, path);
  }

  lemma PathStep(src: Source, db: Db, path: seq<Id>)
    requires |path| >= 2
    ensures ParentPath(db, path) <==> ParentIs(db, path[0], path[1]) && ParentPath(db, path[1..])
    ensures ReplyPath(src, path) <==> RepliesTo(src, path[0], path[1]) && ReplyPath(src, path[1..])
    ensures (forall k :: 0 <= k < |path| ==> path[k] in db.messages)
            <==> path[0] in db.messages && forall k :: 0 <= k < |path[1..]| ==> path[1..][k] in db.messages
  {
    var rest := path[1..];
    assert forall i :: 0 <= i < |rest| ==> rest[i] == path[i + 1];
    assert forall i :: 1 <= i < |path| ==> path[i] == rest[i - 1];
  }

  // So an acyclic source stays acyclic, in every state that a run with distinct
  // keys can leave behind.
  lemma AcyclicStaysAcyclic(src: Source, agent: int, db: Db)
    requires PartialImage(src, agent, db)
    requires forall path :: ReplyPath(src, path) ==> !Cycle(path)
    ensures forall path :: ParentPath(db, path) ==> !Cycle(path)
  {
    forall path | ParentPath(db, path) ensures ReplyPath(src, path) {
      forall i | 0 <= i < |path| - 1 ensures RepliesTo(src, path[i], path[i + 1]) {
        assert ParentIs(db, path[i], path[i + 1]);
        assert MessageImage(src, agent, path[i], db.messages[path[i]]);
      }
    }
  }

  // ---------- an interrupted link pass ----------

  // An UPDATE that fails after `applied` updates loses those of the last open
  // batch only, and a later pass that succeeds makes up for it.
  lemma InterruptedPassRecovers(start: Db, stopped: Db, finished: Db, links: seq<(Id, Id)>, applied: nat)
    requires applied < |links|
    requires LinkedUpTo(start, stopped, links, Persisted(|links|, UpdateLost(applied)))
    requires LinkedUpTo(stopped, finished, links, Persisted(|links|, LinksSucceed))
    ensures stopped.messages == ApplyLinks(start.messages, links[..applied / 1000 * 1000])
    ensures LinkedUpTo(start, finished, links, |links|)
  {
    assert links[..|links|] == links;
    RelinkingRecovers(start.messages, links, Committed(applied));
  }
}
