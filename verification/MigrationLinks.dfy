// The second pass over the messages: parent links are applied in row order, the
// last one written wins, and a pass that stopped half way can simply be run again.
module MigrationLinks {
  import opened Basics
  import opened MigrationModel
  import opened MigrationSafety
  import opened MigrationImage

  // The parent that the last link for `child` writes.
  ghost function LastParent(links: seq<(Id, Id)>, child: Id): Option<Id> {
    if links == [] then None
    else
      var last := links[|links| - 1];
      if last.0 == child then Some(last.1) else LastParent(links[..|links| - 1], child)
  }

  // Links change parents and nothing else: each child gets its last parent.
  lemma {:induction false} ApplyLinksAt(ms: map<Id, Message>, links: seq<(Id, Id)>, id: Id)
    ensures ApplyLinks(ms, links).Keys == ms.Keys
    ensures id in ms ==>
              ApplyLinks(ms, links)[id] ==
              if LastParent(links, id).Some? then ms[id].(parent := LastParent(links, id)) else ms[id]
  {
    if links != [] {
      ApplyLinksAt(ms, links[..|links| - 1], id);
    }
  }

  lemma {:induction false} PrefixHasNoNewChild(links: seq<(Id, Id)>, k: nat, child: Id)
    requires k <= |links| && LastParent(links, child).None?
    ensures LastParent(links[..k], child).None?
  {
    if k < |links| {
      assert links[..|links| - 1][..k] == links[..k];
      PrefixHasNoNewChild(links[..|links| - 1], k, child);
    } else {
      assert links[..k] == links;
    }
  }

  // Running the whole pass after any prefix of it persisted gives what an
  // uninterrupted pass gives.
  lemma RelinkingRecovers(ms: map<Id, Message>, links: seq<(Id, Id)>, k: nat)
    requires k <= |links|
    ensures ApplyLinks(ApplyLinks(ms, links[..k]), links) == ApplyLinks(ms, links)
  {
    var partial := ApplyLinks(ms, links[..k]);
    forall id | id in ms
      ensures partial.Keys == ms.Keys && ApplyLinks(partial, links).Keys == ApplyLinks(ms, links).Keys == ms.Keys
      ensures ApplyLinks(partial, links)[id] == ApplyLinks(ms, links)[id]
    {
      ApplyLinksAt(ms, links[..k], id);
      ApplyLinksAt(ms, links, id);
      ApplyLinksAt(partial, links, id);
      if LastParent(links, id).None? {
        PrefixHasNoNewChild(links, k, id);
      }
    }
    ApplyLinksAt(ms, links[..k], 0);
    ApplyLinksAt(ms, links, 0);
    ApplyLinksAt(partial, links, 0);
  }

  // ---------- where links come from ----------

  ghost predicate LinkFrom(rows: seq<SrcMessage>, mmap: map<Id, Id>, link: (Id, Id)) {
    exists m :: m in rows && Links(m, mmap) && link == (mmap[m.id], mmap[m.previousId.value])
  }

  lemma {:induction false} LinksComeFromRows(rows: seq<SrcMessage>, mmap: map<Id, Id>)
    ensures forall link :: link in LinksOf(rows, mmap) ==> LinkFrom(rows, mmap, link)
    ensures forall m :: m in rows && Links(m, mmap) ==>
                          (mmap[m.id], mmap[m.previousId.value]) in LinksOf(rows, mmap)
  {
    if rows != [] {
      var front, last := rows[..|rows| - 1], rows[|rows| - 1];
      LinksComeFromRows(front, mmap);
      assert rows == front + [last];
      forall link | link in LinksOf(rows, mmap) ensures LinkFrom(rows, mmap, link) {
        if link in LinksOf(front, mmap) {
          var m :| m in front && Links(m, mmap) && link == (mmap[m.id], mmap[m.previousId.value]);
          assert m in rows;
        } else {
          assert last in rows;
        }
      }
    }
  }

  lemma {:induction false} LastParentIsALink(links: seq<(Id, Id)>, child: Id)
    ensures LastParent(links, child).Some? ==> (child, LastParent(links, child).value) in links
    ensures LastParent(links, child).None? ==> forall p :: (child, p) !in links
  {
    if links != [] {
      LastParentIsALink(links[..|links| - 1], child);
      assert links == links[..|links| - 1] + [links[|links| - 1]];
    }
  }

  // ---------- links keep a database safe ----------

  lemma {:induction false} ApplyLinksSafe(base: Db, db: Db, links: seq<(Id, Id)>)
    requires Safe(base, db)
    requires forall link :: link in links ==> link.1 in db.messages
    ensures Safe(base, db.(messages := ApplyLinks(db.messages, links)))
  {
    if links == [] {
      assert db.(messages := db.messages) == db;
    } else {
      var front, last := links[..|links| - 1], links[|links| - 1];
      assert forall link :: link in front ==> link in links;
      ApplyLinksSafe(base, db, front);
      var mid := db.(messages := ApplyLinks(db.messages, front));
      ApplyLinksAt(db.messages, front, 0);
      LinkSafe(base, mid, last.0, last.1);
    }
  }

  // ---------- links on an image ----------

  // With distinct ids, a link of message m can only come from m itself.
  lemma LinkOfMessage(src: Source, mmap: map<Id, Id>, rows: seq<SrcMessage>, m: SrcMessage, parent: Id)
    requires DistinctMessages(src) && KeepsIds(mmap) && m in src.messages
    requires forall r :: r in rows ==> r in src.messages
    requires (m.id, parent) in LinksOf(rows, mmap)
    ensures m.previousId == Some(parent) && parent in mmap
  {
    LinksComeFromRows(rows, mmap);
    var t :| t in rows && Links(t, mmap) && (m.id, parent) == (mmap[t.id], mmap[t.previousId.value]);
    assert t.id == m.id;
  }

  // On an image, the last parent of a message is its source row's previous message.
  lemma LastParentOnImage(src: Source, mmap: map<Id, Id>, rows: seq<SrcMessage>, m: SrcMessage, k: nat)
    requires DistinctMessages(src) && KeepsIds(mmap) && m in src.messages
    requires forall r :: r in rows ==> r in src.messages
    requires k <= |LinksOf(rows, mmap)|
    ensures var p := LastParent(LinksOf(rows, mmap)[..k], m.id);
            p.Some? ==> p == m.previousId && p.value in mmap
    ensures m in rows && Links(m, mmap) ==> LastParent(LinksOf(rows, mmap), m.id) == m.previousId
  {
    var all := LinksOf(rows, mmap);
    var p, q := LastParent(all[..k], m.id), LastParent(all, m.id);
    LastParentIsALink(all[..k], m.id);
    LastParentIsALink(all, m.id);
    if p.Some? {
      LinkOfMessage(src, mmap, rows, m, p.value);
    }
    if m in rows && Links(m, mmap) {
      LinksComeFromRows(rows, mmap);
      assert (m.id, m.previousId.value) in all;
      LinkOfMessage(src, mmap, rows, m, q.value);
    }
  }

  lemma LinksOnImage(src: Source, agent: int, db: Db, mmap: map<Id, Id>, k: nat)
    requires DistinctMessages(src) && PartialImage(src, agent, db)
    requires KeepsIds(mmap) && Lands(mmap, db.messages)
    requires k <= |LinksOf(src.messages, mmap)|
    ensures PartialImage(src, agent, db.(messages := ApplyLinks(db.messages, LinksOf(src.messages, mmap)[..k])))
  {
    var links := LinksOf(src.messages, mmap)[..k];
    var ms := ApplyLinks(db.messages, links);
    ApplyLinksAt(db.messages, links, 0);
    forall id | id in ms ensures MessageImage(src, agent, id, ms[id]) {
      var m :| MessageMigrates(src, m) && m.id == id && CameFromMessage(m, agent, db.messages[id]);
      ApplyLinksAt(db.messages, links, id);
      LastParentOnImage(src, mmap, src.messages, m, k);
      assert CameFromMessage(m, agent, ms[id]);
    }
  }

  lemma ParentAfterFullPass(src: Source, agent: int, mmap: map<Id, Id>, m: SrcMessage, row: Message)
    requires DistinctMessages(src) && KeepsIds(mmap) && m in src.messages && m.id in mmap
    requires MessageImage(src, agent, m.id, row) && (row.parent.Some? ==> row.parent.value in mmap)
    ensures (if LastParent(LinksOf(src.messages, mmap), m.id).Some?
             then LastParent(LinksOf(src.messages, mmap), m.id) else row.parent)
         == (if m.previousId.Some? && m.previousId.value in mmap then m.previousId else None)
  {
    var links := LinksOf(src.messages, mmap);
    assert links[..|links|] == links;
    LastParentOnImage(src, mmap, src.messages, m, |links|);
  }

  // A pass that runs to the end over a map of all migrated messages links every parent.
  lemma LinksCompleteImage(src: Source, agent: int, db: Db, mmap: map<Id, Id>)
    requires DistinctMessages(src) && Consistent(db)
    requires forall id :: id in db.messages ==> MessageImage(src, agent, id, db.messages[id])
    requires KeepsIds(mmap) && forall id :: id in mmap <==> id in db.messages
    ensures ParentsLinked(src, db.(messages := ApplyLinks(db.messages, LinksOf(src.messages, mmap))))
  {
    var links := LinksOf(src.messages, mmap);
    ApplyLinksAt(db.messages, links, 0);
    forall m | MessageMigrates(src, m) && m.id in db.messages
      ensures ApplyLinks(db.messages, links)[m.id].parent ==
              if m.previousId.Some? && m.previousId.value in db.messages then m.previousId else None
    {
      ApplyLinksAt(db.messages, links, m.id);
      assert MessageRefs(db, db.messages[m.id]);
      ParentAfterFullPass(src, agent, mmap, m, db.messages[m.id]);
    }
  }

  // Relinking a complete image, even partly, changes nothing.
  lemma RelinkingFullImage(src: Source, agent: int, db: Db, mmap: map<Id, Id>, k: nat)
    requires DistinctMessages(src) && PartialImage(src, agent, db) && ParentsLinked(src, db)
    requires KeepsIds(mmap) && Lands(mmap, db.messages)
    requires k <= |LinksOf(src.messages, mmap)|
    ensures ApplyLinks(db.messages, LinksOf(src.messages, mmap)[..k]) == db.messages
  {
    var links := LinksOf(src.messages, mmap)[..k];
    ApplyLinksAt(db.messages, links, 0);
    forall id | id in db.messages ensures ApplyLinks(db.messages, links)[id] == db.messages[id] {
      var m :| MessageMigrates(src, m) && m.id == id && CameFromMessage(m, agent, db.messages[id]);
      ApplyLinksAt(db.messages, links, id);
      LastParentOnImage(src, mmap, src.messages, m, k);
    }
  }
}
