// The 2.0 source tables, the 3.0 target tables, and one row step of each stage
// of the data migration.  Columns that are copied unread travel in `info`;
// `updated_at` is not modelled.
module MigrationModel {
  import opened Basics

  // ---------- source database (2.0) ----------

  // An absent text column is "".
  datatype SrcUser = SrcUser(id: Id, email: string, info: string)

  datatype SrcSession = SrcSession(
    id: Id, userId: Option<Id>, name: string, graphId: string,
    createdAt: Option<Time>, deletedAt: Option<Time>, info: string)

  datatype SrcMessage = SrcMessage(
    id: Id, conversationId: Option<Id>, isReply: bool, rawMessage: string,
    sentAt: Option<Time>, createdAt: Option<Time>, previousId: Option<Id>, info: string)

  datatype SrcAttachment = SrcAttachment(
    id: Id, messageId: Option<Id>, name: string,
    createdAt: Option<Time>, deletedAt: Option<Time>, info: string)

  datatype Source = Source(
    users: seq<SrcUser>, sessions: seq<SrcSession>,
    messages: seq<SrcMessage>, attachments: seq<SrcAttachment>)

  // ---------- target database (3.0) ----------

  datatype User = User(email: string, username: string, info: string)

  datatype Session = Session(
    userId: Id, agentId: int, name: string, status: string, graphId: string,
    createdAt: Time, deletedAt: Option<Time>, info: string)

  datatype Message = Message(
    sessionId: Id, userId: Id, agentId: int, parent: Option<Id>, role: string,
    content: string, isReply: bool, sentAt: Option<Time>, createdAt: Time, info: string)

  datatype Attachment = Attachment(
    messageId: Option<Id>, entityId: Option<Id>, userId: Id, fileName: string,
    blobUrl: string, blobName: string, isActive: bool, createdAt: Time, info: string)

  datatype Db = Db(
    users: map<Id, User>, sessions: map<Id, Session>,
    messages: map<Id, Message>, attachments: map<Id, Attachment>)

  // Where the database may fail while one row is handled.
  datatype Fault = NoFault | ReadFails | WriteFails | CommitFails

  // ---------- values computed from a source row ----------

  function OrNow(t: Option<Time>, now: Time): Time {
    if t.Some? then t.value else now
  }

  function SessionName(s: SrcSession): string {
    if s.name == "" then "Untitled Chat" else s.name
  }

  function SessionStatus(s: SrcSession): string {
    if s.deletedAt.None? then "active" else "archived"
  }

  function MessageRole(m: SrcMessage): string {
    if m.isReply then "assistant" else "user"
  }

  function NewUser(u: SrcUser): User {
    User(u.email, u.email, u.info)
  }

  function NewSession(s: SrcSession, userId: Id, agent: int, now: Time): Session {
    Session(userId, agent, SessionName(s), SessionStatus(s), s.graphId,
            OrNow(s.createdAt, now), s.deletedAt, s.info)
  }

  function NewMessage(m: SrcMessage, sessionId: Id, userId: Id, agent: int, now: Time): Message {
    Message(sessionId, userId, agent, None, MessageRole(m), m.rawMessage, m.isReply,
            m.sentAt, OrNow(m.createdAt, now), m.info)
  }

  function NewAttachment(a: SrcAttachment, messageId: Id, userId: Id, now: Time): Attachment {
    Attachment(Some(messageId), Some(messageId), userId, a.name, "", "",
               a.deletedAt.None?, OrNow(a.createdAt, now), a.info)
  }

  // ---------- duplicate checks ----------

  predicate SameEmail(u: User, email: string) {
    u.email == email
  }

  // A session is looked up by graph id when it has one, else by name and creation time.
  predicate SameSession(row: Session, userId: Id, s: SrcSession, now: Time) {
    && row.userId == userId
    && if s.graphId != "" then row.graphId == s.graphId
       else row.name == SessionName(s) && row.createdAt == OrNow(s.createdAt, now)
  }

  // A message is looked up by sending time when it has one, else by creation time.
  predicate SameMessage(row: Message, sessionId: Id, m: SrcMessage, now: Time) {
    && row.sessionId == sessionId
    && row.content == m.rawMessage
    && if m.sentAt.Some? then row.sentAt == m.sentAt
       else row.sentAt == None && row.createdAt == OrNow(m.createdAt, now)
  }

  predicate SameFile(row: Attachment, messageId: Id, name: string) {
    row.messageId == Some(messageId) && row.fileName == name
  }

  predicate HasUrls(row: Attachment) {
    row.blobUrl != "" || row.blobName != ""
  }

  ghost predicate IsUser(db: Db, id: Id, email: string) {
    id in db.users && SameEmail(db.users[id], email)
  }

  ghost predicate IsSession(db: Db, id: Id, userId: Id, s: SrcSession, now: Time) {
    id in db.sessions && SameSession(db.sessions[id], userId, s, now)
  }

  ghost predicate IsMessage(db: Db, id: Id, sessionId: Id, m: SrcMessage, now: Time) {
    id in db.messages && SameMessage(db.messages[id], sessionId, m, now)
  }

  ghost predicate IsFile(db: Db, id: Id, messageId: Id, name: string) {
    id in db.attachments && SameFile(db.attachments[id], messageId, name)
  }

  ghost predicate UsernameTaken(db: Db, name: string) {
    exists id :: id in db.users && db.users[id].username == name
  }

  // ---------- one row step of each stage ----------
  // `fetchone` may return any matching row, so a step is a relation.  A failed
  // step rolls back and answers None.

  ghost predicate Rejected(before: Db, after: Db, r: Option<Id>) {
    after == before && r == None
  }

  ghost predicate UserStep(u: SrcUser, fault: Fault, before: Db, after: Db, r: Option<Id>) {
    if u.email == "" || fault == ReadFails then
      Rejected(before, after, r)
    else if exists id :: IsUser(before, id, u.email) then
      after == before && r.Some? && IsUser(before, r.value, u.email)
    else if fault != NoFault || u.id in before.users || UsernameTaken(before, u.email) then
      Rejected(before, after, r)
    else
      after == before.(users := before.users[u.id := NewUser(u)]) && r == Some(u.id)
  }

  function RefreshedSession(row: Session, s: SrcSession, agent: int): Session {
    row.(agentId := agent, name := SessionName(s), status := SessionStatus(s))
  }

  ghost predicate SessionStep(s: SrcSession, umap: map<Id, Id>, agent: int, now: Time, fault: Fault,
                              before: Db, after: Db, r: Option<Id>) {
    if s.userId.None? || s.userId.value !in umap || fault != NoFault then
      Rejected(before, after, r)
    else
      var userId := umap[s.userId.value];
      if exists id :: IsSession(before, id, userId, s, now) then
        && r.Some? && IsSession(before, r.value, userId, s, now)
        && after == before.(sessions :=
             before.sessions[r.value := RefreshedSession(before.sessions[r.value], s, agent)])
      else if s.id in before.sessions || userId !in before.users then
        Rejected(before, after, r)
      else
        && after == before.(sessions := before.sessions[s.id := NewSession(s, userId, agent, now)])
        && r == Some(s.id)
  }

  function RefreshedMessage(row: Message, m: SrcMessage, agent: int): Message {
    row.(agentId := agent, role := MessageRole(m))
  }

  ghost predicate MessageStep(m: SrcMessage, smap: map<Id, Id>, agent: int, now: Time, fault: Fault,
                              before: Db, after: Db, r: Option<Id>) {
    if m.conversationId.None? || m.conversationId.value !in smap
       || smap[m.conversationId.value] !in before.sessions || fault != NoFault then
      Rejected(before, after, r)
    else
      var sessionId := smap[m.conversationId.value];
      var userId := before.sessions[sessionId].userId;
      if exists id :: IsMessage(before, id, sessionId, m, now) then
        && r.Some? && IsMessage(before, r.value, sessionId, m, now)
        && after == before.(messages :=
             before.messages[r.value := RefreshedMessage(before.messages[r.value], m, agent)])
      else if m.id in before.messages || userId !in before.users then
        Rejected(before, after, r)
      else
        && after == before.(messages := before.messages[m.id := NewMessage(m, sessionId, userId, agent, now)])
        && r == Some(m.id)
  }

  datatype Action = Created | Updated | Skipped

  // Blanks the row's URLs when it has any.
  ghost predicate BlankStep(id: Id, fault: Fault, before: Db, after: Db, ok: bool, action: Action)
    requires id in before.attachments
  {
    if !HasUrls(before.attachments[id]) then
      after == before && ok && action == Skipped
    else if fault != NoFault then
      after == before && !ok && action == Skipped
    else
      && after == before.(attachments :=
           before.attachments[id := before.attachments[id].(blobUrl := "", blobName := "")])
      && ok && action == Updated
  }

  ghost predicate AttachmentStep(a: SrcAttachment, mmap: map<Id, Id>, now: Time, fault: Fault,
                                 before: Db, after: Db, ok: bool, action: Action) {
    if a.messageId.None? || a.messageId.value !in mmap
       || mmap[a.messageId.value] !in before.messages || fault == ReadFails then
      after == before && !ok && action == Skipped
    else
      var messageId := mmap[a.messageId.value];
      var userId := before.messages[messageId].userId;
      if a.id in before.attachments then
        BlankStep(a.id, fault, before, after, ok, action)
      else if exists id :: IsFile(before, id, messageId, a.name) then
        exists id :: IsFile(before, id, messageId, a.name) && BlankStep(id, fault, before, after, ok, action)
      else if fault != NoFault || userId !in before.users then
        after == before && !ok && action == Skipped
      else
        && after == before.(attachments := before.attachments[a.id := NewAttachment(a, messageId, userId, now)])
        && ok && action == Created
  }

  // ---------- the parent-link pass ----------

  // UPDATE messages SET parent_message_id = parent WHERE id = child
  function Link(ms: map<Id, Message>, child: Id, parent: Id): map<Id, Message> {
    if child in ms then ms[child := ms[child].(parent := Some(parent))] else ms
  }

  function ApplyLinks(ms: map<Id, Message>, links: seq<(Id, Id)>): map<Id, Message>
    decreases |links|
  {
    if links == [] then ms
    else
      var last := links[|links| - 1];
      Link(ApplyLinks(ms, links[..|links| - 1]), last.0, last.1)
  }

  predicate Links(m: SrcMessage, mmap: map<Id, Id>) {
    m.previousId.Some? && m.id in mmap && m.previousId.value in mmap
  }

  // The updates the pass issues, in row order.
  function LinksOf(rows: seq<SrcMessage>, mmap: map<Id, Id>): seq<(Id, Id)> {
    if rows == [] then []
    else
      var m := rows[|rows| - 1];
      LinksOf(rows[..|rows| - 1], mmap)
      + if Links(m, mmap) then [(mmap[m.id], mmap[m.previousId.value])] else []
  }
}
