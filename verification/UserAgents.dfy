// The agents an administrator sees for a user: resolved one user at a time, and
// resolved for a whole page from tables loaded once.
module UserAgents {
  import opened Basics

  datatype Agent = Agent(id: Id, publicId: string, name: string, icon: string, isDeleted: bool, status: Option<string>)

  datatype Access = Access(userId: Id, agentId: Id, level: string, isActive: bool)

  datatype AgentPivot = AgentPivot(agentName: string, groups: seq<string>)

  datatype UserPivot = UserPivot(email: string, groups: seq<string>)

  datatype User = User(id: Id, email: string)

  // The tables, in the order the queries return their rows.
  datatype Tables = Tables(
    agents: seq<Agent>, accesses: seq<Access>, agentPivots: seq<AgentPivot>, userPivots: seq<UserPivot>)

  datatype AgentInfo = AgentInfo(
    agentId: string, name: string, level: string, isActive: bool, thumbnail: Option<string>)

  // How an icon becomes a thumbnail URL; an absent icon ("") has none.
  type Resolver = string -> Option<string>

  // ---------- queries ----------

  // A null status fails NOT IN.
  predicate Live(a: Agent) {
    !a.isDeleted && a.status.Some? && a.status.value != "draft" && a.status.value != "inactive"
  }

  function AgentById(agents: seq<Agent>, id: Id): Option<Agent> {
    if agents == [] then None
    else if agents[0].id == id then Some(agents[0])
    else AgentById(agents[1..], id)
  }

  predicate Grants(t: Tables, x: Access) {
    x.isActive && AgentById(t.agents, x.agentId).Some? && Live(AgentById(t.agents, x.agentId).value)
  }

  // Active direct accesses of the chosen users to live agents.
  function GrantedTo(t: Tables, xs: seq<Access>, users: set<Id>): seq<Access> {
    if xs == [] then []
    else
      var x := xs[|xs| - 1];
      GrantedTo(t, xs[..|xs| - 1], users) + if x.userId in users && Grants(t, x) then [x] else []
  }

  // {agent.name: agent for agent in live agents}: the last one wins.
  function LiveByName(agents: seq<Agent>): map<string, Agent> {
    if agents == [] then map[]
    else
      var a := agents[|agents| - 1];
      if Live(a) then LiveByName(agents[..|agents| - 1])[a.name := a] else LiveByName(agents[..|agents| - 1])
  }

  function GroupsOf(pivots: seq<UserPivot>, email: string): seq<string> {
    if pivots == [] then []
    else if pivots[|pivots| - 1].email == email then pivots[|pivots| - 1].groups
    else GroupsOf(pivots[..|pivots| - 1], email)
  }

  predicate Intersect(a: seq<string>, b: seq<string>) {
    exists g :: g in a && g in b
  }

  // ---------- the list of one user ----------

  function Thumbnail(resolve: Resolver, icon: string): Option<string> {
    if icon == "" then None else resolve(icon)
  }

  function DirectInfo(t: Tables, resolve: Resolver, x: Access): AgentInfo
    requires Grants(t, x)
  {
    var a := AgentById(t.agents, x.agentId).value;
    AgentInfo(a.publicId, a.name, x.level, x.isActive, Thumbnail(resolve, a.icon))
  }

  function DirectInfos(t: Tables, resolve: Resolver, xs: seq<Access>): (r: seq<AgentInfo>)
    requires forall x :: x in xs ==> Grants(t, x)
    ensures |r| == |xs|
  {
    if xs == [] then []
    else DirectInfos(t, resolve, xs[..|xs| - 1]) + [DirectInfo(t, resolve, xs[|xs| - 1])]
  }

  predicate Listed(infos: seq<AgentInfo>, agentId: string) {
    exists i :: 0 <= i < |infos| && infos[i].agentId == agentId
  }

  function GroupInfo(resolve: Resolver, a: Agent): AgentInfo {
    AgentInfo(a.publicId, a.name, "read", true, Thumbnail(resolve, a.icon))
  }

  predicate Reaches(byName: map<string, Agent>, groups: seq<string>, p: AgentPivot) {
    Intersect(groups, p.groups) && p.agentName in byName
  }

  // Extends a list by the agents that groups reach and that are not listed yet.
  function AddFromGroups(byName: map<string, Agent>, resolve: Resolver, groups: seq<string>,
                         pivots: seq<AgentPivot>, infos: seq<AgentInfo>): seq<AgentInfo>
  {
    if pivots == [] then infos
    else
      var sofar := AddFromGroups(byName, resolve, groups, pivots[..|pivots| - 1], infos);
      var p := pivots[|pivots| - 1];
      if Reaches(byName, groups, p) && !Listed(sofar, byName[p.agentName].publicId)
      then sofar + [GroupInfo(resolve, byName[p.agentName])] else sofar
  }

  lemma {:induction false} GrantedAreGrants(t: Tables, xs: seq<Access>, users: set<Id>)
    ensures forall x :: x in GrantedTo(t, xs, users) <==> x in xs && x.userId in users && Grants(t, x)
  {
    if xs != [] {
      GrantedAreGrants(t, xs[..|xs| - 1], users);
      assert xs == xs[..|xs| - 1] + [xs[|xs| - 1]];
    }
  }

  function AgentsWith(t: Tables, resolve: Resolver, user: Id, groups: seq<string>): seq<AgentInfo> {
    GrantedAreGrants(t, t.accesses, {user});
    AddFromGroups(LiveByName(t.agents), resolve, groups, t.agentPivots,
                  DirectInfos(t, resolve, GrantedTo(t, t.accesses, {user})))
  }

  function AgentsOf(t: Tables, resolve: Resolver, u: User): seq<AgentInfo> {
    AgentsWith(t, resolve, u.id, GroupsOf(t.userPivots, u.email))
  }

  // ---------- who is on the list ----------

  lemma {:induction false} LiveByNameHolds(agents: seq<Agent>)
    ensures forall n :: n in LiveByName(agents) ==> LiveByName(agents)[n] in agents && Live(LiveByName(agents)[n])
                                                    && LiveByName(agents)[n].name == n
    ensures forall a :: a in agents && Live(a) ==> a.name in LiveByName(agents)
  {
    if agents != [] {
      LiveByNameHolds(agents[..|agents| - 1]);
      assert agents == agents[..|agents| - 1] + [agents[|agents| - 1]];
    }
  }

  lemma {:induction false} DirectInfosList(t: Tables, resolve: Resolver, xs: seq<Access>, agentId: string)
    requires forall x :: x in xs ==> Grants(t, x)
    ensures Listed(DirectInfos(t, resolve, xs), agentId)
            <==> exists x :: x in xs && AgentById(t.agents, x.agentId).value.publicId == agentId
  {
    if xs != [] {
      var front, x := xs[..|xs| - 1], xs[|xs| - 1];
      DirectInfosList(t, resolve, front, agentId);
      assert xs == front + [x];
      ListedSnoc(DirectInfos(t, resolve, front), DirectInfo(t, resolve, x), agentId);
    }
  }

  lemma ListedSnoc(infos: seq<AgentInfo>, last: AgentInfo, agentId: string)
    ensures Listed(infos + [last], agentId) <==> Listed(infos, agentId) || last.agentId == agentId
  {
    if Listed(infos, agentId) {
      var i :| 0 <= i < |infos| && infos[i].agentId == agentId;
      assert (infos + [last])[i].agentId == agentId;
    }
    assert (infos + [last])[|infos|] == last;
  }

  ghost predicate ReachedBy(byName: map<string, Agent>, groups: seq<string>, pivots: seq<AgentPivot>, agentId: string) {
    exists p :: p in pivots && Reaches(byName, groups, p) && byName[p.agentName].publicId == agentId
  }

  // The group loop adds exactly the reached agents and never repeats one already listed.
  lemma {:induction false} GroupLoop(byName: map<string, Agent>, resolve: Resolver, groups: seq<string>,
                                     pivots: seq<AgentPivot>, infos: seq<AgentInfo>, agentId: string)
    ensures var r := AddFromGroups(byName, resolve, groups, pivots, infos);
            && infos <= r
            && (Listed(r, agentId) <==> Listed(infos, agentId) || ReachedBy(byName, groups, pivots, agentId))
            && (forall i, j :: 0 <= i < j < |r| && |infos| <= j ==> r[i].agentId != r[j].agentId)
  {
    if pivots != [] {
      var front, p := pivots[..|pivots| - 1], pivots[|pivots| - 1];
      GroupLoop(byName, resolve, groups, front, infos, agentId);
      var sofar := AddFromGroups(byName, resolve, groups, front, infos);
      assert forall q :: q in pivots <==> q in front || q == p by {
        assert pivots == front + [p];
      }
      if Reaches(byName, groups, p) {
        ListedSnoc(sofar, GroupInfo(resolve, byName[p.agentName]), agentId);
      }
    }
  }

  // An agent is on a user's list exactly when the user has active direct access
  // to it while it is live, or shares an AD group with its pivot row while a live
  // agent of that name exists; group entries never repeat a listed agent.
  lemma AgentsOfIff(t: Tables, resolve: Resolver, u: User, agentId: string)
    ensures Listed(AgentsOf(t, resolve, u), agentId) <==>
              || (exists x :: x in t.accesses && x.userId == u.id && Grants(t, x)
                              && AgentById(t.agents, x.agentId).value.publicId == agentId)
              || ReachedBy(LiveByName(t.agents), GroupsOf(t.userPivots, u.email), t.agentPivots, agentId)
    ensures var r := AgentsOf(t, resolve, u);
            forall i, j :: 0 <= i < j < |r| && |GrantedTo(t, t.accesses, {u.id})| <= j ==> r[i].agentId != r[j].agentId
  {
    var xs := GrantedTo(t, t.accesses, {u.id});
    GrantedAreGrants(t, t.accesses, {u.id});
    DirectInfosList(t, resolve, xs, agentId);
    GroupLoop(LiveByName(t.agents), resolve, GroupsOf(t.userPivots, u.email), t.agentPivots,
              DirectInfos(t, resolve, xs), agentId);
  }

  // What each entry says: the direct ones follow the granted accesses in order,
  // and every other one is a live agent reached through a group, read-only.
  ghost predicate SaysDirect(t: Tables, resolve: Resolver, e: AgentInfo, x: Access) {
    var a := AgentById(t.agents, x.agentId);
    && a.Some? && !a.value.isDeleted && a.value.status.Some?
    && a.value.status.value != "draft" && a.value.status.value != "inactive"
    && e.agentId == a.value.publicId && e.name == a.value.name && e.level == x.level && e.isActive
    && (e.thumbnail == if a.value.icon == "" then None else resolve(a.value.icon))
  }

  ghost predicate SaysGroup(t: Tables, resolve: Resolver, e: AgentInfo, a: Agent) {
    && a in t.agents && !a.isDeleted && a.status.Some?
    && a.status.value != "draft" && a.status.value != "inactive"
    && e.agentId == a.publicId && e.name == a.name && e.level == "read" && e.isActive
    && (e.thumbnail == if a.icon == "" then None else resolve(a.icon))
  }

  lemma {:induction false} DirectEntries(t: Tables, resolve: Resolver, xs: seq<Access>, i: nat)
    requires i < |xs| && forall x :: x in xs ==> Grants(t, x)
    ensures SaysDirect(t, resolve, DirectInfos(t, resolve, xs)[i], xs[i])
  {
    if i < |xs| - 1 {
      DirectEntries(t, resolve, xs[..|xs| - 1], i);
    } else {
      assert xs[i] in xs;
    }
  }

  lemma {:induction false} GroupEntries(t: Tables, resolve: Resolver, groups: seq<string>, pivots: seq<AgentPivot>,
                                        infos: seq<AgentInfo>, i: nat)
    requires |infos| <= i < |AddFromGroups(LiveByName(t.agents), resolve, groups, pivots, infos)|
    ensures exists a :: SaysGroup(t, resolve, AddFromGroups(LiveByName(t.agents), resolve, groups, pivots, infos)[i], a)
  {
    if pivots != [] {
      var byName, front, p := LiveByName(t.agents), pivots[..|pivots| - 1], pivots[|pivots| - 1];
      var sofar := AddFromGroups(byName, resolve, groups, front, infos);
      if i < |sofar| {
        GroupEntries(t, resolve, groups, front, infos, i);
        assert AddFromGroups(byName, resolve, groups, pivots, infos)[i] == sofar[i];
      } else {
        LiveByNameHolds(t.agents);
        var r := AddFromGroups(byName, resolve, groups, pivots, infos);
        assert r == sofar + [GroupInfo(resolve, byName[p.agentName])];
        assert SaysGroup(t, resolve, r[i], byName[p.agentName]);
      }
    }
  }

  lemma AgentsOfEntries(t: Tables, resolve: Resolver, u: User, i: nat)
    requires i < |AgentsOf(t, resolve, u)|
    ensures var xs := GrantedTo(t, t.accesses, {u.id});
            if i < |xs| then SaysDirect(t, resolve, AgentsOf(t, resolve, u)[i], xs[i])
            else exists a :: SaysGroup(t, resolve, AgentsOf(t, resolve, u)[i], a)
  {
    var xs := GrantedTo(t, t.accesses, {u.id});
    var groups := GroupsOf(t.userPivots, u.email);
    GrantedAreGrants(t, t.accesses, {u.id});
    GroupLoop(LiveByName(t.agents), resolve, groups, t.agentPivots, DirectInfos(t, resolve, xs), "");
    if i < |xs| {
      DirectEntries(t, resolve, xs, i);
    } else {
      GroupEntries(t, resolve, groups, t.agentPivots, DirectInfos(t, resolve, xs), i);
    }
  }

  // ---------- the list in terms of the tables ----------

  // Row k is the agent with this id: keys are unique, and the first would be taken.
  ghost predicate HasId(agents: seq<Agent>, k: nat, id: Id) {
    k < |agents| && agents[k].id == id && forall j :: 0 <= j < k ==> agents[j].id != id
  }

  // Row k is the agent a name stands for: of those neither deleted nor without a
  // status, a draft or inactive, the last one.
  ghost predicate HasName(agents: seq<Agent>, k: nat, name: string) {
    && k < |agents| && agents[k].name == name && !agents[k].isDeleted
    && agents[k].status.Some? && agents[k].status.value != "draft" && agents[k].status.value != "inactive"
    && forall j :: k < j < |agents| && agents[j].name == name ==>
                     agents[j].isDeleted || agents[j].status in {None, Some("draft"), Some("inactive")}
  }

  // Row k is the user's row of AD groups.
  ghost predicate HasEmail(pivots: seq<UserPivot>, k: nat, email: string) {
    k < |pivots| && pivots[k].email == email && forall j :: k < j < |pivots| ==> pivots[j].email != email
  }

  // The agent with this id is neither deleted nor without a status, a draft or inactive.
  ghost predicate OnOffer(agents: seq<Agent>, id: Id) {
    exists k: nat :: HasId(agents, k, id) && !agents[k].isDeleted
                     && agents[k].status !in {None, Some("draft"), Some("inactive")}
  }

  // An active direct access to an agent on offer.
  ghost predicate MayUseDirectly(t: Tables, user: Id, agentId: string) {
    exists x, k: nat ::
      && x in t.accesses && x.userId == user && x.isActive
      && HasId(t.agents, k, x.agentId) && t.agents[k].publicId == agentId && OnOffer(t.agents, x.agentId)
  }

  // A group of the user and of an agent on offer.
  ghost predicate MayUseByGroup(t: Tables, email: string, agentId: string) {
    exists g: string, p, j: nat, k: nat ::
      && p in t.agentPivots && g in p.groups
      && HasEmail(t.userPivots, j, email) && g in t.userPivots[j].groups
      && HasName(t.agents, k, p.agentName) && t.agents[k].publicId == agentId
  }

  lemma {:induction false} AgentByIdIs(agents: seq<Agent>, id: Id)
    ensures AgentById(agents, id).Some? ==>
              exists k: nat :: HasId(agents, k, id) && agents[k] == AgentById(agents, id).value
    ensures forall k: nat :: HasId(agents, k, id) ==> AgentById(agents, id) == Some(agents[k])
  {
    if agents != [] {
      var rest := agents[1..];
      AgentByIdIs(rest, id);
      if agents[0].id == id {
        assert HasId(agents, 0, id);
      } else {
        if AgentById(rest, id).Some? {
          var k: nat :| HasId(rest, k, id) && rest[k] == AgentById(rest, id).value;
          assert HasId(agents, k + 1, id);
        }
        forall k: nat | HasId(agents, k, id) ensures AgentById(agents, id) == Some(agents[k]) {
          var n: nat := k - 1;
          assert HasId(rest, n, id);
        }
      }
    }
  }

  lemma {:induction false} LiveByNameIs(agents: seq<Agent>, name: string)
    ensures name in LiveByName(agents) ==> exists k: nat :: HasName(agents, k, name)
    ensures forall k: nat :: HasName(agents, k, name) ==>
                               name in LiveByName(agents) && LiveByName(agents)[name] == agents[k]
  {
    if agents != [] {
      var n: nat := |agents| - 1;
      var front := agents[..n];
      LiveByNameIs(front, name);
      if Live(agents[n]) && agents[n].name == name {
        assert HasName(agents, n, name);
      } else if name in LiveByName(front) {
        var k: nat :| HasName(front, k, name);
        assert HasName(agents, k, name);
      }
      forall k: nat | HasName(agents, k, name) && k < n
        ensures HasName(front, k, name) && !(Live(agents[n]) && agents[n].name == name)
      {
        assert agents[n].name == name ==>
            agents[n].isDeleted || agents[n].status in {None, Some("draft"), Some("inactive")};
      }
    }
  }

  lemma {:induction false} GroupsOfIs(pivots: seq<UserPivot>, email: string, g: string)
    ensures g in GroupsOf(pivots, email) <==> exists k: nat :: HasEmail(pivots, k, email) && g in pivots[k].groups
  {
    if pivots != [] {
      var n: nat := |pivots| - 1;
      var front := pivots[..n];
      GroupsOfIs(front, email, g);
      if pivots[n].email == email {
        assert HasEmail(pivots, n, email);
      } else {
        forall k: nat ensures HasEmail(pivots, k, email) <==> HasEmail(front, k, email) {
        }
      }
    }
  }

  lemma GrantsIff(t: Tables, x: Access)
    ensures Grants(t, x) <==> x.isActive && OnOffer(t.agents, x.agentId)
  {
    AgentByIdIs(t.agents, x.agentId);
  }

  lemma DirectIff(t: Tables, user: Id, agentId: string)
    ensures (exists x :: x in t.accesses && x.userId == user && Grants(t, x)
                         && AgentById(t.agents, x.agentId).value.publicId == agentId)
            <==> MayUseDirectly(t, user, agentId)
  {
    forall x
      ensures Grants(t, x) <==> x.isActive && OnOffer(t.agents, x.agentId)
      ensures Grants(t, x) ==> (AgentById(t.agents, x.agentId).value.publicId == agentId <==>
                                exists k: nat :: HasId(t.agents, k, x.agentId) && t.agents[k].publicId == agentId)
    {
      GrantsIff(t, x);
      AgentByIdIs(t.agents, x.agentId);
    }
  }

  lemma ByGroupIff(t: Tables, email: string, agentId: string)
    ensures ReachedBy(LiveByName(t.agents), GroupsOf(t.userPivots, email), t.agentPivots, agentId) <==>
            MayUseByGroup(t, email, agentId)
  {
    var byName, groups := LiveByName(t.agents), GroupsOf(t.userPivots, email);
    if p :| p in t.agentPivots && Reaches(byName, groups, p) && byName[p.agentName].publicId == agentId {
      var g :| g in groups && g in p.groups;
      GroupsOfIs(t.userPivots, email, g);
      LiveByNameIs(t.agents, p.agentName);
      var j: nat :| HasEmail(t.userPivots, j, email) && g in t.userPivots[j].groups;
      var k: nat :| HasName(t.agents, k, p.agentName);
    }
    if MayUseByGroup(t, email, agentId) {
      var g: string, p, j: nat, k: nat :|
        && p in t.agentPivots && g in p.groups
        && HasEmail(t.userPivots, j, email) && g in t.userPivots[j].groups
        && HasName(t.agents, k, p.agentName) && t.agents[k].publicId == agentId;
      GroupsOfIs(t.userPivots, email, g);
      LiveByNameIs(t.agents, p.agentName);
      assert Reaches(byName, groups, p);
    }
  }

  // An agent is on a user's list exactly when the user has an active direct access
  // to it, or one of the user's AD groups is one of the agent's, and the agent is on offer.
  lemma AgentsOfMeaning(t: Tables, resolve: Resolver, u: User, agentId: string)
    ensures (exists i :: 0 <= i < |AgentsOf(t, resolve, u)| && AgentsOf(t, resolve, u)[i].agentId == agentId) <==>
            MayUseDirectly(t, u.id, agentId) || MayUseByGroup(t, u.email, agentId)
  {
    AgentsOfIff(t, resolve, u, agentId);
    DirectIff(t, u.id, agentId);
    ByGroupIff(t, u.email, agentId);
  }

  // The entries `rs` are the accesses at the places `at`: all those, and only those,
  // that are active, of a chosen user and to an agent on offer.
  ghost predicate GrantedAt(agents: seq<Agent>, xs: seq<Access>, users: set<Id>, rs: seq<Access>, at: seq<nat>) {
    && |at| == |rs|
    && (forall i :: 0 <= i < |at| ==> at[i] < |xs| && rs[i] == xs[at[i]])
    && (forall i, j :: 0 <= i < j < |at| ==> at[i] < at[j])
    && (forall k: nat :: k in at <==>
          k < |xs| && xs[k].isActive && xs[k].userId in users && OnOffer(agents, xs[k].agentId))
  }

  lemma GrantedAtSnoc(agents: seq<Agent>, xs: seq<Access>, x: Access, users: set<Id>, rs: seq<Access>, at: seq<nat>)
    requires GrantedAt(agents, xs, users, rs, at)
    ensures if x.isActive && x.userId in users && OnOffer(agents, x.agentId)
            then GrantedAt(agents, xs + [x], users, rs + [x], at + [|xs|])
            else GrantedAt(agents, xs + [x], users, rs, at)
  {
  }

  lemma {:induction false} GrantedInOrder(t: Tables, xs: seq<Access>, users: set<Id>) returns (at: seq<nat>)
    ensures GrantedAt(t.agents, xs, users, GrantedTo(t, xs, users), at)
  {
    if xs == [] {
      at := [];
    } else {
      var front, x := xs[..|xs| - 1], xs[|xs| - 1];
      at := GrantedInOrder(t, front, users);
      GrantedAtSnoc(t.agents, front, x, users, GrantedTo(t, front, users), at);
      GrantsIff(t, x);
      assert front + [x] == xs;
      at := if x.userId in users && Grants(t, x) then at + [|front|] else at;
    }
  }

  // ---------- the batched tables stand for the per-user queries ----------

  function OfUser(xs: seq<Access>, user: Id): seq<Access> {
    if xs == [] then []
    else
      var x := xs[|xs| - 1];
      OfUser(xs[..|xs| - 1], user) + if x.userId == user then [x] else []
  }

  lemma OfUserSnoc(xs: seq<Access>, x: Access, user: Id)
    ensures OfUser(xs + [x], user) == OfUser(xs, user) + if x.userId == user then [x] else []
  {
    assert (xs + [x])[..|xs|] == xs;
  }

  // One user's share of the page query is that user's own query.
  lemma {:induction false} PageQuerySplits(t: Tables, xs: seq<Access>, users: set<Id>, user: Id)
    requires user in users
    ensures OfUser(GrantedTo(t, xs, users), user) == GrantedTo(t, xs, {user})
  {
    if xs != [] {
      var front, x := xs[..|xs| - 1], xs[|xs| - 1];
      PageQuerySplits(t, front, users, user);
      var rows := GrantedTo(t, front, users);
      OfUserSnoc(rows, x, user);
      assert rows + [] == rows && GrantedTo(t, front, {user}) + [] == GrantedTo(t, front, {user});
    }
  }

  ghost predicate Agree(a: Resolver, b: Resolver, agents: set<Agent>) {
    forall x :: x in agents ==> Thumbnail(a, x.icon) == Thumbnail(b, x.icon)
  }

  lemma {:induction false} AgreeOnDirect(t: Tables, a: Resolver, b: Resolver, agents: set<Agent>, xs: seq<Access>)
    requires Agree(a, b, agents)
    requires forall x :: x in xs ==> Grants(t, x) && AgentById(t.agents, x.agentId).value in agents
    ensures DirectInfos(t, a, xs) == DirectInfos(t, b, xs)
  {
    if xs != [] {
      AgreeOnDirect(t, a, b, agents, xs[..|xs| - 1]);
    }
  }

  lemma {:induction false} AgreeOnGroups(byName: map<string, Agent>, a: Resolver, b: Resolver, agents: set<Agent>,
                                         groups: seq<string>, pivots: seq<AgentPivot>, infos: seq<AgentInfo>)
    requires Agree(a, b, agents) && byName.Values <= agents
    ensures AddFromGroups(byName, a, groups, pivots, infos) == AddFromGroups(byName, b, groups, pivots, infos)
  {
    if pivots != [] {
      AgreeOnGroups(byName, a, b, agents, groups, pivots[..|pivots| - 1], infos);
      var p := pivots[|pivots| - 1];
      assert p.agentName in byName ==> byName[p.agentName] in byName.Values;
    }
  }

  // ---------- the endpoints ----------

  // The loops both endpoints run for one user: direct accesses first, then the
  // agent pivots, with the ids already listed kept in a set.
  method CollectAgents(t: Tables, resolve: Resolver, xs: seq<Access>, groups: seq<string>, byName: map<string, Agent>)
    returns (infos: seq<AgentInfo>)
    requires forall x :: x in xs ==> Grants(t, x)
    ensures infos == AddFromGroups(byName, resolve, groups, t.agentPivots, DirectInfos(t, resolve, xs))
  {
    infos := [];
    var seen: set<string> := {};
    for i := 0 to |xs|
      invariant infos == DirectInfos(t, resolve, xs[..i])
      invariant forall id :: id in seen <==> Listed(infos, id)
    {
      assert xs[..i + 1][..i] == xs[..i];
      var info := DirectInfo(t, resolve, xs[i]);
      forall id ensures Listed(infos + [info], id) <==> Listed(infos, id) || info.agentId == id {
        ListedSnoc(infos, info, id);
      }
      infos := infos + [info];
      seen := seen + {info.agentId};
    }
    assert xs[..|xs|] == xs;
    ghost var direct := infos;
    for i := 0 to |t.agentPivots|
      invariant infos == AddFromGroups(byName, resolve, groups, t.agentPivots[..i], direct)
      invariant forall id :: id in seen <==> Listed(infos, id)
    {
      assert t.agentPivots[..i + 1][..i] == t.agentPivots[..i];
      var p := t.agentPivots[i];
      if Reaches(byName, groups, p) && byName[p.agentName].publicId !in seen {
        var info := GroupInfo(resolve, byName[p.agentName]);
        forall id ensures Listed(infos + [info], id) <==> Listed(infos, id) || info.agentId == id {
          ListedSnoc(infos, info, id);
        }
        infos := infos + [info];
        seen := seen + {info.agentId};
      }
    }
    assert t.agentPivots[..|t.agentPivots|] == t.agentPivots;
  }

  method GetUser(t: Tables, resolve: Resolver, u: User) returns (infos: seq<AgentInfo>)
    ensures infos == AgentsOf(t, resolve, u)
    ensures forall agentId :: Listed(infos, agentId) <==>
                              MayUseDirectly(t, u.id, agentId) || MayUseByGroup(t, u.email, agentId)
  {
    GrantedAreGrants(t, t.accesses, {u.id});
    forall agentId ensures Listed(AgentsOf(t, resolve, u), agentId) <==>
                           MayUseDirectly(t, u.id, agentId) || MayUseByGroup(t, u.email, agentId)
    {
      AgentsOfMeaning(t, resolve, u, agentId);
    }
    infos := CollectAgents(t, resolve, GrantedTo(t, t.accesses, {u.id}), GroupsOf(t.userPivots, u.email),
                           LiveByName(t.agents));
  }

  method GroupByUser(xs: seq<Access>) returns (byUser: map<Id, seq<Access>>)
    ensures forall user :: (if user in byUser then byUser[user] else []) == OfUser(xs, user)
  {
    byUser := map[];
    for i := 0 to |xs|
      invariant forall user :: (if user in byUser then byUser[user] else []) == OfUser(xs[..i], user)
    {
      assert xs[..i + 1][..i] == xs[..i];
      var user := xs[i].userId;
      if user !in byUser {
        byUser := byUser[user := []];
      }
      byUser := byUser[user := byUser[user] + [xs[i]]];
    }
    assert xs[..|xs|] == xs;
  }

  method GroupsByEmail(pivots: seq<UserPivot>, emails: set<string>) returns (byEmail: map<string, seq<string>>)
    ensures forall e :: e in emails ==> e in byEmail && byEmail[e] == GroupsOf(pivots, e)
    ensures byEmail.Keys == emails
  {
    byEmail := map[];
    for i := 0 to |pivots|
      invariant byEmail.Keys <= emails
      invariant forall e :: e in emails ==> (if e in byEmail then byEmail[e] else []) == GroupsOf(pivots[..i], e)
    {
      assert pivots[..i + 1][..i] == pivots[..i];
      if pivots[i].email in emails {
        byEmail := byEmail[pivots[i].email := pivots[i].groups];
      }
    }
    assert pivots[..|pivots|] == pivots;
    byEmail := map e | e in emails :: if e in byEmail then byEmail[e] else [];
  }

  // The agents whose icons the page resolves up front.
  function PageAgents(t: Tables, rows: seq<Access>): set<Agent> {
    (set x | x in rows && AgentById(t.agents, x.agentId).Some? :: AgentById(t.agents, x.agentId).value)
    + LiveByName(t.agents).Values
  }

  // A resolver that reads the batch-resolved icons gives the same lists.
  lemma CachedIconsSuffice(t: Tables, resolve: Resolver, cached: Resolver, ids: set<Id>, user: Id, groups: seq<string>)
    requires user in ids && Agree(cached, resolve, PageAgents(t, GrantedTo(t, t.accesses, ids)))
    ensures AgentsWith(t, cached, user, groups) == AgentsWith(t, resolve, user, groups)
  {
    var agents := PageAgents(t, GrantedTo(t, t.accesses, ids));
    var xs := GrantedTo(t, t.accesses, {user});
    GrantedAreGrants(t, t.accesses, {user});
    GrantedAreGrants(t, t.accesses, ids);
    AgreeOnDirect(t, cached, resolve, agents, xs);
    AgreeOnGroups(LiveByName(t.agents), cached, resolve, agents, groups, t.agentPivots, DirectInfos(t, resolve, xs));
  }

  method ResolveIcons(agents: set<Agent>, resolve: Resolver) returns (cache: map<string, Option<string>>)
    ensures Agree(icon => if icon in cache then cache[icon] else None, resolve, agents)
  {
    var icons := set a | a in agents && a.icon != "" :: a.icon;
    cache := map icon | icon in icons :: resolve(icon);
  }

  // A user without an email address is never looked up in the pivot table.
  function PageGroups(t: Tables, u: User): seq<string> {
    if u.email == "" then [] else GroupsOf(t.userPivots, u.email)
  }

  // The page lists for a user without an email address the direct accesses alone.
  lemma PageMeaning(t: Tables, resolve: Resolver, u: User, agentId: string)
    ensures Listed(AgentsWith(t, resolve, u.id, PageGroups(t, u)), agentId) <==>
            MayUseDirectly(t, u.id, agentId) || (u.email != "" && MayUseByGroup(t, u.email, agentId))
  {
    if u.email != "" {
      AgentsOfMeaning(t, resolve, u, agentId);
      assert Listed(AgentsOf(t, resolve, u), agentId) <==>
             MayUseDirectly(t, u.id, agentId) || MayUseByGroup(t, u.email, agentId);
    } else {
      var xs := GrantedTo(t, t.accesses, {u.id});
      GrantedAreGrants(t, t.accesses, {u.id});
      DirectInfosList(t, resolve, xs, agentId);
      GroupLoop(LiveByName(t.agents), resolve, [], t.agentPivots, DirectInfos(t, resolve, xs), agentId);
      DirectIff(t, u.id, agentId);
    }
  }

  // The tables of a page, loaded once for all its users.
  datatype Loaded = Loaded(ids: set<Id>, byUser: map<Id, seq<Access>>, byEmail: map<string, seq<string>>,
                           byName: map<string, Agent>, cache: map<string, Option<string>>)
  {
    function Accesses(user: Id): seq<Access> {
      if user in byUser then byUser[user] else []
    }

    function Groups(email: string): seq<string> {
      if email in byEmail then byEmail[email] else []
    }

    function Resolve(icon: string): Option<string> {
      if icon in cache then cache[icon] else None
    }
  }

  ghost predicate Serves(t: Tables, resolve: Resolver, l: Loaded, u: User) {
    && u.id in l.ids
    && l.Accesses(u.id) == OfUser(GrantedTo(t, t.accesses, l.ids), u.id)
    && l.Groups(u.email) == PageGroups(t, u)
    && l.byName == LiveByName(t.agents)
    && Agree(l.Resolve, resolve, PageAgents(t, GrantedTo(t, t.accesses, l.ids)))
  }

  method Load(t: Tables, resolve: Resolver, users: seq<User>) returns (l: Loaded)
    ensures forall u :: u in users ==> Serves(t, resolve, l, u)
  {
    var ids := set u | u in users :: u.id;
    var emails := set u | u in users && u.email != "" :: u.email;
    var rows := GrantedTo(t, t.accesses, ids);
    var byUser := GroupByUser(rows);
    var byEmail := GroupsByEmail(t.userPivots, emails);
    var cache := ResolveIcons(PageAgents(t, rows), resolve);
    l := Loaded(ids, byUser, byEmail, LiveByName(t.agents), cache);
    assert forall icon :: l.Resolve(icon) == if icon in cache then cache[icon] else None;
  }

  method ListOne(t: Tables, resolve: Resolver, l: Loaded, u: User) returns (infos: seq<AgentInfo>)
    requires Serves(t, resolve, l, u)
    ensures infos == AgentsWith(t, resolve, u.id, PageGroups(t, u))
  {
    PageQuerySplits(t, t.accesses, l.ids, u.id);
    GrantedAreGrants(t, t.accesses, {u.id});
    infos := CollectAgents(t, l.Resolve, l.Accesses(u.id), l.Groups(u.email), l.byName);
    CachedIconsSuffice(t, resolve, l.Resolve, l.ids, u.id, PageGroups(t, u));
  }

  // One page of users: every user with an email address gets the list that
  // the single-user endpoint would give.
  method ListUsers(t: Tables, resolve: Resolver, users: seq<User>) returns (page: seq<seq<AgentInfo>>)
    ensures |page| == |users|
    ensures forall i :: 0 <= i < |users| ==> page[i] == AgentsWith(t, resolve, users[i].id, PageGroups(t, users[i]))
    ensures forall i :: 0 <= i < |users| && users[i].email != "" ==> page[i] == AgentsOf(t, resolve, users[i])
    ensures forall i, agentId :: 0 <= i < |users| ==>
              (Listed(page[i], agentId) <==>
               MayUseDirectly(t, users[i].id, agentId)
               || (users[i].email != "" && MayUseByGroup(t, users[i].email, agentId)))
  {
    var l := Load(t, resolve, users);
    page := [];
    for i := 0 to |users|
      invariant |page| == i
      invariant forall k :: 0 <= k < i ==> page[k] == AgentsWith(t, resolve, users[k].id, PageGroups(t, users[k]))
    {
      var infos := ListOne(t, resolve, l, users[i]);
      page := page + [infos];
    }
    forall i, agentId | 0 <= i < |users|
      ensures Listed(page[i], agentId) <==>
              MayUseDirectly(t, users[i].id, agentId)
              || (users[i].email != "" && MayUseByGroup(t, users[i].email, agentId))
    {
      PageMeaning(t, resolve, users[i], agentId);
    }
  }
}
