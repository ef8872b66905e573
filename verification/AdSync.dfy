// Synchronising local users with the users fetched from Azure AD.
module AdSync {
  import opened Basics

  // A fetched user.  Absent text is ""; `displayWords` is displayName.split(),
  // None when there is no display name.
  datatype Fetched = Fetched(
    id: string, mail: string, principalName: string, givenName: string, surname: string,
    displayWords: Option<seq<string>>, enabled: bool)

  datatype User = User(
    azureId: Option<string>, email: string, username: string, first: string, last: string, isActive: bool)

  // ---------- what a fetched user says ----------

  function Email(f: Fetched): string {
    if f.mail != "" then f.mail else f.principalName
  }

  // email.split("@")[0]
  function BeforeAt(email: string): (r: string)
    ensures r <= email && '@' !in r
    ensures r == email || email[|r|] == '@'
  {
    if email == "" || email[0] == '@' then "" else [email[0]] + BeforeAt(email[1..])
  }

  function JoinWords(ws: seq<string>): string {
    if ws == [] then "" else if |ws| == 1 then ws[0] else ws[0] + " " + JoinWords(ws[1..])
  }

  // A display name of blanks only has no first word, and asking for it is a row error.
  predicate NameReadable(f: Fetched) {
    f.displayWords.Some? && f.givenName == "" ==> f.displayWords.value != []
  }

  // The given name only counts when there is a display name.
  function FirstName(f: Fetched): string
    requires NameReadable(f)
  {
    if f.displayWords.None? then "" else if f.givenName != "" then f.givenName else f.displayWords.value[0]
  }

  function LastName(f: Fetched): string {
    if f.surname != "" then f.surname
    else if f.displayWords.Some? && |f.displayWords.value| > 1 then JoinWords(f.displayWords.value[1..])
    else ""
  }

  function Or(a: string, b: string): string {
    if a != "" then a else b
  }

  // ---------- one row ----------

  // The fields an existing user takes over.
  function Overwritten(u: User, f: Fetched): User
    requires NameReadable(f)
  {
    User(u.azureId, Email(f), BeforeAt(Email(f)), Or(FirstName(f), u.first), Or(LastName(f), u.last), f.enabled)
  }

  function Blank(azureId: string): User {
    User(Some(azureId), "", "", "", "", false)
  }

  function Find(users: seq<User>, azureId: string): (i: nat)
    ensures i <= |users|
    ensures i < |users| ==> users[i].azureId == Some(azureId)
    ensures forall k :: 0 <= k < i ==> users[k].azureId != Some(azureId)
  {
    if users == [] then 0
    else if users[0].azureId == Some(azureId) then 0
    else 1 + Find(users[1..], azureId)
  }

  function Upsert(users: seq<User>, f: Fetched, overwrite: bool): seq<User>
    requires NameReadable(f)
  {
    var i := Find(users, f.id);
    if i == |users| then users + [Overwritten(Blank(f.id), f)]
    else if overwrite then users[i := Overwritten(users[i], f)]
    else users
  }

  // Does row k change the table?  Rows without an email or with an error do not.
  predicate Applies(f: Fetched, fails: bool) {
    Email(f) != "" && NameReadable(f) && !fails
  }

  function Upserted(users: seq<User>, fs: seq<Fetched>, overwrite: bool, fails: nat -> bool): seq<User> {
    if fs == [] then users
    else
      var n := |fs| - 1;
      var before := Upserted(users, fs[..n], overwrite, fails);
      if Applies(fs[n], fails(n)) then Upsert(before, fs[n], overwrite) else before
  }

  // The ids that were seen with an email, row errors included.
  function Seen(fs: seq<Fetched>): set<string> {
    set f | f in fs && Email(f) != "" :: f.id
  }

  function Deactivated(u: User, seen: set<string>): User {
    if u.azureId.Some? && u.azureId.value !in seen then u.(isActive := false) else u
  }

  function DeactivateAll(users: seq<User>, seen: set<string>): seq<User> {
    seq(|users|, i requires 0 <= i < |users| => Deactivated(users[i], seen))
  }

  function Synced(users: seq<User>, fs: seq<Fetched>, overwrite: bool, fails: nat -> bool): seq<User> {
    var upserted := Upserted(users, fs, overwrite, fails);
    if overwrite then DeactivateAll(upserted, Seen(fs)) else upserted
  }

  // ---------- the net effect on one row ----------

  predicate Concerns(f: Fetched, azureId: string) {
    f.id == azureId && Email(f) != "" && NameReadable(f)
  }

  // The last fetched user with this id.
  function Latest(fs: seq<Fetched>, azureId: string): (r: Option<Fetched>)
    ensures r.Some? ==> r.value in fs && Concerns(r.value, azureId)
  {
    if fs == [] then None
    else if Concerns(fs[|fs| - 1], azureId) then Some(fs[|fs| - 1])
    else Latest(fs[..|fs| - 1], azureId)
  }

  // The last names that were not empty.
  function LatestFirst(fs: seq<Fetched>, azureId: string): string {
    if fs == [] then ""
    else
      var f := fs[|fs| - 1];
      var before := LatestFirst(fs[..|fs| - 1], azureId);
      if Concerns(f, azureId) then Or(FirstName(f), before) else before
  }

  function LatestLast(fs: seq<Fetched>, azureId: string): string {
    if fs == [] then ""
    else
      var f := fs[|fs| - 1];
      var before := LatestLast(fs[..|fs| - 1], azureId);
      if Concerns(f, azureId) then Or(LastName(f), before) else before
  }

  // Last occurrence wins, except that an empty name never replaces one.
  function Final(u: User, fs: seq<Fetched>, azureId: string): User {
    var f := Latest(fs, azureId);
    if f.None? then u
    else User(u.azureId, Email(f.value), BeforeAt(Email(f.value)),
              Or(LatestFirst(fs, azureId), u.first), Or(LatestLast(fs, azureId), u.last), f.value.enabled)
  }

  // A user without an Azure id is nobody's, and no row without an email counts.
  function FinalRow(u: User, fs: seq<Fetched>): User {
    if u.azureId.None? then u else Final(u, fs, u.azureId.value)
  }

  ghost predicate UniqueIds(users: seq<User>) {
    forall i, j :: 0 <= i < j < |users| && users[i].azureId.Some? ==> users[i].azureId != users[j].azureId
  }

  ghost predicate HasId(users: seq<User>, azureId: string) {
    exists i :: 0 <= i < |users| && users[i].azureId == Some(azureId)
  }

  predicate NoErrors(fs: seq<Fetched>, fails: nat -> bool) {
    forall i :: 0 <= i < |fs| && Email(fs[i]) != "" ==> Applies(fs[i], fails(i))
  }

  lemma {:induction false} UnnamedHasNoNames(fs: seq<Fetched>, azureId: string)
    requires Latest(fs, azureId).None?
    ensures LatestFirst(fs, azureId) == "" && LatestLast(fs, azureId) == ""
  {
    if fs != [] {
      UnnamedHasNoNames(fs[..|fs| - 1], azureId);
    }
  }

  lemma FinalSnoc(u: User, fs: seq<Fetched>, f: Fetched, azureId: string)
    ensures Final(u, fs + [f], azureId) ==
            if Concerns(f, azureId) then Overwritten(Final(u, fs, azureId), f) else Final(u, fs, azureId)
    ensures Latest(fs + [f], azureId) == if Concerns(f, azureId) then Some(f) else Latest(fs, azureId)
  {
    assert (fs + [f])[..|fs|] == fs && (fs + [f])[|fs|] == f;
    if Latest(fs, azureId).None? {
      UnnamedHasNoNames(fs, azureId);
    }
  }

  // Row i of the result came from row i, or from nothing.
  function Origin(users: seq<User>, r: seq<User>, i: nat): User
    requires |users| <= |r| && i < |r| && (i >= |users| ==> r[i].azureId.Some?)
  {
    if i < |users| then users[i] else Blank(r[i].azureId.value)
  }

  // Every row has its net effect, and the new rows are those of new ids.
  ghost predicate Reflects(users: seq<User>, fs: seq<Fetched>, r: seq<User>) {
    && |users| <= |r|
    && (forall i :: |users| <= i < |r| ==> r[i].azureId.Some? && Latest(fs, r[i].azureId.value).Some?)
    && (forall i {:trigger r[i]} :: 0 <= i < |r| ==> r[i] == FinalRow(Origin(users, r, i), fs))
  }

  // Every fetched user with an email has a row.
  ghost predicate Covers(r: seq<User>, fs: seq<Fetched>) {
    forall f :: f in fs && Email(f) != "" ==> HasId(r, f.id)
  }

  lemma CoversSnoc(fs: seq<Fetched>, f: Fetched, before: seq<User>)
    requires Covers(before, fs)
    requires Email(f) != "" ==> NameReadable(f)
    ensures Covers(if Email(f) != "" then Upsert(before, f, true) else before, fs + [f])
  {
    var r := if Email(f) != "" then Upsert(before, f, true) else before;
    forall g | g in fs + [f] && Email(g) != "" ensures HasId(r, g.id) {
      if g in fs {
        var i :| 0 <= i < |before| && before[i].azureId == Some(g.id);
        assert r[i].azureId == Some(g.id);
      } else {
        assert r[Find(before, f.id)].azureId == Some(f.id);
      }
    }
  }

  // One more fetched row: the net effect on row i of the new table.
  lemma ReflectsRow(users: seq<User>, fs: seq<Fetched>, f: Fetched, before: seq<User>, i: nat)
    requires UniqueIds(before) && Reflects(users, fs, before) && Covers(before, fs)
    requires Email(f) != "" && NameReadable(f)
    requires i < |Upsert(before, f, true)|
    ensures var r := Upsert(before, f, true);
            && r[i].azureId == (if i < |before| then before[i].azureId else Some(f.id))
            && r[i] == FinalRow(Origin(users, r, i), fs + [f])
            && (i >= |users| ==> Latest(fs + [f], r[i].azureId.value).Some?)
  {
    var r := Upsert(before, f, true);
    if i == |before| {
      if Latest(fs, f.id).Some? {
        assert HasId(before, f.id);
      }
      FinalSnoc(Blank(f.id), fs, f, f.id);
    } else {
      assert before[i] == FinalRow(Origin(users, before, i), fs);
      if before[i].azureId.Some? {
        FinalSnoc(Origin(users, before, i), fs, f, before[i].azureId.value);
      }
    }
  }

  lemma ReflectsOther(users: seq<User>, fs: seq<Fetched>, f: Fetched, before: seq<User>)
    requires Reflects(users, fs, before) && Email(f) == ""
    ensures Reflects(users, fs + [f], before)
  {
    forall i | 0 <= i < |before|
      ensures before[i] == FinalRow(Origin(users, before, i), fs + [f])
      ensures i >= |users| ==> Latest(fs + [f], before[i].azureId.value).Some?
    {
      if before[i].azureId.Some? {
        FinalSnoc(Origin(users, before, i), fs, f, before[i].azureId.value);
      }
    }
  }

  lemma ReflectsSnoc(users: seq<User>, fs: seq<Fetched>, f: Fetched, before: seq<User>)
    requires UniqueIds(before) && Reflects(users, fs, before) && Covers(before, fs)
    requires Email(f) != "" ==> NameReadable(f)
    ensures var r := if Email(f) != "" then Upsert(before, f, true) else before;
            UniqueIds(r) && Reflects(users, fs + [f], r)
  {
    if Email(f) == "" {
      ReflectsOther(users, fs, f, before);
    } else {
      var r := Upsert(before, f, true);
      UpsertKeepsIds(before, f);
      forall i: nat | i < |r|
        ensures r[i] == FinalRow(Origin(users, r, i), fs + [f])
        ensures i >= |users| ==> r[i].azureId.Some? && Latest(fs + [f], r[i].azureId.value).Some?
      {
        ReflectsRow(users, fs, f, before, i);
      }
    }
  }

  // Overwriting row by row gives every row its net effect, adds one row for each
  // fetched id that had none, and touches nothing else.
  lemma {:induction false} UpsertedReflects(users: seq<User>, fs: seq<Fetched>, fails: nat -> bool)
    requires UniqueIds(users) && NoErrors(fs, fails)
    ensures var r := Upserted(users, fs, true, fails);
            UniqueIds(r) && Reflects(users, fs, r) && Covers(r, fs)
  {
    if fs != [] {
      var n := |fs| - 1;
      var front, f := fs[..n], fs[n];
      assert fs == front + [f];
      assert forall i :: 0 <= i < n ==> front[i] == fs[i];
      UpsertedReflects(users, front, fails);
      ReflectsSnoc(users, front, f, Upserted(users, front, true, fails));
      CoversSnoc(front, f, Upserted(users, front, true, fails));
    }
  }

  // ---------- the table after a sync ----------

  // The specified row: the latest fetched data and account status for an id that
  // was fetched with an email, inactive for any other Azure id, untouched without one.
  function SyncedRow(u: User, fs: seq<Fetched>): User {
    Deactivated(FinalRow(u, fs), Seen(fs))
  }

  // Without row errors the overwriting sync yields exactly the specified table.
  lemma SyncYieldsTheSpecifiedTable(users: seq<User>, fs: seq<Fetched>, fails: nat -> bool)
    requires UniqueIds(users) && NoErrors(fs, fails)
    ensures var r := Synced(users, fs, true, fails);
            && UniqueIds(r) && |users| <= |r| && Covers(r, fs)
            && (forall i :: 0 <= i < |users| ==> r[i] == SyncedRow(users[i], fs))
            && (forall i :: |users| <= i < |r| ==>
                  && r[i].azureId.Some? && Latest(fs, r[i].azureId.value).Some?
                  && r[i] == Final(Blank(r[i].azureId.value), fs, r[i].azureId.value))
  {
    UpsertedReflects(users, fs, fails);
    var up := Upserted(users, fs, true, fails);
    var r := Synced(users, fs, true, fails);
    forall i | 0 <= i < |r| ensures r[i].azureId == up[i].azureId {
    }
    forall f | f in fs && Email(f) != "" ensures HasId(r, f.id) {
      var i :| 0 <= i < |up| && up[i].azureId == Some(f.id);
      assert r[i].azureId == Some(f.id);
    }
  }

  // What that means for one row.
  lemma SyncedRowMeaning(u: User, fs: seq<Fetched>, fails: nat -> bool)
    requires NoErrors(fs, fails)
    ensures u.azureId.None? ==> SyncedRow(u, fs) == u
    ensures u.azureId.Some? && u.azureId.value !in Seen(fs) ==> SyncedRow(u, fs) == u.(isActive := false)
    ensures u.azureId.Some? && u.azureId.value in Seen(fs) ==>
              exists k :: 0 <= k < |fs| && Concerns(fs[k], u.azureId.value)
                          && (forall j :: k < j < |fs| ==> !Concerns(fs[j], u.azureId.value))
                          && SyncedRow(u, fs).isActive == fs[k].enabled && SyncedRow(u, fs).email == Email(fs[k])
  {
    if u.azureId.Some? {
      var k := LatestIsLast(fs, u.azureId.value);
      if u.azureId.value in Seen(fs) {
        var f :| f in fs && Email(f) != "" && f.id == u.azureId.value;
        var i :| 0 <= i < |fs| && fs[i] == f;
        assert Applies(fs[i], fails(i)) && Concerns(fs[i], u.azureId.value);
        assert Concerns(fs[k], u.azureId.value);
      }
    }
  }

  // `k` is the position of the latest fetched user with this id.
  lemma {:induction false} LatestIsLast(fs: seq<Fetched>, azureId: string) returns (k: nat)
    ensures Latest(fs, azureId).None? ==> forall j :: 0 <= j < |fs| ==> !Concerns(fs[j], azureId)
    ensures Latest(fs, azureId).Some? ==>
              && k < |fs| && fs[k] == Latest(fs, azureId).value && Concerns(fs[k], azureId)
              && forall j :: k < j < |fs| ==> !Concerns(fs[j], azureId)
  {
    k := 0;
    if fs != [] {
      var n := |fs| - 1;
      if Concerns(fs[n], azureId) {
        k := n;
      } else {
        k := LatestIsLast(fs[..n], azureId);
        assert forall j :: 0 <= j < n ==> fs[..n][j] == fs[j];
      }
    }
  }

  // A second identical sync changes nothing.
  lemma SecondSyncChangesNothing(users: seq<User>, fs: seq<Fetched>, fails: nat -> bool, later: nat -> bool)
    requires UniqueIds(users) && NoErrors(fs, fails) && NoErrors(fs, later)
    ensures var once := Synced(users, fs, true, fails);
            Synced(once, fs, true, later) == once
  {
    var once := Synced(users, fs, true, fails);
    SyncYieldsTheSpecifiedTable(users, fs, fails);
    SyncYieldsTheSpecifiedTable(once, fs, later);
    var twice := Synced(once, fs, true, later);
    NoNewIds(once, fs, later);
    forall i | 0 <= i < |once| ensures twice[i] == once[i] {
      SyncedRowTwice(if i < |users| then users[i] else Blank(once[i].azureId.value), fs);
    }
  }

  lemma SyncedRowTwice(u: User, fs: seq<Fetched>)
    ensures SyncedRow(SyncedRow(u, fs), fs) == SyncedRow(u, fs)
  {
  }

  // A covered table gets no new rows.
  lemma {:induction false} NoNewIds(users: seq<User>, fs: seq<Fetched>, fails: nat -> bool)
    requires Covers(users, fs)
    ensures var r := Upserted(users, fs, true, fails);
            |r| == |users| && forall i :: 0 <= i < |r| ==> r[i].azureId == users[i].azureId
  {
    if fs != [] {
      var n := |fs| - 1;
      var front, f := fs[..n], fs[n];
      assert fs == front + [f];
      NoNewIds(users, front, fails);
      var before := Upserted(users, front, true, fails);
      if Email(f) != "" {
        var i :| 0 <= i < |users| && users[i].azureId == Some(f.id);
        assert before[i].azureId == Some(f.id);
      }
    }
  }

  // Without the overwrite option no existing row changes.
  lemma {:induction false} WithoutOverwriteRowsStay(users: seq<User>, fs: seq<Fetched>, fails: nat -> bool)
    ensures users <= Synced(users, fs, false, fails)
  {
    if fs != [] {
      WithoutOverwriteRowsStay(users, fs[..|fs| - 1], fails);
    }
  }

  // ---------- in terms of the fetched fields, whatever rows fail ----------

  predicate Reachable(f: Fetched) {
    f.mail != "" || f.principalName != ""
  }

  // A row that takes effect: it has an address, its name can be read, and the
  // database does not fail.
  predicate Works(f: Fetched, fails: bool) {
    Reachable(f) && !(f.givenName == "" && f.displayWords == Some([])) && !fails
  }

  ghost predicate WorksFor(fs: seq<Fetched>, fails: nat -> bool, azureId: string, k: nat) {
    k < |fs| && fs[k].id == azureId && Works(fs[k], fails(k))
  }

  ghost predicate FirstFor(fs: seq<Fetched>, fails: nat -> bool, azureId: string, k: nat) {
    WorksFor(fs, fails, azureId, k) && forall j: nat :: j < k ==> !WorksFor(fs, fails, azureId, j)
  }

  ghost predicate LastFor(fs: seq<Fetched>, fails: nat -> bool, azureId: string, k: nat) {
    WorksFor(fs, fails, azureId, k) && forall j: nat :: k < j ==> !WorksFor(fs, fails, azureId, j)
  }

  // The mail address, or else the principal name, with its part before the first
  // @ sign as the username; and whether the account is enabled.
  predicate AccountIs(u: User, f: Fetched) {
    && (f.mail != "" ==> u.email == f.mail) && (f.mail == "" ==> u.email == f.principalName)
    && u.username <= u.email && '@' !in u.username
    && (u.username == u.email || u.email[|u.username|] == '@')
    && u.isActive == f.enabled
  }

  // With a display name, the given name or else its first word.
  predicate FirstNameIs(f: Fetched, name: string) {
    match f.displayWords
    case None => name == ""
    case Some(words) => if f.givenName != "" then name == f.givenName else words != [] && name == words[0]
  }

  // The surname, or else the other words of the display name.
  predicate LastNameIs(f: Fetched, name: string) {
    if f.surname != "" then name == f.surname
    else
      match f.displayWords
      case None => name == ""
      case Some(words) => if |words| > 1 then name == JoinWords(words[1..]) else name == ""
  }

  // The words of a text are what single blanks separate.
  function SplitBlanks(s: string): (r: seq<string>)
    ensures r != []
  {
    if s == "" then [""]
    else
      var rest := SplitBlanks(s[1..]);
      if s[0] == ' ' then [""] + rest else [[s[0]] + rest[0]] + rest[1..]
  }

  lemma {:induction false} SplitAtBlank(w: string, s: string)
    requires ' ' !in w
    ensures SplitBlanks(w) == [w]
    ensures SplitBlanks(w + " " + s) == [w] + SplitBlanks(s)
  {
    if w == "" {
      assert (w + " " + s)[1..] == s;
    } else {
      SplitAtBlank(w[1..], s);
      assert (w + " " + s)[1..] == w[1..] + " " + s;
      assert [w[0]] + w[1..] == w;
    }
  }

  // Joined words can be read back.
  lemma {:induction false} JoinedWordsSplit(ws: seq<string>)
    requires ws != [] && forall w :: w in ws ==> ' ' !in w
    ensures SplitBlanks(JoinWords(ws)) == ws
  {
    if |ws| > 1 {
      JoinedWordsSplit(ws[1..]);
    }
    SplitAtBlank(ws[0], JoinWords(ws[1..]));
  }

  lemma WorksIffApplies(f: Fetched, fails: bool)
    ensures Works(f, fails) <==> Applies(f, fails)
    ensures Reachable(f) <==> Email(f) != ""
  {
  }

  // What a row that takes effect makes of a user's row.
  lemma OverwrittenMeaning(u: User, f: Fetched)
    requires NameReadable(f)
    ensures Overwritten(u, f).azureId == u.azureId && AccountIs(Overwritten(u, f), f)
    ensures FirstNameIs(f, FirstName(f)) && LastNameIs(f, LastName(f))
  {
  }

  lemma SomeFirstFor(fs: seq<Fetched>, fails: nat -> bool, azureId: string, k: nat) returns (first: nat)
    requires WorksFor(fs, fails, azureId, k)
    ensures FirstFor(fs, fails, azureId, first) && first <= k
  {
    first := 0;
    while !WorksFor(fs, fails, azureId, first)
      decreases k - first
      invariant first <= k && forall j: nat :: j < first ==> !WorksFor(fs, fails, azureId, j)
    {
      first := first + 1;
    }
  }

  // ---------- without the overwrite option ----------

  predicate Made(u: User, f: Fetched) {
    u.azureId == Some(f.id) && AccountIs(u, f) && FirstNameIs(f, u.first) && LastNameIs(f, u.last)
  }

  // The row that makes an unknown user: the first of its id that takes effect.
  ghost predicate Introduces(users: seq<User>, fs: seq<Fetched>, fails: nat -> bool, k: nat) {
    k < |fs| && FirstFor(fs, fails, fs[k].id, k) && forall i :: 0 <= i < |users| ==> users[i].azureId != Some(fs[k].id)
  }

  // The table `r` is the old one and a row for each introduction, in order.
  ghost predicate Appended(users: seq<User>, fs: seq<Fetched>, fails: nat -> bool, r: seq<User>, at: seq<nat>) {
    && |r| == |users| + |at| && users == r[..|users|]
    && (forall i :: 0 <= i < |at| ==> at[i] < |fs| && Made(r[|users| + i], fs[at[i]]))
    && (forall i, j :: 0 <= i < j < |at| ==> at[i] < at[j])
    && (forall k: nat :: k in at <==> Introduces(users, fs, fails, k))
  }

  lemma FrontIntroduces(users: seq<User>, fs: seq<Fetched>, f: Fetched, fails: nat -> bool)
    ensures forall k: nat :: k < |fs| ==> (Introduces(users, fs, fails, k) <==> Introduces(users, fs + [f], fails, k))
  {
    assert (fs + [f])[..|fs|] == fs;
    forall k: nat | k < |fs| ensures Introduces(users, fs, fails, k) <==> Introduces(users, fs + [f], fails, k) {
      FrontFirstFor(fs + [f], fails, k);
    }
  }

  // An id has a row exactly when it was known or took effect before.
  lemma HasRowIff(users: seq<User>, fs: seq<Fetched>, fails: nat -> bool, r: seq<User>, at: seq<nat>, azureId: string)
    requires Appended(users, fs, fails, r, at)
    ensures Find(r, azureId) < |r| <==>
            || (exists i :: 0 <= i < |users| && users[i].azureId == Some(azureId))
            || exists k: nat :: WorksFor(fs, fails, azureId, k)
  {
    if k: nat :| WorksFor(fs, fails, azureId, k) {
      var first := SomeFirstFor(fs, fails, azureId, k);
      AppendedIfUnknown(users, fs, fails, at, r, first);
    }
    if i :| 0 <= i < |users| && users[i].azureId == Some(azureId) {
      assert r[i].azureId == Some(azureId);
    }
    var i := Find(r, azureId);
    if |users| <= i < |r| {
      assert Made(r[|users| + (i - |users|)], fs[at[i - |users|]]);
      assert Introduces(users, fs, fails, at[i - |users|]);
    }
  }

  // One more row that introduces its id ...
  lemma AppendedOne(users: seq<User>, fs: seq<Fetched>, f: Fetched, fails: nat -> bool, before: seq<User>,
                    at: seq<nat>, u: User)
    requires Appended(users, fs, fails, before, at) && Introduces(users, fs + [f], fails, |fs|) && Made(u, f)
    ensures Appended(users, fs + [f], fails, before + [u], at + [|fs|])
  {
    var all, r, more := fs + [f], before + [u], at + [|fs|];
    FrontIntroduces(users, fs, f, fails);
    forall i | 0 <= i < |more| ensures more[i] < |all| && Made(r[|users| + i], all[more[i]]) {
      if i < |at| {
        assert Made(before[|users| + i], fs[at[i]]);
      }
    }
    forall k: nat ensures k in more <==> Introduces(users, all, fails, k) {
      assert k in more <==> k in at || k == |fs|;
      assert k in at <==> Introduces(users, fs, fails, k);
    }
  }

  // ... or does not.
  lemma AppendedNone(users: seq<User>, fs: seq<Fetched>, f: Fetched, fails: nat -> bool, before: seq<User>,
                     at: seq<nat>)
    requires Appended(users, fs, fails, before, at) && !Introduces(users, fs + [f], fails, |fs|)
    ensures Appended(users, fs + [f], fails, before, at)
  {
    var all := fs + [f];
    FrontIntroduces(users, fs, f, fails);
    forall i | 0 <= i < |at| ensures at[i] < |all| && Made(before[|users| + i], all[at[i]]) {
      assert Made(before[|users| + i], fs[at[i]]);
    }
    forall k: nat ensures k in at <==> Introduces(users, all, fails, k) {
      assert k in at <==> Introduces(users, fs, fails, k);
    }
  }

  lemma IntroducesIff(users: seq<User>, fs: seq<Fetched>, f: Fetched, fails: nat -> bool, before: seq<User>,
                      at: seq<nat>)
    requires Appended(users, fs, fails, before, at)
    ensures Introduces(users, fs + [f], fails, |fs|) <==> Applies(f, fails(|fs|)) && Find(before, f.id) == |before|
  {
    HasRowIff(users, fs, fails, before, at, f.id);
    WorksIffApplies(f, fails(|fs|));
    WorksForSnoc(fs, f, fails, f.id);
  }

  // A sync without overwriting leaves the table as it is and appends one row for
  // each unknown id, in the order fetched, made of the first row of that id that
  // takes effect.
  lemma {:induction false} UnknownUsersAreAppended(users: seq<User>, fs: seq<Fetched>, fails: nat -> bool)
    returns (at: seq<nat>)
    ensures Appended(users, fs, fails, Synced(users, fs, false, fails), at)
  {
    at := [];
    if fs != [] {
      var n: nat := |fs| - 1;
      var front, f := fs[..n], fs[n];
      at := UnknownUsersAreAppended(users, front, fails);
      var before := Upserted(users, front, false, fails);
      IntroducesIff(users, front, f, fails, before, at);
      assert fs == front + [f];
      if Applies(f, fails(n)) && Find(before, f.id) == |before| {
        OverwrittenMeaning(Blank(f.id), f);
        AppendedOne(users, front, f, fails, before, at, Overwritten(Blank(f.id), f));
        at := at + [n];
      } else {
        AppendedNone(users, front, f, fails, before, at);
      }
    }
  }

  // So no id gets a second row.
  lemma NoSecondRow(users: seq<User>, fs: seq<Fetched>, fails: nat -> bool)
    requires UniqueIds(users)
    ensures UniqueIds(Synced(users, fs, false, fails))
    ensures forall k: nat :: k < |fs| && Works(fs[k], fails(k)) ==> HasId(Synced(users, fs, false, fails), fs[k].id)
  {
    var at := UnknownUsersAreAppended(users, fs, fails);
    var r := Synced(users, fs, false, fails);
    forall i, j | 0 <= i < j < |r| && r[i].azureId.Some? ensures r[i].azureId != r[j].azureId {
      if j >= |users| {
        assert Made(r[|users| + (j - |users|)], fs[at[j - |users|]]) && Introduces(users, fs, fails, at[j - |users|]);
        if i >= |users| {
          assert Made(r[|users| + (i - |users|)], fs[at[i - |users|]]) && Introduces(users, fs, fails, at[i - |users|]);
        }
      }
    }
    forall k: nat | k < |fs| && Works(fs[k], fails(k)) ensures HasId(r, fs[k].id) {
      assert WorksFor(fs, fails, fs[k].id, k);
      HasRowIff(users, fs, fails, r, at, fs[k].id);
    }
  }

  lemma FrontFirstFor(fs: seq<Fetched>, fails: nat -> bool, k: nat)
    requires k < |fs| - 1
    ensures FirstFor(fs[..|fs| - 1], fails, fs[k].id, k) <==> FirstFor(fs, fails, fs[k].id, k)
  {
    var front, azureId := fs[..|fs| - 1], fs[k].id;
    assert forall j: nat :: j <= k ==> (WorksFor(front, fails, azureId, j) <==> WorksFor(fs, fails, azureId, j)) by {
      forall j: nat | j <= k ensures WorksFor(front, fails, azureId, j) <==> WorksFor(fs, fails, azureId, j) {
        assert front[j] == fs[j];
      }
    }
  }

  lemma AppendedIfUnknown(users: seq<User>, fs: seq<Fetched>, fails: nat -> bool, at: seq<nat>, before: seq<User>,
                          k: nat)
    requires k < |fs| && FirstFor(fs, fails, fs[k].id, k) && (Introduces(users, fs, fails, k) ==> k in at)
    requires |before| == |users| + |at| && users == before[..|users|]
    requires forall i :: 0 <= i < |at| ==> at[i] < |fs| && Made(before[|users| + i], fs[at[i]])
    ensures exists i :: 0 <= i < |before| && before[i].azureId == Some(fs[k].id)
  {
    if Introduces(users, fs, fails, k) {
      var i :| 0 <= i < |at| && at[i] == k;
      assert before[|users| + i].azureId == Some(fs[k].id);
    } else {
      var i :| 0 <= i < |users| && users[i].azureId == Some(fs[k].id);
      assert before[i].azureId == Some(fs[k].id);
    }
  }

  // ---------- with the overwrite option, whatever rows fail ----------

  // The name kept for an id: the last one that is not empty, or the old one.
  ghost predicate NameKept(fs: seq<Fetched>, fails: nat -> bool, azureId: string, says: (Fetched, string) -> bool,
                           was: string, name: string)
  {
    || (name == was && forall j: nat :: WorksFor(fs, fails, azureId, j) ==> says(fs[j], ""))
    || (name != "" && exists k: nat ::
          && WorksFor(fs, fails, azureId, k) && says(fs[k], name)
          && forall j: nat :: k < j && WorksFor(fs, fails, azureId, j) ==> says(fs[j], ""))
  }

  lemma WorksForSnoc(fs: seq<Fetched>, f: Fetched, fails: nat -> bool, azureId: string)
    ensures forall j: nat :: WorksFor(fs + [f], fails, azureId, j) <==>
              if j == |fs| then f.id == azureId && Works(f, fails(j)) else WorksFor(fs, fails, azureId, j)
  {
  }

  lemma NameKeptSnoc(fs: seq<Fetched>, f: Fetched, fails: nat -> bool, azureId: string,
                     says: (Fetched, string) -> bool, was: string, before: string, given: string)
    requires NameKept(fs, fails, azureId, says, was, before) && says(f, given)
    ensures var name := if f.id == azureId && Works(f, fails(|fs|)) then Or(given, before) else before;
            NameKept(fs + [f], fails, azureId, says, was, name)
  {
    WorksForSnoc(fs, f, fails, azureId);
    var all := fs + [f];
    if f.id == azureId && Works(f, fails(|fs|)) && given != "" {
      assert WorksFor(all, fails, azureId, |fs|) && says(all[|fs|], given);
    } else if k: nat :| before != "" && WorksFor(fs, fails, azureId, k) && says(fs[k], before)
                        && forall j: nat :: k < j && WorksFor(fs, fails, azureId, j) ==> says(fs[j], "") {
      assert WorksFor(all, fails, azureId, k) && says(all[k], before);
    }
  }

  // A user's row when the first rows were fetched: as it was, or with the account
  // of the last row that took effect, and the names kept.
  ghost predicate Follows(was: User, fs: seq<Fetched>, fails: nat -> bool, azureId: string, u: User) {
    && u.azureId == was.azureId
    && ((forall j: nat :: !WorksFor(fs, fails, azureId, j)) ==> u == was)
    && (forall k: nat :: LastFor(fs, fails, azureId, k) ==> AccountIs(u, fs[k]))
    && NameKept(fs, fails, azureId, FirstNameIs, was.first, u.first)
    && NameKept(fs, fails, azureId, LastNameIs, was.last, u.last)
  }

  lemma FollowsSnoc(was: User, fs: seq<Fetched>, f: Fetched, fails: nat -> bool, azureId: string, u: User)
    requires Follows(was, fs, fails, azureId, u)
    requires f.id == azureId && Works(f, fails(|fs|))
    ensures Follows(was, fs + [f], fails, azureId, Overwritten(u, f))
  {
    OverwrittenMeaning(u, f);
    WorksForSnoc(fs, f, fails, azureId);
    NameKeptSnoc(fs, f, fails, azureId, FirstNameIs, was.first, u.first, FirstName(f));
    NameKeptSnoc(fs, f, fails, azureId, LastNameIs, was.last, u.last, LastName(f));
    assert WorksFor(fs + [f], fails, azureId, |fs|);
    forall k: nat | LastFor(fs + [f], fails, azureId, k) ensures k == |fs| {
    }
  }

  lemma FollowsOther(was: User, fs: seq<Fetched>, f: Fetched, fails: nat -> bool, azureId: string, u: User)
    requires Follows(was, fs, fails, azureId, u)
    requires f.id != azureId || !Works(f, fails(|fs|))
    ensures Follows(was, fs + [f], fails, azureId, u)
  {
    WorksForSnoc(fs, f, fails, azureId);
    forall j: nat ensures WorksFor(fs + [f], fails, azureId, j) <==> WorksFor(fs, fails, azureId, j) {
    }
    forall k: nat | LastFor(fs + [f], fails, azureId, k)
      ensures LastFor(fs, fails, azureId, k) && fs[k] == (fs + [f])[k]
    {
    }
    assert NameKept(fs + [f], fails, azureId, FirstNameIs, was.first, u.first) by {
      NameKeptOther(fs, f, fails, azureId, FirstNameIs, was.first, u.first);
    }
    assert NameKept(fs + [f], fails, azureId, LastNameIs, was.last, u.last) by {
      NameKeptOther(fs, f, fails, azureId, LastNameIs, was.last, u.last);
    }
  }

  lemma NameKeptOther(fs: seq<Fetched>, f: Fetched, fails: nat -> bool, azureId: string,
                      says: (Fetched, string) -> bool, was: string, name: string)
    requires NameKept(fs, fails, azureId, says, was, name)
    requires f.id != azureId || !Works(f, fails(|fs|))
    ensures NameKept(fs + [f], fails, azureId, says, was, name)
  {
    WorksForSnoc(fs, f, fails, azureId);
    if k: nat :| name != "" && WorksFor(fs, fails, azureId, k) && says(fs[k], name)
                 && forall j: nat :: k < j && WorksFor(fs, fails, azureId, j) ==> says(fs[j], "") {
      assert WorksFor(fs + [f], fails, azureId, k) && says((fs + [f])[k], name);
    }
  }

  // Every row of the table follows what was fetched for its id, new rows from
  // nothing, and every id that took effect has its row.
  ghost predicate AllFollow(users: seq<User>, fs: seq<Fetched>, fails: nat -> bool, r: seq<User>) {
    && |users| <= |r|
    && (forall i :: 0 <= i < |users| && users[i].azureId.None? ==> r[i] == users[i])
    && (forall i :: |users| <= i < |r| ==>
          r[i].azureId.Some? && exists k: nat :: WorksFor(fs, fails, r[i].azureId.value, k))
    && (forall i {:trigger r[i]} :: 0 <= i < |r| && r[i].azureId.Some? ==>
          Follows(Origin(users, r, i), fs, fails, r[i].azureId.value, r[i]))
    && (forall k: nat :: k < |fs| && Works(fs[k], fails(k)) ==> HasId(r, fs[k].id))
  }

  // One more fetched row: row i of the new table follows.
  lemma FollowsRow(users: seq<User>, fs: seq<Fetched>, f: Fetched, fails: nat -> bool, before: seq<User>, r: seq<User>,
                   i: nat)
    requires UniqueIds(before) && AllFollow(users, fs, fails, before)
    requires r == if Applies(f, fails(|fs|)) then Upsert(before, f, true) else before
    requires i < |r| && r[i].azureId.Some?
    ensures Follows(Origin(users, r, i), fs + [f], fails, r[i].azureId.value, r[i])
  {
    var azureId := r[i].azureId.value;
    WorksIffApplies(f, fails(|fs|));
    if i == |before| {
      forall j: nat ensures !WorksFor(fs, fails, azureId, j) {
        assert WorksFor(fs, fails, azureId, j) ==> HasId(before, fs[j].id);
      }
      FollowsSnoc(Blank(f.id), fs, f, fails, azureId, Blank(f.id));
    } else {
      assert before[i].azureId == Some(azureId) && Origin(users, before, i) == Origin(users, r, i);
      if azureId == f.id && Works(f, fails(|fs|)) {
        FollowsSnoc(Origin(users, before, i), fs, f, fails, azureId, before[i]);
      } else {
        FollowsOther(Origin(users, before, i), fs, f, fails, azureId, before[i]);
      }
    }
  }

  lemma UpsertKeepsIds(before: seq<User>, f: Fetched)
    requires NameReadable(f) && UniqueIds(before)
    ensures var r := Upsert(before, f, true);
            && UniqueIds(r) && |before| <= |r| && HasId(r, f.id)
            && (forall i :: 0 <= i < |before| ==> r[i].azureId == before[i].azureId)
            && (forall i :: 0 <= i < |before| && before[i].azureId != Some(f.id) ==> r[i] == before[i])
            && (forall i :: |before| <= i < |r| ==> r[i].azureId == Some(f.id))
  {
    var r := Upsert(before, f, true);
    assert r[Find(before, f.id)].azureId == Some(f.id);
  }

  // The table after one more fetched row.
  function Next(before: seq<User>, f: Fetched, fails: bool): seq<User> {
    if Applies(f, fails) then Upsert(before, f, true) else before
  }

  lemma NewRowsWork(users: seq<User>, fs: seq<Fetched>, f: Fetched, fails: nat -> bool, before: seq<User>, i: nat)
    requires UniqueIds(before) && AllFollow(users, fs, fails, before)
    requires |users| <= i < |Next(before, f, fails(|fs|))|
    ensures var r := Next(before, f, fails(|fs|));
            r[i].azureId.Some? && exists k: nat :: WorksFor(fs + [f], fails, r[i].azureId.value, k)
  {
    var r := Next(before, f, fails(|fs|));
    WorksIffApplies(f, fails(|fs|));
    if i < |before| {
      var k: nat :| WorksFor(fs, fails, before[i].azureId.value, k);
      assert WorksFor(fs + [f], fails, before[i].azureId.value, k);
      if Applies(f, fails(|fs|)) {
        UpsertKeepsIds(before, f);
      }
    } else {
      UpsertKeepsIds(before, f);
      assert WorksFor(fs + [f], fails, f.id, |fs|);
    }
  }

  lemma WorkingRowsHaveUsers(users: seq<User>, fs: seq<Fetched>, f: Fetched, fails: nat -> bool, before: seq<User>,
                             k: nat)
    requires UniqueIds(before) && AllFollow(users, fs, fails, before)
    requires k <= |fs| && Works((fs + [f])[k], fails(k))
    ensures HasId(Next(before, f, fails(|fs|)), (fs + [f])[k].id)
  {
    var r := Next(before, f, fails(|fs|));
    WorksIffApplies(f, fails(|fs|));
    if Applies(f, fails(|fs|)) {
      UpsertKeepsIds(before, f);
    }
    if k < |fs| {
      assert HasId(before, fs[k].id);
      var i :| 0 <= i < |before| && before[i].azureId == Some(fs[k].id);
      assert r[i].azureId == Some(fs[k].id);
    }
  }

  lemma AllFollowSnoc(users: seq<User>, fs: seq<Fetched>, f: Fetched, fails: nat -> bool, before: seq<User>)
    requires UniqueIds(before) && AllFollow(users, fs, fails, before)
    ensures var r := Next(before, f, fails(|fs|)); UniqueIds(r) && AllFollow(users, fs + [f], fails, r)
  {
    var r := Next(before, f, fails(|fs|));
    if Applies(f, fails(|fs|)) {
      UpsertKeepsIds(before, f);
    }
    forall i: nat | |users| <= i < |r|
      ensures r[i].azureId.Some? && exists k: nat :: WorksFor(fs + [f], fails, r[i].azureId.value, k)
    {
      NewRowsWork(users, fs, f, fails, before, i);
    }
    forall i: nat | i < |r| && r[i].azureId.Some?
      ensures Follows(Origin(users, r, i), fs + [f], fails, r[i].azureId.value, r[i])
    {
      FollowsRow(users, fs, f, fails, before, r, i);
    }
    forall k: nat | k < |fs + [f]| && Works((fs + [f])[k], fails(k)) ensures HasId(r, (fs + [f])[k].id) {
      WorkingRowsHaveUsers(users, fs, f, fails, before, k);
    }
  }

  lemma {:induction false} UpsertedFollows(users: seq<User>, fs: seq<Fetched>, fails: nat -> bool)
    requires UniqueIds(users)
    ensures var r := Upserted(users, fs, true, fails); UniqueIds(r) && AllFollow(users, fs, fails, r)
  {
    if fs == [] {
      forall i: nat | i < |users| && users[i].azureId.Some?
        ensures Follows(Origin(users, users, i), fs, fails, users[i].azureId.value, users[i])
      {
      }
    } else {
      var n := |fs| - 1;
      UpsertedFollows(users, fs[..n], fails);
      AllFollowSnoc(users, fs[..n], fs[n], fails, Upserted(users, fs[..n], true, fails));
      assert fs == fs[..n] + [fs[n]];
    }
  }

  lemma {:induction false} UpsertedKeepsIds(users: seq<User>, fs: seq<Fetched>, fails: nat -> bool)
    ensures var r := Upserted(users, fs, true, fails);
            |users| <= |r| && forall i :: 0 <= i < |users| ==> r[i].azureId == users[i].azureId
  {
    if fs != [] {
      UpsertedKeepsIds(users, fs[..|fs| - 1], fails);
    }
  }

  // After an overwriting sync, whatever rows failed: a user without an Azure id is
  // untouched; one whose id was not fetched with an address is inactive; one whose
  // rows all failed stays; any other has the account of the last row of its id
  // that took effect, and the last names told for it that were not empty.
  lemma SyncedRowInFetchedTerms(users: seq<User>, fs: seq<Fetched>, fails: nat -> bool, i: nat, azureId: string)
    requires UniqueIds(users) && i < |users| && users[i].azureId == Some(azureId)
    ensures var r := Synced(users, fs, true, fails);
            && i < |r| && r[i].azureId == Some(azureId)
            && ((forall j :: 0 <= j < |fs| && fs[j].id == azureId ==> fs[j].mail == "" && fs[j].principalName == "") ==>
                  r[i] == users[i].(isActive := false))
            && ((exists j :: 0 <= j < |fs| && fs[j].id == azureId && Reachable(fs[j])) ==>
                  (forall j: nat :: !WorksFor(fs, fails, azureId, j)) ==> r[i] == users[i])
            && (forall k: nat :: LastFor(fs, fails, azureId, k) ==> AccountIs(r[i], fs[k]))
            && NameKept(fs, fails, azureId, FirstNameIs, users[i].first, r[i].first)
            && NameKept(fs, fails, azureId, LastNameIs, users[i].last, r[i].last)
  {
    UpsertedFollows(users, fs, fails);
    UpsertedKeepsIds(users, fs, fails);
    var up := Upserted(users, fs, true, fails);
    assert Origin(users, up, i) == users[i] && Follows(users[i], fs, fails, azureId, up[i]);
    if azureId in Seen(fs) {
      var f :| f in fs && Email(f) != "" && f.id == azureId;
      var j :| 0 <= j < |fs| && fs[j] == f;
      assert fs[j].id == azureId && Reachable(fs[j]);
    } else {
      forall j | 0 <= j < |fs| && fs[j].id == azureId ensures !Reachable(fs[j]) {
        assert fs[j] in fs;
      }
    }
  }

  // Its new rows, and no second row for any id.
  lemma SyncedNewRowsInFetchedTerms(users: seq<User>, fs: seq<Fetched>, fails: nat -> bool)
    requires UniqueIds(users)
    ensures var r := Synced(users, fs, true, fails);
            && |users| <= |r| && UniqueIds(r)
            && (forall i :: 0 <= i < |users| && users[i].azureId.None? ==> r[i] == users[i])
            && (forall i :: |users| <= i < |r| ==>
                  && r[i].azureId.Some?
                  && (exists k: nat :: LastFor(fs, fails, r[i].azureId.value, k) && AccountIs(r[i], fs[k]))
                  && NameKept(fs, fails, r[i].azureId.value, FirstNameIs, "", r[i].first)
                  && NameKept(fs, fails, r[i].azureId.value, LastNameIs, "", r[i].last))
            && (forall k: nat :: k < |fs| && Works(fs[k], fails(k)) ==>
                  exists i :: 0 <= i < |r| && r[i].azureId == Some(fs[k].id))
  {
    UpsertedFollows(users, fs, fails);
    var up, r := Upserted(users, fs, true, fails), Synced(users, fs, true, fails);
    forall i | 0 <= i < |r| ensures r[i].azureId == up[i].azureId {
    }
    forall i | |users| <= i < |r|
      ensures r[i] == up[i] && Follows(Blank(r[i].azureId.value), fs, fails, r[i].azureId.value, r[i])
      ensures exists k: nat :: LastFor(fs, fails, r[i].azureId.value, k)
    {
      var azureId := up[i].azureId.value;
      var k: nat :| WorksFor(fs, fails, azureId, k);
      assert fs[k] in fs && Email(fs[k]) != "";
      assert azureId in Seen(fs);
      assert Follows(Origin(users, up, i), fs, fails, azureId, up[i]);
      var last := SomeLastFor(fs, fails, azureId, k);
    }
    forall k: nat | k < |fs| && Works(fs[k], fails(k))
      ensures exists i :: 0 <= i < |r| && r[i].azureId == Some(fs[k].id)
    {
      assert HasId(up, fs[k].id);
      var i :| 0 <= i < |up| && up[i].azureId == Some(fs[k].id);
      assert r[i].azureId == Some(fs[k].id);
    }
  }

  lemma {:induction false} SomeLastFor(fs: seq<Fetched>, fails: nat -> bool, azureId: string, k: nat)
    returns (last: nat)
    requires WorksFor(fs, fails, azureId, k)
    ensures LastFor(fs, fails, azureId, last)
    decreases |fs| - k
  {
    if j: nat :| k < j && WorksFor(fs, fails, azureId, j) {
      last := SomeLastFor(fs, fails, azureId, j);
    } else {
      last := k;
    }
  }

  // ---------- accounting ----------

  // How many of the first n rows have no email or an error.
  function Failures(fs: seq<Fetched>, fails: nat -> bool, n: nat): nat
    requires n <= |fs|
  {
    if n == 0 then 0 else Failures(fs, fails, n - 1) + if Applies(fs[n - 1], fails(n - 1)) then 0 else 1
  }

  // The rows among the first n that take no effect.
  function Failing(fs: seq<Fetched>, fails: nat -> bool, n: nat): set<nat>
    requires n <= |fs|
  {
    set k: nat | k < n && !Works(fs[k], fails(k))
  }

  lemma FailingMore(fs: seq<Fetched>, fails: nat -> bool, k: nat)
    requires k < |fs|
    ensures |Failing(fs, fails, k + 1)| == |Failing(fs, fails, k)| + if Works(fs[k], fails(k)) then 0 else 1
  {
    if Works(fs[k], fails(k)) {
      assert Failing(fs, fails, k + 1) == Failing(fs, fails, k);
    } else {
      assert Failing(fs, fails, k + 1) == Failing(fs, fails, k) + {k};
      assert k !in Failing(fs, fails, k);
    }
  }

  lemma {:induction false} FailuresCount(fs: seq<Fetched>, fails: nat -> bool, n: nat)
    requires n <= |fs|
    ensures Failures(fs, fails, n) == |Failing(fs, fails, n)|
  {
    if n == 0 {
      assert Failing(fs, fails, 0) == {};
    } else {
      FailuresCount(fs, fails, n - 1);
      FailingMore(fs, fails, n - 1);
      WorksIffApplies(fs[n - 1], fails(n - 1));
    }
  }

  // ---------- the endpoint ----------

  class Directory {
    var users: seq<User>

    constructor (users: seq<User>)
      ensures this.users == users
    {
      this.users := users;
    }

    // The loop over the fetched users.
    method UpsertAll(fs: seq<Fetched>, overwrite: bool, fails: nat -> bool)
      returns (seen: set<string>, successful: nat, failed: nat)
      modifies this
      ensures users == Upserted(old(users), fs, overwrite, fails) && seen == Seen(fs)
      ensures successful + failed == |fs|
      ensures failed == Failures(fs, fails, |fs|)
    {
      successful, failed, seen := 0, 0, {};
      for i := 0 to |fs|
        invariant users == Upserted(old(users), fs[..i], overwrite, fails)
        invariant seen == Seen(fs[..i])
        invariant successful + failed == i
        invariant failed == Failures(fs, fails, i)
      {
        SeenSnoc(fs, i);
        UpsertedSnoc(old(users), fs, i, overwrite, fails);
        var f := fs[i];
        if Email(f) == "" {
          failed := failed + 1;
        } else {
          seen := seen + {f.id};
          if !NameReadable(f) || fails(i) {
            failed := failed + 1;
          } else {
            users := Upsert(users, f, overwrite);
            successful := successful + 1;
          }
        }
      }
      assert fs[..|fs|] == fs;
    }

    method DeactivateUnseen(seen: set<string>)
      modifies this
      ensures users == DeactivateAll(old(users), seen)
    {
      for k := 0 to |users|
        invariant |users| == |old(users)|
        invariant forall j :: 0 <= j < k ==> users[j] == Deactivated(old(users)[j], seen)
        invariant forall j :: k <= j < |users| ==> users[j] == old(users)[j]
      {
        if users[k].azureId.Some? && users[k].azureId.value !in seen && users[k].isActive {
          users := users[k := users[k].(isActive := false)];
        }
      }
    }

    method Sync(fs: seq<Fetched>, overwrite: bool, fails: nat -> bool) returns (successful: nat, failed: nat)
      modifies this
      ensures users == Synced(old(users), fs, overwrite, fails)
      ensures successful + failed == |fs|
      ensures failed == |Failing(fs, fails, |fs|)|
      ensures !overwrite ==> exists at :: Appended(old(users), fs, fails, users, at)
    {
      FailuresCount(fs, fails, |fs|);
      if !overwrite {
        ghost var at := UnknownUsersAreAppended(users, fs, fails);
      }
      var seen;
      seen, successful, failed := UpsertAll(fs, overwrite, fails);
      if overwrite {
        DeactivateUnseen(seen);
      }
    }
  }

  lemma UpsertedSnoc(users: seq<User>, fs: seq<Fetched>, i: nat, overwrite: bool, fails: nat -> bool)
    requires i < |fs|
    ensures var before := Upserted(users, fs[..i], overwrite, fails);
            Upserted(users, fs[..i + 1], overwrite, fails) ==
            if Applies(fs[i], fails(i)) then Upsert(before, fs[i], overwrite) else before
  {
    assert fs[..i + 1][..i] == fs[..i];
  }

  lemma SeenSnoc(fs: seq<Fetched>, i: nat)
    requires i < |fs|
    ensures Seen(fs[..i + 1]) == Seen(fs[..i]) + if Email(fs[i]) != "" then {fs[i].id} else {}
  {
    assert fs[..i + 1] == fs[..i] + [fs[i]];
  }
}
