// The two-tier cache of on-behalf-of tokens: Redis with an in-memory fallback.
// Times are real seconds; the SHA-256 cache key is taken as injective, so an
// entry is keyed by the user token itself.
module OboCache {
  import opened Basics

  // A cached token with its recorded expiry (`expires_at`) and `cached_at`.
  datatype Entry = Entry(token: string, expiresAt: real, cachedAt: real)

  datatype State = State(redis: map<string, Entry>, memory: map<string, Entry>)

  // `exp` reads the expiry claim of a token: None when the token cannot be
  // decoded or has no (or a zero) claim.
  datatype Config = Config(useRedis: bool, exp: string -> Option<int>)

  const MAX_LIFE := 43200
  const BUFFER := 300

  // ---------- expiry ----------

  // Expired for the cache: within the refresh buffer of the recorded expiry or
  // of the token's own `exp`.
  predicate Expired(cfg: Config, e: Entry, now: real) {
    || now + BUFFER as real >= e.expiresAt
    || (e.token != "" && cfg.exp(e.token).Some? && now >= (cfg.exp(e.token).value - BUFFER) as real)
  }

  // A missing or zero lifetime means the maximum; a negative one is kept.
  function Lifetime(expiresIn: Option<int>): int {
    if expiresIn.None? || expiresIn.value == 0 then MAX_LIFE
    else if expiresIn.value < MAX_LIFE then expiresIn.value
    else MAX_LIFE
  }

  function NewEntry(token: string, expiresIn: Option<int>, now: real): Entry {
    Entry(token, now + Lifetime(expiresIn) as real, now)
  }

  // ---------- operations ----------

  // Which Redis calls of an operation fail.
  datatype Faults = Faults(read: bool, write: bool)

  const NO_FAULTS := Faults(false, false)

  predicate Hit(cfg: Config, tier: map<string, Entry>, key: string, now: real) {
    key in tier && !Expired(cfg, tier[key], now)
  }

  // Looks in Redis, then in memory; an expired entry is dropped on the way.
  function GetToken(cfg: Config, st: State, key: string, now: real, f: Faults): (State, Option<string>) {
    if cfg.useRedis && !f.read && Hit(cfg, st.redis, key, now) then (st, Some(st.redis[key].token))
    else
      var redis := if cfg.useRedis && !f.read && !f.write then st.redis - {key} else st.redis;
      if Hit(cfg, st.memory, key, now) then (State(redis, st.memory), Some(st.memory[key].token))
      else (State(redis, st.memory - {key}), None)
  }

  // SETEX refuses a lifetime that is not positive, which counts as a Redis error.
  function SetToken(cfg: Config, st: State, key: string, token: string, expiresIn: Option<int>, now: real,
                    f: Faults): State {
    var e := NewEntry(token, expiresIn, now);
    if cfg.useRedis && !f.write && Lifetime(expiresIn) > 0
    then st.(redis := st.redis[key := e])
    else st.(memory := st.memory[key := e])
  }

  function ClearToken(cfg: Config, st: State, key: string, f: Faults): State {
    State(if cfg.useRedis && !f.write then st.redis - {key} else st.redis, st.memory - {key})
  }

  function ClearAll(cfg: Config, st: State, f: Faults): State {
    State(if cfg.useRedis && !f.read && !f.write then map[] else st.redis, map[])
  }

  // ---------- runs ----------

  datatype Op =
    | Get(key: string)
    | Set(key: string, token: string, expiresIn: Option<int>)
    | Clear(key: string)
    | ClearEverything
    | Evict(key: string)  // Redis drops a key on its own

  datatype Event = Event(op: Op, at: real, faults: Faults)

  function Apply(cfg: Config, st: State, ev: Event): State {
    match ev.op
    case Get(key) => GetToken(cfg, st, key, ev.at, ev.faults).0
    case Set(key, token, expiresIn) => SetToken(cfg, st, key, token, expiresIn, ev.at, ev.faults)
    case Clear(key) => ClearToken(cfg, st, key, ev.faults)
    case ClearEverything => ClearAll(cfg, st, ev.faults)
    case Evict(key) => st.(redis := st.redis - {key})
  }

  function Run(cfg: Config, events: seq<Event>): State {
    if events == [] then State(map[], map[])
    else Apply(cfg, Run(cfg, events[..|events| - 1]), events[|events| - 1])
  }

  function Answer(cfg: Config, events: seq<Event>, key: string, now: real, f: Faults): Option<string> {
    GetToken(cfg, Run(cfg, events), key, now, f).1
  }

  // ---------- safety under arbitrary faults ----------

  ghost predicate StoredBy(ev: Event, key: string, e: Entry) {
    ev.op.Set? && ev.op.key == key && e == NewEntry(ev.op.token, ev.op.expiresIn, ev.at)
  }

  ghost predicate WasStored(events: seq<Event>, key: string, e: Entry) {
    exists i :: 0 <= i < |events| && StoredBy(events[i], key, e)
  }

  lemma {:induction false} EntriesWereStored(cfg: Config, events: seq<Event>)
    ensures forall key :: key in Run(cfg, events).redis ==> WasStored(events, key, Run(cfg, events).redis[key])
    ensures forall key :: key in Run(cfg, events).memory ==> WasStored(events, key, Run(cfg, events).memory[key])
  {
    if events != [] {
      var front, last := events[..|events| - 1], events[|events| - 1];
      EntriesWereStored(cfg, front);
      assert forall key, e :: WasStored(front, key, e) ==> WasStored(events, key, e) by {
        forall key, e | WasStored(front, key, e) ensures WasStored(events, key, e) {
          var i :| 0 <= i < |front| && StoredBy(front[i], key, e);
          assert StoredBy(events[i], key, e);
        }
      }
      if last.op.Set? {
        assert StoredBy(events[|events| - 1], last.op.key, NewEntry(last.op.token, last.op.expiresIn, last.at));
      }
    }
  }

  // Whatever Redis did, a token that comes back was stored under this key, is
  // more than 300 s before its recorded expiry and before its own `exp`, and was
  // stored less than 43200 - 300 s ago.
  lemma ReturnedTokenIsSafe(cfg: Config, events: seq<Event>, key: string, now: real, f: Faults)
    requires Answer(cfg, events, key, now, f).Some?
    ensures var token := Answer(cfg, events, key, now, f).value;
            && (exists i :: 0 <= i < |events| && events[i].op.Set?
                            && events[i].op.key == key && events[i].op.token == token
                            && now + 300.0 < events[i].at + Lifetime(events[i].op.expiresIn) as real
                            && now - events[i].at < 43200.0 - 300.0)
            && (token != "" && cfg.exp(token).Some? ==> now + 300.0 < cfg.exp(token).value as real)
  {
    EntriesWereStored(cfg, events);
    var st := Run(cfg, events);
    var e := if cfg.useRedis && !f.read && Hit(cfg, st.redis, key, now) then st.redis[key] else st.memory[key];
    var i :| 0 <= i < |events| && StoredBy(events[i], key, e);
  }

  // ---------- exactness without faults ----------

  // The single map that the two tiers stand for: the last token stored and not cleared.
  function LastStored(events: seq<Event>, key: string): Option<Entry> {
    if events == [] then None
    else
      var last := events[|events| - 1];
      match last.op
      case Set(k, token, expiresIn) =>
        if k == key then Some(NewEntry(token, expiresIn, last.at)) else LastStored(events[..|events| - 1], key)
      case Clear(k) => if k == key then None else LastStored(events[..|events| - 1], key)
      case ClearEverything => None
      case _ => LastStored(events[..|events| - 1], key)
  }

  function Expected(cfg: Config, events: seq<Event>, key: string, now: real): Option<string> {
    var e := LastStored(events, key);
    if e.Some? && !Expired(cfg, e.value, now) then Some(e.value.token) else None
  }

  // No Redis call fails, the clock does not run back, Redis evicts only what
  // outlived its TTL, and with Redis no lifetime is negative.
  ghost predicate Faultless(cfg: Config, events: seq<Event>) {
    events != [] ==>
      var front, last := events[..|events| - 1], events[|events| - 1];
      && Faultless(cfg, front)
      && last.faults == NO_FAULTS
      && (front != [] ==> front[|front| - 1].at <= last.at)
      && (last.op.Evict? && last.op.key in Run(cfg, front).redis ==>
          Run(cfg, front).redis[last.op.key].expiresAt <= last.at)
      && (last.op.Set? && cfg.useRedis ==> Lifetime(last.op.expiresIn) > 0)
  }

  function Tier(cfg: Config, st: State): map<string, Entry> {
    if cfg.useRedis then st.redis else st.memory
  }

  function OtherTier(cfg: Config, st: State): map<string, Entry> {
    if cfg.useRedis then st.memory else st.redis
  }

  // The tier in use holds, for this key, what the single map holds, or nothing
  // when that has expired.
  ghost predicate Represents(cfg: Config, st: State, spec: Option<Entry>, key: string, now: real) {
    if key in Tier(cfg, st) then spec == Some(Tier(cfg, st)[key])
    else spec.None? || Expired(cfg, spec.value, now)
  }

  lemma {:induction false} CacheRefinesOneMap(cfg: Config, events: seq<Event>, key: string, now: real)
    requires Faultless(cfg, events)
    requires events != [] ==> events[|events| - 1].at <= now
    ensures Represents(cfg, Run(cfg, events), LastStored(events, key), key, now)
    ensures OtherTier(cfg, Run(cfg, events)) == map[]
  {
    if events != [] {
      CacheRefinesOneMap(cfg, events[..|events| - 1], key, events[|events| - 1].at);
    }
  }

  // Without faults a lookup gives the last stored token that has not expired.
  lemma AnswerIsExpected(cfg: Config, events: seq<Event>, key: string, now: real)
    requires Faultless(cfg, events)
    requires events != [] ==> events[|events| - 1].at <= now
    ensures Answer(cfg, events, key, now, NO_FAULTS) == Expected(cfg, events, key, now)
    ensures cfg.useRedis ==> Run(cfg, events).memory == map[]
  {
    CacheRefinesOneMap(cfg, events, key, now);
  }

  // With Redis up, a store leaves the memory tier empty exactly when its lifetime
  // is not negative ...
  lemma StoreLeavesMemoryEmptyIff(cfg: Config, st: State, key: string, token: string, expiresIn: Option<int>, now: real)
    requires cfg.useRedis && st.memory == map[]
    ensures SetToken(cfg, st, key, token, expiresIn, now, NO_FAULTS).memory == map[]
            <==> expiresIn.None? || expiresIn.value >= 0
  {
    var after := SetToken(cfg, st, key, token, expiresIn, now, NO_FAULTS);
    assert after.memory == map[] ==> key !in after.memory;
  }

  ghost predicate AnswersForEntry(cfg: Config, st: State, key: string, e: Entry, now: real) {
    forall t :: t >= now ==>
                  GetToken(cfg, st, key, t, NO_FAULTS).1 == if Expired(cfg, e, t) then None else Some(e.token)
  }

  // The time from which an entry counts as expired.
  function Deadline(cfg: Config, e: Entry): real {
    var recorded := e.expiresAt - BUFFER as real;
    if e.token != "" && cfg.exp(e.token).Some? && ((cfg.exp(e.token).value - BUFFER) as real) < recorded
    then (cfg.exp(e.token).value - BUFFER) as real
    else recorded
  }

  lemma ExpiredFromDeadline(cfg: Config, e: Entry, now: real)
    ensures Expired(cfg, e, now) <==> now >= Deadline(cfg, e)
  {
  }

  // ... and, whatever earlier faults left, the stored token decides every later
  // answer exactly when no older token comes back after it: a stored lifetime
  // must outlast the entry that memory still holds for the key, and a negative
  // one, which leaves the older token in Redis, must find none alive there.
  lemma StoreDecidesIff(cfg: Config, st: State, key: string, token: string, expiresIn: Option<int>, now: real)
    ensures var e := NewEntry(token, expiresIn, now);
            AnswersForEntry(cfg, SetToken(cfg, st, key, token, expiresIn, now, NO_FAULTS), key, e, now) <==>
            if !cfg.useRedis then true
            else if expiresIn.Some? && expiresIn.value < 0 then !Hit(cfg, st.redis, key, now)
            else key !in st.memory || Deadline(cfg, st.memory[key]) <= now
                 || Deadline(cfg, st.memory[key]) <= Deadline(cfg, e)
  {
    var e := NewEntry(token, expiresIn, now);
    var after := SetToken(cfg, st, key, token, expiresIn, now, NO_FAULTS);
    if cfg.useRedis {
      if expiresIn.Some? && expiresIn.value < 0 {
        if Hit(cfg, st.redis, key, now) {
          assert GetToken(cfg, after, key, now, NO_FAULTS).1 == Some(st.redis[key].token);
        }
      } else if key in st.memory {
        var older := st.memory[key];
        var last := if now < Deadline(cfg, e) then Deadline(cfg, e) else now;
        ExpiredFromDeadline(cfg, e, last);
        ExpiredFromDeadline(cfg, older, last);
        assert GetToken(cfg, after, key, last, NO_FAULTS).1 ==
               if Expired(cfg, older, last) then None else Some(older.token);
      }
    }
  }

  // A run without faults leaves memory empty, so there only the sign of the lifetime matters.
  lemma FaultlessStoreDecidesIff(cfg: Config, events: seq<Event>, key: string, token: string, expiresIn: Option<int>,
                                 now: real)
    requires cfg.useRedis && Faultless(cfg, events)
    requires events != [] ==> events[|events| - 1].at <= now
    ensures var st := Run(cfg, events);
            AnswersForEntry(cfg, SetToken(cfg, st, key, token, expiresIn, now, NO_FAULTS), key,
                            NewEntry(token, expiresIn, now), now) <==>
            expiresIn.None? || expiresIn.value >= 0 || !Hit(cfg, st.redis, key, now)
  {
    AnswerIsExpected(cfg, events, key, now);
    StoreDecidesIff(cfg, Run(cfg, events), key, token, expiresIn, now);
  }

  // One write fault is enough: the first token goes to memory, the second to
  // Redis, and once the second has expired the first is served again.
  lemma OlderTokenComesBack(cfg: Config)
    requires cfg.useRedis && cfg.exp("A").None? && cfg.exp("B").None?
    ensures var events := [Event(Set("u", "A", None), 0.0, Faults(false, true)),
                           Event(Set("u", "B", Some(600)), 1.0, NO_FAULTS)];
            && Answer(cfg, events, "u", 10.0, NO_FAULTS) == Some("B")
            && Answer(cfg, events, "u", 400.0, NO_FAULTS) == Some("A")
  {
    var first := Event(Set("u", "A", None), 0.0, Faults(false, true));
    var second := Event(Set("u", "B", Some(600)), 1.0, NO_FAULTS);
    assert [first, second][..1] == [first] && [first][..0] == [];
    assert Run(cfg, [first]) == State(map[], map["u" := Entry("A", 43200.0, 0.0)]);
    assert Run(cfg, [first, second]).redis == map["u" := Entry("B", 601.0, 1.0)];
  }

  // ---------- the exchange that the cache saves ----------

  datatype Exchanged = Exchanged(state: State, result: Option<string>, called: bool)

  // exchange_token_obo: `reply` is what the identity provider would answer,
  // None when it refuses.  An empty cached token counts as a miss.
  function ExchangeTokenObo(cfg: Config, st: State, userToken: string, now: real,
                            reply: Option<(string, Option<int>)>, getFaults: Faults, setFaults: Faults): Exchanged {
    var (st1, cached) := GetToken(cfg, st, userToken, now, getFaults);
    if cached.Some? && cached.value != "" then Exchanged(st1, cached, false)
    else if reply.None? then Exchanged(st1, None, true)
    else
      Exchanged(SetToken(cfg, st1, userToken, reply.value.0, Some(Lifetime(reply.value.1)), now, setFaults),
                Some(reply.value.0), true)
  }

  // Without faults the provider is asked exactly when no live token was stored.
  lemma ExchangesOnlyWhenNeeded(cfg: Config, events: seq<Event>, userToken: string, now: real,
                                reply: Option<(string, Option<int>)>)
    requires Faultless(cfg, events)
    requires events != [] ==> events[|events| - 1].at <= now
    ensures var x := ExchangeTokenObo(cfg, Run(cfg, events), userToken, now, reply, NO_FAULTS, NO_FAULTS);
            var e := LastStored(events, userToken);
            && (!x.called <==> e.Some? && e.value.token != "" && !Expired(cfg, e.value, now))
            && (!x.called ==> x.result == Some(e.value.token))
            && (x.called && reply.None? ==> x.result == None)
  {
    AnswerIsExpected(cfg, events, userToken, now);
  }

  predicate Touches(op: Op, key: string) {
    match op
    case Set(k, _, _) => k == key
    case Clear(k) => k == key
    case ClearEverything => true
    case _ => false
  }

  lemma {:induction false} UntouchedKeepsLastStored(before: seq<Event>, between: seq<Event>, key: string)
    requires forall i :: 0 <= i < |between| ==> !Touches(between[i].op, key)
    ensures LastStored(before + between, key) == LastStored(before, key)
  {
    if between == [] {
      assert before + between == before;
    } else {
      var front := between[..|between| - 1];
      assert (before + between)[..|before + between| - 1] == before + front;
      UntouchedKeepsLastStored(before, front, key);
    }
  }

  // After an exchange, and whatever happens to other keys, the provider is not
  // asked again exactly while the token's window lasts, and the same token comes back.
  lemma OneExchangePerWindow(cfg: Config, before: seq<Event>, between: seq<Event>, userToken: string,
                             t1: real, token: string, expiresIn: Option<int>, t2: real,
                             reply: Option<(string, Option<int>)>)
    requires token != ""
    requires var events := before + [Event(Set(userToken, token, Some(Lifetime(expiresIn))), t1, NO_FAULTS)] + between;
             Faultless(cfg, events) && events[|events| - 1].at <= t2
    requires forall i :: 0 <= i < |between| ==> !Touches(between[i].op, userToken)
    ensures var events := before + [Event(Set(userToken, token, Some(Lifetime(expiresIn))), t1, NO_FAULTS)] + between;
            var x := ExchangeTokenObo(cfg, Run(cfg, events), userToken, t2, reply, NO_FAULTS, NO_FAULTS);
            && (!x.called <==> t2 + 300.0 < t1 + Lifetime(expiresIn) as real
                               && (cfg.exp(token).Some? ==> t2 + 300.0 < cfg.exp(token).value as real))
            && (!x.called ==> x.result == Some(token))
  {
    var ev := Event(Set(userToken, token, Some(Lifetime(expiresIn))), t1, NO_FAULTS);
    var stored := before + [ev];
    assert stored[..|stored| - 1] == before;
    UntouchedKeepsLastStored(stored, between, userToken);
    ExchangesOnlyWhenNeeded(cfg, stored + between, userToken, t2, reply);
    assert Lifetime(Some(Lifetime(expiresIn))) == Lifetime(expiresIn);
  }

  // ---------- when Redis cannot be read ----------

  // A token that still answers at `now`: more than 300 s before its recorded
  // expiry and before its own `exp`.
  predicate Answers(cfg: Config, token: string, expiresAt: real, now: real) {
    && now + 300.0 < expiresAt
    && (token == "" || cfg.exp(token).None? || now + 300.0 < cfg.exp(token).value as real)
  }

  // A single lookup, in any state: Redis answers first unless it cannot be read,
  // then memory; what no longer answers is dropped from the tiers that were asked.
  lemma LookupAsksRedisThenMemory(cfg: Config, st: State, key: string, now: real, f: Faults)
    ensures var (after, r) := GetToken(cfg, st, key, now, f);
            var inRedis := cfg.useRedis && !f.read && key in st.redis
                           && Answers(cfg, st.redis[key].token, st.redis[key].expiresAt, now);
            var inMemory := key in st.memory && Answers(cfg, st.memory[key].token, st.memory[key].expiresAt, now);
            && (inRedis ==> after == st && r == Some(st.redis[key].token))
            && (!inRedis && inMemory ==> after.memory == st.memory && r == Some(st.memory[key].token))
            && (!inRedis && !inMemory ==> after.memory == st.memory - {key} && r == None)
            && (!inRedis ==> after.redis == if cfg.useRedis && !f.read && !f.write then st.redis - {key} else st.redis)
  {
  }

  // With a failing read the live entry of the memory tier answers, whatever Redis holds.
  lemma FailedReadAnswersFromMemory(cfg: Config, st: State, key: string, now: real, write: bool, token: string)
    ensures GetToken(cfg, st, key, now, Faults(true, write)).1 == Some(token) <==>
            key in st.memory && st.memory[key].token == token && Answers(cfg, token, st.memory[key].expiresAt, now)
    ensures GetToken(cfg, st, key, now, Faults(true, write)).0.redis == st.redis
  {
    LookupAsksRedisThenMemory(cfg, st, key, now, Faults(true, write));
  }

  // How long a stored token counts, in seconds.
  predicate LivesFor(expiresIn: Option<int>, life: int) {
    match expiresIn
    case None => life == 43200
    case Some(n) => if n == 0 || n > 43200 then life == 43200 else life == n
  }

  // Event i stored the token that counts for the key: nothing later stored or
  // cleared one.
  ghost predicate StoredLast(events: seq<Event>, key: string, i: nat) {
    && i < |events| && events[i].op.Set? && events[i].op.key == key
    && forall k :: i < k < |events| ==>
                     && events[k].op != ClearEverything && events[k].op != Clear(key)
                     && !(events[k].op.Set? && events[k].op.key == key)
  }

  // ... and it still answers.
  ghost predicate AnswersLast(cfg: Config, events: seq<Event>, key: string, now: real, i: nat, token: string) {
    && StoredLast(events, key, i) && events[i].op.token == token
    && exists life: int :: LivesFor(events[i].op.expiresIn, life)
                           && Answers(cfg, token, events[i].at + life as real, now)
  }

  lemma LifetimeIs(expiresIn: Option<int>, life: int)
    ensures LivesFor(expiresIn, life) <==> life == Lifetime(expiresIn)
  {
  }

  lemma {:induction false} LastStoredIs(events: seq<Event>, key: string)
    ensures LastStored(events, key).Some? ==> exists i: nat :: StoredLast(events, key, i)
    ensures forall i: nat :: StoredLast(events, key, i) ==>
              LastStored(events, key) == Some(NewEntry(events[i].op.token, events[i].op.expiresIn, events[i].at))
  {
    if events != [] {
      var n: nat := |events| - 1;
      var front := events[..n];
      LastStoredIs(front, key);
      if events[n].op.Set? && events[n].op.key == key {
        assert StoredLast(events, key, n);
      } else if LastStored(events, key).Some? {
        var i: nat :| StoredLast(front, key, i);
        assert StoredLast(events, key, i);
      }
      forall i: nat | StoredLast(events, key, i)
        ensures LastStored(events, key) == Some(NewEntry(events[i].op.token, events[i].op.expiresIn, events[i].at))
      {
        if i < n {
          assert events[n].op != ClearEverything && events[n].op != Clear(key);
          assert StoredLast(front, key, i) && front[i] == events[i];
        }
      }
    }
  }

  // The last store decides: whatever still answers is its token.
  lemma AnswersLastIff(cfg: Config, events: seq<Event>, key: string, now: real, i: nat, token: string)
    requires StoredLast(events, key, i)
    ensures AnswersLast(cfg, events, key, now, i, token) <==> Expected(cfg, events, key, now) == Some(token)
  {
    LastStoredIs(events, key);
    LifetimeIs(events[i].op.expiresIn, Lifetime(events[i].op.expiresIn));
    forall life: int | LivesFor(events[i].op.expiresIn, life) ensures life == Lifetime(events[i].op.expiresIn) {
      LifetimeIs(events[i].op.expiresIn, life);
    }
  }

  lemma ExpectedIff(cfg: Config, events: seq<Event>, key: string, now: real, token: string)
    ensures Expected(cfg, events, key, now) == Some(token) <==>
            exists i: nat :: AnswersLast(cfg, events, key, now, i, token)
  {
    LastStoredIs(events, key);
    if LastStored(events, key).Some? {
      var i: nat :| StoredLast(events, key, i);
      AnswersLastIff(cfg, events, key, now, i, token);
    }
    forall i: nat | StoredLast(events, key, i)
      ensures AnswersLast(cfg, events, key, now, i, token) ==> Expected(cfg, events, key, now) == Some(token)
    {
      AnswersLastIff(cfg, events, key, now, i, token);
    }
  }

  // Without faults a lookup gives exactly the token of the last store, while it
  // lives and unless it was cleared.
  lemma FaultlessAnswerIff(cfg: Config, events: seq<Event>, key: string, now: real, token: string)
    requires Faultless(cfg, events)
    requires events != [] ==> events[|events| - 1].at <= now
    ensures Answer(cfg, events, key, now, NO_FAULTS) == Some(token) <==>
            exists i: nat :: AnswersLast(cfg, events, key, now, i, token)
  {
    AnswerIsExpected(cfg, events, key, now);
    ExpectedIff(cfg, events, key, now, token);
  }

  // Every Redis call fails, and the clock does not run back.
  ghost predicate Outage(events: seq<Event>) {
    && (forall i :: 0 <= i < |events| ==> events[i].faults == Faults(true, true))
    && forall i, j :: 0 <= i < j < |events| ==> events[i].at <= events[j].at
  }

  // Memory then holds, for this key, what the single map holds, or nothing when
  // that has expired.
  lemma {:induction false} MemoryCarriesOutage(cfg: Config, events: seq<Event>, key: string, now: real)
    requires Outage(events)
    requires events != [] ==> events[|events| - 1].at <= now
    ensures var st, spec := Run(cfg, events), LastStored(events, key);
            && (cfg.useRedis ==> st.redis == map[])
            && (key in st.memory ==> spec == Some(st.memory[key]))
            && (key !in st.memory ==> spec.None? || Expired(cfg, spec.value, now))
  {
    if events != [] {
      MemoryCarriesOutage(cfg, events[..|events| - 1], key, events[|events| - 1].at);
    }
  }

  // With Redis down throughout, lookups answer as if it were up; the lookup
  // itself may find it down or up again.
  lemma OutageAnswerIsExpected(cfg: Config, events: seq<Event>, key: string, now: real, f: Faults)
    requires Outage(events)
    requires events != [] ==> events[|events| - 1].at <= now
    ensures Answer(cfg, events, key, now, f) == Expected(cfg, events, key, now)
  {
    MemoryCarriesOutage(cfg, events, key, now);
  }

  lemma OutageAnswerIff(cfg: Config, events: seq<Event>, key: string, now: real, f: Faults, token: string)
    requires Outage(events)
    requires events != [] ==> events[|events| - 1].at <= now
    ensures Answer(cfg, events, key, now, f) == Some(token) <==>
            exists i: nat :: AnswersLast(cfg, events, key, now, i, token)
  {
    OutageAnswerIsExpected(cfg, events, key, now, f);
    ExpectedIff(cfg, events, key, now, token);
  }

  // A token stored without a lifetime, and with no expiry of its own, answers for
  // 42900 s after the store and no longer, with Redis up or down throughout.
  lemma DefaultWindow(cfg: Config, events: seq<Event>, key: string, now: real, i: nat, f: Faults)
    requires (Faultless(cfg, events) && f == NO_FAULTS) || Outage(events)
    requires events != [] ==> events[|events| - 1].at <= now
    requires StoredLast(events, key, i) && events[i].op.expiresIn in {None, Some(0)}
    requires cfg.exp(events[i].op.token).None?
    ensures Answer(cfg, events, key, now, f) ==
            if now - events[i].at < 42900.0 then Some(events[i].op.token) else None
  {
    if Outage(events) {
      OutageAnswerIsExpected(cfg, events, key, now, f);
    } else {
      AnswerIsExpected(cfg, events, key, now);
    }
    LastStoredIs(events, key);
  }

  // In an outage, too, the provider is asked exactly when no stored token answers.
  lemma ExchangesInOutage(cfg: Config, events: seq<Event>, userToken: string, now: real,
                          reply: Option<(string, Option<int>)>, f: Faults, g: Faults)
    requires Outage(events)
    requires events != [] ==> events[|events| - 1].at <= now
    ensures var x := ExchangeTokenObo(cfg, Run(cfg, events), userToken, now, reply, f, g);
            && (!x.called <==>
                exists i: nat, token :: token != "" && AnswersLast(cfg, events, userToken, now, i, token))
            && (!x.called ==> forall i: nat, token :: AnswersLast(cfg, events, userToken, now, i, token) ==>
                                                        x.result == Some(token))
            && (x.called ==> x.result == if reply.Some? then Some(reply.value.0) else None)
  {
    OutageAnswerIsExpected(cfg, events, userToken, now, f);
    var r := Answer(cfg, events, userToken, now, f);
    if r.Some? {
      ExpectedIff(cfg, events, userToken, now, r.value);
    }
    forall i: nat, token | AnswersLast(cfg, events, userToken, now, i, token) ensures r == Some(token) {
      AnswersLastIff(cfg, events, userToken, now, i, token);
    }
  }

  // What an exchange gets it stores: from any state, with Redis up or down, the
  // next exchange asks the provider again exactly when the token answers no more.
  lemma ExchangeStoresReply(cfg: Config, st: State, userToken: string, now: real, token: string,
                            expiresIn: Option<int>, life: int, t: real, again: Option<(string, Option<int>)>, f: Faults)
    requires GetToken(cfg, st, userToken, now, f).1 == None && now <= t && LivesFor(expiresIn, life)
    requires (f == NO_FAULTS && (cfg.useRedis ==> life > 0)) || f == Faults(true, true)
    ensures var x := ExchangeTokenObo(cfg, st, userToken, now, Some((token, expiresIn)), f, f);
            && x.called && x.result == Some(token)
            && GetToken(cfg, x.state, userToken, t, f).1 ==
               (if Answers(cfg, token, now + life as real, t) then Some(token) else None)
            && (ExchangeTokenObo(cfg, x.state, userToken, t, again, f, f).called <==>
                token == "" || !Answers(cfg, token, now + life as real, t))
  {
    LifetimeIs(expiresIn, life);
  }

  // After a clearing that Redis missed, exactly Redis's own live token answers.
  lemma ClearedAnswersIff(cfg: Config, st: State, key: string, now: real, f: Faults)
    ensures var left := if cfg.useRedis && key in st.redis
                           && Answers(cfg, st.redis[key].token, st.redis[key].expiresAt, now)
                        then Some(st.redis[key].token) else None;
            && GetToken(cfg, ClearToken(cfg, st, key, f), key, now, NO_FAULTS).1 == (if f.write then left else None)
            && GetToken(cfg, ClearAll(cfg, st, f), key, now, NO_FAULTS).1 == if f.read || f.write then left else None
  {
    LookupAsksRedisThenMemory(cfg, ClearToken(cfg, st, key, f), key, now, NO_FAULTS);
    LookupAsksRedisThenMemory(cfg, ClearAll(cfg, st, f), key, now, NO_FAULTS);
  }

  // ---------- the cache object ----------

  class OboTokenCache {
    const cfg: Config
    var redis: map<string, Entry>   // the Redis server's contents
    var memory: map<string, Entry>  // _memory_cache

    constructor (cfg: Config)
      ensures this.cfg == cfg && Contents() == State(map[], map[])
    {
      this.cfg := cfg;
      redis, memory := map[], map[];
    }

    function Contents(): State
      reads this
    {
      State(redis, memory)
    }

    method Lookup(key: string, now: real, f: Faults) returns (r: Option<string>)
      modifies this
      ensures (Contents(), r) == GetToken(cfg, old(Contents()), key, now, f)
    {
      assert key !in redis ==> redis - {key} == redis;
      assert key !in memory ==> memory - {key} == memory;
      if cfg.useRedis && !f.read && key in redis {
        if !Expired(cfg, redis[key], now) {
          return Some(redis[key].token);
        }
        if !f.write {
          redis := redis - {key};
        }
      }
      if key in memory {
        if !Expired(cfg, memory[key], now) {
          return Some(memory[key].token);
        }
        memory := memory - {key};
      }
      return None;
    }

    method Store(key: string, token: string, expiresIn: Option<int>, now: real, f: Faults)
      modifies this
      ensures Contents() == SetToken(cfg, old(Contents()), key, token, expiresIn, now, f)
    {
      var life := Lifetime(expiresIn);
      var e := Entry(token, now + life as real, now);
      if cfg.useRedis {
        if !f.write && life > 0 {
          redis := redis[key := e];
        } else {
          memory := memory[key := e];
        }
      } else {
        memory := memory[key := e];
      }
    }

    method ClearOne(key: string, f: Faults)
      modifies this
      ensures Contents() == ClearToken(cfg, old(Contents()), key, f)
    {
      if cfg.useRedis && !f.write {
        redis := redis - {key};
      }
      if key in memory {
        memory := memory - {key};
      }
    }

    method Clear(f: Faults)
      modifies this
      ensures Contents() == ClearAll(cfg, old(Contents()), f)
    {
      if cfg.useRedis && !f.read && (redis == map[] || !f.write) {
        redis := map[];
      }
      memory := map[];
    }

    method Exchange(userToken: string, now: real, reply: Option<(string, Option<int>)>, getFaults: Faults,
                    setFaults: Faults)
      returns (r: Option<string>, called: bool)
      modifies this
      ensures Exchanged(Contents(), r, called) ==
              ExchangeTokenObo(cfg, old(Contents()), userToken, now, reply, getFaults, setFaults)
    {
      var cached := Lookup(userToken, now, getFaults);
      if cached.Some? && cached.value != "" {
        return cached, false;
      }
      if reply.None? {
        return None, true;
      }
      var (token, expiresIn) := reply.value;
      Store(userToken, token, Some(Lifetime(expiresIn)), now, setFaults);
      return Some(token), true;
    }
  }
}
