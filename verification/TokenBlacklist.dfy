// The blacklist of invalidated tokens: a set of tokens and a dictionary of
// their expiry times, emptied both lazily and eagerly.
module TokenBlacklist {
  import opened Basics

  datatype State = State(tokens: set<string>, expiry: map<string, real>)

  // ---------- operations ----------

  // A zero expiry time counts as none.
  function Add(st: State, token: string, expiry: Option<real>): State {
    State(st.tokens + {token},
          if expiry.Some? && expiry.value != 0.0 then st.expiry[token := expiry.value] else st.expiry)
  }

  predicate Stale(st: State, token: string, now: real) {
    token in st.expiry && now > st.expiry[token]
  }

  function Drop(st: State, gone: set<string>): State {
    State(st.tokens - gone, st.expiry - gone)
  }

  function IsBlacklisted(st: State, token: string, now: real): (State, bool) {
    if token in st.tokens && token in st.expiry && st.expiry[token] != 0.0 && now > st.expiry[token]
    then (Drop(st, {token}), false)
    else (st, token in st.tokens)
  }

  function RemoveExpired(st: State, now: real): State {
    Drop(st, set token | token in st.expiry && now > st.expiry[token])
  }

  // ---------- runs ----------

  datatype Op =
    | AddToken(token: string, expiry: Option<real>)
    | Check(token: string)
    | Purge          // remove_expired_tokens, also run by get_stats
    | ClearAll

  datatype Event = Event(op: Op, at: real)

  function Apply(st: State, ev: Event): State {
    match ev.op
    case AddToken(token, expiry) => Add(st, token, expiry)
    case Check(token) => IsBlacklisted(st, token, ev.at).0
    case Purge => RemoveExpired(st, ev.at)
    case ClearAll => State({}, map[])
  }

  function Run(events: seq<Event>): State {
    if events == [] then State({}, map[])
    else Apply(Run(events[..|events| - 1]), events[|events| - 1])
  }

  function Answer(events: seq<Event>, token: string, now: real): bool {
    IsBlacklisted(Run(events), token, now).1
  }

  // ---------- the record a caller keeps ----------

  // What was said about a token since the last clear: never added, or added
  // with the last expiry time given for it, if any was.
  datatype Record = Never | Added(expiry: Option<real>)

  function Noted(before: Record, op: Op, token: string): Record {
    match op
    case AddToken(t, expiry) =>
      if t != token then before
      else if expiry.Some? && expiry.value != 0.0 then Added(expiry)
      else if before.Never? then Added(None)
      else before
    case ClearAll => Never
    case _ => before
  }

  function RecordOf(events: seq<Event>, token: string): Record {
    if events == [] then Never
    else Noted(RecordOf(events[..|events| - 1], token), events[|events| - 1].op, token)
  }

  lemma RecordSnoc(events: seq<Event>, ev: Event, token: string)
    ensures RecordOf(events + [ev], token) == Noted(RecordOf(events, token), ev.op, token)
  {
    assert (events + [ev])[..|events|] == events;
  }

  // Blacklisted and not strictly past the last recorded expiry.
  predicate Listed(r: Record, now: real) {
    r.Added? && (r.expiry.Some? ==> now <= r.expiry.value)
  }

  // The clock does not run back, and a token past its recorded expiry is not
  // added again without an expiry.
  predicate Disciplined(events: seq<Event>) {
    events != [] ==>
      var front, last := events[..|events| - 1], events[|events| - 1];
      && Disciplined(front)
      && (front != [] ==> front[|front| - 1].at <= last.at)
      && (last.op.AddToken? && (last.op.expiry.None? || last.op.expiry.value == 0.0) ==>
            RecordOf(front, last.op.token).Never? || Listed(RecordOf(front, last.op.token), last.at))
  }

  // The stored state agrees with the record, or the token is past its expiry and already gone.
  ghost predicate Matches(st: State, r: Record, token: string, now: real) {
    if token in st.tokens then
      r == Added(if token in st.expiry then Some(st.expiry[token]) else None)
    else
      token !in st.expiry && !Listed(r, now)
  }

  ghost predicate Valid(st: State) {
    && st.expiry.Keys <= st.tokens
    && forall t :: t in st.expiry ==> st.expiry[t] != 0.0
  }

  lemma {:induction false} ExpiriesStayInsideTokens(events: seq<Event>)
    ensures Valid(Run(events))
  {
    if events != [] {
      ExpiriesStayInsideTokens(events[..|events| - 1]);
    }
  }

  lemma {:induction false} StateMatchesRecord(events: seq<Event>, token: string, now: real)
    requires Disciplined(events)
    requires events != [] ==> events[|events| - 1].at <= now
    ensures Matches(Run(events), RecordOf(events, token), token, now)
  {
    if events != [] {
      StateMatchesRecord(events[..|events| - 1], token, events[|events| - 1].at);
      ExpiriesStayInsideTokens(events[..|events| - 1]);
    }
  }

  // However expired tokens were removed, the answer depends on the record alone.
  lemma AnswerIsRecord(events: seq<Event>, token: string, now: real)
    requires Disciplined(events)
    requires events != [] ==> events[|events| - 1].at <= now
    ensures Answer(events, token, now) <==> Listed(RecordOf(events, token), now)
  {
    StateMatchesRecord(events, token, now);
    ExpiriesStayInsideTokens(events);
  }

  // ---------- the record in terms of the history ----------

  // Event i added the token, and nothing was cleared after it.
  ghost predicate AddedSince(events: seq<Event>, token: string, i: nat) {
    && i < |events| && events[i].op.AddToken? && events[i].op.token == token
    && forall k :: i < k < |events| ==> events[k].op != ClearAll
  }

  ghost predicate GaveExpiry(events: seq<Event>, token: string, i: nat) {
    AddedSince(events, token, i) && events[i].op.expiry.Some? && events[i].op.expiry.value != 0.0
  }

  // The last addition since then that gave an expiry time.
  ghost predicate GaveLastExpiry(events: seq<Event>, token: string, i: nat) {
    GaveExpiry(events, token, i) && forall k: nat :: i < k ==> !GaveExpiry(events, token, k)
  }

  lemma AddedSinceSnoc(events: seq<Event>, ev: Event, token: string)
    ensures forall i: nat :: AddedSince(events + [ev], token, i) <==>
              if i == |events| then ev.op.AddToken? && ev.op.token == token
              else AddedSince(events, token, i) && ev.op != ClearAll
  {
    var all := events + [ev];
    forall i: nat
      ensures AddedSince(all, token, i) <==>
              if i == |events| then ev.op.AddToken? && ev.op.token == token
              else AddedSince(events, token, i) && ev.op != ClearAll
    {
      assert all[|events|] == ev;
      assert forall k :: 0 <= k < |events| ==> events[k] == all[k];
    }
  }

  lemma {:induction false} RecordIs(events: seq<Event>, token: string)
    ensures RecordOf(events, token).Added? <==> exists i: nat :: AddedSince(events, token, i)
    ensures RecordOf(events, token).Added? && RecordOf(events, token).expiry.Some? ==>
              exists i: nat :: GaveLastExpiry(events, token, i)
    ensures forall i: nat :: GaveLastExpiry(events, token, i) ==>
                               RecordOf(events, token) == Added(events[i].op.expiry)
  {
    if events != [] {
      var n: nat := |events| - 1;
      var front, ev := events[..n], events[n];
      RecordIs(front, token);
      assert events == front + [ev];
      AddedSinceSnoc(front, ev, token);
      RecordIsSnoc(front, ev, token);
    }
  }

  lemma RecordIsSnoc(front: seq<Event>, ev: Event, token: string)
    requires RecordOf(front, token).Added? <==> exists i: nat :: AddedSince(front, token, i)
    requires RecordOf(front, token).Added? && RecordOf(front, token).expiry.Some? ==>
               exists i: nat :: GaveLastExpiry(front, token, i)
    requires forall i: nat :: GaveLastExpiry(front, token, i) ==> RecordOf(front, token) == Added(front[i].op.expiry)
    ensures var events := front + [ev];
            && (RecordOf(events, token).Added? <==> exists i: nat :: AddedSince(events, token, i))
            && (RecordOf(events, token).Added? && RecordOf(events, token).expiry.Some? ==>
                  exists i: nat :: GaveLastExpiry(events, token, i))
            && (forall i: nat :: GaveLastExpiry(events, token, i) ==>
                                   RecordOf(events, token) == Added(events[i].op.expiry))
  {
    var events, n := front + [ev], |front|;
    assert events[..n] == front && events[n] == ev;
    AddedSinceSnoc(front, ev, token);
    if ev.op.AddToken? && ev.op.token == token {
      assert AddedSince(events, token, n);
    }
    if ev.op.AddToken? && ev.op.token == token && ev.op.expiry.Some? && ev.op.expiry.value != 0.0 {
      assert GaveExpiry(events, token, n);
      assert GaveLastExpiry(events, token, n);
      forall i: nat | GaveLastExpiry(events, token, i) ensures i == n {
      }
    } else if ev.op != ClearAll {
      forall i: nat ensures GaveExpiry(events, token, i) <==> GaveExpiry(front, token, i) {
        assert i < n ==> events[i] == front[i];
      }
      forall i: nat ensures GaveLastExpiry(events, token, i) <==> GaveLastExpiry(front, token, i) {
      }
      forall i: nat | AddedSince(front, token, i) ensures AddedSince(events, token, i) {
      }
    }
  }

  // In a disciplined history a token is blacklisted exactly when it was added since
  // the last clear and is not past the expiry that was given for it last.
  lemma AnswerIff(events: seq<Event>, token: string, now: real)
    requires Disciplined(events)
    requires events != [] ==> events[|events| - 1].at <= now
    ensures Answer(events, token, now) <==>
            && (exists i: nat :: AddedSince(events, token, i))
            && forall i: nat :: GaveLastExpiry(events, token, i) ==> now <= events[i].op.expiry.value
  {
    AnswerIsRecord(events, token, now);
    RecordIs(events, token);
  }

  // ---------- removal is invisible ----------

  function WithoutPurges(events: seq<Event>): seq<Event> {
    if events == [] then []
    else
      var front := WithoutPurges(events[..|events| - 1]);
      if events[|events| - 1].op.Purge? then front else front + [events[|events| - 1]]
  }

  lemma {:induction false} PurgesLeaveTheRecord(events: seq<Event>, token: string)
    ensures RecordOf(WithoutPurges(events), token) == RecordOf(events, token)
  {
    if events != [] {
      var front, last := events[..|events| - 1], events[|events| - 1];
      PurgesLeaveTheRecord(front, token);
      RecordSnoc(WithoutPurges(front), last, token);
    }
  }

  lemma {:induction false} PurgesLeaveDiscipline(events: seq<Event>)
    requires Disciplined(events)
    ensures Disciplined(WithoutPurges(events))
    ensures WithoutPurges(events) != [] ==>
              WithoutPurges(events)[|WithoutPurges(events)| - 1].at <= events[|events| - 1].at
  {
    if events != [] {
      var front, last := events[..|events| - 1], events[|events| - 1];
      PurgesLeaveDiscipline(front);
      var rest := WithoutPurges(front);
      if !last.op.Purge? {
        if last.op.AddToken? {
          PurgesLeaveTheRecord(front, last.op.token);
        }
        AddingKeepsDiscipline(rest, last);
      }
    }
  }

  lemma AddingKeepsDiscipline(front: seq<Event>, last: Event)
    requires Disciplined(front) && (front != [] ==> front[|front| - 1].at <= last.at)
    requires last.op.AddToken? && (last.op.expiry.None? || last.op.expiry.value == 0.0) ==>
               RecordOf(front, last.op.token).Never? || Listed(RecordOf(front, last.op.token), last.at)
    ensures Disciplined(front + [last])
  {
    assert (front + [last])[..|front|] == front;
  }

  // Dropping every removal of expired tokens from a history changes no later answer ...
  lemma PurgesAreInvisible(events: seq<Event>, token: string, now: real)
    requires Disciplined(events)
    requires events != [] ==> events[|events| - 1].at <= now
    ensures Answer(WithoutPurges(events), token, now) == Answer(events, token, now)
  {
    PurgesLeaveDiscipline(events);
    PurgesLeaveTheRecord(events, token);
    AnswerIsRecord(events, token, now);
    AnswerIsRecord(WithoutPurges(events), token, now);
  }

  // ... and neither does inserting one anywhere.
  lemma {:induction false} InsertedPurgeIsInvisible(a: seq<Event>, at: real, b: seq<Event>, token: string, now: real)
    requires Disciplined(a + [Event(Purge, at)] + b) && Disciplined(a + b)
    requires (a + [Event(Purge, at)] + b)[|a| + |b|].at <= now && (a + b != [] ==> (a + b)[|a| + |b| - 1].at <= now)
    ensures Answer(a + [Event(Purge, at)] + b, token, now) == Answer(a + b, token, now)
  {
    PurgesAreInvisible(a + [Event(Purge, at)] + b, token, now);
    PurgesAreInvisible(a + b, token, now);
    WithoutPurgesConcat(a + [Event(Purge, at)], b);
    WithoutPurgesConcat(a, b);
    assert (a + [Event(Purge, at)])[..|a|] == a;
  }

  lemma {:induction false} WithoutPurgesConcat(a: seq<Event>, b: seq<Event>)
    ensures WithoutPurges(a + b) == WithoutPurges(a) + WithoutPurges(b)
  {
    if b == [] {
      assert a + b == a;
    } else {
      assert (a + b)[..|a + b| - 1] == a + b[..|b| - 1];
      WithoutPurgesConcat(a, b[..|b| - 1]);
    }
  }

  // The discipline is exact: adding a token again without an expiry erases the
  // difference between removed and not removed exactly when the token is not
  // past its expiry.
  lemma ReAddingHidesPurgeIff(st: State, token: string, now: real)
    requires Valid(st)
    ensures (IsBlacklisted(Add(RemoveExpired(st, now), token, None), token, now).1 ==
             IsBlacklisted(Add(st, token, None), token, now).1) <==> !Stale(st, token, now)
  {
    var purged := RemoveExpired(st, now);
    assert token in purged.expiry <==> token in st.expiry && !Stale(st, token, now);
  }

  // ---------- the blacklist object ----------

  class Blacklist {
    var tokens: set<string>
    var expiry: map<string, real>

    constructor ()
      ensures Contents() == State({}, map[])
    {
      tokens, expiry := {}, map[];
    }

    function Contents(): State
      reads this
    {
      State(tokens, expiry)
    }

    method BlacklistToken(token: string, expiryTime: Option<real>)
      modifies this
      ensures Contents() == Add(old(Contents()), token, expiryTime)
    {
      tokens := tokens + {token};
      if expiryTime.Some? && expiryTime.value != 0.0 {
        expiry := expiry[token := expiryTime.value];
      }
    }

    method Check(token: string, now: real) returns (r: bool)
      modifies this
      ensures (Contents(), r) == IsBlacklisted(old(Contents()), token, now)
    {
      if token in tokens {
        if token in expiry && expiry[token] != 0.0 && now > expiry[token] {
          tokens := tokens - {token};
          expiry := expiry - {token};
          return false;
        }
        return true;
      }
      return false;
    }

    // Collects first, deletes afterwards.
    method RemoveExpiredTokens(now: real)
      modifies this
      ensures Contents() == RemoveExpired(old(Contents()), now)
    {
      var stale := set token | token in expiry && now > expiry[token];
      var rest := stale;
      while rest != {}
        invariant rest <= stale
        invariant Contents() == Drop(old(Contents()), stale - rest)
        decreases rest
      {
        var token :| token in rest;
        tokens := tokens - {token};
        expiry := expiry - {token};
        rest := rest - {token};
      }
    }

    method Clear()
      modifies this
      ensures Contents() == State({}, map[])
    {
      tokens, expiry := {}, map[];
    }

    // Counts after removing what has expired.
    method GetStats(now: real) returns (total: nat, active: nat)
      requires Valid(Contents())
      modifies this
      ensures Contents() == RemoveExpired(old(Contents()), now) && Valid(Contents())
      ensures total == |Contents().tokens|
      ensures active == |set t | t in Contents().expiry && now < Contents().expiry[t]| <= total
    {
      RemoveExpiredTokens(now);
      total := |tokens|;
      var live := set t | t in expiry && now < expiry[t];
      active := |live|;
      SubsetIsSmaller(live, tokens);
    }
  }

  lemma {:induction false} SubsetIsSmaller(a: set<string>, b: set<string>)
    requires a <= b
    ensures |a| <= |b|
  {
    if a != {} {
      var t :| t in a;
      SubsetIsSmaller(a - {t}, b - {t});
    }
  }
}
