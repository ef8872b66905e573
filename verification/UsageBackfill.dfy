// Back-filling usage metrics from old messages, batch by batch with LIMIT and
// OFFSET over a table that does not change meanwhile.
module UsageBackfill {
  import opened Basics

  datatype Message = Message(id: Id, role: string, agentId: Option<Id>, deletedAt: Option<Time>, createdAt: Time)

  datatype Metric = Metric(messageId: Id, agentId: Option<Id>, createdAt: Time)

  predicate Wanted(m: Message, dateFrom: Option<Time>) {
    && m.deletedAt.None? && m.role == "user" && m.agentId.Some?
    && (dateFrom.Some? ==> m.createdAt >= dateFrom.value)
  }

  // The eligible messages; `ms` is in the order of the query.
  function Eligible(ms: seq<Message>, dateFrom: Option<Time>): (r: seq<Message>)
    ensures forall m :: m in r <==> m in ms && Wanted(m, dateFrom)
  {
    if ms == [] then []
    else if Wanted(ms[0], dateFrom) then [ms[0]] + Eligible(ms[1..], dateFrom)
    else Eligible(ms[1..], dateFrom)
  }

  // ... LIMIT size OFFSET offset
  function Batch(es: seq<Message>, size: nat, offset: nat): (r: seq<Message>)
    ensures |r| == if offset >= |es| then 0 else if offset + size < |es| then size else |es| - offset
    ensures forall i :: 0 <= i < |r| ==> r[i] == es[offset + i]
  {
    if offset >= |es| then [] else if offset + size < |es| then es[offset..offset + size] else es[offset..]
  }

  function MetricOf(m: Message): Metric {
    Metric(m.id, m.agentId, m.createdAt)
  }

  // One metric for each message whose creation does not fail, in order.
  function MetricsOf(es: seq<Message>, fails: Id -> bool): seq<Metric> {
    if es == [] then []
    else
      MetricsOf(es[..|es| - 1], fails)
      + if fails(es[|es| - 1].id) then [] else [MetricOf(es[|es| - 1])]
  }

  lemma MetricsSnoc(es: seq<Message>, k: nat, fails: Id -> bool)
    requires k < |es|
    ensures MetricsOf(es[..k + 1], fails) ==
            MetricsOf(es[..k], fails) + if fails(es[k].id) then [] else [MetricOf(es[k])]
  {
    assert es[..k + 1][..k] == es[..k];
  }

  // Without failures message i gives metric i, with its own time.
  lemma {:induction false} MetricsInOrder(es: seq<Message>, fails: Id -> bool, i: nat)
    requires i < |es| && forall m :: m in es ==> !fails(m.id)
    ensures |MetricsOf(es, fails)| == |es|
            && MetricsOf(es, fails)[i] == Metric(es[i].id, es[i].agentId, es[i].createdAt)
  {
    var n := |es| - 1;
    assert es[n] in es && forall m :: m in es[..n] ==> m in es;
    if n > 0 {
      MetricsInOrder(es[..n], fails, if i < n then i else 0);
    }
  }

  // A user's message with an agent, not deleted and not older than the date.
  predicate Counts(m: Message, dateFrom: Option<Time>) {
    m.role == "user" && m.agentId != None && m.deletedAt == None && (dateFrom == None || dateFrom.value <= m.createdAt)
  }

  // Metric i is that of the message at place at[i], and the places are those of
  // the messages that count and do not fail.
  ghost predicate Recorded(ms: seq<Message>, dateFrom: Option<Time>, fails: Id -> bool, metrics: seq<Metric>,
                           at: seq<nat>)
  {
    && |at| == |metrics|
    && (forall i :: 0 <= i < |at| ==>
          at[i] < |ms| && metrics[i] == Metric(ms[at[i]].id, ms[at[i]].agentId, ms[at[i]].createdAt))
    && (forall i, j :: 0 <= i < j < |at| ==> at[i] < at[j])
    && (forall k: nat :: k in at <==> k < |ms| && Counts(ms[k], dateFrom) && !fails(ms[k].id))
  }

  lemma RecordedSnoc(ms: seq<Message>, m: Message, dateFrom: Option<Time>, fails: Id -> bool, metrics: seq<Metric>,
                     at: seq<nat>)
    requires Recorded(ms, dateFrom, fails, metrics, at)
    ensures if Counts(m, dateFrom) && !fails(m.id)
            then Recorded(ms + [m], dateFrom, fails, metrics + [Metric(m.id, m.agentId, m.createdAt)], at + [|ms|])
            else Recorded(ms + [m], dateFrom, fails, metrics, at)
  {
  }

  lemma {:induction false} EligibleSnoc(ms: seq<Message>, m: Message, dateFrom: Option<Time>)
    ensures !Counts(m, dateFrom) ==> Eligible(ms + [m], dateFrom) == Eligible(ms, dateFrom)
    ensures Counts(m, dateFrom) ==> Eligible(ms + [m], dateFrom) == Eligible(ms, dateFrom) + [m]
  {
    if ms == [] {
      assert [m][1..] == [] && ms + [m] == [m];
    } else {
      EligibleSnoc(ms[1..], m, dateFrom);
      assert (ms + [m])[1..] == ms[1..] + [m];
    }
  }

  lemma MetricsOfSnoc(es: seq<Message>, m: Message, fails: Id -> bool)
    ensures fails(m.id) ==> MetricsOf(es + [m], fails) == MetricsOf(es, fails)
    ensures !fails(m.id) ==> MetricsOf(es + [m], fails) == MetricsOf(es, fails) + [MetricOf(m)]
  {
    assert (es + [m])[..|es|] == es;
    assert MetricsOf(es, fails) + [] == MetricsOf(es, fails);
  }

  // A failing message gives no metric, and every other one that counts gives one.
  lemma {:induction false} MetricsRecorded(ms: seq<Message>, dateFrom: Option<Time>, fails: Id -> bool)
    returns (at: seq<nat>)
    ensures Recorded(ms, dateFrom, fails, MetricsOf(Eligible(ms, dateFrom), fails), at)
  {
    if ms == [] {
      at := [];
    } else {
      var front, m := ms[..|ms| - 1], ms[|ms| - 1];
      at := MetricsRecorded(front, dateFrom, fails);
      RecordedSnoc(front, m, dateFrom, fails, MetricsOf(Eligible(front, dateFrom), fails), at);
      assert front + [m] == ms;
      EligibleSnoc(front, m, dateFrom);
      MetricsOfSnoc(Eligible(front, dateFrom), m, fails);
      at := if Counts(m, dateFrom) && !fails(m.id) then at + [|front|] else at;
    }
  }

  // One batch: the metrics of es[offset..] are added up to the batch's end.
  method MigrateBatch(es: seq<Message>, batch: seq<Message>, offset: nat, fails: Id -> bool, metrics: seq<Metric>)
    returns (after: seq<Metric>, migrated: nat, errors: nat)
    requires offset + |batch| <= |es| && forall i :: 0 <= i < |batch| ==> batch[i] == es[offset + i]
    requires metrics == MetricsOf(es[..offset], fails)
    ensures after == MetricsOf(es[..offset + |batch|], fails)
    ensures |after| == |metrics| + migrated && migrated + errors == |batch|
  {
    after, migrated, errors := metrics, 0, 0;
    for i := 0 to |batch|
      invariant after == MetricsOf(es[..offset + i], fails)
      invariant |after| == |metrics| + migrated && migrated + errors == i
    {
      MetricsSnoc(es, offset + i, fails);
      if fails(batch[i].id) {
        errors := errors + 1;
      } else {
        after := after + [MetricOf(batch[i])];
        migrated := migrated + 1;
      }
    }
  }

  // With a positive batch size, every eligible message is visited exactly once
  // and in order, and all are accounted for; a batch size of zero does nothing.
  method MigrateHistoricalData(ms: seq<Message>, dateFrom: Option<Time>, batchSize: nat, fails: Id -> bool)
    returns (metrics: seq<Metric>, migrated: nat, errors: nat)
    ensures metrics == if batchSize > 0 then MetricsOf(Eligible(ms, dateFrom), fails) else []
    ensures batchSize > 0 ==> exists at :: Recorded(ms, dateFrom, fails, metrics, at)
    ensures migrated == |metrics|
    ensures migrated + errors == if batchSize > 0 then |Eligible(ms, dateFrom)| else 0
  {
    metrics, migrated, errors := [], 0, 0;
    var es := Eligible(ms, dateFrom);
    var total, offset, done := |es|, 0, 0;
    while offset < total
      invariant done <= total && (offset < total ==> done == offset) && (offset >= total ==> done == total)
      invariant metrics == MetricsOf(es[..done], fails)
      invariant migrated == |metrics| && migrated + errors == done
      invariant batchSize == 0 ==> offset == done == 0
      decreases total - offset
    {
      var batch := Batch(es, batchSize, offset);
      if batch == [] {
        break;
      }
      var batchMigrated, batchErrors;
      metrics, batchMigrated, batchErrors := MigrateBatch(es, batch, offset, fails, metrics);
      migrated, errors := migrated + batchMigrated, errors + batchErrors;
      offset, done := offset + batchSize, done + |batch|;
    }
    assert es[..total] == es;
    ghost var at := MetricsRecorded(ms, dateFrom, fails);
  }
}
