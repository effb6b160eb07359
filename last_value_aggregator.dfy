/**
 * The last-value aggregator for long measurements. Each series (one
 * attribute set of one instrument) has a handle holding at most one value:
 * `RecordLong` overwrites it, and `AccumulateThenMaybeReset` reports it as
 * an accumulation and, when asked to reset, empties the handle so that the
 * value is not reported again. `ToMetricData` turns the accumulations of
 * one collection into a long gauge snapshot.
 *
 * The aggregator is the one built with the no-samples exemplar reservoir,
 * so every accumulation carries an empty exemplar list.
 */
module LastValueAggregator {
  import opened Wrappers

  /** Java's `long`. */
  type Long = x: int | -0x8000_0000_0000_0000 <= x < 0x8000_0000_0000_0000

  /** An attribute set; opaque here, it is only carried through. */
  datatype Attributes = Attributes(entries: map<string, string>)

  const EmptyAttributes := Attributes(map[])

  /** A sampled measurement; the no-samples reservoir never produces one. */
  datatype LongExemplar = LongExemplar(filteredAttributes: Attributes, epochNanos: Long, value: Long, spanId: string, traceId: string)

  datatype LongAccumulation = LongAccumulation(value: Long, exemplars: seq<LongExemplar>)

  /** What a handle has been asked to do, in order: the history of one series. */
  datatype Op = Recorded(value: Long) | Accumulated(reset: bool)

  /**
   * The value a handle holds after `ops`, starting from a fresh handle:
   * a record overwrites it, a resetting accumulate clears it, a
   * non-resetting accumulate leaves it.
   */
  function Held(ops: seq<Op>): (r: Option<Long>)
    ensures r.Some? ==> Recorded(r.value) in ops
  {
    if ops == [] then None
    else
      match ops[|ops| - 1]
      case Recorded(v) => Some(v)
      case Accumulated(reset) =>
        if reset then None
        else
          assert forall x :: x in ops[..|ops| - 1] ==> x in ops;
          Held(ops[..|ops| - 1])
  }

  /** What an accumulate reports when the handle holds `held`. */
  function Report(held: Option<Long>): Option<LongAccumulation>
  {
    match held
    case None => None
    case Some(v) => Some(LongAccumulation(v, []))
  }

  /**
   * `v` was recorded and since then nothing but non-resetting accumulates
   * happened: it is the value an accumulate would report now.
   */
  ghost predicate LastRecordSinceReset(ops: seq<Op>, v: Long)
  {
    exists i :: 0 <= i < |ops| && ops[i] == Recorded(v) && NothingButReads(ops, i + 1)
  }

  ghost predicate NothingButReads(ops: seq<Op>, from: nat)
  {
    forall j :: from <= j < |ops| ==> ops[j] == Accumulated(false)
  }

  /** Every record has been followed by a resetting accumulate. */
  ghost predicate AllReported(ops: seq<Op>)
  {
    forall i :: 0 <= i < |ops| && ops[i].Recorded? ==>
      exists j :: i < j < |ops| && ops[j] == Accumulated(true)
  }

  /**
   * The handle holds `v` exactly when `v` is the last record not yet
   * cleared by a resetting accumulate: last write wins and a report is
   * never repeated across a reset.
   */
  lemma {:induction false} HeldIsLastRecordSinceReset(ops: seq<Op>, v: Long)
    ensures Held(ops) == Some(v) <==> LastRecordSinceReset(ops, v)
  {
    if ops != [] {
      var n := |ops| - 1;
      var prefix := ops[..n];
      assert forall k :: 0 <= k < n ==> ops[k] == prefix[k];
      match ops[n]
      case Recorded(w) =>
        if w == v {
          assert NothingButReads(ops, n + 1);
        }
      case Accumulated(reset) =>
        if !reset {
          HeldIsLastRecordSinceReset(prefix, v);
          if LastRecordSinceReset(ops, v) {
            var i :| 0 <= i < |ops| && ops[i] == Recorded(v) && NothingButReads(ops, i + 1);
            assert i < n && NothingButReads(prefix, i + 1);
          }
          if LastRecordSinceReset(prefix, v) {
            var i :| 0 <= i < |prefix| && prefix[i] == Recorded(v) && NothingButReads(prefix, i + 1);
            assert NothingButReads(ops, i + 1);
          }
        }
    }
  }

  /** The handle is empty exactly when every record has been reported with a reset. */
  lemma {:induction false} HeldNoneIffAllReported(ops: seq<Op>)
    ensures Held(ops) == None <==> AllReported(ops)
  {
    if ops != [] {
      var n := |ops| - 1;
      var prefix := ops[..n];
      assert forall k :: 0 <= k < n ==> ops[k] == prefix[k];
      match ops[n]
      case Recorded(w) =>
      case Accumulated(reset) =>
        if reset {
          forall i | 0 <= i < |ops| && ops[i].Recorded?
            ensures exists j :: i < j < |ops| && ops[j] == Accumulated(true)
          {
            assert i < n && ops[n] == Accumulated(true);
          }
        } else {
          HeldNoneIffAllReported(prefix);
          if AllReported(ops) {
            forall i | 0 <= i < |prefix| && prefix[i].Recorded?
              ensures exists j :: i < j < |prefix| && prefix[j] == Accumulated(true)
            {
              var j :| i < j < |ops| && ops[j] == Accumulated(true);
              assert j < n;
              assert prefix[j] == Accumulated(true);
            }
          }
          if AllReported(prefix) {
            forall i | 0 <= i < |ops| && ops[i].Recorded?
              ensures exists j :: i < j < |ops| && ops[j] == Accumulated(true)
            {
              assert i < n;
              var j :| i < j < |prefix| && prefix[j] == Accumulated(true);
              assert ops[j] == Accumulated(true);
            }
          }
        }
    }
  }

  /**
   * No double reporting: once a resetting accumulate has run, a later
   * accumulate reports a value only if a record happened in between.
   */
  lemma NoDoubleReport(ops: seq<Op>, k1: nat, k2: nat)
    requires k1 < k2 < |ops| && ops[k1] == Accumulated(true)
    requires Report(Held(ops[..k2])).Some?
    ensures exists j :: k1 < j < k2 && ops[j].Recorded?
  {
    var prefix := ops[..k2];
    var v := Held(prefix).value;
    HeldIsLastRecordSinceReset(prefix, v);
    var i :| 0 <= i < |prefix| && prefix[i] == Recorded(v) && NothingButReads(prefix, i + 1);
    assert i != k1 && ops[i] == prefix[i];
  }

  /**
   * No lost update: a record followed by nothing but non-resetting
   * accumulates is what the next accumulate reports, whatever came before.
   */
  lemma NoLostUpdate(ops: seq<Op>, i: nat, k: nat)
    requires i < k <= |ops| && ops[i].Recorded?
    requires forall j :: i < j < k ==> ops[j] == Accumulated(false)
    ensures Report(Held(ops[..k])) == Some(LongAccumulation(ops[i].value, []))
  {
    var prefix := ops[..k];
    assert prefix[i] == ops[i];
    assert NothingButReads(prefix, i + 1);
    HeldIsLastRecordSinceReset(prefix, ops[i].value);
  }

  /**
   * The per-series accumulator. `current` is the value held since the last
   * resetting accumulate, None while the handle is empty; `history` is the
   * ghost record of the calls made on the handle.
   */
  class Handle {
    var current: Option<Long>
    ghost var history: seq<Op>

    ghost predicate Valid()
      reads this
    {
      current == Held(history)
    }

    constructor ()
      ensures Valid() && history == [] && current == None
    {
      current := None;
      history := [];
    }

    /** Overwrites the held value: the last write wins. */
    method RecordLong(value: Long)
      requires Valid()
      modifies this
      ensures Valid()
      ensures history == old(history) + [Recorded(value)]
      ensures current == Some(value)
    {
      current := Some(value);
      history := history + [Recorded(value)];
    }

    /**
     * Reports the held value (None when the handle is empty) with the
     * exemplars of the no-samples reservoir, and empties the handle when
     * `reset` is set. The attributes would filter exemplars; there are none.
     */
    method AccumulateThenMaybeReset(attributes: Attributes, reset: bool) returns (r: Option<LongAccumulation>)
      requires Valid()
      modifies this
      ensures Valid()
      ensures history == old(history) + [Accumulated(reset)]
      ensures r == Report(Held(old(history)))
      ensures current == if reset then None else old(current)
    {
      if current.None? {
        r := None;
      } else {
        r := Some(LongAccumulation(current.value, []));
      }
      if reset {
        current := None;
      }
      history := history + [Accumulated(reset)];
    }
  }

  /** A new handle, sharing nothing with any other handle. */
  method CreateHandle() returns (h: Handle)
    ensures fresh(h) && h.Valid() && h.history == [] && h.current == None
  {
    h := new Handle();
  }

  datatype AggregationTemporality = Cumulative | Delta

  datatype MetricDescriptor = MetricDescriptor(name: string, description: string, unit: string)

  /** Resource and instrumentation scope are carried through unchanged. */
  datatype Resource = Resource(attributes: Attributes, schemaUrl: Option<string>)

  datatype InstrumentationScopeInfo = InstrumentationScopeInfo(name: string, version: Option<string>, schemaUrl: Option<string>)

  datatype LongPointData = LongPointData(startEpochNanos: Long, epochNanos: Long, attributes: Attributes, value: Long, exemplars: seq<LongExemplar>)

  /** A long gauge snapshot; the point collection has no order. */
  datatype MetricData = LongGauge(
    resource: Resource, scope: InstrumentationScopeInfo,
    name: string, description: string, unit: string,
    points: set<LongPointData>)

  function PointFor(accumulations: map<Attributes, LongAccumulation>, a: Attributes, start: Long, end: Long): LongPointData
    requires a in accumulations
  {
    LongPointData(start, end, a, accumulations[a].value, accumulations[a].exemplars)
  }

  /** One point per attribute set, all sharing the start and end times. */
  function ToLongPoints(accumulations: map<Attributes, LongAccumulation>, start: Long, end: Long): set<LongPointData>
  {
    set a | a in accumulations :: PointFor(accumulations, a, start, end)
  }

  /** Every attribute set of the map has its point among the points. */
  lemma PointsCover(accumulations: map<Attributes, LongAccumulation>, start: Long, end: Long)
    ensures forall a :: a in accumulations ==> exists p :: p in ToLongPoints(accumulations, start, end) && p.attributes == a
  {
    forall a | a in accumulations
      ensures exists p :: p in ToLongPoints(accumulations, start, end) && p.attributes == a
    {
      assert PointFor(accumulations, a, start, end) in ToLongPoints(accumulations, start, end);
    }
  }

  lemma {:induction false} PointsSize(accumulations: map<Attributes, LongAccumulation>, keys: set<Attributes>, start: Long, end: Long)
    requires keys <= accumulations.Keys
    ensures |set a | a in keys :: PointFor(accumulations, a, start, end)| == |keys|
    decreases |keys|
  {
    if keys != {} {
      var a :| a in keys;
      var rest := keys - {a};
      PointsSize(accumulations, rest, start, end);
      var all := set x | x in keys :: PointFor(accumulations, x, start, end);
      var others := set x | x in rest :: PointFor(accumulations, x, start, end);
      assert all == others + {PointFor(accumulations, a, start, end)};
      assert PointFor(accumulations, a, start, end) !in others;
    }
  }

  /**
   * The gauge for one collection: a long gauge that copies the
   * descriptor's name, description and unit, holds exactly one point per
   * attribute set, each with that set's value and exemplars, and stamps
   * every point with the start time and the collection time. Last-value
   * ignores temporality except for the start time: the start of the series
   * for a cumulative reader, the previous collection for a delta reader.
   */
  function ToMetricData(
    resource: Resource, scope: InstrumentationScopeInfo, descriptor: MetricDescriptor,
    accumulations: map<Attributes, LongAccumulation>, temporality: AggregationTemporality,
    startEpochNanos: Long, lastCollectionEpoch: Long, epochNanos: Long): (md: MetricData)
    ensures md.resource == resource && md.scope == scope
    ensures md.name == descriptor.name && md.description == descriptor.description && md.unit == descriptor.unit
    ensures |md.points| == |accumulations|
    ensures forall p :: p in md.points ==>
      && p.attributes in accumulations
      && p.value == accumulations[p.attributes].value
      && p.exemplars == accumulations[p.attributes].exemplars
      && p.startEpochNanos == (if temporality == Cumulative then startEpochNanos else lastCollectionEpoch)
      && p.epochNanos == epochNanos
    ensures forall a :: a in accumulations ==> exists p :: p in md.points && p.attributes == a
  {
    var start := if temporality == Cumulative then startEpochNanos else lastCollectionEpoch;
    PointsSize(accumulations, accumulations.Keys, start, epochNanos);
    PointsCover(accumulations, start, epochNanos);
    LongGauge(resource, scope, descriptor.name, descriptor.description, descriptor.unit,
      ToLongPoints(accumulations, start, epochNanos))
  }

  /** Record 12, report; record 13 then 14, report: the reports are 12 and 14. */
  method MultipleRecords() returns (first: Option<LongAccumulation>, second: Option<LongAccumulation>)
    ensures first == Some(LongAccumulation(12, []))
    ensures second == Some(LongAccumulation(14, []))
  {
    var h := CreateHandle();
    h.RecordLong(12);
    first := h.AccumulateThenMaybeReset(EmptyAttributes, true);
    h.RecordLong(13);
    h.RecordLong(14);
    second := h.AccumulateThenMaybeReset(EmptyAttributes, true);
  }

  /**
   * A fresh handle reports nothing; each record is reported once by the
   * next resetting accumulate and the one after it reports nothing; the
   * handle is reused after an empty report.
   */
  method AccumulateAndReset() returns (reports: seq<Option<LongAccumulation>>)
    ensures reports == [None, Some(LongAccumulation(13, [])), None, Some(LongAccumulation(12, [])), None]
  {
    var h := CreateHandle();
    var r0 := h.AccumulateThenMaybeReset(EmptyAttributes, true);
    h.RecordLong(13);
    var r1 := h.AccumulateThenMaybeReset(EmptyAttributes, true);
    var r2 := h.AccumulateThenMaybeReset(EmptyAttributes, true);
    h.RecordLong(12);
    var r3 := h.AccumulateThenMaybeReset(EmptyAttributes, true);
    var r4 := h.AccumulateThenMaybeReset(EmptyAttributes, true);
    reports := [r0, r1, r2, r3, r4];
  }

  /**
   * Record 10, report, and build the cumulative gauge with start 2, last
   * collection 10 and collection time 100: one point from 2 to 100 with
   * value 10 and no exemplars.
   */
  method SingleSeriesGauge(resource: Resource, scope: InstrumentationScopeInfo) returns (md: MetricData)
    ensures md == LongGauge(resource, scope, "name", "description", "unit",
      {LongPointData(2, 100, EmptyAttributes, 10, [])})
  {
    var h := CreateHandle();
    h.RecordLong(10);
    var r := h.AccumulateThenMaybeReset(EmptyAttributes, true);
    md := ToMetricData(resource, scope, MetricDescriptor("name", "description", "unit"),
      map[EmptyAttributes := r.value], Cumulative, 2, 10, 100);
    var accumulations := map[EmptyAttributes := r.value];
    var points := ToLongPoints(accumulations, 2, 100);
    assert PointFor(accumulations, EmptyAttributes, 2, 100) in points;
    assert points == {LongPointData(2, 100, EmptyAttributes, 10, [])};
  }
}
