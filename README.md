# OpenTelemetry Java: last-value aggregator and W3C baggage codec

This project models two small parts of OpenTelemetry Java and proves
properties of them in Dafny.

**The long last-value aggregator** (`last_value_aggregator.dfy`)
- A `Handle` holds the last value recorded for one series.
- `RecordLong` overwrites that value.
- `AccumulateThenMaybeReset` reports the value as an accumulation. The
  accumulation has no exemplars, because the aggregator uses the no-samples
  reservoir. When asked to reset, it also empties the handle.
- A ghost history of the calls ties the handle's state to the pure function
  `Held`. The lemmas about `Held` state the promises:
  - the last write wins;
  - nothing is reported twice across a reset;
  - no record is lost.
- `ToMetricData` builds a long gauge with one point per attribute set. It
  copies the descriptor's name, description and unit. Each point runs from
  the start time to the collection time. The tests use a cumulative reader,
  whose start time is the start of the series. For a delta reader the start
  time is the previous collection, as the OpenTelemetry metrics SDK does.

**The W3C `baggage` header codec** (section 3.2, "Header Content", of the W3C
Baggage specification)
- `Extract` reads a header into canonical baggage:
  - the header is a `,`-separated list of members;
  - a key ends at the first `=`, and the value ends at the first `;` after it;
  - the rest of the member is one opaque metadata text;
  - optional whitespace (space and tab) is trimmed around each part;
  - the value and the metadata are percent-decoded.
- A member that does not parse is skipped. When a key repeats, the last
  member with that key wins.
- Baggage is a list of entries sorted by key, as the immutable baggage of the
  API keeps it (`baggage.dfy`).
- `Inject` writes a header. Every octet of a value or metadata outside
  ALPHA, DIGIT and `- . _ ~ ! $ & ' ( ) * @` is escaped as `%XY`, with XY in
  upper-case hexadecimal.
- `percent_codec.dfy` holds the percent codec and its round trip.
- `written_members.dfy` holds generic lemmas that read and write one member
  laid out with padding.
- `w3c_spec_test.dfy` states each case of the W3C test suite as a lemma about
  `Extract` and `Inject`.
- `w3c_limits.dfy` holds the three size cases. Each is proved for every size
  and then instantiated at the sizes the tests use: 64 members, an
  8190-octet value, and 512 members in 8192 characters.

The behaviour is taken from the repository's tests
`LongLastValueAggregatorTest.java` and `W3cSpecTest.java`. The implementation
classes `W3CBaggagePropagator`, `ImmutableBaggage` and
`LongLastValueAggregator` are not part of this model. Where the tests leave
a behaviour open, the model follows the W3C Baggage specification and the
documented OpenTelemetry behaviour. That covers:
- which members are refused;
- the choice of literal characters outside those the tests show;
- the delta start time;
- a non-resetting accumulate;
- skipping entries whose key is not a token when writing a header;
- percent-decoding the metadata when reading a header: no metadata in the
  tests holds a `%`, and only its encoding on `inject` is shown;
- refusing a whole member whose value or metadata does not decode, for
  example metadata `%ZZ`; the member is then skipped like any other invalid
  member.

## Model

| member | source | states |
|---|---|---|
| `LastValueAggregator.Handle.RecordLong` | sdk/metrics/src/test/java/io/opentelemetry/sdk/metrics/internal/aggregator/LongLastValueAggregatorTest.java:43 | the handle now holds exactly the recorded value (last write wins); the history grows by that record and the handle's invariant `current == Held(history)` is kept |
| `LastValueAggregator.Handle.AccumulateThenMaybeReset` | sdk/metrics/src/test/java/io/opentelemetry/sdk/metrics/internal/aggregator/LongLastValueAggregatorTest.java:60-81 | reports the held value with no exemplars, or nothing for an empty handle; with reset the handle becomes empty, without it the value stays; the invariant is kept |
| `LastValueAggregator.CreateHandle` | sdk/metrics/src/test/java/io/opentelemetry/sdk/metrics/internal/aggregator/LongLastValueAggregatorTest.java:34-37 | a new handle that shares nothing with other handles, is empty and has no history |
| `LastValueAggregator.Held` | sdk/metrics/src/test/java/io/opentelemetry/sdk/metrics/internal/aggregator/LongLastValueAggregatorTest.java:43-55 | the value a handle holds after a sequence of calls; a held value is always one that was recorded |
| `LastValueAggregator.HeldIsLastRecordSinceReset` | sdk/metrics/src/test/java/io/opentelemetry/sdk/metrics/internal/aggregator/LongLastValueAggregatorTest.java:49-55 | after any sequence of calls the handle holds `v` if and only if `v` was recorded and only non-resetting accumulates followed it |
| `LastValueAggregator.HeldNoneIffAllReported` | sdk/metrics/src/test/java/io/opentelemetry/sdk/metrics/internal/aggregator/LongLastValueAggregatorTest.java:71-72 | the handle is empty if and only if every record was followed by a resetting accumulate |
| `LastValueAggregator.NoDoubleReport` | sdk/metrics/src/test/java/io/opentelemetry/sdk/metrics/internal/aggregator/LongLastValueAggregatorTest.java:65-81 | after a resetting accumulate, a later accumulate reports a value only if a record happened in between |
| `LastValueAggregator.NoLostUpdate` | sdk/metrics/src/test/java/io/opentelemetry/sdk/metrics/internal/aggregator/LongLastValueAggregatorTest.java:74-79 | a record followed only by non-resetting accumulates is what the next accumulate reports, whatever happened before, so the handle is reusable after a reset |
| `LastValueAggregator.MultipleRecords` | sdk/metrics/src/test/java/io/opentelemetry/sdk/metrics/internal/aggregator/LongLastValueAggregatorTest.java:39-56 | recording 12 and reporting gives 12; recording 13 then 14 and reporting gives 14 |
| `LastValueAggregator.AccumulateAndReset` | sdk/metrics/src/test/java/io/opentelemetry/sdk/metrics/internal/aggregator/LongLastValueAggregatorTest.java:58-82 | the five reports of the test are nothing, 13, nothing, 12, nothing |
| `LastValueAggregator.ToMetricData` | sdk/metrics/src/test/java/io/opentelemetry/sdk/metrics/internal/aggregator/LongLastValueAggregatorTest.java:90-101 | the snapshot is a long gauge with the given resource and scope and the descriptor's name, description and unit; it has exactly one point per attribute set, carrying that set's value and exemplars; every point runs from the temporality's start time to the collection time |
| `LastValueAggregator.SingleSeriesGauge` | sdk/metrics/src/test/java/io/opentelemetry/sdk/metrics/internal/aggregator/LongLastValueAggregatorTest.java:84-113 | recording 10 and building the cumulative gauge with times 2, 10 and 100 gives one point from 2 to 100 with value 10, empty attributes and no exemplars |
| `PercentCodec.DecodeEncode` | api/all/src/test/java/io/opentelemetry/api/baggage/propagation/W3cSpecTest.java:188-204 | every octet string is recovered by decoding its encoding |
| `PercentCodec.Encode` | api/all/src/test/java/io/opentelemetry/api/baggage/propagation/W3cSpecTest.java:197-204 | the wire form of an octet string: each octet is written as itself or as a three-character escape, so the wire form is between one and three times as long as the octets |
| `PercentCodec.Decode` | api/all/src/test/java/io/opentelemetry/api/baggage/propagation/W3cSpecTest.java:188-195 | the octets a wire form denotes: a decoded result has between a third of the wire length and the wire length; `DecodeEncode` makes it the inverse of `Encode` |
| `PercentCodec.DecodeEscapeAll` | api/all/src/test/java/io/opentelemetry/api/baggage/propagation/W3cSpecTest.java:188-195 | a text with every octet escaped decodes to the original octets |
| `PercentCodec.EncodeIsBaggageText` | api/all/src/test/java/io/opentelemetry/api/baggage/propagation/W3cSpecTest.java:197-204 | the encoding is made of baggage-octets only and holds no `=` |
| `PercentCodec.EncodeLiteral` | api/all/src/test/java/io/opentelemetry/api/baggage/propagation/W3cSpecTest.java:197-204 | a text made of literal characters is written as itself |
| `PercentCodec.EncodeAppend` | api/all/src/test/java/io/opentelemetry/api/baggage/propagation/W3cSpecTest.java:204 | encoding works octet by octet: the encoding of a concatenation is the concatenation of the encodings |
| `PercentCodec.DecodeAppend` | api/all/src/test/java/io/opentelemetry/api/baggage/propagation/W3cSpecTest.java:189-195 | decoding works unit by unit: two texts that decode give their decodings concatenated |
| `ImmutableBaggage.Put` | api/all/src/test/java/io/opentelemetry/api/baggage/propagation/W3cSpecTest.java:43 | the builder's `put`: the result stays in canonical key order, holds the new entry, drops the old entry with that key and keeps every entry with another key |
| `ImmutableBaggage.Get` | api/all/src/test/java/io/opentelemetry/api/baggage/propagation/W3cSpecTest.java:43-45 | the entry stored under a key: it is in the baggage and has that key; nothing is returned only when no entry has that key |
| `ImmutableBaggage.GetPut` | api/all/src/test/java/io/opentelemetry/api/baggage/propagation/W3cSpecTest.java:43 | after a put, the key put maps to the new entry and every other key keeps its entry |
| `ImmutableBaggage.PutSize` | api/all/src/test/java/io/opentelemetry/api/baggage/propagation/W3cSpecTest.java:58-61 | a put grows the baggage by one entry exactly when its key was absent |
| `ImmutableBaggage.SortedSize` | api/all/src/test/java/io/opentelemetry/api/baggage/propagation/W3cSpecTest.java:336-337 | canonical baggage has as many entries as distinct keys |
| `W3cBaggagePropagator.Extract` | api/all/src/test/java/io/opentelemetry/api/baggage/propagation/W3cSpecTest.java:40-44 | the propagator's `extract` on the header text: the baggage read is in canonical order with token keys; a missing header gives empty baggage; every entry read comes from a valid member of the header |
| `W3cBaggagePropagator.ParseMember` | api/all/src/test/java/io/opentelemetry/api/baggage/propagation/W3cSpecTest.java:40-44 | one list member to an entry: a parsed entry has a token key, and a member without `=` is refused (it is then skipped) |
| `W3cBaggagePropagator.SerializedMembers` | api/all/src/test/java/io/opentelemetry/api/baggage/propagation/W3cSpecTest.java:47-49 | the members written for a baggage, one per entry at most; entries whose key is not a token are skipped, so the list is empty exactly when no key is a token |
| `W3cBaggagePropagator.Inject` | api/all/src/test/java/io/opentelemetry/api/baggage/propagation/W3cSpecTest.java:47-49 | the propagator's `inject`: no header is set exactly when no entry has a token key, because entries whose key is not a token are skipped (no test pins this); `ExtractInject` makes `Extract` its inverse |
| `W3cBaggagePropagator.ExtractInject` | api/all/src/test/java/io/opentelemetry/api/baggage/propagation/W3cSpecTest.java:46-49 | every baggage in canonical order with token keys, whatever its values and metadata hold, is read back unchanged from the header written for it |
| `W3cBaggagePropagator.ExtractGet` | api/all/src/test/java/io/opentelemetry/api/baggage/propagation/W3cSpecTest.java:55-63 | for every key, the extracted baggage holds the entry of the last valid member with that key, and nothing when no valid member has it |
| `W3cBaggagePropagator.ExtractSize` | api/all/src/test/java/io/opentelemetry/api/baggage/propagation/W3cSpecTest.java:334-337 | the extracted keys are exactly the keys of the valid members, one entry each |
| `W3cBaggagePropagator.ParseSerializedEntry` | api/all/src/test/java/io/opentelemetry/api/baggage/propagation/W3cSpecTest.java:65-70 | a member written for an entry with a token key parses back to that entry |
| `W3cBaggagePropagator.SerializeEntry` | api/all/src/test/java/io/opentelemetry/api/baggage/propagation/W3cSpecTest.java:65-70 | the member written for one entry: when the key is a token it never contains the list separator `,`; `ParseSerializedEntry` reads it back |
| `W3cBaggagePropagator.ExtractSingle` | api/all/src/test/java/io/opentelemetry/api/baggage/propagation/W3cSpecTest.java:162-166 | a header holding one valid member extracts to that member's entry alone |
| `W3cBaggagePropagator.ExtractPair` | api/all/src/test/java/io/opentelemetry/api/baggage/propagation/W3cSpecTest.java:55-63 | a header of two valid members whose keys are in canonical order extracts to both entries, in that order |
| `W3cBaggagePropagator.InjectSmall` | api/all/src/test/java/io/opentelemetry/api/baggage/propagation/W3cSpecTest.java:65-70 | the header for one or two token-keyed entries is their members joined by `,` |
| `WrittenMembers.ReadMember` | api/all/src/test/java/io/opentelemetry/api/baggage/propagation/W3cSpecTest.java:246-254 | a member laid out as key, `=`, value and optional `;` metadata, each padded with whitespace, parses to the entry its trimmed texts decode to, and holds no `,` |
| `WrittenMembers.ReadBare` | api/all/src/test/java/io/opentelemetry/api/baggage/propagation/W3cSpecTest.java:246-254 | a padded `key=value` member parses to the key, the decoded value and empty metadata |
| `WrittenMembers.ReadWithMetadata` | api/all/src/test/java/io/opentelemetry/api/baggage/propagation/W3cSpecTest.java:270-280 | a padded `key=value;metadata` member parses to the key, the decoded value and the decoded metadata |
| `WrittenMembers.RewriteOne` | api/all/src/test/java/io/opentelemetry/api/baggage/propagation/W3cSpecTest.java:46-49 | a header that extracts to one token-keyed entry is written back as that entry's member text |
| `WrittenMembers.RewriteTwo` | api/all/src/test/java/io/opentelemetry/api/baggage/propagation/W3cSpecTest.java:65-70 | a header that extracts to two token-keyed entries is written back as their two member texts joined by `,` |
| `W3cSpecTest.InjectSimple` | api/all/src/test/java/io/opentelemetry/api/baggage/propagation/W3cSpecTest.java:36-50 | `SomeKey=SomeValue` is written back unchanged after it is extracted |
| `W3cSpecTest.ParseSimple` | api/all/src/test/java/io/opentelemetry/api/baggage/propagation/W3cSpecTest.java:158-167 | `SomeKey=SomeValue` extracts to the one entry `SomeKey` → `SomeValue` with empty metadata |
| `W3cSpecTest.ParseMultiple` | api/all/src/test/java/io/opentelemetry/api/baggage/propagation/W3cSpecTest.java:52-63 | two members with metadata extract to two entries in key order, each with its own metadata; the metadata `ValueProp=PropVal` keeps its `=` |
| `W3cSpecTest.InjectMultiple` | api/all/src/test/java/io/opentelemetry/api/baggage/propagation/W3cSpecTest.java:65-70 | the same baggage is written back with the metadata's `=` escaped as `%3D` |
| `W3cSpecTest.ParseMultipleOws` | api/all/src/test/java/io/opentelemetry/api/baggage/propagation/W3cSpecTest.java:73-91 | with space and tab around every part, the entries are the same, and the metadata keeps its inner whitespace around `=` |
| `W3cSpecTest.InjectMultipleOws` | api/all/src/test/java/io/opentelemetry/api/baggage/propagation/W3cSpecTest.java:93-101 | written back without the outer whitespace; the metadata's inner whitespace and `=` are escaped |
| `W3cSpecTest.ParseMultipleKvProperty` | api/all/src/test/java/io/opentelemetry/api/baggage/propagation/W3cSpecTest.java:104-115 | two members whose metadata are key-value properties extract to two entries with those metadata |
| `W3cSpecTest.InjectMultipleKvProperty` | api/all/src/test/java/io/opentelemetry/api/baggage/propagation/W3cSpecTest.java:117-124 | written back with each property's `=` escaped |
| `W3cSpecTest.ParseMultipleKvPropertyOws` | api/all/src/test/java/io/opentelemetry/api/baggage/propagation/W3cSpecTest.java:127-145 | the padded form extracts to the entries with trimmed metadata that keeps its inner whitespace |
| `W3cSpecTest.InjectMultipleKvPropertyOws` | api/all/src/test/java/io/opentelemetry/api/baggage/propagation/W3cSpecTest.java:147-155 | written back as `SomePropKey%3DSomePropValue` and `SomePropKey2%20%09%20%3D%20%09%20SomePropValue2` |
| `W3cSpecTest.ParseMultipleEquals` | api/all/src/test/java/io/opentelemetry/api/baggage/propagation/W3cSpecTest.java:169-178 | the key ends at the first `=`: `SomeKey=SomeValue=equals` gives the value `SomeValue=equals` |
| `W3cSpecTest.ParsePercentEncoded` | api/all/src/test/java/io/opentelemetry/api/baggage/propagation/W3cSpecTest.java:180-195 | the fully escaped value decodes to the test's original value: TAB, space, then `"';=asdf!@#$%^&*(),\x` |
| `W3cSpecTest.InjectPercentEncoded` | api/all/src/test/java/io/opentelemetry/api/baggage/propagation/W3cSpecTest.java:197-204 | written back as `%09%20%22'%3B%3Dasdf!@%23$%25%5E&*()%2C%5Cx`: `' ! @ $ & * ( )` literal, the rest escaped |
| `W3cSpecTest.ParseProperty` | api/all/src/test/java/io/opentelemetry/api/baggage/propagation/W3cSpecTest.java:207-217 | `SomeKey=SomeValue;SomeProp` gives the metadata `SomeProp` |
| `W3cSpecTest.ParseMultiProperty` | api/all/src/test/java/io/opentelemetry/api/baggage/propagation/W3cSpecTest.java:219-230 | a second `;` stays inside the metadata: `SomeProp;SecondProp=PropValue` |
| `W3cSpecTest.ParseKvProperty` | api/all/src/test/java/io/opentelemetry/api/baggage/propagation/W3cSpecTest.java:232-243 | a key-value property is kept as the metadata text `SomePropKey=SomePropValue` |
| `W3cSpecTest.ParseSimpleOws` | api/all/src/test/java/io/opentelemetry/api/baggage/propagation/W3cSpecTest.java:245-254 | space and tab around key and value are trimmed |
| `W3cSpecTest.ParsePercentEncodedOws` | api/all/src/test/java/io/opentelemetry/api/baggage/propagation/W3cSpecTest.java:256-268 | whitespace is trimmed around an escaped value, which then decodes to the original |
| `W3cSpecTest.ParsePropertyOws` | api/all/src/test/java/io/opentelemetry/api/baggage/propagation/W3cSpecTest.java:270-280 | whitespace is trimmed around key, value and metadata |
| `W3cSpecTest.ParseMultiPropertyOws` | api/all/src/test/java/io/opentelemetry/api/baggage/propagation/W3cSpecTest.java:282-298 | the trimmed metadata keeps the whitespace inside it around `;` and `=` |
| `W3cSpecTest.ParseKvPropertyOws` | api/all/src/test/java/io/opentelemetry/api/baggage/propagation/W3cSpecTest.java:300-317 | the trimmed key-value property keeps its inner whitespace around `=` |
| `W3cLimits.ExtractDistinctSize` | api/all/src/test/java/io/opentelemetry/api/baggage/propagation/W3cSpecTest.java:334-337 | a header of valid members with pairwise distinct keys extracts to one entry per member |
| `W3cLimits.ExtractSortedMembers` | api/all/src/test/java/io/opentelemetry/api/baggage/propagation/W3cSpecTest.java:379-384 | a header of valid members whose entries are in key order extracts to exactly those entries |
| `W3cLimits.CountedHeaderSize` | api/all/src/test/java/io/opentelemetry/api/baggage/propagation/W3cSpecTest.java:320-338 | for every n ≥ 1, the header `key0=value,…,key<n-1>=value` extracts to n entries |
| `W3cLimits.SerializeAtLeast64` | api/all/src/test/java/io/opentelemetry/api/baggage/propagation/W3cSpecTest.java:319-338 | the 64-member header extracts to 64 entries |
| `W3cLimits.LongEntry` | api/all/src/test/java/io/opentelemetry/api/baggage/propagation/W3cSpecTest.java:341-362 | for every n, `a=` followed by n copies of `0123456789` extracts to the one entry `a` with the 10n-octet value, and is written back unchanged in 10n+2 characters |
| `W3cLimits.SerializeLongEntry` | api/all/src/test/java/io/opentelemetry/api/baggage/propagation/W3cSpecTest.java:340-362 | at n = 819 the value has 8190 octets and the header written back has 8192 characters |
| `W3cLimits.ManyEntriesRoundTrip` | api/all/src/test/java/io/opentelemetry/api/baggage/propagation/W3cSpecTest.java:365-387 | for every 1 ≤ n ≤ 1000, the n members `000=0123456789a,…` with a final `b` extract to the n entries in order, are written back unchanged, and take 16n characters |
| `W3cLimits.SerializeManyEntries` | api/all/src/test/java/io/opentelemetry/api/baggage/propagation/W3cSpecTest.java:364-388 | at n = 512 the header written back is the one read, and it has 8192 characters |
| `W3cLimits.DecimalValueOfDecimal` | api/all/src/test/java/io/opentelemetry/api/baggage/propagation/W3cSpecTest.java:326 | the decimal text of a number reads back as that number, so the keys `key<i>` are pairwise distinct |
| `W3cLimits.Pad3Order` | api/all/src/test/java/io/opentelemetry/api/baggage/propagation/W3cSpecTest.java:371 | the three-digit zero-padded texts of smaller numbers sort first, so the 512 keys are in canonical order |
| `Text.SplitJoin` | api/all/src/test/java/io/opentelemetry/api/baggage/propagation/W3cSpecTest.java:55-56 | parts without the separator, joined by it, split back into those parts |
| `Text.JoinLength` | api/all/src/test/java/io/opentelemetry/api/baggage/propagation/W3cSpecTest.java:366-367 | a joined text is as long as its parts plus one separator between each two |
| `Text.TrimOwsPadded` | api/all/src/test/java/io/opentelemetry/api/baggage/propagation/W3cSpecTest.java:246-254 | trimming whitespace padding around a text that neither starts nor ends with whitespace gives that text |

## Left out

- Concurrency: the handle's record and collect may run on different threads in the Java SDK. The model is the sequential state machine only.
- Exemplar sampling: the aggregator under test uses the no-samples reservoir, so accumulations and points carry no exemplars. The `Attributes` passed to `AccumulateThenMaybeReset` therefore have no effect.
- `Resource`, `InstrumentationScopeInfo` and `Attributes` are opaque values that are carried through unchanged.
- `Context`, `TextMapGetter` and the carrier `Map::put` are left out. Both codec operations work on the header text directly: an absent header is `None`, and a header that is not set is `None`.
- Sum aggregation, delta `diff`/`merge` and the double-valued aggregator are left out. Nothing about them appears in the modelled files, and the double variant would need floating point.
- Unicode: values and metadata are octet strings. The UTF-8 layer between Java strings and the octets that percent-encoding works on is left out; the tests use ASCII only.
- The order of points in the gauge is not modelled: the points are a set, because the Java accumulation map has no iteration order.
- `LastValueAggregator.CreateHandle`, `LastValueAggregator.Handle.RecordLong` and `LastValueAggregator.Handle.AccumulateThenMaybeReset` are stated against the ghost call history, so their contracts speak of the old state. The lemmas about `Held` carry the promises.
- Size limits: the header grammar's limits (64 members, 8192 characters) are shown to be preserved. The propagator is not modelled as refusing anything beyond them.
- `W3cLimits.ManyEntriesRoundTrip` is proved for up to 1000 members only, because three-digit keys run out there. The test uses 512.
