/**
 * The W3C baggage limits cases: headers of many members and of long
 * members are read in full and written back at full length. Each case is
 * proved for every size and then taken at the size its test uses.
 */
module W3cLimits {
  import opened Wrappers
  import opened Text
  import opened PercentCodec
  import opened ImmutableBaggage
  import opened W3cBaggagePropagator
  import opened WrittenMembers

  // Headers made of members that each parse.

  /** Members that each parse contribute their entries in order. */
  lemma {:induction false} ParsedEach(ms: seq<string>, es: seq<Entry>)
    requires |ms| == |es|
    requires forall i :: 0 <= i < |ms| ==> MemberEntries(ms[i]) == [es[i]]
    ensures ParsedEntries(ms) == es
    decreases |ms|
  {
    if ms != [] {
      var ms', es' := ms[1..], es[1..];
      assert forall i :: 0 <= i < |ms'| ==> ms'[i] == ms[i + 1] && es'[i] == es[i + 1];
      ParsedEach(ms', es');
      assert ParsedEntries(ms) == MemberEntries(ms[0]) + ParsedEntries(ms');
      HeadTail(es);
    }
  }

  predicate DistinctKeys(es: seq<Entry>)
  {
    forall i, j :: 0 <= i < j < |es| ==> es[i].key != es[j].key
  }

  lemma {:induction false} KeysDistinct(es: seq<Entry>)
    requires DistinctKeys(es)
    ensures |Keys(es)| == |es|
    decreases |es|
  {
    if es != [] {
      var rest := es[1..];
      assert DistinctKeys(rest) by {
        forall i, j | 0 <= i < j < |rest|
          ensures rest[i].key != rest[j].key
        {
          assert rest[i] == es[i + 1] && rest[j] == es[j + 1];
        }
      }
      KeysDistinct(rest);
      HeadKeyFresh(es);
      KeysCons(es);
    }
  }

  lemma HeadKeyFresh(es: seq<Entry>)
    requires es != [] && DistinctKeys(es)
    ensures es[0].key !in Keys(es[1..])
  {
    forall e | e in es[1..]
      ensures e.key != es[0].key
    {
      var k :| 0 <= k < |es[1..]| && es[1..][k] == e;
      assert es[k + 1] == e;
    }
  }

  lemma KeysCons(es: seq<Entry>)
    requires es != []
    ensures Keys(es) == {es[0].key} + Keys(es[1..])
  {
    var rest := es[1..];
    assert es == [es[0]] + rest;
    forall k
      ensures k in Keys(es) <==> k == es[0].key || k in Keys(rest)
    {
      if k in Keys(es) {
        var e :| e in es && e.key == k;
        if e != es[0] {
          assert e in rest;
        }
      }
      if k in Keys(rest) {
        var e :| e in rest && e.key == k;
        assert e in es;
      }
      if k == es[0].key {
        assert es[0] in es;
      }
    }
  }

  /** The members of a joined header, none holding a comma, are what the header splits into. */
  lemma SplitMembers(ms: seq<string>)
    requires ms != []
    requires forall i :: 0 <= i < |ms| ==> ',' !in ms[i]
    ensures Split(Join(ms, ','), ',') == ms
  {
    forall p | p in ms
      ensures ',' !in p
    {
      var i :| 0 <= i < |ms| && ms[i] == p;
    }
    SplitJoin(ms, ',');
  }

  /**
   * A header of members that parse, to entries with pairwise distinct keys,
   * holds one entry per member.
   */
  lemma ExtractDistinctSize(ms: seq<string>, es: seq<Entry>)
    requires ms != [] && |ms| == |es| && forall i :: 0 <= i < |ms| ==> ',' !in ms[i]
    requires ParsedEntries(ms) == es
    requires DistinctKeys(es)
    ensures |Extract(Some(Join(ms, ',')))| == |ms|
  {
    SplitMembers(ms);
    ExtractSize(Join(ms, ','));
    KeysDistinct(es);
  }

  /** When the members' keys are already in canonical order, the baggage is exactly their entries. */
  lemma ExtractSortedMembers(ms: seq<string>, es: seq<Entry>)
    requires ms != [] && forall i :: 0 <= i < |ms| ==> ',' !in ms[i]
    requires ParsedEntries(ms) == es
    requires Sorted(es)
    ensures Extract(Some(Join(ms, ','))) == es
  {
    var h := Join(ms, ',');
    SplitMembers(ms);
    assert ParsedEntries(Split(h, ',')) == es;
    assert [] + es == es;
    PutAllSorted([], es);
    assert Extract(Some(h)) == PutAll([], es);
  }

  /** Entries with token keys are written as the members that serialize them, in order. */
  lemma {:induction false} SerializedEach(es: seq<Entry>, ms: seq<string>)
    requires |es| == |ms|
    requires forall i :: 0 <= i < |es| ==> IsToken(es[i].key) && SerializeEntry(es[i]) == ms[i]
    ensures SerializedMembers(es) == ms
    decreases |es|
  {
    if es != [] {
      SerializedEach(es[1..], ms[1..]);
      assert ms == [ms[0]] + ms[1..];
    }
  }

  lemma {:induction false} TotalLengthUniform(parts: seq<string>, w: nat)
    requires forall i :: 0 <= i < |parts| ==> |parts[i]| == w
    ensures TotalLength(parts) == w * |parts|
    decreases |parts|
  {
    if parts != [] {
      assert forall i :: 0 <= i < |parts| - 1 ==> parts[1..][i] == parts[i + 1];
      TotalLengthUniform(parts[1..], w);
    }
  }

  lemma {:induction false} TotalLengthAppend(a: seq<string>, b: seq<string>)
    ensures TotalLength(a + b) == TotalLength(a) + TotalLength(b)
    decreases |a|
  {
    if a != [] {
      assert (a + b)[0] == a[0] && (a + b)[1..] == a[1..] + b;
      TotalLengthAppend(a[1..], b);
    } else {
      assert a + b == b;
    }
  }

  // Decimal numerals, as `StringBuilder.append(int)` and `%03d` write them.

  function Digit(d: nat): (c: char)
    requires d < 10
    ensures '0' <= c <= '9'
  {
    ('0' as int + d) as char
  }

  function DigitValue(c: char): (d: nat)
    requires '0' <= c <= '9'
    ensures d < 10
  {
    c as int - '0' as int
  }

  predicate AllDigits(s: string)
  {
    forall i :: 0 <= i < |s| ==> '0' <= s[i] <= '9'
  }

  /** A natural number in decimal, without leading zeros. */
  function Decimal(n: nat): (s: string)
    ensures |s| >= 1 && AllDigits(s)
  {
    if n < 10 then [Digit(n)] else Decimal(n / 10) + [Digit(n % 10)]
  }

  /** The number a string of decimal digits denotes. */
  function DecimalValue(s: string): nat
    requires AllDigits(s)
  {
    if s == [] then 0 else DecimalValue(s[..|s| - 1]) * 10 + DigitValue(s[|s| - 1])
  }

  lemma {:induction false} DecimalValueOfDecimal(n: nat)
    ensures DecimalValue(Decimal(n)) == n
  {
    if n >= 10 {
      DecimalValueOfDecimal(n / 10);
      var s := Decimal(n);
      assert s[..|s| - 1] == Decimal(n / 10);
    }
  }

  /** Distinct numbers have distinct numerals. */
  lemma DecimalInjective(m: nat, n: nat)
    requires Decimal(m) == Decimal(n)
    ensures m == n
  {
    DecimalValueOfDecimal(m);
    DecimalValueOfDecimal(n);
  }

  lemma DigitsAreToken(p: string, s: string)
    requires IsToken(p) && AllDigits(s)
    ensures IsToken(p + s)
  {
    assert forall i :: |p| <= i < |p + s| ==> (p + s)[i] == s[i - |p|];
  }

  /** Three digits with leading zeros. */
  function Pad3(i: nat): (s: string)
    requires i < 1000
    ensures |s| == 3 && AllDigits(s)
  {
    [Digit(i / 100), Digit(i / 10 % 10), Digit(i % 10)]
  }

  /** Zero-padded numerals of one width sort as the numbers do. */
  lemma Pad3Order(i: nat, j: nat)
    requires i < j < 1000
    ensures Less(Pad3(i), Pad3(j))
  {
    DigitsOrder(i, j);
    var p, q := Pad3(i), Pad3(j);
    assert p[1..][1..] == [Digit(i % 10)] && q[1..][1..] == [Digit(j % 10)];
    if i / 100 == j / 100 {
      assert p[0] == q[0];
      if i / 10 % 10 == j / 10 % 10 {
        assert p[1..][0] == q[1..][0];
      }
    }
  }

  /** The digits of a smaller three-digit number are lexicographically smaller. */
  lemma DigitsOrder(i: nat, j: nat)
    requires i < j < 1000
    ensures || i / 100 < j / 100
            || (i / 100 == j / 100 && i / 10 % 10 < j / 10 % 10)
            || (i / 100 == j / 100 && i / 10 % 10 == j / 10 % 10 && i % 10 < j % 10)
  {
    var a, b, c := i / 100, i / 10 % 10, i % 10;
    var x, y, z := j / 100, j / 10 % 10, j % 10;
    assert i == 100 * a + 10 * b + c;
    assert j == 100 * x + 10 * y + z;
  }

  // LimitsTest_test_serialize_at_least_64: `key0=value,...,key63=value`.

  const Value: Octets := "value"

  function CountedKey(i: nat): string
  {
    "key" + Decimal(i)
  }

  function CountedMembers(n: nat): seq<string>
  {
    seq(n, i requires 0 <= i => CountedKey(i) + "=" + Value)
  }

  function CountedEntries(n: nat): seq<Entry>
  {
    seq(n, i requires 0 <= i => Entry(CountedKey(i), Value, ""))
  }

  lemma CountedKeyIsToken(i: nat)
    ensures IsToken(CountedKey(i))
  {
    assert IsToken("key");
    DigitsAreToken("key", Decimal(i));
  }

  lemma CountedKeysDistinct(n: nat)
    ensures DistinctKeys(CountedEntries(n))
  {
    var es := CountedEntries(n);
    forall i, j | 0 <= i < j < n
      ensures es[i].key != es[j].key
    {
      if CountedKey(i) == CountedKey(j) {
        assert CountedKey(i)[3..] == Decimal(i) && CountedKey(j)[3..] == Decimal(j);
        DecimalInjective(i, j);
      }
    }
  }

  lemma CountedMembersParse(n: nat)
    ensures forall i :: 0 <= i < n ==>
      MemberEntries(CountedMembers(n)[i]) == [CountedEntries(n)[i]] && ',' !in CountedMembers(n)[i]
  {
    assert PlainValue(Value);
    forall i | 0 <= i < n
      ensures MemberEntries(CountedMembers(n)[i]) == [CountedEntries(n)[i]] && ',' !in CountedMembers(n)[i]
    {
      CountedKeyIsToken(i);
      ReadPlain(CountedMembers(n)[i], Padded("", CountedKey(i), ""), Padded("", Value, ""));
    }
  }

  /** A header of `n` members with distinct keys holds `n` entries. */
  lemma CountedHeaderSize(n: nat)
    requires n >= 1
    ensures |Extract(Some(Join(CountedMembers(n), ',')))| == n
  {
    CountedMembersParse(n);
    ParsedEach(CountedMembers(n), CountedEntries(n));
    CountedKeysDistinct(n);
    ExtractDistinctSize(CountedMembers(n), CountedEntries(n));
  }

  lemma SerializeAtLeast64()
    ensures |Extract(Some(Join(CountedMembers(64), ',')))| == 64
  {
    CountedHeaderSize(64);
  }

  // LimitsTest_test_serialize_long_entry: `a=` and 819 runs of `0123456789`.

  const Digits: Octets := "0123456789"

  function Repeat(s: Octets, n: nat): (r: Octets)
    ensures |r| == |s| * n
  {
    if n == 0 then "" else s + Repeat(s, n - 1)
  }

  lemma {:induction false} RepeatChars(s: Octets, n: nat)
    ensures forall i :: 0 <= i < |Repeat(s, n)| ==> Repeat(s, n)[i] in s
  {
    if n > 0 {
      RepeatChars(s, n - 1);
      var r := Repeat(s, n);
      assert r == s + Repeat(s, n - 1);
      forall i | 0 <= i < |r|
        ensures r[i] in s
      {
        if i >= |s| {
          assert r[i] == Repeat(s, n - 1)[i - |s|];
        }
      }
    }
  }

  lemma RepeatedDigits(n: nat)
    ensures PlainValue(Repeat(Digits, n)) && AllLiteral(Repeat(Digits, n))
  {
    RepeatChars(Digits, n);
    assert forall c :: c in Digits ==> '0' <= c <= '9';
  }

  /**
   * `a=` followed by `n` runs of ten digits is read as one entry whose
   * value has every digit, and written back as the same header.
   */
  lemma LongEntryRead(n: nat)
    ensures Extract(Some("a" + "=" + Repeat(Digits, n))) == [Entry("a", Repeat(Digits, n), "")]
  {
    var v := Repeat(Digits, n);
    var h := "a" + "=" + v;
    assert IsToken("a");
    RepeatedDigits(n);
    ReadPlain(h, Padded("", "a", ""), Padded("", v, ""));
    ExtractSingle(h, Entry("a", v, ""));
  }

  lemma LongEntry(n: nat)
    ensures Extract(Some("a" + "=" + Repeat(Digits, n))) == [Entry("a", Repeat(Digits, n), "")]
    ensures Inject(Extract(Some("a" + "=" + Repeat(Digits, n)))) == Some("a" + "=" + Repeat(Digits, n))
    ensures |Repeat(Digits, n)| == 10 * n && |"a" + "=" + Repeat(Digits, n)| == 10 * n + 2
  {
    var v := Repeat(Digits, n);
    var h := "a" + "=" + v;
    LongEntryRead(n);
    RepeatedDigits(n);
    EncodeLiteral(v);
    SerializeBare("a", v, v);
    assert IsToken("a");
    RewriteOne(h, Entry("a", v, ""), h);
  }

  lemma SerializeLongEntry()
    ensures Extract(Some("a" + "=" + Repeat(Digits, 819))) == [Entry("a", Repeat(Digits, 819), "")]
    ensures |Repeat(Digits, 819)| == 8190
    ensures Inject(Extract(Some("a" + "=" + Repeat(Digits, 819)))) == Some("a" + "=" + Repeat(Digits, 819))
    ensures |"a" + "=" + Repeat(Digits, 819)| == 8192
  {
    LongEntry(819);
  }

  // LimitsTest_test_serialize_many_entries: `000=0123456789a,...,511=0123456789ab`.

  const Eleven: Octets := "0123456789a"
  const Twelve: Octets := "0123456789ab"

  /** The value of member `i` of `n`: the last one carries one more character. */
  function ManyValue(i: nat, n: nat): Octets
  {
    if i + 1 < n then Eleven else Twelve
  }

  function ManyMembers(n: nat): seq<string>
    requires n <= 1000
  {
    seq(n, i requires 0 <= i < n => Pad3(i) + "=" + ManyValue(i, n))
  }

  function ManyEntries(n: nat): seq<Entry>
    requires n <= 1000
  {
    seq(n, i requires 0 <= i < n => Entry(Pad3(i), ManyValue(i, n), ""))
  }

  lemma ElevenText()
    ensures PlainValue(Eleven) && AllLiteral(Eleven)
  {
  }

  lemma TwelveText()
    ensures PlainValue(Twelve) && AllLiteral(Twelve)
  {
  }

  lemma ManyEntriesSorted(n: nat)
    requires n <= 1000
    ensures Sorted(ManyEntries(n))
  {
    var es := ManyEntries(n);
    forall i, j | 0 <= i < j < n
      ensures Less(es[i].key, es[j].key)
    {
      Pad3Order(i, j);
    }
  }

  lemma ManyMembersRead(n: nat)
    requires n <= 1000
    ensures forall i :: 0 <= i < n ==>
      MemberEntries(ManyMembers(n)[i]) == [ManyEntries(n)[i]] && ',' !in ManyMembers(n)[i]
  {
    ElevenText();
    TwelveText();
    forall i | 0 <= i < n
      ensures MemberEntries(ManyMembers(n)[i]) == [ManyEntries(n)[i]] && ',' !in ManyMembers(n)[i]
    {
      ManyMemberRead(n, i);
    }
  }

  lemma ManyMemberRead(n: nat, i: nat)
    requires i < n <= 1000
    requires PlainValue(Eleven) && PlainValue(Twelve)
    ensures MemberEntries(Pad3(i) + "=" + ManyValue(i, n)) == [Entry(Pad3(i), ManyValue(i, n), "")]
    ensures ',' !in Pad3(i) + "=" + ManyValue(i, n)
  {
    assert IsToken(Pad3(i));
    ReadPlain(Pad3(i) + "=" + ManyValue(i, n), Padded("", Pad3(i), ""), Padded("", ManyValue(i, n), ""));
  }

  lemma ManyEntriesWritten(n: nat)
    requires n <= 1000
    ensures forall i :: 0 <= i < n ==>
      IsToken(ManyEntries(n)[i].key) && SerializeEntry(ManyEntries(n)[i]) == ManyMembers(n)[i]
  {
    ElevenText();
    TwelveText();
    forall i | 0 <= i < n
      ensures IsToken(ManyEntries(n)[i].key) && SerializeEntry(ManyEntries(n)[i]) == ManyMembers(n)[i]
    {
      var v := ManyValue(i, n);
      assert IsToken(Pad3(i));
      EncodeLiteral(v);
      SerializeBare(Pad3(i), v, v);
    }
  }

  lemma ManyHeaderLength(n: nat)
    requires 1 <= n <= 1000
    ensures |Join(ManyMembers(n), ',')| == 16 * n
  {
    var ms := ManyMembers(n);
    var init := ms[..n - 1];
    forall i | 0 <= i < |init|
      ensures |init[i]| == 15
    {
      assert init[i] == Pad3(i) + "=" + Eleven;
    }
    TotalLengthUniform(init, 15);
    assert ms[n - 1] == Pad3(n - 1) + "=" + Twelve;
    assert TotalLength([ms[n - 1]]) == |ms[n - 1]| + TotalLength([]);
    assert ms == init + [ms[n - 1]];
    TotalLengthAppend(init, [ms[n - 1]]);
    JoinLength(ms, ',');
  }

  /**
   * `n` members with increasing three-digit keys are read as `n` entries in
   * that order and written back as the same header, 16 characters a member.
   */
  lemma ManyEntriesRoundTrip(n: nat)
    requires 1 <= n <= 1000
    ensures Extract(Some(Join(ManyMembers(n), ','))) == ManyEntries(n)
    ensures Inject(Extract(Some(Join(ManyMembers(n), ',')))) == Some(Join(ManyMembers(n), ','))
    ensures |Join(ManyMembers(n), ',')| == 16 * n
  {
    ManyMembersRead(n);
    ParsedEach(ManyMembers(n), ManyEntries(n));
    ManyEntriesSorted(n);
    ExtractSortedMembers(ManyMembers(n), ManyEntries(n));
    ManyEntriesWritten(n);
    SerializedEach(ManyEntries(n), ManyMembers(n));
    ManyHeaderLength(n);
  }

  lemma SerializeManyEntries()
    ensures Inject(Extract(Some(Join(ManyMembers(512), ',')))) == Some(Join(ManyMembers(512), ','))
    ensures |Join(ManyMembers(512), ',')| == 8192
  {
    ManyEntriesRoundTrip(512);
  }
}
