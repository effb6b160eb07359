/**
 * The W3C `baggage` header codec (section 3.2 of the W3C Baggage
 * specification, "Header Content"): `Extract` parses a header into
 * canonical baggage, `Inject` serialises baggage into a header.
 *
 * A header is a `,`-separated list of members. In a member the key ends at
 * the first `=`; the value ends at the first `;` after it; everything after
 * that `;` is one opaque metadata string. Key, value and metadata are
 * trimmed of optional whitespace (space and tab); the value and the metadata
 * are percent-decoded. A member that does not parse is skipped and the rest
 * of the header is still read.
 */
module W3cBaggagePropagator {
  import opened Wrappers
  import opened Text
  import opened PercentCodec
  import opened ImmutableBaggage

  /** `tchar` of RFC 7230, section 3.2.6: the characters a key is made of. */
  predicate IsTokenChar(c: char)
  {
    || IsAlphaNum(c)
    || c == '!' || ('#' <= c <= '\'') || c == '*' || c == '+' || c == '-' || c == '.'
    || c == '^' || c == '_' || c == '`' || c == '|' || c == '~'
  }

  /** The characters the member grammar gives a meaning to, and OWS. */
  predicate IsDelimiter(c: char)
  {
    c == ',' || c == ';' || c == '=' || IsOws(c)
  }

  predicate NoDelimiters(s: string)
  {
    forall i :: 0 <= i < |s| ==> !IsDelimiter(s[i])
  }

  lemma TokenHasNoDelimiters(k: string)
    requires IsToken(k)
    ensures NoDelimiters(k)
  {
  }

  lemma EncodedHasNoDelimiters(s: Octets)
    ensures NoDelimiters(Encode(s)) && IsBaggageValue(Encode(s))
  {
    EncodeIsBaggageText(s);
  }

  lemma IndexOfAbsent(s: string, c: char)
    requires NoDelimiters(s) && IsDelimiter(c)
    ensures c !in s
  {
  }

  predicate IsToken(s: string)
  {
    |s| > 0 && forall i :: 0 <= i < |s| ==> IsTokenChar(s[i])
  }

  /** A raw (still percent-encoded) value: baggage-octets only. */
  predicate IsBaggageValue(s: string)
  {
    forall i :: 0 <= i < |s| ==> IsBaggageOctet(s[i])
  }

  lemma BaggageValueAppend(a: string, b: string)
    requires IsBaggageValue(a) && IsBaggageValue(b)
    ensures IsBaggageValue(a + b)
  {
    forall i | 0 <= i < |a + b|
      ensures IsBaggageOctet((a + b)[i])
    {
      if i >= |a| {
        assert (a + b)[i] == b[i - |a|];
      }
    }
  }

  /** Baggage that the codec can carry: canonical order and token keys. */
  predicate Wellformed(b: Baggage)
  {
    Sorted(b) && forall e :: e in b ==> IsToken(e.key)
  }

  /** A list member cut into its untrimmed key, value and metadata texts. */
  datatype RawMember = RawMember(key: string, value: string, metadata: string)

  /**
   * The key ends at the first `=`; the value ends at the first `;` after
   * it; the rest is the metadata (empty when there is no `;`). None when
   * the member has no `=`.
   */
  function SplitMember(m: string): (r: Option<RawMember>)
    ensures r.Some? ==> '=' !in r.value.key && ';' !in r.value.value
    ensures r.None? <==> '=' !in m
  {
    match IndexOf(m, '=')
    case None => None
    case Some(i) =>
      var rest := m[i + 1..];
      match IndexOf(rest, ';')
      case None => Some(RawMember(m[..i], rest, ""))
      case Some(j) =>
        Some(RawMember(m[..i], rest[..j], rest[j + 1..]))
  }

  /** The entry for trimmed texts: the key must be a token, the value baggage-octets, both texts must decode. */
  function EntryOf(key: string, value: string, metadata: string): (r: Option<Entry>)
    ensures r.Some? ==> IsToken(r.value.key)
  {
    if !IsToken(key) || !IsBaggageValue(value) then None
    else
      match (Decode(value), Decode(metadata))
      case (Some(v), Some(md)) => Some(Entry(key, v, md))
      case _ => None
  }

  /** One list member to an entry, or None when it is not a valid member. */
  function ParseMember(m: string): (r: Option<Entry>)
    ensures r.Some? ==> IsToken(r.value.key)
    ensures '=' !in m ==> r.None?
  {
    match SplitMember(m)
    case None => None
    case Some(raw) => EntryOf(TrimOws(raw.key), TrimOws(raw.value), TrimOws(raw.metadata))
  }

  /** The entry of one member as a list: empty when the member does not parse. */
  function MemberEntries(m: string): (es: seq<Entry>)
    ensures |es| <= 1
    ensures forall e :: e in es ==> IsToken(e.key)
  {
    match ParseMember(m)
    case Some(e) => [e]
    case None => []
  }

  /** The entries of the members that parse, in header order. */
  function ParsedEntries(members: seq<string>): (es: seq<Entry>)
    ensures forall e :: e in es ==> IsToken(e.key)
  {
    if members == [] then [] else MemberEntries(members[0]) + ParsedEntries(members[1..])
  }

  /** `acc` with every entry of `es` put in turn, as the baggage builder does. */
  function PutAll(acc: Baggage, es: seq<Entry>): (r: Baggage)
    requires Sorted(acc)
    ensures Sorted(r)
    ensures forall x :: x in r ==> x in acc || x in es
    decreases |es|
  {
    if es == [] then acc else PutAll(Put(acc, es[0]), es[1..])
  }

  /** The baggage a header carries; a missing header carries none. */
  function Extract(header: Option<string>): (b: Baggage)
    ensures Wellformed(b)
    ensures header.None? ==> b == []
    ensures header.Some? ==> forall e :: e in b ==> e in ParsedEntries(Split(header.value, ','))
  {
    match header
    case None => []
    case Some(h) => PutAll([], ParsedEntries(Split(h, ',')))
  }

  /** `key=value` with the metadata after a `;` when there is any. */
  function SerializeEntry(e: Entry): (r: string)
    ensures IsToken(e.key) ==> ',' !in r
  {
    EncodedHasNoDelimiters(e.value);
    EncodedHasNoDelimiters(e.metadata);
    IndexOfAbsent(Encode(e.value), ',');
    IndexOfAbsent(Encode(e.metadata), ',');
    e.key + "=" + Encode(e.value) + (if e.metadata == [] then "" else ";" + Encode(e.metadata))
  }

  /** The list members of the entries whose key is a token, in baggage order. */
  function SerializedMembers(b: Baggage): (ms: seq<string>)
    ensures |ms| <= |b|
    ensures ms == [] <==> forall e :: e in b ==> !IsToken(e.key)
  {
    if b == [] then []
    else if IsToken(b[0].key) then [SerializeEntry(b[0])] + SerializedMembers(b[1..])
    else SerializedMembers(b[1..])
  }

  /** The header for `b`, or None (no header is set) when no entry can be written. */
  function Inject(b: Baggage): (r: Option<string>)
    ensures r.None? <==> forall e :: e in b ==> !IsToken(e.key)
  {
    var members := SerializedMembers(b);
    if members == [] then None else Some(Join(members, ','))
  }

  /** A member `k=v;md` whose key and value hold no delimiter is cut where it was glued. */
  lemma SplitGlued(k: string, v: string, tail: string, md: string)
    requires NoDelimiters(k) && NoDelimiters(v)
    requires tail == if md == [] then "" else ";" + md
    ensures SplitMember(k + "=" + v + tail) == Some(RawMember(k, v, md))
  {
    IndexOfAbsent(k, '=');
    IndexOfAbsent(v, ';');
    SplitMemberAt(k, v, md);
    if md == [] {
      assert k + "=" + v + tail == k + "=" + v;
    } else {
      AppendAssoc(k + "=" + v, ";", md);
    }
  }

  /** An entry with a token key is read back from its own member. */
  lemma ParseSerializedEntry(e: Entry)
    requires IsToken(e.key)
    ensures ParseMember(SerializeEntry(e)) == Some(e)
  {
    var k, v, md := e.key, Encode(e.value), Encode(e.metadata);
    var rawMd: string := if e.metadata == [] then "" else md;
    var tail: string := if e.metadata == [] then "" else ";" + md;
    assert SerializeEntry(e) == k + "=" + v + tail;
    TokenHasNoDelimiters(k);
    EncodedHasNoDelimiters(e.value);
    EncodedHasNoDelimiters(e.metadata);
    SplitGlued(k, v, tail, rawMd);
    TrimOwsNoop(k);
    TrimOwsNoop(v);
    TrimOwsNoop(rawMd);
    assert ParseMember(SerializeEntry(e)) == EntryOf(k, v, rawMd);
    DecodeEncode(e.value);
    if e.metadata != [] {
      DecodeEncode(e.metadata);
    }
    EntryOfDecoded(k, v, rawMd, e);
  }

  lemma EntryOfDecoded(k: string, v: string, md: string, e: Entry)
    requires e.key == k && IsToken(k) && IsBaggageValue(v)
    requires Decode(v) == Some(e.value) && Decode(md) == Some(e.metadata)
    ensures EntryOf(k, v, md) == Some(e)
  {
  }

  /** Every member of the header for token-keyed baggage is free of `,`. */
  lemma {:induction false} SerializedMembersHaveNoComma(b: Baggage)
    requires forall e :: e in b ==> IsToken(e.key)
    ensures forall m :: m in SerializedMembers(b) ==> ',' !in m
    ensures |SerializedMembers(b)| == |b|
  {
    if b != [] {
      assert b[0] in b;
      SerializedMembersHaveNoComma(b[1..]);
    }
  }

  /** Reading the members written for token-keyed baggage gives its entries back, in order. */
  lemma {:induction false} ParsedSerializedMembers(b: Baggage)
    requires forall e :: e in b ==> IsToken(e.key)
    ensures ParsedEntries(SerializedMembers(b)) == b
  {
    if b != [] {
      assert b[0] in b;
      assert forall e :: e in b[1..] ==> e in b;
      ParsedSerializedMembers(b[1..]);
      var m := SerializeEntry(b[0]);
      assert SerializedMembers(b) == [m] + SerializedMembers(b[1..]);
      ParseSerializedEntry(b[0]);
      ParsedEntriesCons(m, SerializedMembers(b[1..]), b[0]);
      HeadTail(b);
    }
  }

  lemma ParsedEntriesCons(m: string, rest: seq<string>, e: Entry)
    requires ParseMember(m) == Some(e)
    ensures ParsedEntries([m] + rest) == [e] + ParsedEntries(rest)
  {
    assert ([m] + rest)[0] == m && ([m] + rest)[1..] == rest;
    assert MemberEntries(m) == [e];
  }

  /** Putting a key above every key present appends it. */
  lemma {:induction false} PutGreatest(acc: Baggage, e: Entry)
    requires Sorted(acc + [e])
    ensures Sorted(acc) && Put(acc, e) == acc + [e]
  {
    var s := acc + [e];
    assert s[..|acc|] == acc;
    SortedSlice(s, 0, |acc|);
    if acc != [] {
      assert s[0] == acc[0] && s[|acc|] == e;
      LessAsymmetric(acc[0].key, e.key);
      LessIrreflexive(e.key);
      assert s[1..] == acc[1..] + [e];
      SortedSlice(s, 1, |s|);
      PutGreatest(acc[1..], e);
      assert Put(acc, e) == [acc[0]] + Put(acc[1..], e);
      EntriesAssoc([acc[0]], acc[1..], [e]);
      assert [acc[0]] + acc[1..] == acc;
    }
  }

  /** Putting entries that are already in canonical order, each above `acc`, appends them. */
  lemma {:induction false} PutAllSorted(acc: Baggage, es: seq<Entry>)
    requires Sorted(acc + es)
    ensures Sorted(acc) && PutAll(acc, es) == acc + es
    decreases |es|
  {
    var s := acc + es;
    assert s[..|acc|] == acc;
    SortedSlice(s, 0, |acc|);
    if es != [] {
      var next := acc + [es[0]];
      assert s[..|acc| + 1] == next;
      SortedSlice(s, 0, |acc| + 1);
      PutGreatest(acc, es[0]);
      EntriesAssoc(acc, [es[0]], es[1..]);
      assert [es[0]] + es[1..] == es;
      PutAllSorted(next, es[1..]);
    }
  }

  /**
   * The round trip: every well-formed baggage, whatever its values and
   * metadata hold, is read back unchanged from the header written for it.
   */
  lemma ExtractInject(b: Baggage)
    requires Wellformed(b)
    ensures Extract(Inject(b)) == b
  {
    ParsedSerializedMembers(b);
    SerializedMembersHaveNoComma(b);
    var ms := SerializedMembers(b);
    if ms != [] {
      SplitJoin(ms, ',');
      assert [] + b == b;
      PutAllSorted([], b);
    } else {
      assert b == [];
    }
  }

  /** The last entry with key `k` in `es`: the one a builder keeps. */
  function LastWithKey(es: seq<Entry>, k: string): (r: Option<Entry>)
    ensures r.Some? ==> r.value.key == k && exists i :: (0 <= i < |es| && es[i] == r.value
      && forall j :: i < j < |es| ==> es[j].key != k)
    ensures r.None? ==> forall e :: e in es ==> e.key != k
  {
    if es == [] then None
    else
      match LastWithKey(es[1..], k)
      case Some(x) =>
        var i :| 0 <= i < |es[1..]| && es[1..][i] == x
          && forall j :: i < j < |es[1..]| ==> es[1..][j].key != k;
        assert es[i + 1] == x;
        assert forall j :: i + 1 < j < |es| ==> es[j] == es[1..][j - 1];
        Some(x)
      case None =>
        assert forall j :: 0 < j < |es| ==> es[j] in es[1..];
        if es[0].key == k then Some(es[0]) else None
  }

  lemma {:induction false} PutAllGet(acc: Baggage, es: seq<Entry>, k: string)
    requires Sorted(acc)
    ensures Get(PutAll(acc, es), k) == if LastWithKey(es, k).Some? then LastWithKey(es, k) else Get(acc, k)
    decreases |es|
  {
    if es != [] {
      GetPut(acc, es[0], k);
      PutAllGet(Put(acc, es[0]), es[1..], k);
    }
  }

  /**
   * What `Extract` keeps: for every key, the entry of the LAST valid member
   * with that key; a key no valid member has is absent.
   */
  lemma ExtractGet(h: string, k: string)
    ensures Get(Extract(Some(h)), k) == LastWithKey(ParsedEntries(Split(h, ',')), k)
  {
    PutAllGet([], ParsedEntries(Split(h, ',')), k);
  }

  /** Extracted baggage has one entry per distinct key among the valid members. */
  lemma ExtractSize(h: string)
    ensures Keys(Extract(Some(h))) == Keys(ParsedEntries(Split(h, ',')))
    ensures |Extract(Some(h))| == |Keys(ParsedEntries(Split(h, ',')))|
  {
    var b := Extract(Some(h));
    var es := ParsedEntries(Split(h, ','));
    forall k
      ensures k in Keys(b) <==> k in Keys(es)
    {
      ExtractGet(h, k);
      if k in Keys(es) {
        var e :| e in es && e.key == k;
      }
    }
    SortedSize(b);
  }

  /** Where a member is cut when its key text has no `=` and its value text no `;`. */
  lemma SplitMemberAt(key: string, value: string, md: string)
    requires '=' !in key && ';' !in value
    ensures SplitMember(key + "=" + value) == Some(RawMember(key, value, ""))
    ensures SplitMember(key + "=" + value + ";" + md) == Some(RawMember(key, value, md))
  {
    var m1 := key + "=" + value;
    var m2 := key + "=" + value + ";" + md;
    assert m1[..|key|] == key && m2[..|key|] == key;
    IndexOfAt(m1, '=', |key|);
    IndexOfAt(m2, '=', |key|);
    assert m1[|key| + 1..] == value;
    var rest := m2[|key| + 1..];
    assert rest == value + ";" + md;
    assert rest[..|value|] == value;
    IndexOfAt(rest, ';', |value|);
    assert rest[|value| + 1..] == md;
  }

  lemma SplitSingle(m: string)
    requires ',' !in m
    ensures Split(m, ',') == [m]
  {
    assert Join([m], ',') == m;
    SplitJoin([m], ',');
  }

  lemma SplitPair(m1: string, m2: string)
    requires ',' !in m1 && ',' !in m2
    ensures Split(m1 + "," + m2, ',') == [m1, m2]
  {
    assert [m1, m2][1..] == [m2];
    assert Join([m1, m2], ',') == m1 + "," + m2;
    SplitJoin([m1, m2], ',');
  }

  lemma ParsedSingle(m: string, e: Entry)
    requires ParseMember(m) == Some(e)
    ensures ParsedEntries([m]) == [e]
  {
    ParsedEntriesCons(m, [], e);
    assert [m] + [] == [m];
  }

  /** Members are read one by one: the entries of two runs of members are concatenated. */
  lemma {:induction false} ParsedEntriesAppend(a: seq<string>, b: seq<string>)
    ensures ParsedEntries(a + b) == ParsedEntries(a) + ParsedEntries(b)
    decreases |a|
  {
    if a != [] {
      assert (a + b)[0] == a[0] && (a + b)[1..] == a[1..] + b;
      ParsedEntriesAppend(a[1..], b);
      EntriesAssoc(MemberEntries(a[0]), ParsedEntries(a[1..]), ParsedEntries(b));
    } else {
      assert a + b == b;
    }
  }

  lemma HeadTail(b: seq<Entry>)
    requires b != []
    ensures [b[0]] + b[1..] == b
  {
  }

  lemma EntriesAssoc(x: seq<Entry>, y: seq<Entry>, z: seq<Entry>)
    ensures x + (y + z) == (x + y) + z
  {
  }

  lemma ParsedPair(m1: string, m2: string, e1: Entry, e2: Entry)
    requires ParsedEntries([m1]) == [e1] && ParsedEntries([m2]) == [e2]
    ensures ParsedEntries([m1, m2]) == [e1, e2]
  {
    ParsedEntriesAppend([m1], [m2]);
    assert [m1] + [m2] == [m1, m2];
  }

  lemma PutAllInOrder(e1: Entry, e2: Entry)
    ensures PutAll([], [e1]) == [e1]
    ensures Less(e1.key, e2.key) ==> PutAll([], [e1, e2]) == [e1, e2]
  {
    assert [e1][1..] == [] && [e1, e2][1..] == [e2];
    assert PutAll([], [e1]) == PutAll([e1], []);
    if Less(e1.key, e2.key) {
      LessAsymmetric(e1.key, e2.key);
      LessIrreflexive(e1.key);
      assert Put([e1], e2) == [e1] + Put([], e2);
      assert PutAll([], [e1, e2]) == PutAll([e1], [e2]) == PutAll([e1, e2], []);
    }
  }

  /** A header with a single valid member holds just that member's entry. */
  lemma ExtractSingle(m: string, e: Entry)
    requires ',' !in m && ParseMember(m) == Some(e)
    ensures Extract(Some(m)) == [e]
  {
    SplitSingle(m);
    ParsedSingle(m, e);
    PutAllInOrder(e, e);
  }

  /** A header of two valid members with keys in canonical order holds both entries. */
  lemma ExtractPair(m1: string, m2: string, e1: Entry, e2: Entry)
    requires ',' !in m1 && ',' !in m2
    requires ParseMember(m1) == Some(e1) && ParseMember(m2) == Some(e2)
    requires Less(e1.key, e2.key)
    ensures Extract(Some(m1 + "," + m2)) == [e1, e2]
  {
    SplitPair(m1, m2);
    ParsedSingle(m1, e1);
    ParsedSingle(m2, e2);
    ParsedPair(m1, m2, e1, e2);
    PutAllInOrder(e1, e2);
  }

  /** The header for baggage of one or two token-keyed entries. */
  lemma InjectSmall(e1: Entry, e2: Entry)
    requires IsToken(e1.key) && IsToken(e2.key)
    ensures Inject([e1]) == Some(SerializeEntry(e1))
    ensures Inject([e1, e2]) == Some(SerializeEntry(e1) + "," + SerializeEntry(e2))
  {
    assert [e1][1..] == [] && [e1, e2][1..] == [e2];
    assert SerializedMembers([e2]) == [SerializeEntry(e2)];
    assert SerializedMembers([e1]) == [SerializeEntry(e1)];
    assert SerializedMembers([e1, e2]) == [SerializeEntry(e1), SerializeEntry(e2)];
    assert [SerializeEntry(e1), SerializeEntry(e2)][1..] == [SerializeEntry(e2)];
    assert Join([SerializeEntry(e1), SerializeEntry(e2)], ',') == SerializeEntry(e1) + "," + SerializeEntry(e2);
  }

  /** A member whose cut, trimmed texts are valid reads as the entry they decode to. */
  lemma ParseMemberOf(m: string, raw: RawMember, e: Entry)
    requires SplitMember(m) == Some(raw)
    requires TrimOws(raw.key) == e.key && IsToken(e.key)
    requires IsBaggageValue(TrimOws(raw.value)) && Decode(TrimOws(raw.value)) == Some(e.value)
    requires Decode(TrimOws(raw.metadata)) == Some(e.metadata)
    ensures ParseMember(m) == Some(e)
  {
    assert ParseMember(m) == EntryOf(TrimOws(raw.key), TrimOws(raw.value), TrimOws(raw.metadata));
    EntryOfDecoded(TrimOws(raw.key), TrimOws(raw.value), TrimOws(raw.metadata), e);
  }
}
