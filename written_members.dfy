/**
 * List members as a header writer lays them out: a key, a value and
 * optional metadata, each with optional whitespace around it. General
 * lemmas say which entry such a member is read as and which member an
 * entry is written as; the W3C test cases only check their own strings
 * against these lemmas' conditions.
 */
module WrittenMembers {
  import opened Wrappers
  import opened Text
  import opened PercentCodec
  import opened ImmutableBaggage
  import opened W3cBaggagePropagator

  /** Text the decoder returns unchanged: no `%` and octets only. */
  predicate Unescaped(s: string)
  {
    forall i :: 0 <= i < |s| ==> s[i] != '%' && s[i] as int < 256
  }

  /** Text with no optional whitespace at either end. */
  predicate Trimmed(s: string)
  {
    s != [] ==> !IsOws(s[0]) && !IsOws(s[|s| - 1])
  }

  /** One part of a member: its text with the whitespace written around it. */
  datatype Padded = Padded(before: string, text: string, after: string)

  function Glue(p: Padded): string
  {
    p.before + p.text + p.after
  }

  predicate Padding(p: Padded)
  {
    AllOws(p.before) && AllOws(p.after) && Trimmed(p.text)
  }

  /** A list member as a test writes it: `key=value` or `key=value;metadata`. */
  datatype MemberText = MemberText(key: Padded, value: Padded, metadata: Option<Padded>)

  function Written(m: MemberText): string
  {
    Glue(m.key) + "=" + Glue(m.value) + Tail(m.metadata)
  }

  function Tail(metadata: Option<Padded>): string
  {
    match metadata
    case None => ""
    case Some(p) => ";" + Glue(p)
  }

  /**
   * A member whose parts are laid out as the grammar wants them: a token
   * key, a value of baggage-octets (so neither `;` nor `,`), metadata
   * without `,`, each part trimmed and padded with OWS only.
   */
  predicate WellWritten(m: MemberText)
  {
    && Padding(m.key) && Padding(m.value) && (m.metadata.Some? ==> Padding(m.metadata.value))
    && IsToken(m.key.text) && IsBaggageValue(m.value.text)
    && (m.metadata.Some? ==> ',' !in m.metadata.value.text)
  }

  function MetadataText(m: MemberText): string
  {
    if m.metadata.Some? then m.metadata.value.text else ""
  }

  /** `m` is a well-written member for the entry `e`: its texts decode to `e`'s parts. */
  predicate Denotes(m: MemberText, e: Entry)
  {
    && WellWritten(m) && e.key == m.key.text
    && Decode(m.value.text) == Some(e.value) && Decode(MetadataText(m)) == Some(e.metadata)
  }

  /** A raw value the decoder returns unchanged. */
  predicate PlainValue(s: string)
  {
    IsBaggageValue(s) && Unescaped(s)
  }

  /** Metadata text read as written: trimmed, no `,`, no escape. */
  predicate PlainMetadata(s: string)
  {
    Trimmed(s) && ',' !in s && Unescaped(s)
  }

  lemma PaddedHasNo(p: Padded, c: char)
    requires AllOws(p.before) && AllOws(p.after) && c !in p.text && !IsOws(c)
    ensures c !in Glue(p)
  {
  }

  lemma JoinedHasNoComma(k: string, v: string, tail: string)
    requires ',' !in k && ',' !in v && ',' !in tail
    ensures ',' !in k + "=" + v + tail
  {
  }

  /** The untrimmed texts a member is cut into. */
  function RawOf(m: MemberText): RawMember
  {
    RawMember(Glue(m.key), Glue(m.value), if m.metadata.Some? then Glue(m.metadata.value) else "")
  }

  lemma NoDelimitersInValue(s: string, c: char)
    requires IsBaggageValue(s) && (c == ',' || c == ';')
    ensures c !in s
  {
  }

  lemma WrittenHasNoComma(m: MemberText)
    requires WellWritten(m)
    ensures ',' !in Written(m)
  {
    TokenHasNoDelimiters(m.key.text);
    PaddedHasNo(m.key, ',');
    NoDelimitersInValue(m.value.text, ',');
    PaddedHasNo(m.value, ',');
    if m.metadata.Some? {
      PaddedHasNo(m.metadata.value, ',');
    }
    JoinedHasNoComma(Glue(m.key), Glue(m.value), Tail(m.metadata));
  }

  lemma SplitWritten(m: MemberText)
    requires WellWritten(m)
    ensures SplitMember(Written(m)) == Some(RawOf(m))
  {
    var raw := RawOf(m);
    TokenHasNoDelimiters(m.key.text);
    PaddedHasNo(m.key, '=');
    NoDelimitersInValue(m.value.text, ';');
    PaddedHasNo(m.value, ';');
    if m.metadata.Some? {
      SplitAfterMetadata(raw, Written(m));
    } else {
      SplitBare(raw, Written(m));
    }
  }

  lemma SplitBare(raw: RawMember, w: string)
    requires '=' !in raw.key && ';' !in raw.value && raw.metadata == ""
    requires w == raw.key + "=" + raw.value
    ensures SplitMember(w) == Some(raw)
  {
    SplitMemberAt(raw.key, raw.value, "");
  }

  lemma SplitAfterMetadata(raw: RawMember, w: string)
    requires '=' !in raw.key && ';' !in raw.value
    requires w == raw.key + "=" + raw.value + ";" + raw.metadata
    ensures SplitMember(w) == Some(raw)
  {
    SplitMemberAt(raw.key, raw.value, raw.metadata);
  }

  /** A well-written member is read as the entry it denotes, and holds no `,`. */
  lemma ReadMember(m: MemberText, e: Entry)
    requires Denotes(m, e)
    ensures ParseMember(Written(m)) == Some(e)
    ensures ',' !in Written(m)
  {
    WrittenHasNoComma(m);
    SplitWritten(m);
    ReadParts(Written(m), m, RawOf(m), e);
  }

  lemma ReadParts(t: string, m: MemberText, raw: RawMember, e: Entry)
    requires Denotes(m, e)
    requires raw.key == Glue(m.key) && raw.value == Glue(m.value)
    requires raw.metadata == if m.metadata.Some? then Glue(m.metadata.value) else ""
    requires SplitMember(t) == Some(raw)
    ensures ParseMember(t) == Some(e)
  {
    TrimParts(m, raw);
    ParseMemberOf(t, raw, e);
  }

  /** Trimming the raw parts of a well-written member leaves its texts. */
  lemma TrimParts(m: MemberText, raw: RawMember)
    requires Padding(m.key) && Padding(m.value) && (m.metadata.Some? ==> Padding(m.metadata.value))
    requires raw.key == Glue(m.key) && raw.value == Glue(m.value)
    requires raw.metadata == if m.metadata.Some? then Glue(m.metadata.value) else ""
    ensures TrimOws(raw.key) == m.key.text && TrimOws(raw.value) == m.value.text
    ensures TrimOws(raw.metadata) == MetadataText(m)
  {
    TrimOwsPadded(m.key.before, m.key.text, m.key.after);
    TrimOwsPadded(m.value.before, m.value.text, m.value.after);
    TrimMetadata(m);
  }

  lemma TrimMetadata(m: MemberText)
    requires m.metadata.Some? ==> Padding(m.metadata.value)
    ensures TrimOws(if m.metadata.Some? then Glue(m.metadata.value) else "") == MetadataText(m)
  {
    if m.metadata.Some? {
      var p := m.metadata.value;
      TrimOwsPadded(p.before, p.text, p.after);
    } else {
      TrimOwsNoop("");
    }
  }

  /** A member `key=value`, whitespace around either part, is read as the key and the decoded value. */
  lemma ReadBare(t: string, key: Padded, value: Padded, dv: Octets)
    requires t == Written(MemberText(key, value, None))
    requires Padding(key) && Padding(value) && IsToken(key.text) && IsBaggageValue(value.text)
    requires Decode(value.text) == Some(dv)
    ensures ParseMember(t) == Some(Entry(key.text, dv, [])) && ',' !in t
  {
    ReadMember(MemberText(key, value, None), Entry(key.text, dv, []));
  }

  /** A member `key=value;metadata` is read as the key, the decoded value and the decoded metadata. */
  lemma ReadWithMetadata(t: string, key: Padded, value: Padded, md: Padded, dv: Octets, dm: Octets)
    requires t == Written(MemberText(key, value, Some(md)))
    requires Padding(key) && Padding(value) && Padding(md) && IsToken(key.text) && IsBaggageValue(value.text)
    requires ',' !in md.text && Decode(value.text) == Some(dv) && Decode(md.text) == Some(dm)
    ensures ParseMember(t) == Some(Entry(key.text, dv, dm)) && ',' !in t
  {
    ReadMember(MemberText(key, value, Some(md)), Entry(key.text, dv, dm));
  }

  /** A member whose value holds no escape carries its value as written. */
  lemma ReadPlain(t: string, key: Padded, value: Padded)
    requires t == Written(MemberText(key, value, None))
    requires Padding(key) && AllOws(value.before) && AllOws(value.after)
    requires IsToken(key.text) && PlainValue(value.text)
    ensures ParseMember(t) == Some(Entry(key.text, value.text, [])) && ',' !in t
  {
    DecodeUnescaped(value.text);
    ReadBare(t, key, value, value.text);
  }

  /** A member whose value and metadata hold no escape carries both as written (metadata trimmed). */
  lemma ReadPlainWithMetadata(t: string, key: Padded, value: Padded, md: Padded)
    requires t == Written(MemberText(key, value, Some(md)))
    requires Padding(key) && AllOws(value.before) && AllOws(value.after)
    requires AllOws(md.before) && AllOws(md.after)
    requires IsToken(key.text) && PlainValue(value.text) && PlainMetadata(md.text)
    ensures ParseMember(t) == Some(Entry(key.text, value.text, md.text)) && ',' !in t
  {
    DecodeUnescaped(value.text);
    DecodeUnescaped(md.text);
    ReadWithMetadata(t, key, value, md, value.text, md.text);
  }

  /** The member written for an entry without metadata whose value encodes as `ev`. */
  lemma SerializeBare(k: string, v: Octets, ev: string)
    requires Encode(v) == ev
    ensures SerializeEntry(Entry(k, v, [])) == k + "=" + ev
  {
  }

  /** The member written for an entry with metadata: value and metadata each encoded. */
  lemma SerializeWithMetadata(k: string, v: Octets, md: Octets, ev: string, em: string)
    requires md != [] && Encode(v) == ev && Encode(md) == em
    ensures SerializeEntry(Entry(k, v, md)) == k + "=" + ev + ";" + em
  {
  }

  /** Baggage of one token-keyed entry is written as that entry's member. */
  lemma WriteOne(e: Entry, w: string)
    requires IsToken(e.key) && SerializeEntry(e) == w
    ensures Inject([e]) == Some(w)
  {
    InjectSmall(e, e);
  }

  /** Baggage of two token-keyed entries is written as their two members. */
  lemma WriteTwo(e1: Entry, e2: Entry, w1: string, w2: string)
    requires IsToken(e1.key) && SerializeEntry(e1) == w1
    requires IsToken(e2.key) && SerializeEntry(e2) == w2
    ensures Inject([e1, e2]) == Some(w1 + "," + w2)
  {
    InjectSmall(e1, e2);
  }

  /** A header read as one token-keyed entry is written back as that entry's member. */
  lemma RewriteOne(h: string, e: Entry, w: string)
    requires Extract(Some(h)) == [e]
    requires IsToken(e.key) && SerializeEntry(e) == w
    ensures Inject(Extract(Some(h))) == Some(w)
  {
    WriteOne(e, w);
  }

  /** A header read as two token-keyed entries is written back as their two members. */
  lemma RewriteTwo(h: string, e1: Entry, e2: Entry, w1: string, w2: string)
    requires Extract(Some(h)) == [e1, e2]
    requires IsToken(e1.key) && SerializeEntry(e1) == w1
    requires IsToken(e2.key) && SerializeEntry(e2) == w2
    ensures Inject(Extract(Some(h))) == Some(w1 + "," + w2)
  {
    WriteTwo(e1, e2, w1, w2);
  }
}
