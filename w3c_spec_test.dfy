/**
 * The W3C baggage test cases, each proved of the model: the baggage a
 * header is read as and, where the test says so, the header that baggage
 * is written back as.
 *
 * Headers are written as the concatenation of their parts, the values and
 * metadata as named constants; the general lemmas of `WrittenMembers` do
 * the reading and writing, and each case only checks its own texts
 * against their conditions.
 */
module W3cSpecTest {
  import opened Wrappers
  import opened Text
  import opened PercentCodec
  import opened ImmutableBaggage
  import opened W3cBaggagePropagator
  import opened WrittenMembers

  // Values and metadata of the test headers. A text the encoder escapes
  // is written as the runs it is escaped in.

  const SomeValue: Octets := "SomeValue"
  const SomeValue2: Octets := "SomeValue2"
  const ValueWithEquals: Octets := "SomeValue=equals"
  const SomeProp: Octets := "SomeProp"
  const Ows: Octets := " \t "
  const EqualsSign: Octets := "="
  const OwsEquals: Octets := Ows + EqualsSign + Ows
  const ValueProp: Octets := "ValueProp" + EqualsSign + "PropVal"
  const ValuePropOws: Octets := "ValueProp" + OwsEquals + "PropVal"
  const PropKeyValue: Octets := "SomePropKey" + EqualsSign + "SomePropValue"
  const PropKeyValueOws: Octets := "SomePropKey" + OwsEquals + "SomePropValue"
  const PropKeyValue2: Octets := "SomePropKey2" + EqualsSign + "SomePropValue2"
  const PropKeyValue2Ows: Octets := "SomePropKey2" + OwsEquals + "SomePropValue2"
  const TwoProps: Octets := "SomeProp;SecondProp=PropValue"
  const TwoPropsOws: Octets := "SomeProp \t ; \t SecondProp \t = \t PropValue"

  // The percent-encoded value: `Original` holds TAB, space and printable
  // characters a value may not carry as written, and others; `Encoded` is
  // how the header carries it, every octet escaped except the letters
  // `asdf` and `x`; `Reencoded` is how the encoder writes it back.

  const TabSpaceQuote: Octets := "\t \""
  const Apostrophe: Octets := "'"
  const SemicolonEquals: Octets := ";="
  const Letters: Octets := "asdf"
  const BangAt: Octets := "!@"
  const Hash: Octets := "#"
  const Dollar: Octets := "$"
  const PercentCaret: Octets := "%^"
  const AmpersandStarParens: Octets := "&*()"
  const CommaBackslash: Octets := ",\\"
  const LetterX: Octets := "x"

  const Specials1: Octets := TabSpaceQuote + Apostrophe + SemicolonEquals
  const Specials2: Octets := BangAt + Hash + Dollar + PercentCaret + AmpersandStarParens
  const OriginalOws: Octets := Specials1 + Letters + Specials2
  const Original: Octets := OriginalOws + CommaBackslash + LetterX
  const EncodedOws: string := EscapeAll(Specials1) + Letters + EscapeAll(Specials2)
  const Encoded: string := EncodedOws + EscapeAll(CommaBackslash) + LetterX
  const Reencoded: string :=
    ("%09%20%22" + "'" + "%3B%3D") + "asdf" + ("!@" + "%23" + "$" + "%25%5E" + "&*()") + "%2C%5C" + "x"

  // Facts about the texts, each checked on its own.

  lemma KeyTexts()
    ensures IsToken("SomeKey") && IsToken("SomeKey2")
  {
  }

  lemma ValueTexts()
    ensures PlainValue(SomeValue) && PlainValue(SomeValue2)
  {
  }

  lemma LiteralTexts()
    ensures AllLiteral(SomeValue) && AllLiteral(SomeValue2) && AllLiteral(SomeProp)
  {
  }

  lemma EqualsValueText()
    ensures PlainValue(ValueWithEquals)
  {
  }

  lemma PropertyTexts()
    ensures PlainMetadata(SomeProp) && PlainMetadata(ValueProp)
  {
  }

  lemma KvPropertyTexts()
    ensures PlainMetadata(PropKeyValue) && PlainMetadata(PropKeyValue2)
  {
  }

  lemma ValuePropOwsText()
    ensures PlainMetadata(ValuePropOws)
  {
  }

  lemma KvPropertyOwsText()
    ensures PlainMetadata(PropKeyValueOws)
  {
  }

  lemma KvProperty2OwsText()
    ensures PlainMetadata(PropKeyValue2Ows)
  {
  }

  lemma TwoPropsText()
    ensures PlainMetadata(TwoProps)
  {
  }

  lemma TwoPropsOwsText()
    ensures PlainMetadata(TwoPropsOws)
  {
  }

  /** Keys that extend another key sort after it. */
  lemma KeyOrder()
    ensures Less("SomeKey", "SomeKey2")
  {
    assert "SomeKey" + "2" == "SomeKey2";
    LessPrefix("SomeKey", "2");
  }

  lemma EncodeEquals()
    ensures Encode(EqualsSign) == "%3D"
  {
  }

  lemma EncodeOws()
    ensures Encode(Ows) == "%20%09%20"
  {
  }

  lemma EncodeOwsEquals()
    ensures Encode(OwsEquals) == "%20%09%20" + "%3D" + "%20%09%20"
  {
    EncodeOws();
    EncodeEquals();
    EncodeAppend(Ows, EqualsSign);
    EncodeAppend(Ows + EqualsSign, Ows);
  }

  lemma EncodeValueProp()
    ensures Encode(ValueProp) == "ValueProp" + "%3D" + "PropVal"
  {
    EncodeEquals();
    EncodeAround("ValueProp", EqualsSign, "PropVal", "%3D");
  }

  lemma EncodeValuePropOws()
    ensures Encode(ValuePropOws) == "ValueProp" + ("%20%09%20" + "%3D" + "%20%09%20") + "PropVal"
  {
    EncodeOwsEquals();
    EncodeAround("ValueProp", OwsEquals, "PropVal", "%20%09%20" + "%3D" + "%20%09%20");
  }

  lemma EncodePropKeyValue()
    ensures Encode(PropKeyValue) == "SomePropKey" + "%3D" + "SomePropValue"
    ensures Encode(PropKeyValue2) == "SomePropKey2" + "%3D" + "SomePropValue2"
  {
    EncodeEquals();
    EncodeAround("SomePropKey", EqualsSign, "SomePropValue", "%3D");
    EncodeAround("SomePropKey2", EqualsSign, "SomePropValue2", "%3D");
  }

  lemma EncodePropKeyValue2Ows()
    ensures Encode(PropKeyValue2Ows) == "SomePropKey2" + ("%20%09%20" + "%3D" + "%20%09%20") + "SomePropValue2"
  {
    EncodeOwsEquals();
    EncodeAround("SomePropKey2", OwsEquals, "SomePropValue2", "%20%09%20" + "%3D" + "%20%09%20");
  }

  /** The escaped texts hold baggage-octets only. */
  lemma EncodedTexts()
    ensures IsBaggageValue(EncodedOws) && IsBaggageValue(Encoded)
  {
    EscapeAllIsBaggageText(Specials1);
    EscapeAllIsBaggageText(Specials2);
    EscapeAllIsBaggageText(CommaBackslash);
    assert IsBaggageValue(Letters) && IsBaggageValue(LetterX);
    BaggageValueAppend(EscapeAll(Specials1), Letters);
    BaggageValueAppend(EscapeAll(Specials1) + Letters, EscapeAll(Specials2));
    BaggageValueAppend(EncodedOws, EscapeAll(CommaBackslash));
    BaggageValueAppend(EncodedOws + EscapeAll(CommaBackslash), LetterX);
  }

  lemma DecodeLetters()
    ensures Decode(Letters) == Some(Letters)
  {
    DecodeUnescaped(Letters);
  }

  lemma DecodeLetterX()
    ensures Decode(LetterX) == Some(LetterX)
  {
    DecodeUnescaped(LetterX);
  }

  lemma DecodeEncodedOws()
    ensures Decode(EncodedOws) == Some(OriginalOws)
  {
    DecodeEscapeAll(Specials1);
    DecodeEscapeAll(Specials2);
    DecodeLetters();
    DecodeAppend(EscapeAll(Specials1), Letters, Specials1, Letters);
    DecodeAppend(EscapeAll(Specials1) + Letters, EscapeAll(Specials2), Specials1 + Letters, Specials2);
  }

  lemma DecodeEncoded()
    ensures Decode(Encoded) == Some(Original)
  {
    DecodeEncodedOws();
    DecodeEscapeAll(CommaBackslash);
    DecodeLetterX();
    DecodeAppend(EncodedOws, EscapeAll(CommaBackslash), OriginalOws, CommaBackslash);
    DecodeAppend(EncodedOws + EscapeAll(CommaBackslash), LetterX, OriginalOws + CommaBackslash, LetterX);
  }

  lemma EncodeTabSpaceQuote()
    ensures Encode(TabSpaceQuote) == "%09%20%22"
  {
  }

  lemma EncodeSemicolonEquals()
    ensures Encode(SemicolonEquals) == "%3B%3D"
  {
  }

  lemma EncodeHash()
    ensures Encode(Hash) == "%23"
  {
  }

  lemma EncodePercentCaret()
    ensures Encode(PercentCaret) == "%25%5E"
  {
  }

  lemma EncodeCommaBackslash()
    ensures Encode(CommaBackslash) == "%2C%5C"
  {
  }

  lemma EncodeSpecials1()
    ensures Encode(Specials1) == "%09%20%22" + "'" + "%3B%3D"
  {
    EncodeTabSpaceQuote();
    EncodeSemicolonEquals();
    EncodeLiteral(Apostrophe);
    EncodeAppend(TabSpaceQuote, Apostrophe);
    EncodeAppend(TabSpaceQuote + Apostrophe, SemicolonEquals);
  }

  lemma EncodeSpecials2()
    ensures Encode(Specials2) == "!@" + "%23" + "$" + "%25%5E" + "&*()"
  {
    EncodeHash();
    EncodePercentCaret();
    EncodeLiteral(BangAt);
    EncodeLiteral(Dollar);
    EncodeLiteral(AmpersandStarParens);
    EncodeAppend(BangAt, Hash);
    EncodeAppend(BangAt + Hash, Dollar);
    EncodeAppend(BangAt + Hash + Dollar, PercentCaret);
    EncodeAppend(BangAt + Hash + Dollar + PercentCaret, AmpersandStarParens);
  }

  lemma EncodeOriginal()
    ensures Encode(Original) == Reencoded
  {
    EncodeSpecials1();
    EncodeSpecials2();
    EncodeCommaBackslash();
    EncodeLiteral(Letters);
    EncodeLiteral(LetterX);
    EncodeAppend(Specials1, Letters);
    EncodeAppend(Specials1 + Letters, Specials2);
    EncodeAppend(OriginalOws, CommaBackslash);
    EncodeAppend(OriginalOws + CommaBackslash, LetterX);
  }

  // The entries of the tests, written as members.

  lemma SerializedSimple()
    ensures SerializeEntry(Entry("SomeKey", SomeValue, "")) == "SomeKey" + "=" + SomeValue
  {
    LiteralTexts();
    EncodeLiteral(SomeValue);
    SerializeBare("SomeKey", SomeValue, SomeValue);
  }

  lemma SerializedProperty()
    ensures SerializeEntry(Entry("SomeKey", SomeValue, SomeProp)) == "SomeKey" + "=" + SomeValue + ";" + SomeProp
  {
    LiteralTexts();
    EncodeLiteral(SomeValue);
    EncodeLiteral(SomeProp);
    SerializeWithMetadata("SomeKey", SomeValue, SomeProp, SomeValue, SomeProp);
  }

  lemma SerializedValueProp()
    ensures SerializeEntry(Entry("SomeKey2", SomeValue2, ValueProp))
      == "SomeKey2" + "=" + SomeValue2 + ";" + ("ValueProp" + "%3D" + "PropVal")
  {
    LiteralTexts();
    EncodeLiteral(SomeValue2);
    EncodeValueProp();
    SerializeWithMetadata("SomeKey2", SomeValue2, ValueProp, SomeValue2, "ValueProp" + "%3D" + "PropVal");
  }

  lemma SerializedValuePropOws()
    ensures SerializeEntry(Entry("SomeKey2", SomeValue2, ValuePropOws))
      == "SomeKey2" + "=" + SomeValue2 + ";" + ("ValueProp" + ("%20%09%20" + "%3D" + "%20%09%20") + "PropVal")
  {
    LiteralTexts();
    EncodeLiteral(SomeValue2);
    EncodeValuePropOws();
    SerializeWithMetadata("SomeKey2", SomeValue2, ValuePropOws, SomeValue2, "ValueProp" + ("%20%09%20" + "%3D" + "%20%09%20") + "PropVal");
  }

  lemma SerializedKvProperty()
    ensures SerializeEntry(Entry("SomeKey", SomeValue, PropKeyValue))
      == "SomeKey" + "=" + SomeValue + ";" + ("SomePropKey" + "%3D" + "SomePropValue")
    ensures SerializeEntry(Entry("SomeKey2", SomeValue2, PropKeyValue2))
      == "SomeKey2" + "=" + SomeValue2 + ";" + ("SomePropKey2" + "%3D" + "SomePropValue2")
  {
    LiteralTexts();
    EncodeLiteral(SomeValue);
    EncodeLiteral(SomeValue2);
    EncodePropKeyValue();
    SerializeWithMetadata("SomeKey", SomeValue, PropKeyValue, SomeValue, "SomePropKey" + "%3D" + "SomePropValue");
    SerializeWithMetadata("SomeKey2", SomeValue2, PropKeyValue2, SomeValue2, "SomePropKey2" + "%3D" + "SomePropValue2");
  }

  lemma SerializedKvProperty2Ows()
    ensures SerializeEntry(Entry("SomeKey2", SomeValue2, PropKeyValue2Ows))
      == "SomeKey2" + "=" + SomeValue2 + ";" + ("SomePropKey2" + ("%20%09%20" + "%3D" + "%20%09%20") + "SomePropValue2")
  {
    LiteralTexts();
    EncodeLiteral(SomeValue2);
    EncodePropKeyValue2Ows();
    SerializeWithMetadata("SomeKey2", SomeValue2, PropKeyValue2Ows, SomeValue2, "SomePropKey2" + ("%20%09%20" + "%3D" + "%20%09%20") + "SomePropValue2");
  }

  // The members of the two-member headers, each read on its own.

  lemma PropertyMember()
    ensures ParseMember("SomeKey" + "=" + SomeValue + ";" + SomeProp) == Some(Entry("SomeKey", SomeValue, SomeProp))
    ensures ',' !in "SomeKey" + "=" + SomeValue + ";" + SomeProp
  {
    KeyTexts();
    ValueTexts();
    PropertyTexts();
    ReadPlainWithMetadata("SomeKey" + "=" + SomeValue + ";" + SomeProp,
      Padded("", "SomeKey", ""), Padded("", SomeValue, ""), Padded("", SomeProp, ""));
  }

  lemma ValuePropMember()
    ensures ParseMember("SomeKey2" + "=" + SomeValue2 + ";" + ValueProp) == Some(Entry("SomeKey2", SomeValue2, ValueProp))
    ensures ',' !in "SomeKey2" + "=" + SomeValue2 + ";" + ValueProp
  {
    KeyTexts();
    ValueTexts();
    PropertyTexts();
    ReadPlainWithMetadata("SomeKey2" + "=" + SomeValue2 + ";" + ValueProp,
      Padded("", "SomeKey2", ""), Padded("", SomeValue2, ""), Padded("", ValueProp, ""));
  }

  lemma PropertyOwsMember()
    ensures ParseMember("SomeKey" + " \t " + "=" + " \t " + SomeValue + " \t " + ";" + " \t " + SomeProp + " \t ")
      == Some(Entry("SomeKey", SomeValue, SomeProp))
    ensures ',' !in "SomeKey" + " \t " + "=" + " \t " + SomeValue + " \t " + ";" + " \t " + SomeProp + " \t "
  {
    KeyTexts();
    ValueTexts();
    PropertyTexts();
    ReadPlainWithMetadata("SomeKey" + " \t " + "=" + " \t " + SomeValue + " \t " + ";" + " \t " + SomeProp + " \t ",
      Padded("", "SomeKey", " \t "), Padded(" \t ", SomeValue, " \t "), Padded(" \t ", SomeProp, " \t "));
  }

  lemma ValuePropOwsMember()
    ensures ParseMember(" \t " + "SomeKey2" + " \t " + "=" + " \t " + SomeValue2 + " \t " + ";" + " \t " + ValuePropOws)
      == Some(Entry("SomeKey2", SomeValue2, ValuePropOws))
    ensures ',' !in " \t " + "SomeKey2" + " \t " + "=" + " \t " + SomeValue2 + " \t " + ";" + " \t " + ValuePropOws
  {
    KeyTexts();
    ValueTexts();
    ValuePropOwsText();
    ReadPlainWithMetadata(" \t " + "SomeKey2" + " \t " + "=" + " \t " + SomeValue2 + " \t " + ";" + " \t " + ValuePropOws,
      Padded(" \t ", "SomeKey2", " \t "), Padded(" \t ", SomeValue2, " \t "), Padded(" \t ", ValuePropOws, ""));
  }

  lemma KvPropertyMember()
    ensures ParseMember("SomeKey" + "=" + SomeValue + ";" + PropKeyValue) == Some(Entry("SomeKey", SomeValue, PropKeyValue))
    ensures ',' !in "SomeKey" + "=" + SomeValue + ";" + PropKeyValue
  {
    KeyTexts();
    ValueTexts();
    KvPropertyTexts();
    ReadPlainWithMetadata("SomeKey" + "=" + SomeValue + ";" + PropKeyValue,
      Padded("", "SomeKey", ""), Padded("", SomeValue, ""), Padded("", PropKeyValue, ""));
  }

  lemma KvProperty2Member()
    ensures ParseMember("SomeKey2" + "=" + SomeValue2 + ";" + PropKeyValue2) == Some(Entry("SomeKey2", SomeValue2, PropKeyValue2))
    ensures ',' !in "SomeKey2" + "=" + SomeValue2 + ";" + PropKeyValue2
  {
    KeyTexts();
    ValueTexts();
    KvPropertyTexts();
    ReadPlainWithMetadata("SomeKey2" + "=" + SomeValue2 + ";" + PropKeyValue2,
      Padded("", "SomeKey2", ""), Padded("", SomeValue2, ""), Padded("", PropKeyValue2, ""));
  }

  lemma KvPropertyOwsTrailMember()
    ensures ParseMember("SomeKey" + " \t " + "=" + " \t " + SomeValue + " \t " + ";" + " \t " + PropKeyValue + " \t ")
      == Some(Entry("SomeKey", SomeValue, PropKeyValue))
    ensures ',' !in "SomeKey" + " \t " + "=" + " \t " + SomeValue + " \t " + ";" + " \t " + PropKeyValue + " \t "
  {
    KeyTexts();
    ValueTexts();
    KvPropertyTexts();
    ReadPlainWithMetadata("SomeKey" + " \t " + "=" + " \t " + SomeValue + " \t " + ";" + " \t " + PropKeyValue + " \t ",
      Padded("", "SomeKey", " \t "), Padded(" \t ", SomeValue, " \t "), Padded(" \t ", PropKeyValue, " \t "));
  }

  lemma KvProperty2OwsMember()
    ensures ParseMember(" \t " + "SomeKey2" + " \t " + "=" + " \t " + SomeValue2 + " \t " + ";" + " \t " + PropKeyValue2Ows)
      == Some(Entry("SomeKey2", SomeValue2, PropKeyValue2Ows))
    ensures ',' !in " \t " + "SomeKey2" + " \t " + "=" + " \t " + SomeValue2 + " \t " + ";" + " \t " + PropKeyValue2Ows
  {
    KeyTexts();
    ValueTexts();
    KvProperty2OwsText();
    ReadPlainWithMetadata(" \t " + "SomeKey2" + " \t " + "=" + " \t " + SomeValue2 + " \t " + ";" + " \t " + PropKeyValue2Ows,
      Padded(" \t ", "SomeKey2", " \t "), Padded(" \t ", SomeValue2, " \t "), Padded(" \t ", PropKeyValue2Ows, ""));
  }

  // BaggageTest: headers read, then written back.

  /** `SomeKey=SomeValue` holds one entry. */
  lemma ParseSimple()
    ensures Extract(Some("SomeKey" + "=" + SomeValue)) == [Entry("SomeKey", SomeValue, "")]
  {
    KeyTexts();
    ValueTexts();
    ReadPlain("SomeKey" + "=" + SomeValue, Padded("", "SomeKey", ""), Padded("", SomeValue, ""));
    ExtractSingle("SomeKey" + "=" + SomeValue, Entry("SomeKey", SomeValue, ""));
  }

  /** ... and is written back as it was read. */
  lemma InjectSimple()
    ensures Inject(Extract(Some("SomeKey" + "=" + SomeValue))) == Some("SomeKey" + "=" + SomeValue)
  {
    ParseSimple();
    SerializedSimple();
    KeyTexts();
    RewriteOne("SomeKey" + "=" + SomeValue, Entry("SomeKey", SomeValue, ""), "SomeKey" + "=" + SomeValue);
  }

  /** Two members with metadata, the second's holding a `=`: two entries in key order. */
  lemma ParseMultiple()
    ensures Extract(Some(("SomeKey" + "=" + SomeValue + ";" + SomeProp) + "," + ("SomeKey2" + "=" + SomeValue2 + ";" + ValueProp)))
      == [Entry("SomeKey", SomeValue, SomeProp), Entry("SomeKey2", SomeValue2, ValueProp)]
  {
    PropertyMember();
    ValuePropMember();
    KeyOrder();
    ExtractPair("SomeKey" + "=" + SomeValue + ";" + SomeProp, "SomeKey2" + "=" + SomeValue2 + ";" + ValueProp,
      Entry("SomeKey", SomeValue, SomeProp), Entry("SomeKey2", SomeValue2, ValueProp));
  }

  /** ... written back with the opaque metadata's `=` escaped. */
  lemma InjectMultiple()
    ensures Inject(Extract(Some(("SomeKey" + "=" + SomeValue + ";" + SomeProp) + "," + ("SomeKey2" + "=" + SomeValue2 + ";" + ValueProp))))
      == Some(("SomeKey" + "=" + SomeValue + ";" + SomeProp) + "," + ("SomeKey2" + "=" + SomeValue2 + ";" + ("ValueProp" + "%3D" + "PropVal")))
  {
    ParseMultiple();
    SerializedProperty();
    SerializedValueProp();
    KeyTexts();
    RewriteTwo(("SomeKey" + "=" + SomeValue + ";" + SomeProp) + "," + ("SomeKey2" + "=" + SomeValue2 + ";" + ValueProp),
      Entry("SomeKey", SomeValue, SomeProp), Entry("SomeKey2", SomeValue2, ValueProp),
      "SomeKey" + "=" + SomeValue + ";" + SomeProp, "SomeKey2" + "=" + SomeValue2 + ";" + ("ValueProp" + "%3D" + "PropVal"));
  }

  /** The same header with whitespace around every part: the metadata keeps its inner whitespace. */
  lemma ParseMultipleOws()
    ensures Extract(Some(
        ("SomeKey" + " \t " + "=" + " \t " + SomeValue + " \t " + ";" + " \t " + SomeProp + " \t ") + "," +
        (" \t " + "SomeKey2" + " \t " + "=" + " \t " + SomeValue2 + " \t " + ";" + " \t " + ValuePropOws)))
      == [Entry("SomeKey", SomeValue, SomeProp), Entry("SomeKey2", SomeValue2, ValuePropOws)]
  {
    PropertyOwsMember();
    ValuePropOwsMember();
    KeyOrder();
    ExtractPair("SomeKey" + " \t " + "=" + " \t " + SomeValue + " \t " + ";" + " \t " + SomeProp + " \t ",
      " \t " + "SomeKey2" + " \t " + "=" + " \t " + SomeValue2 + " \t " + ";" + " \t " + ValuePropOws,
      Entry("SomeKey", SomeValue, SomeProp), Entry("SomeKey2", SomeValue2, ValuePropOws));
  }

  /** ... written back without the outer whitespace, the metadata's whitespace and `=` escaped. */
  lemma InjectMultipleOws()
    ensures Inject(Extract(Some(
        ("SomeKey" + " \t " + "=" + " \t " + SomeValue + " \t " + ";" + " \t " + SomeProp + " \t ") + "," +
        (" \t " + "SomeKey2" + " \t " + "=" + " \t " + SomeValue2 + " \t " + ";" + " \t " + ValuePropOws))))
      == Some(("SomeKey" + "=" + SomeValue + ";" + SomeProp) + "," +
        ("SomeKey2" + "=" + SomeValue2 + ";" + ("ValueProp" + ("%20%09%20" + "%3D" + "%20%09%20") + "PropVal")))
  {
    ParseMultipleOws();
    SerializedProperty();
    SerializedValuePropOws();
    KeyTexts();
    RewriteTwo(
      ("SomeKey" + " \t " + "=" + " \t " + SomeValue + " \t " + ";" + " \t " + SomeProp + " \t ") + "," +
      (" \t " + "SomeKey2" + " \t " + "=" + " \t " + SomeValue2 + " \t " + ";" + " \t " + ValuePropOws),
      Entry("SomeKey", SomeValue, SomeProp), Entry("SomeKey2", SomeValue2, ValuePropOws),
      "SomeKey" + "=" + SomeValue + ";" + SomeProp, "SomeKey2" + "=" + SomeValue2 + ";" + ("ValueProp" + ("%20%09%20" + "%3D" + "%20%09%20") + "PropVal"));
  }

  /** Two members whose metadata are key-value properties. */
  lemma ParseMultipleKvProperty()
    ensures Extract(Some(("SomeKey" + "=" + SomeValue + ";" + PropKeyValue) + "," + ("SomeKey2" + "=" + SomeValue2 + ";" + PropKeyValue2)))
      == [Entry("SomeKey", SomeValue, PropKeyValue), Entry("SomeKey2", SomeValue2, PropKeyValue2)]
  {
    KvPropertyMember();
    KvProperty2Member();
    KeyOrder();
    ExtractPair("SomeKey" + "=" + SomeValue + ";" + PropKeyValue, "SomeKey2" + "=" + SomeValue2 + ";" + PropKeyValue2,
      Entry("SomeKey", SomeValue, PropKeyValue), Entry("SomeKey2", SomeValue2, PropKeyValue2));
  }

  /** ... written back with each property's `=` escaped. */
  lemma InjectMultipleKvProperty()
    ensures Inject(Extract(Some(("SomeKey" + "=" + SomeValue + ";" + PropKeyValue) + "," + ("SomeKey2" + "=" + SomeValue2 + ";" + PropKeyValue2))))
      == Some(("SomeKey" + "=" + SomeValue + ";" + ("SomePropKey" + "%3D" + "SomePropValue")) + "," +
        ("SomeKey2" + "=" + SomeValue2 + ";" + ("SomePropKey2" + "%3D" + "SomePropValue2")))
  {
    ParseMultipleKvProperty();
    SerializedKvProperty();
    KeyTexts();
    RewriteTwo(("SomeKey" + "=" + SomeValue + ";" + PropKeyValue) + "," + ("SomeKey2" + "=" + SomeValue2 + ";" + PropKeyValue2),
      Entry("SomeKey", SomeValue, PropKeyValue), Entry("SomeKey2", SomeValue2, PropKeyValue2),
      "SomeKey" + "=" + SomeValue + ";" + ("SomePropKey" + "%3D" + "SomePropValue"),
      "SomeKey2" + "=" + SomeValue2 + ";" + ("SomePropKey2" + "%3D" + "SomePropValue2"));
  }

  lemma ParseMultipleKvPropertyOws()
    ensures Extract(Some(
        ("SomeKey" + " \t " + "=" + " \t " + SomeValue + " \t " + ";" + " \t " + PropKeyValue + " \t ") + "," +
        (" \t " + "SomeKey2" + " \t " + "=" + " \t " + SomeValue2 + " \t " + ";" + " \t " + PropKeyValue2Ows)))
      == [Entry("SomeKey", SomeValue, PropKeyValue), Entry("SomeKey2", SomeValue2, PropKeyValue2Ows)]
  {
    KvPropertyOwsTrailMember();
    KvProperty2OwsMember();
    KeyOrder();
    ExtractPair("SomeKey" + " \t " + "=" + " \t " + SomeValue + " \t " + ";" + " \t " + PropKeyValue + " \t ",
      " \t " + "SomeKey2" + " \t " + "=" + " \t " + SomeValue2 + " \t " + ";" + " \t " + PropKeyValue2Ows,
      Entry("SomeKey", SomeValue, PropKeyValue), Entry("SomeKey2", SomeValue2, PropKeyValue2Ows));
  }

  lemma InjectMultipleKvPropertyOws()
    ensures Inject(Extract(Some(
        ("SomeKey" + " \t " + "=" + " \t " + SomeValue + " \t " + ";" + " \t " + PropKeyValue + " \t ") + "," +
        (" \t " + "SomeKey2" + " \t " + "=" + " \t " + SomeValue2 + " \t " + ";" + " \t " + PropKeyValue2Ows))))
      == Some(("SomeKey" + "=" + SomeValue + ";" + ("SomePropKey" + "%3D" + "SomePropValue")) + "," +
        ("SomeKey2" + "=" + SomeValue2 + ";" + ("SomePropKey2" + ("%20%09%20" + "%3D" + "%20%09%20") + "SomePropValue2")))
  {
    ParseMultipleKvPropertyOws();
    SerializedKvProperty();
    SerializedKvProperty2Ows();
    KeyTexts();
    RewriteTwo(
      ("SomeKey" + " \t " + "=" + " \t " + SomeValue + " \t " + ";" + " \t " + PropKeyValue + " \t ") + "," +
      (" \t " + "SomeKey2" + " \t " + "=" + " \t " + SomeValue2 + " \t " + ";" + " \t " + PropKeyValue2Ows),
      Entry("SomeKey", SomeValue, PropKeyValue), Entry("SomeKey2", SomeValue2, PropKeyValue2Ows),
      "SomeKey" + "=" + SomeValue + ";" + ("SomePropKey" + "%3D" + "SomePropValue"),
      "SomeKey2" + "=" + SomeValue2 + ";" + ("SomePropKey2" + ("%20%09%20" + "%3D" + "%20%09%20") + "SomePropValue2"));
  }

  // BaggageEntryTest: one member per header.

  /** The value runs to the `;` or the end, so it may hold further `=`. */
  lemma ParseMultipleEquals()
    ensures Extract(Some("SomeKey" + "=" + ValueWithEquals)) == [Entry("SomeKey", ValueWithEquals, "")]
  {
    KeyTexts();
    EqualsValueText();
    ReadPlain("SomeKey" + "=" + ValueWithEquals, Padded("", "SomeKey", ""), Padded("", ValueWithEquals, ""));
    ExtractSingle("SomeKey" + "=" + ValueWithEquals, Entry("SomeKey", ValueWithEquals, ""));
  }

  /** A value with every reserved character escaped is read as the original octets. */
  lemma ParsePercentEncoded()
    ensures Extract(Some("SomeKey" + "=" + Encoded)) == [Entry("SomeKey", Original, "")]
  {
    PercentEncodedMember();
    ExtractSingle("SomeKey" + "=" + Encoded, Entry("SomeKey", Original, ""));
  }

  lemma PercentEncodedMember()
    ensures ParseMember("SomeKey" + "=" + Encoded) == Some(Entry("SomeKey", Original, ""))
    ensures ',' !in "SomeKey" + "=" + Encoded
  {
    KeyTexts();
    DecodeEncoded();
    EncodedTexts();
    ReadBare("SomeKey" + "=" + Encoded, Padded("", "SomeKey", ""), Padded("", Encoded, ""), Original);
  }

  /** ... and written back with only the characters the encoder must escape escaped. */
  lemma InjectPercentEncoded()
    ensures Inject(Extract(Some("SomeKey" + "=" + Encoded))) == Some("SomeKey" + "=" + Reencoded)
  {
    ParsePercentEncoded();
    EncodeOriginal();
    SerializeBare("SomeKey", Original, Reencoded);
    KeyTexts();
    RewriteOne("SomeKey" + "=" + Encoded, Entry("SomeKey", Original, ""), "SomeKey" + "=" + Reencoded);
  }

  lemma ParseProperty()
    ensures Extract(Some("SomeKey" + "=" + SomeValue + ";" + SomeProp)) == [Entry("SomeKey", SomeValue, SomeProp)]
  {
    PropertyMember();
    ExtractSingle("SomeKey" + "=" + SomeValue + ";" + SomeProp, Entry("SomeKey", SomeValue, SomeProp));
  }

  /** Metadata is one opaque text: a second `;` stays inside it. */
  lemma ParseMultiProperty()
    ensures Extract(Some("SomeKey" + "=" + SomeValue + ";" + TwoProps)) == [Entry("SomeKey", SomeValue, TwoProps)]
  {
    KeyTexts();
    ValueTexts();
    TwoPropsText();
    ReadPlainWithMetadata("SomeKey" + "=" + SomeValue + ";" + TwoProps,
      Padded("", "SomeKey", ""), Padded("", SomeValue, ""), Padded("", TwoProps, ""));
    ExtractSingle("SomeKey" + "=" + SomeValue + ";" + TwoProps, Entry("SomeKey", SomeValue, TwoProps));
  }

  lemma ParseKvProperty()
    ensures Extract(Some("SomeKey" + "=" + SomeValue + ";" + PropKeyValue)) == [Entry("SomeKey", SomeValue, PropKeyValue)]
  {
    KvPropertyMember();
    ExtractSingle("SomeKey" + "=" + SomeValue + ";" + PropKeyValue, Entry("SomeKey", SomeValue, PropKeyValue));
  }

  lemma ParseSimpleOws()
    ensures Extract(Some("SomeKey" + " \t " + "=" + " \t " + SomeValue + " \t ")) == [Entry("SomeKey", SomeValue, "")]
  {
    KeyTexts();
    ValueTexts();
    ReadPlain("SomeKey" + " \t " + "=" + " \t " + SomeValue + " \t ", Padded("", "SomeKey", " \t "), Padded(" \t ", SomeValue, " \t "));
    ExtractSingle("SomeKey" + " \t " + "=" + " \t " + SomeValue + " \t ", Entry("SomeKey", SomeValue, ""));
  }

  lemma ParsePercentEncodedOws()
    ensures Extract(Some("SomeKey" + " \t " + "=" + " \t " + EncodedOws + " \t ")) == [Entry("SomeKey", OriginalOws, "")]
  {
    PercentEncodedOwsMember();
    ExtractSingle("SomeKey" + " \t " + "=" + " \t " + EncodedOws + " \t ", Entry("SomeKey", OriginalOws, ""));
  }

  lemma PercentEncodedOwsMember()
    ensures ParseMember("SomeKey" + " \t " + "=" + " \t " + EncodedOws + " \t ") == Some(Entry("SomeKey", OriginalOws, ""))
    ensures ',' !in "SomeKey" + " \t " + "=" + " \t " + EncodedOws + " \t "
  {
    KeyTexts();
    DecodeEncodedOws();
    EncodedTexts();
    ReadBare("SomeKey" + " \t " + "=" + " \t " + EncodedOws + " \t ", Padded("", "SomeKey", " \t "), Padded(" \t ", EncodedOws, " \t "), OriginalOws);
  }

  lemma ParsePropertyOws()
    ensures Extract(Some("SomeKey" + " \t " + "=" + " \t " + SomeValue + " \t " + ";" + " \t " + SomeProp))
      == [Entry("SomeKey", SomeValue, SomeProp)]
  {
    KeyTexts();
    ValueTexts();
    PropertyTexts();
    ReadPlainWithMetadata("SomeKey" + " \t " + "=" + " \t " + SomeValue + " \t " + ";" + " \t " + SomeProp,
      Padded("", "SomeKey", " \t "), Padded(" \t ", SomeValue, " \t "), Padded(" \t ", SomeProp, ""));
    ExtractSingle("SomeKey" + " \t " + "=" + " \t " + SomeValue + " \t " + ";" + " \t " + SomeProp, Entry("SomeKey", SomeValue, SomeProp));
  }

  lemma ParseMultiPropertyOws()
    ensures Extract(Some("SomeKey" + " \t " + "=" + " \t " + SomeValue + " \t " + ";" + " \t " + TwoPropsOws))
      == [Entry("SomeKey", SomeValue, TwoPropsOws)]
  {
    KeyTexts();
    ValueTexts();
    TwoPropsOwsText();
    ReadPlainWithMetadata("SomeKey" + " \t " + "=" + " \t " + SomeValue + " \t " + ";" + " \t " + TwoPropsOws,
      Padded("", "SomeKey", " \t "), Padded(" \t ", SomeValue, " \t "), Padded(" \t ", TwoPropsOws, ""));
    ExtractSingle("SomeKey" + " \t " + "=" + " \t " + SomeValue + " \t " + ";" + " \t " + TwoPropsOws, Entry("SomeKey", SomeValue, TwoPropsOws));
  }

  lemma ParseKvPropertyOws()
    ensures Extract(Some("SomeKey" + " \t " + "=" + " \t " + SomeValue + " \t " + ";" + " \t " + PropKeyValueOws))
      == [Entry("SomeKey", SomeValue, PropKeyValueOws)]
  {
    KeyTexts();
    ValueTexts();
    KvPropertyOwsText();
    ReadPlainWithMetadata("SomeKey" + " \t " + "=" + " \t " + SomeValue + " \t " + ";" + " \t " + PropKeyValueOws,
      Padded("", "SomeKey", " \t "), Padded(" \t ", SomeValue, " \t "), Padded(" \t ", PropKeyValueOws, ""));
    ExtractSingle("SomeKey" + " \t " + "=" + " \t " + SomeValue + " \t " + ";" + " \t " + PropKeyValueOws,
      Entry("SomeKey", SomeValue, PropKeyValueOws));
  }
}
