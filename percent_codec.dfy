/**
 * Percent-encoding of baggage values and metadata. A value is an octet
 * string; on the wire every octet that is not in the encoder's literal set
 * is written `%XY` with two upper-case hexadecimal digits. The decoder
 * accepts either case and refuses a `%` that is not followed by two
 * hexadecimal digits.
 */
module PercentCodec {
  import opened Wrappers

  /** One octet of a value's byte form, carried in a char. */
  type Octet = c: char | c as int < 256 witness 'a'
  type Octets = seq<Octet>

  /**
   * `baggage-octet` of section 3.2 of the W3C Baggage specification: the
   * printable US-ASCII characters except space, double quote, comma,
   * semicolon and backslash.
   */
  predicate IsBaggageOctet(c: char)
  {
    c == '!' || ('#' <= c <= '+') || ('-' <= c <= ':') || ('<' <= c <= '[') || (']' <= c <= '~')
  }

  predicate IsAlphaNum(c: char)
  {
    ('0' <= c <= '9') || ('a' <= c <= 'z') || ('A' <= c <= 'Z')
  }

  /**
   * Characters the encoder writes as themselves: letters, digits, the
   * unreserved `- . _ ~` and `! $ & ' ( ) * @`. Every other octet, among
   * them TAB, space, `"`, `#`, `%`, `,`, `;`, `=`, `\` and `^`, is escaped.
   */
  predicate IsLiteral(c: char)
  {
    || IsAlphaNum(c)
    || c == '-' || c == '.' || c == '_' || c == '~'
    || c == '!' || c == '$' || c == '&' || c == '\'' || c == '(' || c == ')' || c == '*' || c == '@'
  }

  function HexDigit(n: nat): (c: char)
    requires n < 16
    ensures IsAlphaNum(c)
  {
    if n < 10 then ('0' as int + n) as char else ('A' as int + n - 10) as char
  }

  function HexValue(c: char): (r: Option<nat>)
    ensures r.Some? ==> r.value < 16
  {
    if '0' <= c <= '9' then Some(c as int - '0' as int)
    else if 'a' <= c <= 'f' then Some(c as int - 'a' as int + 10)
    else if 'A' <= c <= 'F' then Some(c as int - 'A' as int + 10)
    else None
  }

  lemma HexValueOfDigit(n: nat)
    requires n < 16
    ensures HexValue(HexDigit(n)) == Some(n)
  {
  }

  /** An octet as `%` and two upper-case hexadecimal digits. */
  function Escape(c: Octet): string
  {
    ['%', HexDigit(c as int / 16), HexDigit(c as int % 16)]
  }

  function EncodeOctet(c: Octet): string
  {
    if IsLiteral(c) then [c] else Escape(c)
  }

  /** The wire form of an octet string. */
  function Encode(s: Octets): (r: string)
    ensures |s| <= |r| <= 3 * |s|
  {
    if s == [] then "" else EncodeOctet(s[0]) + Encode(s[1..])
  }

  /** The octet a wire form starts with and the number of characters it takes. */
  function DecodeUnit(s: string): (r: Option<(Octet, nat)>)
    requires s != []
    ensures r.Some? ==> 1 <= r.value.1 <= |s| && r.value.1 <= 3
  {
    if s[0] == '%' then
      if |s| >= 3 && HexValue(s[1]).Some? && HexValue(s[2]).Some? then
        Some(((HexValue(s[1]).value * 16 + HexValue(s[2]).value) as char, 3))
      else None
    else if s[0] as int < 256 then Some((s[0] as Octet, 1))
    else None
  }

  /** The octet string a wire form denotes, or None for a malformed escape or a non-octet character. */
  function Decode(s: string): (r: Option<Octets>)
    ensures r.Some? ==> |r.value| <= |s| <= 3 * |r.value|
    decreases |s|
  {
    if s == [] then Some([])
    else
      match DecodeUnit(s)
      case None => None
      case Some((c, n)) =>
        match Decode(s[n..])
        case None => None
        case Some(rest) => Some([c] + rest)
  }

  /** Decoding undoes encoding: every octet string survives the wire. */
  lemma {:induction false} DecodeEncode(s: Octets)
    ensures Decode(Encode(s)) == Some(s)
  {
    if s != [] {
      DecodeEncode(s[1..]);
      DecodeEncodeOctet(s[0]);
      DecodeAppend(EncodeOctet(s[0]), Encode(s[1..]), [s[0]], s[1..]);
      assert [s[0]] + s[1..] == s;
    }
  }

  /** One octet's wire form decodes to that octet. */
  lemma DecodeEncodeOctet(c: Octet)
    ensures Decode(EncodeOctet(c)) == Some([c])
  {
    var w := EncodeOctet(c);
    if IsLiteral(c) {
      assert w[0] == c && c != '%' && w[1..] == [];
      assert DecodeUnit(w) == Some((c, 1));
    } else {
      HexValueOfDigit(c as int / 16);
      HexValueOfDigit(c as int % 16);
      assert w[0] == '%' && w[1] == HexDigit(c as int / 16) && w[2] == HexDigit(c as int % 16);
      assert w[3..] == [];
      assert ((c as int / 16) * 16 + c as int % 16) as char == c;
      assert DecodeUnit(w) == Some((c, 3));
    }
    assert [c] + [] == [c];
  }

  /**
   * The wire form is made of baggage-octets only and never contains the
   * characters the header grammar gives a meaning to (`,`, `;`, `=`) or OWS.
   */
  lemma {:induction false} EncodeIsBaggageText(s: Octets)
    ensures forall i :: 0 <= i < |Encode(s)| ==> IsBaggageOctet(Encode(s)[i]) && Encode(s)[i] != '='
  {
    if s != [] {
      EncodeIsBaggageText(s[1..]);
      var w := Encode(s);
      var head := EncodeOctet(s[0]);
      assert w == head + Encode(s[1..]);
      forall i | 0 <= i < |w|
        ensures IsBaggageOctet(w[i]) && w[i] != '='
      {
        if i >= |head| {
          assert w[i] == Encode(s[1..])[i - |head|];
        }
      }
    }
  }

  predicate AllLiteral(s: string)
  {
    forall i :: 0 <= i < |s| ==> IsLiteral(s[i])
  }

  /** Octet strings made of literal characters only go on the wire unchanged. */
  lemma {:induction false} EncodeLiteral(s: Octets)
    requires AllLiteral(s)
    ensures Encode(s) == s
  {
    if s != [] {
      EncodeLiteral(s[1..]);
    }
  }

  /** Encoding works octet by octet, so it distributes over concatenation. */
  lemma {:induction false} EncodeAppend(a: Octets, b: Octets)
    ensures Encode(a + b) == Encode(a) + Encode(b)
  {
    if a == [] {
      assert a + b == b;
    } else {
      EncodeAppend(a[1..], b);
      assert (a + b)[1..] == a[1..] + b;
      assert (a + b)[0] == a[0];
      var head := EncodeOctet(a[0]);
      assert Encode(a + b) == head + Encode(a[1..] + b);
      assert Encode(a) == head + Encode(a[1..]);
      AppendAssoc(head, Encode(a[1..]), Encode(b));
    }
  }

  /** A run of octets between two literal runs is the only part that changes on the wire. */
  lemma EncodeAround(a: Octets, x: Octets, b: Octets, ex: string)
    requires AllLiteral(a) && AllLiteral(b) && Encode(x) == ex
    ensures Encode(a + x + b) == a + ex + b
  {
    EncodeLiteral(a);
    EncodeLiteral(b);
    EncodeAppend(a, x);
    EncodeAppend(a + x, b);
  }

  lemma AppendAssoc(x: string, y: string, z: string)
    ensures x + (y + z) == (x + y) + z
  {
  }

  lemma DecodeUnitAppend(a: string, b: string)
    requires a != [] && DecodeUnit(a).Some?
    ensures DecodeUnit(a + b) == DecodeUnit(a)
  {
    assert (a + b)[0] == a[0];
    if a[0] == '%' {
      assert (a + b)[1] == a[1] && (a + b)[2] == a[2];
    }
  }

  lemma DecodeStep(s: string, c: Octet, n: nat)
    requires s != [] && DecodeUnit(s) == Some((c, n))
    ensures Decode(s) == if Decode(s[n..]).Some? then Some([c] + Decode(s[n..]).value) else None
  {
  }

  /** Decoding a text that decodes followed by another decodes each part. */
  lemma {:induction false} DecodeAppend(a: string, b: string, x: Octets, y: Octets)
    requires Decode(a) == Some(x) && Decode(b) == Some(y)
    ensures Decode(a + b) == Some(x + y)
    decreases |a|
  {
    if a == [] {
      assert a + b == b && x + y == y;
    } else {
      var unit := DecodeUnit(a).value;
      var c, n := unit.0, unit.1;
      DecodeStep(a, c, n);
      var x' := Decode(a[n..]).value;
      DecodeAppend(a[n..], b, x', y);
      DecodeAppendStep(a, b, c, n, x', y);
    }
  }

  lemma DecodeAppendStep(a: string, b: string, c: Octet, n: nat, x': Octets, y: Octets)
    requires a != [] && DecodeUnit(a) == Some((c, n))
    requires Decode(a[n..] + b) == Some(x' + y)
    ensures Decode(a + b) == Some([c] + x' + y)
  {
    DecodeUnitAppend(a, b);
    assert (a + b)[n..] == a[n..] + b;
    DecodeStep(a + b, c, n);
    assert [c] + (x' + y) == [c] + x' + y;
  }

  /** A text without `%` made of octets decodes to itself. */
  lemma {:induction false} DecodeUnescaped(s: string)
    requires forall i :: 0 <= i < |s| ==> s[i] != '%' && s[i] as int < 256
    ensures Decode(s) == Some(s)
  {
    if s != [] {
      DecodeUnescaped(s[1..]);
      assert DecodeUnit(s) == Some((s[0] as Octet, 1));
      DecodeStep(s, s[0] as Octet, 1);
      assert [s[0]] + s[1..] == s;
    }
  }

  /** One octet that is not a literal is written as an upper-case escape. */
  lemma EncodeEscaped(c: Octet)
    requires !IsLiteral(c)
    ensures Encode([c]) == ['%', HexDigit(c as int / 16), HexDigit(c as int % 16)]
  {
    assert [c][1..] == [];
  }

  /** Every octet written as an escape, as a sender may do even where no escape is needed. */
  function EscapeAll(s: Octets): (r: string)
    ensures |r| == 3 * |s|
  {
    if s == [] then "" else Escape(s[0]) + EscapeAll(s[1..])
  }

  /** The decoder reads any escape, needed or not: decoding undoes `EscapeAll`. */
  lemma {:induction false} DecodeEscapeAll(s: Octets)
    ensures Decode(EscapeAll(s)) == Some(s)
  {
    if s != [] {
      var c := s[0];
      var w := EscapeAll(s);
      DecodeEscapeAll(s[1..]);
      HexValueOfDigit(c as int / 16);
      HexValueOfDigit(c as int % 16);
      assert w == Escape(c) + EscapeAll(s[1..]);
      assert w[0] == '%' && w[1] == HexDigit(c as int / 16) && w[2] == HexDigit(c as int % 16);
      assert w[3..] == EscapeAll(s[1..]);
      assert ((c as int / 16) * 16 + c as int % 16) as char == c;
      assert DecodeUnit(w) == Some((c, 3));
      DecodeStep(w, c, 3);
      assert [c] + s[1..] == s;
    }
  }

  /** Escapes are made of baggage-octets: `%` and hex digits. */
  lemma {:induction false} EscapeAllIsBaggageText(s: Octets)
    ensures forall i :: 0 <= i < |EscapeAll(s)| ==> IsBaggageOctet(EscapeAll(s)[i]) && EscapeAll(s)[i] != '='
  {
    if s != [] {
      EscapeAllIsBaggageText(s[1..]);
      var w := EscapeAll(s);
      var head := Escape(s[0]);
      assert w == head + EscapeAll(s[1..]);
      forall i | 0 <= i < |w|
        ensures IsBaggageOctet(w[i]) && w[i] != '='
      {
        if i >= |head| {
          assert w[i] == EscapeAll(s[1..])[i - |head|];
        }
      }
    }
  }
}
