/**
 * Character-level helpers shared by the baggage codec: searching for a
 * delimiter, splitting a string on a delimiter and joining it back, and
 * trimming optional whitespace (OWS, space and horizontal tab).
 */
module Text {
  import opened Wrappers

  /** Index of the first occurrence of `c` in `s`, if any. */
  function IndexOf(s: string, c: char): (r: Option<nat>)
    ensures r.Some? ==> r.value < |s| && s[r.value] == c && c !in s[..r.value]
    ensures r.None? ==> c !in s
  {
    if s == [] then None
    else if s[0] == c then Some(0)
    else
      match IndexOf(s[1..], c)
      case None => None
      case Some(i) =>
        assert s[..i + 1] == [s[0]] + s[1..][..i];
        Some(i + 1)
  }

  /** `s` cut at every `sep`; the pieces never contain `sep`. */
  function Split(s: string, sep: char): (parts: seq<string>)
    ensures |parts| >= 1
    ensures forall p :: p in parts ==> sep !in p
    decreases |s|
  {
    match IndexOf(s, sep)
    case None => [s]
    case Some(i) => [s[..i]] + Split(s[i + 1..], sep)
  }

  lemma IndexOfAt(s: string, c: char, i: nat)
    requires i < |s| && s[i] == c && c !in s[..i]
    ensures IndexOf(s, c) == Some(i)
  {
    assert s[..i + 1][i] == c;
  }

  /** The pieces glued back together with `sep` between neighbours. */
  function Join(parts: seq<string>, sep: char): string
  {
    if parts == [] then ""
    else if |parts| == 1 then parts[0]
    else parts[0] + [sep] + Join(parts[1..], sep)
  }

  lemma {:induction false} JoinSplit(s: string, sep: char)
    ensures Join(Split(s, sep), sep) == s
    decreases |s|
  {
    match IndexOf(s, sep)
    case None =>
    case Some(i) =>
      var rest := Split(s[i + 1..], sep);
      JoinSplit(s[i + 1..], sep);
      JoinCons(s[..i], rest, sep);
      CutAt(s, i);
  }

  lemma JoinCons(p: string, ps: seq<string>, sep: char)
    requires ps != []
    ensures Join([p] + ps, sep) == p + [sep] + Join(ps, sep)
  {
    assert ([p] + ps)[0] == p && ([p] + ps)[1..] == ps;
  }

  lemma CutAt(s: string, i: nat)
    requires i < |s|
    ensures s[..i] + [s[i]] + s[i + 1..] == s
  {
  }

  lemma {:induction false} SplitJoin(parts: seq<string>, sep: char)
    requires parts != []
    requires forall p :: p in parts ==> sep !in p
    ensures Split(Join(parts, sep), sep) == parts
    decreases |parts|
  {
    if |parts| > 1 {
      var s := Join(parts, sep);
      var rest := Join(parts[1..], sep);
      assert s == parts[0] + [sep] + rest;
      assert s[|parts[0]|] == sep;
      assert s[..|parts[0]|] == parts[0];
      IndexOfAt(s, sep, |parts[0]|);
      assert s[|parts[0]| + 1..] == rest;
      SplitJoin(parts[1..], sep);
      assert Split(s, sep) == [parts[0]] + parts[1..];
    } else {
      assert Join(parts, sep) == parts[0];
      assert parts[0] in parts;
    }
  }

  /** The length of a join: every piece plus one separator between neighbours. */
  function TotalLength(parts: seq<string>): nat
  {
    if parts == [] then 0 else |parts[0]| + TotalLength(parts[1..])
  }

  lemma {:induction false} JoinLength(parts: seq<string>, sep: char)
    requires parts != []
    ensures |Join(parts, sep)| == TotalLength(parts) + |parts| - 1
    decreases |parts|
  {
    if |parts| > 1 {
      JoinLength(parts[1..], sep);
    }
  }

  predicate IsOws(c: char) { c == ' ' || c == '\t' }

  function TrimLeft(s: string): (r: string)
    ensures |r| <= |s| && r == s[|s| - |r|..]
    ensures forall i :: 0 <= i < |s| - |r| ==> IsOws(s[i])
    ensures r != [] ==> !IsOws(r[0])
  {
    if s != [] && IsOws(s[0]) then TrimLeft(s[1..]) else s
  }

  function TrimRight(s: string): (r: string)
    ensures |r| <= |s| && r == s[..|r|]
    ensures forall i :: |r| <= i < |s| ==> IsOws(s[i])
    ensures r != [] ==> !IsOws(r[|r| - 1])
  {
    if s != [] && IsOws(s[|s| - 1]) then TrimRight(s[..|s| - 1]) else s
  }

  /** `s` without its leading and trailing OWS. */
  function TrimOws(s: string): (r: string)
    ensures |r| <= |s|
    ensures r != [] ==> !IsOws(r[0]) && !IsOws(r[|r| - 1])
  {
    TrimLeft(TrimRight(s))
  }

  predicate AllOws(s: string) { forall i :: 0 <= i < |s| ==> IsOws(s[i]) }

  /** Trimming removes exactly the OWS padding around a core that does not start or end with OWS. */
  lemma TrimOwsPadded(a: string, x: string, b: string)
    requires AllOws(a) && AllOws(b)
    requires x != [] ==> !IsOws(x[0]) && !IsOws(x[|x| - 1])
    ensures TrimOws(a + x + b) == x
  {
    var s := a + x + b;
    var t := TrimRight(s);
    if x != [] {
      assert s[|a| + |x| - 1] == x[|x| - 1];
      assert |t| == |a| + |x|;
      assert t == a + x;
      var r := TrimLeft(t);
      assert t[|a|] == x[0];
      assert |r| == |x|;
    } else {
      assert |t| <= |a|;
      assert TrimLeft(t) == [];
    }
  }

  /** A string with no OWS at its ends is its own trim. */
  lemma TrimOwsNoop(s: string)
    requires s != [] ==> !IsOws(s[0]) && !IsOws(s[|s| - 1])
    ensures TrimOws(s) == s
  {
  }
}
