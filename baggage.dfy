/**
 * Baggage: an immutable set of name/value pairs, each with an opaque
 * metadata string. It is held in its canonical form, a list of entries in
 * strictly increasing key order (Java's String.compareTo), and built by
 * `Put`, under which the last write to a key wins.
 */
module ImmutableBaggage {
  import opened Wrappers
  import opened PercentCodec

  datatype Entry = Entry(key: string, value: Octets, metadata: Octets)

  type Baggage = seq<Entry>

  /**
   * Lexicographic order on characters, shorter prefix first. It agrees with
   * Java's `String.compareTo` on characters below U+D800, which covers the
   * ASCII token keys the propagator writes.
   */
  predicate Less(a: string, b: string)
  {
    |b| > 0 && (|a| == 0 || a[0] < b[0] || (a[0] == b[0] && Less(a[1..], b[1..])))
  }

  lemma {:induction false} LessIrreflexive(a: string)
    ensures !Less(a, a)
  {
    if |a| > 0 {
      LessIrreflexive(a[1..]);
    }
  }

  lemma {:induction false} LessAsymmetric(a: string, b: string)
    requires Less(a, b)
    ensures !Less(b, a)
  {
    if |a| > 0 && a[0] == b[0] {
      LessAsymmetric(a[1..], b[1..]);
    }
  }

  lemma {:induction false} LessTransitive(a: string, b: string, c: string)
    requires Less(a, b) && Less(b, c)
    ensures Less(a, c)
  {
    if |a| > 0 && a[0] == b[0] && b[0] == c[0] {
      LessTransitive(a[1..], b[1..], c[1..]);
    }
  }

  lemma {:induction false} LessTotal(a: string, b: string)
    requires a != b
    ensures Less(a, b) || Less(b, a)
  {
    if |a| > 0 && |b| > 0 && a[0] == b[0] {
      assert a[1..] != b[1..];
      LessTotal(a[1..], b[1..]);
    }
  }

  /** Canonical form: keys strictly increasing, hence pairwise distinct. */
  predicate Sorted(b: Baggage)
  {
    forall i, j :: 0 <= i < j < |b| ==> Less(b[i].key, b[j].key)
  }

  lemma SortedSlice(b: Baggage, i: nat, j: nat)
    requires Sorted(b) && i <= j <= |b|
    ensures Sorted(b[i..j])
  {
    assert forall k :: 0 <= k < j - i ==> b[i..j][k] == b[i + k];
  }

  function Keys(b: Baggage): set<string>
  {
    set e | e in b :: e.key
  }

  /** A key below the head of a canonical list may be put in front of it. */
  lemma SortedCons(e: Entry, b: Baggage)
    requires Sorted(b)
    requires b != [] ==> Less(e.key, b[0].key)
    ensures Sorted([e] + b)
  {
    forall j | 0 < j < |b|
      ensures Less(e.key, b[j].key)
    {
      LessTransitive(e.key, b[0].key, b[j].key);
    }
  }

  /** The entry stored under `k`, as Java's `getEntry(k)` sees it. */
  function Get(b: Baggage, k: string): (r: Option<Entry>)
    ensures r.Some? ==> r.value in b && r.value.key == k
    ensures r.None? ==> k !in Keys(b)
  {
    if b == [] then None
    else if b[0].key == k then Some(b[0])
    else Get(b[1..], k)
  }

  /** `b` with `e` stored under its key, replacing any entry with that key. */
  function Put(b: Baggage, e: Entry): (r: Baggage)
    requires Sorted(b)
    ensures Sorted(r)
    ensures e in r
    ensures forall x :: x in r ==> x == e || (x in b && x.key != e.key)
    ensures forall x :: x in b && x.key != e.key ==> x in r
  {
    if b == [] then [e]
    else if b[0].key == e.key then
      LessIrreflexive(e.key);
      assert forall x :: x in b[1..] ==> Less(b[0].key, x.key);
      SortedCons(e, b[1..]);
      [e] + b[1..]
    else if Less(e.key, b[0].key) then
      SortedCons(e, b);
      LessIrreflexive(e.key);
      assert forall j :: 0 <= j < |b| ==> ([e] + b)[j + 1] == b[j];
      [e] + b
    else
      LessTotal(e.key, b[0].key);
      [b[0]] + Put(b[1..], e)
  }

  /** In canonical form an entry is what `Get` finds under its key. */
  lemma {:induction false} GetMember(b: Baggage, x: Entry)
    requires Sorted(b) && x in b
    ensures Get(b, x.key) == Some(x)
  {
    if b[0] != x {
      assert x in b[1..];
      var j :| 0 <= j < |b| && b[j] == x;
      LessIrreflexive(x.key);
      assert j > 0 && Less(b[0].key, x.key);
      GetMember(b[1..], x);
    }
  }

  /** `Put` is a map update: the new entry under its key, every other key untouched. */
  lemma GetPut(b: Baggage, e: Entry, k: string)
    requires Sorted(b)
    ensures Get(Put(b, e), k) == if k == e.key then Some(e) else Get(b, k)
  {
    var r := Put(b, e);
    if k == e.key {
      GetMember(r, e);
    } else {
      match Get(b, k)
      case Some(x) =>
        GetMember(r, x);
      case None =>
    }
  }

  /** `Put` adds one entry for a new key and keeps the size for a known one. */
  lemma {:induction false} PutSize(b: Baggage, e: Entry)
    requires Sorted(b)
    ensures |Put(b, e)| == if e.key in Keys(b) then |b| else |b| + 1
  {
    if b != [] && b[0].key != e.key && !Less(e.key, b[0].key) {
      PutSize(b[1..], e);
      assert Keys(b) == {b[0].key} + Keys(b[1..]);
    } else if b != [] && Less(e.key, b[0].key) {
      LessIrreflexive(e.key);
      forall x | x in b
        ensures x.key != e.key
      {
        var j :| 0 <= j < |b| && b[j] == x;
        if j > 0 {
          LessTransitive(e.key, b[0].key, x.key);
        }
      }
    } else if b != [] {
      assert b[0] in b;
    }
  }

  /** A proper prefix sorts first. */
  lemma {:induction false} LessPrefix(a: string, x: string)
    requires x != []
    ensures Less(a, a + x)
  {
    if a != [] {
      assert (a + x)[0] == a[0] && (a + x)[1..] == a[1..] + x;
      LessPrefix(a[1..], x);
    }
  }

  /** In canonical form there are as many entries as keys. */
  lemma {:induction false} SortedSize(b: Baggage)
    requires Sorted(b)
    ensures |Keys(b)| == |b|
  {
    if b != [] {
      SortedSize(b[1..]);
      assert Keys(b) == {b[0].key} + Keys(b[1..]);
      LessIrreflexive(b[0].key);
    }
  }
}
