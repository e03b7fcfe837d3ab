/** The order in which the colour story lists a family's shades:
    `Object.entries(shades).sort(([a], [b]) => parseInt(a) - parseInt(b))`.
    An entry is a property key and its value. */
module ShadeOrder {
  import opened Strings

  /** Every key is a string of decimal digits, as every shade key is. */
  predicate DigitKeys<V>(xs: seq<(string, V)>) {
    forall i :: 0 <= i < |xs| ==> IsDigits(xs[i].0)
  }

  /** `parseInt(key)` for a key of decimal digits. */
  function KeyOf<V>(e: (string, V)): nat
    requires IsDigits(e.0)
  {
    DigitsValue(e.0)
  }

  /** What the comparator `parseInt(a) - parseInt(b)` accepts as sorted. */
  predicate Ascending<V>(xs: seq<(string, V)>)
    requires DigitKeys(xs)
  {
    forall i, j :: 0 <= i < j < |xs| ==> KeyOf(xs[i]) <= KeyOf(xs[j])
  }

  predicate StrictlyAscending<V>(xs: seq<(string, V)>)
    requires DigitKeys(xs)
  {
    forall i, j :: 0 <= i < j < |xs| ==> KeyOf(xs[i]) < KeyOf(xs[j])
  }

  // ---------------------------------------------------------------------
  // The sort
  // ---------------------------------------------------------------------

  /** Every key of `xs` is at least `b`. */
  predicate AtLeast<V>(b: nat, xs: seq<(string, V)>)
    requires DigitKeys(xs)
  {
    forall i :: 0 <= i < |xs| ==> b <= KeyOf(xs[i])
  }

  lemma ConsAscending<V>(x: (string, V), t: seq<(string, V)>)
    requires IsDigits(x.0) && DigitKeys(t) && Ascending(t) && AtLeast(KeyOf(x), t)
    ensures DigitKeys([x] + t) && Ascending([x] + t)
  {
    var r := [x] + t;
    forall i, j | 0 <= i < j < |r| ensures KeyOf(r[i]) <= KeyOf(r[j]) {
      assert r[j] == t[j - 1];
      if i > 0 {
        assert r[i] == t[i - 1];
      }
    }
  }

  lemma TailAtLeast<V>(xs: seq<(string, V)>)
    requires xs != [] && DigitKeys(xs) && Ascending(xs)
    ensures DigitKeys(xs[1..]) && AtLeast(KeyOf(xs[0]), xs[1..])
  {
    forall i | 0 <= i < |xs| - 1 ensures xs[1..][i] == xs[i + 1] && KeyOf(xs[0]) <= KeyOf(xs[i + 1]) {
    }
  }

  lemma AtLeastInsert<V>(b: nat, e: (string, V), ys: seq<(string, V)>, t: seq<(string, V)>)
    requires IsDigits(e.0) && DigitKeys(ys) && DigitKeys(t)
    requires AtLeast(b, ys) && b <= KeyOf(e)
    requires multiset(t) == multiset(ys) + multiset{e}
    ensures AtLeast(b, t)
  {
    forall i | 0 <= i < |t| ensures b <= KeyOf(t[i]) {
      assert t[i] in multiset(t);
      if t[i] != e {
        assert t[i] in multiset(ys);
      }
    }
  }

  /** Places `e` in front of the first entry whose key is not smaller, so
      an entry that came first stays in front of equal keys. */
  function Insert<V>(e: (string, V), xs: seq<(string, V)>): (r: seq<(string, V)>)
    requires IsDigits(e.0) && DigitKeys(xs) && Ascending(xs)
    ensures DigitKeys(r) && Ascending(r)
    ensures multiset(r) == multiset(xs) + multiset{e}
  {
    if xs == [] then
      [e]
    else if KeyOf(e) <= KeyOf(xs[0]) then
      TailAtLeast(xs);
      assert xs == [xs[0]] + xs[1..];
      ConsAscending(e, xs);
      [e] + xs
    else
      TailAtLeast(xs);
      var tail := Insert(e, xs[1..]);
      AtLeastInsert(KeyOf(xs[0]), e, xs[1..], tail);
      ConsAscending(xs[0], tail);
      assert xs == [xs[0]] + xs[1..];
      [xs[0]] + tail
  }

  /** A sort by the numeric value of the keys. */
  function SortByKey<V>(xs: seq<(string, V)>): (r: seq<(string, V)>)
    requires DigitKeys(xs)
    ensures DigitKeys(r) && Ascending(r)
    ensures multiset(r) == multiset(xs)
  {
    if xs == [] then []
    else
      assert xs == [xs[0]] + xs[1..];
      Insert(xs[0], SortByKey(xs[1..]))
  }

  /** Two orderings of the same entries that are both ascending, one of them
      strictly, are the same sequence: with distinct keys the sorted order is
      unique. */
  lemma {:induction false} AscendingUnique<V>(xs: seq<(string, V)>, ys: seq<(string, V)>)
    requires DigitKeys(xs) && StrictlyAscending(xs)
    requires DigitKeys(ys) && Ascending(ys)
    requires multiset(xs) == multiset(ys)
    ensures xs == ys
  {
    if xs != [] {
      assert |ys| == |xs| by {
        assert |multiset(xs)| == |xs| && |multiset(ys)| == |ys|;
      }
      assert xs[0] in multiset(ys);
      var m :| 0 <= m < |ys| && ys[m] == xs[0];
      assert ys[0] in multiset(xs);
      var k :| 0 <= k < |xs| && xs[k] == ys[0];
      assert KeyOf(ys[0]) <= KeyOf(ys[m]);
      assert k == 0;
      TailsPermute(xs, ys);
      AscendingUnique(xs[1..], ys[1..]);
    }
  }

  lemma TailsPermute<T>(xs: seq<T>, ys: seq<T>)
    requires xs != [] && ys != [] && xs[0] == ys[0] && multiset(xs) == multiset(ys)
    ensures multiset(xs[1..]) == multiset(ys[1..])
  {
    assert xs == [xs[0]] + xs[1..];
    assert ys == [ys[0]] + ys[1..];
    assert multiset(xs[1..]) == multiset(xs) - multiset{xs[0]};
    assert multiset(ys[1..]) == multiset(ys) - multiset{ys[0]};
  }

  lemma TailAscends<V>(xs: seq<(string, V)>)
    requires xs != [] && DigitKeys(xs) && StrictlyAscending(xs)
    ensures DigitKeys(xs[1..]) && StrictlyAscending(xs[1..])
  {
    forall i | 0 <= i < |xs| - 1 ensures xs[1..][i] == xs[i + 1] {
    }
  }

  /** Sorting a rearrangement of a strictly ascending sequence restores it. */
  lemma SortRestores<V>(xs: seq<(string, V)>, ys: seq<(string, V)>)
    requires DigitKeys(xs) && StrictlyAscending(xs)
    requires DigitKeys(ys) && multiset(ys) == multiset(xs)
    ensures SortByKey(ys) == xs
  {
    AscendingUnique(xs, SortByKey(ys));
  }

  // ---------------------------------------------------------------------
  // Object.entries
  // ---------------------------------------------------------------------

  /** A key that is an array index: the canonical decimal form of an
      integer below 2^32 - 1. `"050"` is not one, `"100"` is. */
  predicate IsArrayIndex(k: string) {
    && |k| > 0 && IsDigits(k)
    && (|k| == 1 || k[0] != '0')
    && DigitsValue(k) < 0xFFFF_FFFF
  }

  /** The entries whose keys are array indices, in insertion order. */
  function IndexEntries<V>(xs: seq<(string, V)>): (r: seq<(string, V)>)
    ensures DigitKeys(r)
    ensures forall i :: 0 <= i < |r| ==> IsArrayIndex(r[i].0)
  {
    if xs == [] then []
    else if IsArrayIndex(xs[0].0) then [xs[0]] + IndexEntries(xs[1..])
    else IndexEntries(xs[1..])
  }

  /** The other entries, in insertion order. */
  function OtherEntries<V>(xs: seq<(string, V)>): (r: seq<(string, V)>)
    ensures forall i :: 0 <= i < |r| ==> !IsArrayIndex(r[i].0)
  {
    if xs == [] then []
    else if IsArrayIndex(xs[0].0) then OtherEntries(xs[1..])
    else [xs[0]] + OtherEntries(xs[1..])
  }

  lemma {:induction false} EntriesPartition<V>(xs: seq<(string, V)>)
    ensures multiset(IndexEntries(xs)) + multiset(OtherEntries(xs)) == multiset(xs)
  {
    if xs != [] {
      EntriesPartition(xs[1..]);
      assert xs == [xs[0]] + xs[1..];
    }
  }

  /** Entries whose keys are all array indices are all kept, in order. */
  lemma {:induction false} AllIndexEntries<V>(xs: seq<(string, V)>)
    requires forall i :: 0 <= i < |xs| ==> IsArrayIndex(xs[i].0)
    ensures IndexEntries(xs) == xs && OtherEntries(xs) == []
  {
    if xs != [] {
      AllIndexEntries(xs[1..]);
      assert xs == [xs[0]] + xs[1..];
    }
  }

  /** Only the first entry's key is not an array index: it goes last. */
  lemma OnlyFirstOther<V>(xs: seq<(string, V)>)
    requires xs != [] && !IsArrayIndex(xs[0].0)
    requires forall i :: 0 <= i < |xs| - 1 ==> IsArrayIndex(xs[1..][i].0)
    ensures IndexEntries(xs) == xs[1..] && OtherEntries(xs) == [xs[0]]
  {
    AllIndexEntries(xs[1..]);
  }

  /** `Object.entries` of an object whose properties were created in the
      order `props`: array-index keys first in ascending numeric order, then
      the other keys in creation order. */
  function ObjectEntries<V>(props: seq<(string, V)>): (r: seq<(string, V)>)
    ensures multiset(r) == multiset(props)
  {
    EntriesPartition(props);
    SortByKey(IndexEntries(props)) + OtherEntries(props)
  }

  /** Creation order is lost for the array-index keys: they come first. */
  lemma ObjectEntriesIndicesFirst<V>(props: seq<(string, V)>)
    ensures var r := ObjectEntries(props); var n := |IndexEntries(props)|;
      && n <= |r|
      && (forall i :: 0 <= i < n ==> IsArrayIndex(r[i].0))
      && (forall i :: n <= i < |r| ==> !IsArrayIndex(r[i].0))
      && DigitKeys(r[..n]) && Ascending(r[..n])
      && r[n..] == OtherEntries(props)
  {
    var xs := IndexEntries(props);
    var sorted, others := SortByKey(xs), OtherEntries(props);
    SortedIndices(xs);
    var r := sorted + others;
    assert r == ObjectEntries(props);
    forall i | 0 <= i < |xs| ensures IsArrayIndex(r[i].0) {
      assert r[i] == sorted[i];
    }
    forall i | |xs| <= i < |r| ensures !IsArrayIndex(r[i].0) {
      assert r[i] == others[i - |xs|];
    }
    assert r[..|xs|] == sorted && r[|xs|..] == others;
  }

  /** Sorting array-index entries keeps their number and their kind. */
  lemma SortedIndices<V>(xs: seq<(string, V)>)
    requires DigitKeys(xs) && forall i :: 0 <= i < |xs| ==> IsArrayIndex(xs[i].0)
    ensures |SortByKey(xs)| == |xs|
    ensures forall i :: 0 <= i < |xs| ==> IsArrayIndex(SortByKey(xs)[i].0)
  {
    var sorted := SortByKey(xs);
    AllPermute(xs, sorted, (e: (string, V)) => IsArrayIndex(e.0));
    assert |multiset(sorted)| == |sorted| && |multiset(xs)| == |xs|;
  }

  // ---------------------------------------------------------------------
  // The displayed order
  // ---------------------------------------------------------------------

  lemma DigitKeysPermute<V>(xs: seq<(string, V)>, ys: seq<(string, V)>)
    requires DigitKeys(xs) && multiset(ys) == multiset(xs)
    ensures DigitKeys(ys)
  {
    AllPermute(xs, ys, (e: (string, V)) => IsDigits(e.0));
  }

  lemma AllPermute<T>(xs: seq<T>, ys: seq<T>, p: T -> bool)
    requires multiset(ys) == multiset(xs) && forall i :: 0 <= i < |xs| ==> p(xs[i])
    ensures forall i :: 0 <= i < |ys| ==> p(ys[i])
  {
    forall i | 0 <= i < |ys| ensures p(ys[i]) {
      assert ys[i] in multiset(xs);
    }
  }

  /** The shades in the order the story shows them. */
  function Display<V>(shades: seq<(string, V)>): (r: seq<(string, V)>)
    requires DigitKeys(shades)
    ensures DigitKeys(r) && Ascending(r)
    ensures multiset(r) == multiset(shades)
  {
    DigitKeysPermute(shades, ObjectEntries(shades));
    SortByKey(ObjectEntries(shades))
  }

  /** A family written in ascending key order is shown in that order, the
      key `'050'` counted as 50 and shown first although `Object.entries`
      puts it last. */
  lemma DisplayKeepsAscending<V>(shades: seq<(string, V)>)
    requires DigitKeys(shades) && StrictlyAscending(shades)
    ensures Display(shades) == shades
  {
    AscendingUnique(shades, Display(shades));
  }
}
