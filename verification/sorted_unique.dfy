/** Canonical lists: sorted, and compacted in place. */
module SortedUnique {
  import opened Ids

  /** Neighbours that repeat are kept once. */
  function Compacted(s: seq<Id>): seq<Id> {
    if s == [] then []
    else
      var before, last := Compacted(s[..|s| - 1]), s[|s| - 1];
      if before == [] || last != before[|before| - 1] then before + [last] else before
  }

  lemma {:induction false} CompactedIsShorter(s: seq<Id>)
    ensures |Compacted(s)| <= |s|
    ensures s != [] ==> Compacted(s) != [] && Compacted(s)[|Compacted(s)| - 1] == s[|s| - 1]
  {
    if s != [] { CompactedIsShorter(s[..|s| - 1]); }
  }

  /** `uniqueStrings`: the kept values are written over the front of the array they are read from. */
  method UniqueStrings(values: array<Id>) returns (n: nat)
    modifies values
    ensures n <= values.Length && values[..n] == Compacted(old(values[..]))
  {
    n := 0;
    ghost var was := values[..];
    for i := 0 to values.Length
      invariant n <= i && values[..n] == Compacted(was[..i])
      invariant values[i..] == was[i..]
    {
      var value := values[i];
      assert was[..i + 1][..i] == was[..i] && value == was[i];
      ghost var kept := values[..n];
      assert n > 0 ==> kept[n - 1] == values[n - 1];
      if n == 0 || value != values[n - 1] {
        values[n] := value;
        n := n + 1;
        assert values[..n] == kept + [value];
      }
    }
    assert was[..values.Length] == was;
  }

  lemma {:induction false} CompactedAscending(s: seq<Id>)
    requires Ascending(s)
    ensures StrictlyAscending(Compacted(s))
    ensures forall x :: x in Compacted(s) <==> x in s
  {
    if s != [] {
      var n := |s| - 1;
      CompactedAscending(s[..n]);
      CompactedIsShorter(s[..n]);
      var before := Compacted(s[..n]);
      assert forall x :: x in s <==> x in s[..n] || x == s[n];
      if before != [] {
        assert before[|before| - 1] == s[n - 1];
        if s[n] != s[n - 1] {
          forall k | 0 <= k < |before| ensures before[k] < s[n] {
            assert before[k] in s[..n];
          }
        }
      }
    }
  }

  /** Sorting and compacting a list lists the set of its members. */
  lemma {:induction false} CanonicalListing(s: seq<Id>)
    ensures Compacted(Sort(s)) == Listing(Elements(s))
  {
    SortSorts(s);
    CompactedAscending(Sort(s));
    ListingUnique(Elements(s), Compacted(Sort(s)));
  }

  /** `sortedUnique`, on a copy of its argument. */
  method Canonical(values: seq<Id>) returns (r: seq<Id>)
    ensures r == Listing(Elements(values))
  {
    SortSorts(values);
    var sorted := Sort(values);
    var copied := new Id[|sorted|](i requires 0 <= i < |sorted| => sorted[i]);
    assert copied[..] == sorted;
    var n := UniqueStrings(copied);
    r := copied[..n];
    CanonicalListing(values);
  }
}
