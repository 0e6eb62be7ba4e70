/**
  Identifiers, and the sorting the repository does with them.

  The source names units, stages, claims and profiles by strings and only ever compares
  them, for equality and for order. Every graph, plan and log is finite, so the order of
  its names embeds into the naturals, and an identifier is modelled as a natural number.
  Where the source uses the empty string for "absent", the model uses `Option`.
 */
module Ids {
  type Id = nat

  datatype Option<+T> = None | Some(value: T)

  datatype Result<+T, +E> = Success(value: T) | Failure(error: E)

  ghost predicate Ascending(s: seq<Id>) {
    forall i, j | 0 <= i < j < |s| :: s[i] <= s[j]
  }

  ghost predicate StrictlyAscending(s: seq<Id>) {
    forall i, j | 0 <= i < j < |s| :: s[i] < s[j]
  }

  ghost predicate Distinct<T(!new)>(s: seq<T>) {
    forall i, j | 0 <= i < j < |s| :: s[i] != s[j]
  }

  function Elements<T>(s: seq<T>): (r: set<T>) {
    set x | x in s
  }

  function Insert(x: Id, s: seq<Id>): (r: seq<Id>) {
    if s == [] then [x]
    else if x <= s[0] then [x] + s
    else [s[0]] + Insert(x, s[1..])
  }

  /** `sort.Strings` on a copy of the argument. */
  function Sort(s: seq<Id>): (r: seq<Id>) {
    if s == [] then [] else Insert(s[0], Sort(s[1..]))
  }

  lemma {:induction false} InsertMultiset(x: Id, s: seq<Id>)
    ensures multiset(Insert(x, s)) == multiset(s) + multiset{x}
  {
    if s != [] && x > s[0] {
      InsertMultiset(x, s[1..]);
      assert s == [s[0]] + s[1..];
    }
  }

  lemma {:induction false} InsertKeepsOrder(x: Id, s: seq<Id>)
    requires Ascending(s)
    ensures Ascending(Insert(x, s))
  {
    if s != [] && x > s[0] {
      InsertKeepsOrder(x, s[1..]);
      InsertMultiset(x, s[1..]);
      var rest := Insert(x, s[1..]);
      forall k | 0 <= k < |rest| ensures s[0] <= rest[k] {
        assert rest[k] in multiset(rest);
      }
    }
  }

  lemma {:induction false} SortAscends(s: seq<Id>)
    ensures Ascending(Sort(s))
    ensures multiset(Sort(s)) == multiset(s)
  {
    if s != [] {
      SortAscends(s[1..]);
      InsertKeepsOrder(s[0], Sort(s[1..]));
      InsertMultiset(s[0], Sort(s[1..]));
      assert s == [s[0]] + s[1..];
    }
  }

  lemma {:induction false} SortSorts(s: seq<Id>)
    ensures Ascending(Sort(s))
    ensures multiset(Sort(s)) == multiset(s)
    ensures |Sort(s)| == |s|
    ensures forall x :: x in Sort(s) <==> x in s
  {
    SortAscends(s);
    assert |multiset(Sort(s))| == |multiset(s)|;
    forall x ensures x in Sort(s) <==> x in s {
      assert x in Sort(s) <==> x in multiset(Sort(s));
    }
  }

  /** Two ascending listings of the same multiset are the same listing. */
  lemma {:induction false} AscendingUnique(a: seq<Id>, b: seq<Id>)
    requires Ascending(a) && Ascending(b)
    requires multiset(a) == multiset(b)
    ensures a == b
  {
    if a == [] {
      assert |multiset(b)| == 0;
    } else {
      assert a[0] in multiset(b);
      assert b != [];
      assert b[0] in multiset(a);
      assert a[0] == b[0];
      assert a == [a[0]] + a[1..];
      assert b == [b[0]] + b[1..];
      assert multiset(a[1..]) == multiset(a) - multiset{a[0]};
      assert multiset(b[1..]) == multiset(b) - multiset{b[0]};
      AscendingUnique(a[1..], b[1..]);
    }
  }

  lemma DistinctMultiset<T(!new)>(s: seq<T>)
    requires Distinct(s)
    ensures forall x :: multiset(s)[x] == if x in s then 1 else 0
  {
    if s != [] {
      DistinctMultiset(s[1..]);
      assert s == [s[0]] + s[1..];
      assert forall x :: x in s <==> x == s[0] || x in s[1..];
    }
  }

  /** Two ascending listings of the same set without repeats are the same listing. */
  lemma {:induction false} AscendingSetUnique(a: seq<Id>, b: seq<Id>)
    requires Ascending(a) && Ascending(b) && Distinct(a) && Distinct(b)
    requires forall x :: x in a <==> x in b
    ensures a == b
  {
    DistinctMultiset(a);
    DistinctMultiset(b);
    assert multiset(a) == multiset(b);
    AscendingUnique(a, b);
  }

  lemma {:induction false} LeastExists(s: set<Id>) returns (m: Id)
    requires s != {}
    ensures m in s && forall x | x in s :: m <= x
  {
    m :| m in s;
    var rest := s - {m};
    assert forall x | x in s :: x == m || x in rest;
    if rest != {} {
      var below := LeastExists(rest);
      if below < m { m := below; }
    }
  }

  function Least(s: set<Id>): (m: Id)
    requires s != {}
    ensures m in s && forall x | x in s :: m <= x
  {
    assert exists m :: m in s && forall x | x in s :: m <= x by {
      var m := LeastExists(s);
    }
    var m :| m in s && forall x | x in s :: m <= x;
    m
  }

  /** The ascending listing of a set: the order every canonical form is written in. */
  function Listing(s: set<Id>): (r: seq<Id>) {
    if s == {} then [] else
      var m := Least(s);
      [m] + Listing(s - {m})
  }

  lemma {:induction false} ListingOrder(s: set<Id>)
    ensures StrictlyAscending(Listing(s))
    ensures forall x :: x in Listing(s) <==> x in s
    ensures |Listing(s)| == |s|
  {
    if s != {} {
      var m := Least(s);
      var rest := Listing(s - {m});
      ListingOrder(s - {m});
      assert forall k | 0 <= k < |rest| :: rest[k] in rest;
      assert forall x :: x in s <==> x == m || x in rest;
      assert Listing(s) == [m] + rest;
    }
  }

  lemma ListingLists(s: set<Id>)
    ensures StrictlyAscending(Listing(s))
    ensures Elements(Listing(s)) == s
    ensures |Listing(s)| == |s|
  {
    ListingOrder(s);
  }

  lemma ListingMultiset(s: set<Id>)
    ensures Ascending(Listing(s)) && Distinct(Listing(s))
    ensures multiset(Listing(s)) == multiset(s)
  {
    ListingLists(s);
    DistinctMultiset(Listing(s));
    forall x ensures multiset(Listing(s))[x] == multiset(s)[x] {
      assert x in Listing(s) <==> x in Elements(Listing(s));
    }
  }

  lemma {:induction false} ListingUnique(s: set<Id>, a: seq<Id>)
    requires Ascending(a) && Distinct(a) && Elements(a) == s
    ensures a == Listing(s)
  {
    ListingLists(s);
    assert forall x :: x in a <==> x in Elements(a);
    assert forall x :: x in Listing(s) <==> x in Elements(Listing(s));
    AscendingSetUnique(a, Listing(s));
  }

  /** Sorting the members of a set, collected in any order, gives its listing. */
  lemma {:induction false} SortLists(s: seq<Id>, members: set<Id>)
    requires Distinct(s) && Elements(s) == members
    ensures Sort(s) == Listing(members)
  {
    SortSorts(s);
    DistinctMultiset(s);
    ListingMultiset(members);
    forall x ensures multiset(s)[x] == multiset(members)[x] {
      assert x in s <==> x in Elements(s);
    }
    AscendingUnique(Sort(s), Listing(members));
  }
}
