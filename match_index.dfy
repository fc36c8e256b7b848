/** The match index: an unbalanced binary search tree keyed by match date.

    A node holds the date of its match (the key) and the match's id in the league's match table.
    A new entry goes left when its date is strictly smaller than the node's date and right
    otherwise, so entries with equal dates are listed by an in-order walk in insertion order. The
    specification of the tree is `Listing`: the entries in insertion order, stably sorted by date. */
module MatchIndex {
  import opened Dates

  /** What a tree node holds: the match's date and the match's id. */
  datatype Entry = Entry(date: string, id: nat)

  datatype Tree = Leaf | Node(left: Tree, entry: Entry, right: Tree)

  /** Recursive insertion, rebuilding the path to the new leaf. */
  function Insert(t: Tree, e: Entry): (r: Tree)
    ensures r.Node?
    ensures t.Node? ==> r.entry == t.entry
    ensures |Flatten(r)| == |Flatten(t)| + 1
  {
    match t
    case Leaf => Node(Leaf, e, Leaf)
    case Node(l, x, r) =>
      if Less(e.date, x.date) then Node(Insert(l, e), x, r) else Node(l, x, Insert(r, e))
  }

  /** The in-order walk of the whole tree. */
  function Flatten(t: Tree): seq<Entry>
  {
    match t
    case Leaf => []
    case Node(l, x, r) => Flatten(l) + [x] + Flatten(r)
  }

  /** `start <= date && date <= end`, as the range query tests it. */
  predicate InRange(date: string, start: string, end: string)
  {
    LessEq(start, date) && LessEq(date, end)
  }

  /** The in-order walk that keeps only the entries in `[start, end]`. */
  function InOrder(t: Tree, start: string, end: string): (r: seq<Entry>)
    ensures forall x :: x in r ==> InRange(x.date, start, end)
  {
    match t
    case Leaf => []
    case Node(l, x, r) =>
      InOrder(l, start, end) + (if InRange(x.date, start, end) then [x] else []) + InOrder(r, start, end)
  }

  /** The entries of `s` in `[start, end]`, in the order of `s`. */
  function FilterRange(s: seq<Entry>, start: string, end: string): seq<Entry>
  {
    if s == [] then []
    else (if InRange(s[0].date, start, end) then [s[0]] else []) + FilterRange(s[1..], start, end)
  }

  /** The entries of `s` dated `d`, in the order of `s`. */
  function FilterDate(s: seq<Entry>, d: string): seq<Entry>
  {
    if s == [] then []
    else (if s[0].date == d then [s[0]] else []) + FilterDate(s[1..], d)
  }

  /** Dates never decrease along `s`. */
  predicate SortedByDate(s: seq<Entry>)
  {
    forall i, j :: 0 <= i < j < |s| ==> LessEq(s[i].date, s[j].date)
  }

  /** Inserts `e` into a date-sorted list after every entry whose date is not greater. */
  function InsertSorted(s: seq<Entry>, e: Entry): seq<Entry>
  {
    if s == [] then [e]
    else if Less(e.date, s[0].date) then [e] + s
    else [s[0]] + InsertSorted(s[1..], e)
  }

  /** Reference definition of the index: entries in insertion order, stably sorted by date. */
  function Listing(es: seq<Entry>): seq<Entry>
  {
    if es == [] then [] else InsertSorted(Listing(es[..|es| - 1]), es[|es| - 1])
  }

  /** The ids held by some entry of `es`. */
  function IdsOf(es: seq<Entry>): set<nat>
  {
    set e | e in es :: e.id
  }

  // ---------------------------------------------------------------------------------------------
  // Filters

  lemma {:induction false} FilterRangeAppend(a: seq<Entry>, b: seq<Entry>, start: string, end: string)
    ensures FilterRange(a + b, start, end) == FilterRange(a, start, end) + FilterRange(b, start, end)
  {
    if a != [] {
      assert (a + b)[0] == a[0] && (a + b)[1..] == a[1..] + b;
      FilterRangeAppend(a[1..], b, start, end);
      var head := if InRange(a[0].date, start, end) then [a[0]] else [];
      calc {
        FilterRange(a + b, start, end);
        head + FilterRange(a[1..] + b, start, end);
        head + (FilterRange(a[1..], start, end) + FilterRange(b, start, end));
        (head + FilterRange(a[1..], start, end)) + FilterRange(b, start, end);
      }
    } else {
      assert a + b == b;
    }
  }

  lemma {:induction false} FilterDateAppend(a: seq<Entry>, b: seq<Entry>, d: string)
    ensures FilterDate(a + b, d) == FilterDate(a, d) + FilterDate(b, d)
  {
    if a != [] {
      assert (a + b)[0] == a[0] && (a + b)[1..] == a[1..] + b;
      FilterDateAppend(a[1..], b, d);
      var head := if a[0].date == d then [a[0]] else [];
      calc {
        FilterDate(a + b, d);
        head + FilterDate(a[1..] + b, d);
        head + (FilterDate(a[1..], d) + FilterDate(b, d));
        (head + FilterDate(a[1..], d)) + FilterDate(b, d);
      }
    } else {
      assert a + b == b;
    }
  }

  /** A list with no entry dated `d` has nothing to show for `d`. */
  lemma {:induction false} FilterDateNone(s: seq<Entry>, d: string)
    requires forall k :: 0 <= k < |s| ==> s[k].date != d
    ensures FilterDate(s, d) == []
  {
    if s != [] {
      FilterDateNone(s[1..], d);
    }
  }

  /** Restricting to a range and then to one date: the date's entries if it is in range, else none. */
  lemma {:induction false} FilterDateOfRange(s: seq<Entry>, start: string, end: string, d: string)
    ensures FilterDate(FilterRange(s, start, end), d) == if InRange(d, start, end) then FilterDate(s, d) else []
  {
    if s != [] {
      var head := if InRange(s[0].date, start, end) then [s[0]] else [];
      FilterDateAppend(head, FilterRange(s[1..], start, end), d);
      FilterDateOfRange(s[1..], start, end, d);
    }
  }

  /** How many times each entry occurs in the range restriction of `s`. */
  lemma {:induction false} FilterRangeCount(s: seq<Entry>, start: string, end: string, x: Entry)
    ensures multiset(FilterRange(s, start, end))[x] == if InRange(x.date, start, end) then multiset(s)[x] else 0
  {
    if s != [] {
      assert s == [s[0]] + s[1..];
      FilterRangeCount(s[1..], start, end, x);
    }
  }

  /** Range restriction of two permutations of each other are permutations of each other. */
  lemma FilterRangePermutation(a: seq<Entry>, b: seq<Entry>, start: string, end: string)
    requires multiset(a) == multiset(b)
    ensures multiset(FilterRange(a, start, end)) == multiset(FilterRange(b, start, end))
  {
    forall x: Entry
      ensures multiset(FilterRange(a, start, end))[x] == multiset(FilterRange(b, start, end))[x]
    {
      FilterRangeCount(a, start, end, x);
      FilterRangeCount(b, start, end, x);
    }
  }

  lemma {:induction false} FilterRangeSorted(s: seq<Entry>, start: string, end: string)
    requires SortedByDate(s)
    ensures SortedByDate(FilterRange(s, start, end))
    ensures forall x :: x in FilterRange(s, start, end) ==> x in s
  {
    if s != [] {
      FilterRangeSorted(s[1..], start, end);
      var rest := FilterRange(s[1..], start, end);
      forall x | x in rest
        ensures LessEq(s[0].date, x.date)
      {
        var k :| 0 <= k < |s[1..]| && s[1..][k] == x;
        assert s[k + 1] == x;
      }
    }
  }

  // ---------------------------------------------------------------------------------------------
  // The reference listing

  /** Insertion adds exactly `e`. */
  lemma {:induction false} InsertSortedMultiset(s: seq<Entry>, e: Entry)
    ensures multiset(InsertSorted(s, e)) == multiset(s) + multiset{e}
  {
    if s != [] {
      assert s == [s[0]] + s[1..];
      InsertSortedMultiset(s[1..], e);
    }
  }

  /** Every entry of a sorted list that follows an entry dated after `e` is dated after `e`. */
  lemma AllAfter(s: seq<Entry>, e: Entry)
    requires SortedByDate(s) && s != [] && Less(e.date, s[0].date)
    ensures forall k :: 0 <= k < |s| ==> Less(e.date, s[k].date)
  {
    forall k | 0 < k < |s|
      ensures Less(e.date, s[k].date)
    {
      LessThenLessEq(e.date, s[0].date, s[k].date);
    }
  }

  /** Insertion into a sorted list keeps it sorted. */
  lemma {:induction false} InsertSortedSorted(s: seq<Entry>, e: Entry)
    requires SortedByDate(s)
    ensures SortedByDate(InsertSorted(s, e))
  {
    if s == [] {
    } else if Less(e.date, s[0].date) {
      AllAfter(s, e);
      var r := [e] + s;
      forall i, j | 0 <= i < j < |r|
        ensures LessEq(r[i].date, r[j].date)
      {
        if i == 0 {
          assert r[j] == s[j - 1];
          if Less(s[j - 1].date, e.date) {
            LessTransitive(s[j - 1].date, e.date, s[j - 1].date);
            LessIrreflexive(s[j - 1].date);
          }
        } else {
          assert r[i] == s[i - 1] && r[j] == s[j - 1];
        }
      }
    } else {
      var rest := InsertSorted(s[1..], e);
      InsertSortedSorted(s[1..], e);
      InsertSortedMultiset(s[1..], e);
      var r := [s[0]] + rest;
      assert InsertSorted(s, e) == r;
      forall i, j | 0 <= i < j < |r|
        ensures LessEq(r[i].date, r[j].date)
      {
        if i == 0 {
          var x := rest[j - 1];
          assert x in multiset(rest);
          assert x == e || x in s[1..];
        } else {
          assert r[i] == rest[i - 1] && r[j] == rest[j - 1];
        }
      }
    }
  }

  /** Insertion into a sorted list puts `e` after every entry already there with its date. */
  lemma {:induction false} InsertSortedStable(s: seq<Entry>, e: Entry, d: string)
    requires SortedByDate(s)
    ensures FilterDate(InsertSorted(s, e), d) == FilterDate(s, d) + (if e.date == d then [e] else [])
  {
    if s == [] {
    } else if Less(e.date, s[0].date) {
      assert ([e] + s)[0] == e && ([e] + s)[1..] == s;
      if e.date == d {
        AllAfter(s, e);
        forall k | 0 <= k < |s|
          ensures s[k].date != d
        {
          LessIrreflexive(d);
        }
        FilterDateNone(s, d);
      }
    } else {
      var rest := InsertSorted(s[1..], e);
      assert SortedByDate(s[1..]) by {
        forall i, j | 0 <= i < j < |s[1..]| ensures LessEq(s[1..][i].date, s[1..][j].date) {
          assert s[1..][i] == s[i + 1] && s[1..][j] == s[j + 1];
        }
      }
      InsertSortedStable(s[1..], e, d);
      assert ([s[0]] + rest)[0] == s[0] && ([s[0]] + rest)[1..] == rest;
    }
  }

  /** The reference listing is date-sorted, a permutation of the entries, and keeps the
      insertion order among entries with the same date. */
  lemma {:induction false} ListingSpec(es: seq<Entry>)
    ensures SortedByDate(Listing(es))
    ensures multiset(Listing(es)) == multiset(es)
    ensures forall d :: FilterDate(Listing(es), d) == FilterDate(es, d)
  {
    if es != [] {
      var init, last := es[..|es| - 1], es[|es| - 1];
      assert es == init + [last];
      ListingSpec(init);
      InsertSortedSorted(Listing(init), last);
      InsertSortedMultiset(Listing(init), last);
      forall d
        ensures FilterDate(Listing(es), d) == FilterDate(es, d)
      {
        InsertSortedStable(Listing(init), last, d);
        FilterDateAppend(init, [last], d);
      }
    }
  }

  // ---------------------------------------------------------------------------------------------
  // The tree against the reference

  lemma {:induction false} InsertSortedBefore(a: seq<Entry>, b: seq<Entry>, e: Entry)
    requires b != [] && Less(e.date, b[0].date)
    ensures InsertSorted(a + b, e) == InsertSorted(a, e) + b
  {
    if a != [] {
      assert (a + b)[1..] == a[1..] + b;
      InsertSortedBefore(a[1..], b, e);
    }
  }

  lemma {:induction false} InsertSortedAfter(a: seq<Entry>, b: seq<Entry>, e: Entry)
    requires forall k :: 0 <= k < |a| ==> !Less(e.date, a[k].date)
    ensures InsertSorted(a + b, e) == a + InsertSorted(b, e)
  {
    if a != [] {
      assert (a + b)[0] == a[0] && (a + b)[1..] == a[1..] + b;
      InsertSortedAfter(a[1..], b, e);
    } else {
      assert a + b == b;
    }
  }

  /** The in-order walk of a node is sorted only if both subtrees' walks are sorted and every
      entry on the left is dated no later than the node. */
  lemma SortedParts(l: Tree, x: Entry, r: Tree)
    requires SortedByDate(Flatten(Node(l, x, r)))
    ensures SortedByDate(Flatten(l)) && SortedByDate(Flatten(r))
    ensures forall k :: 0 <= k < |Flatten(l)| ==> LessEq(Flatten(l)[k].date, x.date)
  {
    var fl, fr := Flatten(l), Flatten(r);
    var s := Flatten(Node(l, x, r));
    assert s == fl + [x] + fr;
    forall i, j | 0 <= i < j < |fl| ensures LessEq(fl[i].date, fl[j].date) {
      assert s[i] == fl[i] && s[j] == fl[j];
    }
    forall i, j | 0 <= i < j < |fr| ensures LessEq(fr[i].date, fr[j].date) {
      assert s[|fl| + 1 + i] == fr[i] && s[|fl| + 1 + j] == fr[j];
    }
    forall k | 0 <= k < |fl| ensures LessEq(fl[k].date, x.date) {
      assert s[k] == fl[k] && s[|fl|] == x;
    }
  }

  /** Inserting into the tree inserts into its in-order listing as `InsertSorted` does. */
  lemma {:induction false} InsertFlatten(t: Tree, e: Entry)
    requires SortedByDate(Flatten(t))
    ensures Flatten(Insert(t, e)) == InsertSorted(Flatten(t), e)
  {
    match t
    case Leaf =>
    case Node(l, x, r) =>
      var fl, fr := Flatten(l), Flatten(r);
      SortedParts(l, x, r);
      if Less(e.date, x.date) {
        InsertFlatten(l, e);
        InsertSortedBefore(fl, [x] + fr, e);
        assert Flatten(t) == fl + ([x] + fr);
      } else {
        InsertFlatten(r, e);
        var a := fl + [x];
        forall k | 0 <= k < |a|
          ensures !Less(e.date, a[k].date)
        {
          if k < |fl| && Less(e.date, a[k].date) {
            LessThenLessEq(e.date, a[k].date, x.date);
          }
        }
        InsertSortedAfter(a, fr, e);
        assert Flatten(t) == a + fr;
      }
  }


  /** The filtered in-order walk is the range restriction of the whole in-order listing. */
  lemma {:induction false} InOrderFilters(t: Tree, start: string, end: string)
    ensures InOrder(t, start, end) == FilterRange(Flatten(t), start, end)
  {
    match t
    case Leaf =>
    case Node(l, x, r) =>
      InOrderFilters(l, start, end);
      InOrderFilters(r, start, end);
      FilterRangeAppend(Flatten(l), [x], start, end);
      FilterRangeAppend(Flatten(l) + [x], Flatten(r), start, end);
      assert FilterRange([x], start, end) == if InRange(x.date, start, end) then [x] else [];
  }

  /** The match BST of the league (`MatchBST`). `entries` records every insertion, in order. */
  class MatchBST {
    var root: Tree
    ghost var entries: seq<Entry>

    ghost predicate Valid()
      reads this
    {
      Flatten(root) == Listing(entries)
    }

    constructor ()
      ensures Valid() && entries == []
    {
      root := Leaf;
      entries := [];
    }

    /** `addMatch`: insert one entry keyed by its date. */
    method AddMatch(date: string, id: nat)
      requires Valid()
      modifies this
      ensures Valid()
      ensures entries == old(entries) + [Entry(date, id)]
    {
      ListingSpec(entries);
      InsertFlatten(root, Entry(date, id));
      root := Insert(root, Entry(date, id));
      entries := entries + [Entry(date, id)];
      assert entries[..|entries| - 1] == old(entries);
    }

    /** `getMatchesInRange`: exactly the inserted entries dated in `[start, end]`, in
        non-decreasing date order, entries with the same date in insertion order. */
    method GetMatchesInRange(start: string, end: string) returns (result: seq<Entry>)
      requires Valid()
      ensures SortedByDate(result)
      ensures multiset(result) == multiset(FilterRange(entries, start, end))
      ensures forall d :: FilterDate(result, d) == if InRange(d, start, end) then FilterDate(entries, d) else []
    {
      result := InOrder(root, start, end);
      InOrderFilters(root, start, end);
      ListingSpec(entries);
      FilterRangeSorted(Listing(entries), start, end);
      FilterRangePermutation(Listing(entries), entries, start, end);
      forall d
        ensures FilterDate(result, d) == if InRange(d, start, end) then FilterDate(entries, d) else []
      {
        FilterDateOfRange(Listing(entries), start, end, d);
      }
    }
  }
}
