/** `std::sort` on integers, as a function. */
module Sorting {
  import opened EntityStore

  predicate Ascending(s: seq<int>) {
    forall i, j | 0 <= i < j < |s| :: s[i] < s[j]
  }

  predicate NonDecreasing(s: seq<int>) {
    forall i, j | 0 <= i < j < |s| :: s[i] <= s[j]
  }

  function Insert(x: int, s: seq<int>): seq<int> {
    if s == [] || x <= s[0] then [x] + s else [s[0]] + Insert(x, s[1..])
  }

  function Sort(s: seq<int>): seq<int> {
    if s == [] then [] else Insert(s[0], Sort(s[1..]))
  }

  lemma {:induction false} InsertKeeps(x: int, s: seq<int>)
    ensures multiset(Insert(x, s)) == multiset(s) + multiset{x}
  {
    if s != [] && x > s[0] {
      assert s == [s[0]] + s[1..];
      InsertKeeps(x, s[1..]);
    }
  }

  lemma {:induction false} ConsOrdered(x: int, s: seq<int>)
    requires NonDecreasing(s) && forall k: int :: k in s ==> x <= k
    ensures NonDecreasing([x] + s)
  {
    assert forall i | 0 <= i < |s| :: s[i] in s;
  }

  lemma {:induction false} InsertOrders(x: int, s: seq<int>)
    requires NonDecreasing(s)
    ensures NonDecreasing(Insert(x, s))
  {
    if s == [] || x <= s[0] {
      ConsOrdered(x, s);
    } else {
      InsertOrders(x, s[1..]);
      InsertKeeps(x, s[1..]);
      forall k: int | k in Insert(x, s[1..]) ensures s[0] <= k {
        assert k in multiset(Insert(x, s[1..]));
        assert k == x || k in s[1..];
      }
      ConsOrdered(s[0], Insert(x, s[1..]));
    }
  }

  lemma {:induction false} SortSorts(s: seq<int>)
    ensures NonDecreasing(Sort(s)) && multiset(Sort(s)) == multiset(s)
  {
    if s != [] {
      assert s == [s[0]] + s[1..];
      SortSorts(s[1..]);
      InsertOrders(s[0], Sort(s[1..]));
      InsertKeeps(s[0], Sort(s[1..]));
    }
  }

  lemma {:induction false} SortKeeps(s: seq<int>)
    ensures forall k: int :: k in Sort(s) <==> k in s
  {
    SortSorts(s);
    assert forall k: int :: k in Sort(s) <==> k in multiset(Sort(s));
  }

  lemma {:induction false} TwoOccurrences(s: seq<int>, i: nat, j: nat)
    requires i < j < |s| && s[i] == s[j]
    ensures multiset(s)[s[i]] >= 2
  {
    assert s == s[..j] + s[j..];
    assert s[i] in s[..j] && s[i] in s[j..];
    assert s[j] in multiset(s[j..]) && s[i] in multiset(s[..j]);
  }

  lemma {:induction false} OneOccurrence(s: seq<int>, x: int)
    requires NoDuplicates(s)
    ensures multiset(s)[x] <= 1
    decreases |s|
  {
    if s != [] {
      assert s == [s[0]] + s[1..];
      OneOccurrence(s[1..], x);
      assert s[0] !in multiset(s[1..]);
    }
  }

  /** Sorting a list without duplicates puts it in strictly ascending order. */
  lemma {:induction false} SortAscends(s: seq<int>)
    requires NoDuplicates(s)
    ensures Ascending(Sort(s))
  {
    SortSorts(s);
    var r := Sort(s);
    forall i, j | 0 <= i < j < |r| ensures r[i] < r[j] {
      OneOccurrence(s, r[i]);
      if r[i] == r[j] {
        TwoOccurrences(r, i, j);
      }
    }
  }

  /** A strictly ascending list is determined by its elements. */
  lemma {:induction false} AscendingUnique(s: seq<int>, t: seq<int>)
    requires Ascending(s) && Ascending(t) && forall k: int :: k in s <==> k in t
    ensures s == t
    decreases |s|
  {
    if s == [] {
      assert forall i | 0 <= i < |t| :: t[i] in t;
    } else {
      assert s[0] in s;
      assert t != [] && t[0] in t;
      var i :| 0 <= i < |t| && t[i] == s[0];
      var j :| 0 <= j < |s| && s[j] == t[0];
      assert s[0] == t[0];
      forall k: int ensures k in s[1..] <==> k in t[1..] {
        assert s == [s[0]] + s[1..] && t == [t[0]] + t[1..];
        assert k in s[1..] <==> k in s && k != s[0];
        assert k in t[1..] <==> k in t && k != t[0];
      }
      AscendingUnique(s[1..], t[1..]);
    }
  }
}
