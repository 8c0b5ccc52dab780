/** The stable sort by an integer key that the source delegates to Array.sort. */
module Sorting {

  ghost predicate SortedBy<T>(key: T -> int, s: seq<T>) {
    forall i, j :: 0 <= i < j < |s| ==> key(s[i]) <= key(s[j])
  }

  ghost predicate DistinctBy<T>(key: T -> int, s: seq<T>) {
    forall i, j :: 0 <= i < j < |s| ==> key(s[i]) != key(s[j])
  }

  /** x goes behind everything that does not exceed it, so equal keys keep their order. */
  function Insert<T>(key: T -> int, s: seq<T>, x: T): (r: seq<T>)
    ensures |r| == |s| + 1
  {
    if s == [] || key(s[|s| - 1]) <= key(x) then s + [x]
    else Insert(key, s[..|s| - 1], x) + [s[|s| - 1]]
  }

  function Sort<T>(key: T -> int, s: seq<T>): (r: seq<T>)
    ensures |r| == |s|
  {
    if s == [] then [] else Insert(key, Sort(key, s[..|s| - 1]), s[|s| - 1])
  }

  lemma {:induction false} InsertContents<T>(key: T -> int, s: seq<T>, x: T)
    ensures multiset(Insert(key, s, x)) == multiset(s) + multiset{x}
  {
    if s != [] && key(s[|s| - 1]) > key(x) {
      InsertContents(key, s[..|s| - 1], x);
      assert s == s[..|s| - 1] + [s[|s| - 1]];
    }
  }

  /** Inserting below a bound stays below it. */
  lemma InsertBelow<T>(key: T -> int, s: seq<T>, x: T, bound: int)
    requires key(x) <= bound && forall i :: 0 <= i < |s| ==> key(s[i]) <= bound
    ensures forall i :: 0 <= i < |Insert(key, s, x)| ==> key(Insert(key, s, x)[i]) <= bound
  {
    hide Insert;
    var r := Insert(key, s, x);
    InsertContents(key, s, x);
    forall i | 0 <= i < |r|
      ensures key(r[i]) <= bound
    {
      assert r[i] in multiset(r);
      if r[i] != x {
        assert r[i] in multiset(s);
        assert r[i] in s;
      }
    }
  }

  lemma {:induction false} InsertSorted<T>(key: T -> int, s: seq<T>, x: T)
    requires SortedBy(key, s)
    ensures SortedBy(key, Insert(key, s, x))
  {
    if s != [] && key(s[|s| - 1]) > key(x) {
      var n := |s| - 1;
      InsertSorted(key, s[..n], x);
      InsertBelow(key, s[..n], x, key(s[n]));
    }
  }

  /** Sorting reorders and nothing else. */
  lemma {:induction false} SortContents<T>(key: T -> int, s: seq<T>)
    ensures multiset(Sort(key, s)) == multiset(s) && SortedBy(key, Sort(key, s))
  {
    if s != [] {
      var n := |s| - 1;
      SortContents(key, s[..n]);
      InsertContents(key, Sort(key, s[..n]), s[n]);
      InsertSorted(key, Sort(key, s[..n]), s[n]);
      assert s == s[..n] + [s[n]];
    }
  }

  lemma SameContents<T>(s: seq<T>, t: seq<T>, x: T)
    requires multiset(s) == multiset(t)
    ensures x in s <==> x in t
  {
    assert x in s <==> x in multiset(s);
    assert x in t <==> x in multiset(t);
  }

  lemma LargestLast<T>(key: T -> int, s: seq<T>, x: T)
    requires SortedBy(key, s) && x in s
    ensures key(x) <= key(s[|s| - 1])
  {
    var i :| 0 <= i < |s| && s[i] == x;
  }

  lemma KeyDetermines<T>(key: T -> int, s: seq<T>, x: T, y: T)
    requires DistinctBy(key, s) && x in s && y in s && key(x) == key(y)
    ensures x == y
  {
    var i :| 0 <= i < |s| && s[i] == x;
    var j :| 0 <= j < |s| && s[j] == y;
  }

  /** The largest key is last in both, and only one element has it. */
  lemma SameLast<T>(key: T -> int, s: seq<T>, t: seq<T>)
    requires SortedBy(key, s) && SortedBy(key, t) && DistinctBy(key, s) && multiset(s) == multiset(t)
    requires s != [] && t != []
    ensures s[|s| - 1] == t[|t| - 1]
  {
    hide SortedBy, DistinctBy;
    var x, y := s[|s| - 1], t[|t| - 1];
    SameContents(s, t, x);
    SameContents(s, t, y);
    LargestLast(key, s, y);
    LargestLast(key, t, x);
    KeyDetermines(key, s, x, y);
  }

  lemma PrefixSorted<T>(key: T -> int, s: seq<T>)
    requires s != []
    ensures SortedBy(key, s) ==> SortedBy(key, s[..|s| - 1])
    ensures DistinctBy(key, s) ==> DistinctBy(key, s[..|s| - 1])
  {}

  lemma DropLastContents<T>(s: seq<T>)
    requires s != []
    ensures multiset(s[..|s| - 1]) == multiset(s) - multiset{s[|s| - 1]}
  {
    assert s == s[..|s| - 1] + [s[|s| - 1]];
  }

  /** With distinct keys there is one sorted order. */
  lemma {:induction false} SortedUnique<T>(key: T -> int, s: seq<T>, t: seq<T>)
    requires SortedBy(key, s) && SortedBy(key, t) && DistinctBy(key, s) && multiset(s) == multiset(t)
    ensures s == t
    decreases |s|
  {
    hide SortedBy, DistinctBy;
    assert |s| == |multiset(s)| && |t| == |multiset(t)|;
    if s != [] {
      var n := |s| - 1;
      PrefixSorted(key, s);
      PrefixSorted(key, t);
      SameLast(key, s, t);
      DropLastContents(s);
      DropLastContents(t);
      SortedUnique(key, s[..n], t[..n]);
      assert s == s[..n] + [s[n]] && t == t[..n] + [t[n]];
    }
  }

  /** So the order of arrival is forgotten as soon as the keys differ. */
  lemma SortForgetsOrder<T>(key: T -> int, s: seq<T>, t: seq<T>)
    requires multiset(s) == multiset(t) && DistinctBy(key, Sort(key, s))
    ensures Sort(key, s) == Sort(key, t)
  {
    SortContents(key, s);
    SortContents(key, t);
    SortedUnique(key, Sort(key, s), Sort(key, t));
  }

  lemma {:induction false} DistinctKeysSort<T>(key: T -> int, s: seq<T>)
    requires DistinctBy(key, s)
    ensures DistinctBy(key, Sort(key, s))
  {
    if s != [] {
      var n := |s| - 1;
      DistinctKeysSort(key, s[..n]);
      SortContents(key, s[..n]);
      InsertDistinct(key, Sort(key, s[..n]), s[n]) by {
        forall i | 0 <= i < n
          ensures key(Sort(key, s[..n])[i]) != key(s[n])
        {
          SameContents(Sort(key, s[..n]), s[..n], Sort(key, s[..n])[i]);
        }
      }
    }
  }

  lemma {:induction false} InsertDistinct<T>(key: T -> int, s: seq<T>, x: T)
    requires DistinctBy(key, s) && forall i :: 0 <= i < |s| ==> key(s[i]) != key(x)
    ensures DistinctBy(key, Insert(key, s, x))
  {
    if s != [] && key(s[|s| - 1]) > key(x) {
      var n := |s| - 1;
      InsertDistinct(key, s[..n], x);
      InsertContents(key, s[..n], x);
      var r := Insert(key, s[..n], x);
      forall i | 0 <= i < |r|
        ensures key(r[i]) != key(s[n])
      {
        assert r[i] in multiset(r);
        if r[i] != x {
          assert r[i] in multiset(s[..n]);
          assert r[i] in s[..n];
        }
      }
    }
  }

  /** Keys distinct in one order are distinct in every order. */
  lemma DistinctByMultiset<T>(key: T -> int, s: seq<T>, t: seq<T>)
    requires multiset(s) == multiset(t) && DistinctBy(key, s)
    ensures DistinctBy(key, t)
  {
    forall i, j | 0 <= i < j < |t|
      ensures key(t[i]) != key(t[j])
    {
      var x, y := t[i], t[j];
      SameContents(s, t, x);
      SameContents(s, t, y);
      if key(x) == key(y) {
        KeyDetermines(key, s, x, y);
        TwiceInMultiset(t, i, j);
        OnceInMultiset(key, s, x);
      }
    }
  }

  lemma TwiceInMultiset<T>(s: seq<T>, i: nat, j: nat)
    requires i < j < |s| && s[i] == s[j]
    ensures multiset(s)[s[i]] >= 2
  {
    assert s == s[..j] + [s[j]] + s[j + 1..];
    assert s[i] in s[..j];
  }

  lemma {:induction false} OnceInMultiset<T>(key: T -> int, s: seq<T>, x: T)
    requires DistinctBy(key, s)
    ensures multiset(s)[x] <= 1
  {
    if s != [] {
      var n := |s| - 1;
      OnceInMultiset(key, s[..n], x);
      assert s == s[..n] + [s[n]];
      if s[n] == x {
        assert x !in s[..n];
      }
    }
  }
}
