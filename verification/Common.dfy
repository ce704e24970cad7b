/** Small vocabulary shared by all modules of the model. */
module Common {

  datatype Option<+T> = None | Some(value: T)

  datatype Result<+T, +E> = Ok(value: T) | Err(error: E)

  /** The classifications whose data no lineage may miss and no load may take without approval. */
  predicate IsSensitive(classification: string) {
    classification == "confidential" || classification == "restricted"
  }

  predicate Distinct<T(==)>(s: seq<T>) {
    forall i, j :: 0 <= i < j < |s| ==> s[i] != s[j]
  }

  function Reverse<T>(s: seq<T>): (r: seq<T>)
    ensures |r| == |s|
  {
    seq(|s|, i requires 0 <= i < |s| => s[|s| - 1 - i])
  }

  /** The number of elements that satisfy `p`. */
  function Count<T>(s: seq<T>, p: T -> bool): nat {
    if s == [] then 0 else (if p(s[0]) then 1 else 0) + Count(s[1..], p)
  }

  lemma {:induction false} CountAppend<T>(s: seq<T>, t: seq<T>, p: T -> bool)
    ensures Count(s + t, p) == Count(s, p) + Count(t, p)
  {
    if s == [] {
      assert s + t == t;
    } else {
      CountAppend(s[1..], t, p);
      assert (s + t)[1..] == s[1..] + t;
    }
  }

  lemma {:induction false} CountZero<T>(s: seq<T>, p: T -> bool)
    ensures Count(s, p) == 0 <==> forall x :: x in s ==> !p(x)
  {
    if s != [] {
      CountZero(s[1..], p);
      assert forall x :: x in s <==> x == s[0] || x in s[1..];
    }
  }

  lemma {:induction false} SameCount<T>(s: seq<T>, p: T -> bool, q: T -> bool)
    requires forall x :: p(x) == q(x)
    ensures Count(s, p) == Count(s, q)
  {
    if s != [] {
      SameCount(s[1..], p, q);
    }
  }

  /** The elements of `s` that satisfy `p`, in order. */
  function Filter<T>(s: seq<T>, p: T -> bool): (r: seq<T>) {
    if s == [] then [] else (if p(s[0]) then [s[0]] else []) + Filter(s[1..], p)
  }

  lemma {:induction false} FilterMembers<T>(s: seq<T>, p: T -> bool)
    ensures forall x :: x in Filter(s, p) <==> x in s && p(x)
    ensures Distinct(s) ==> Distinct(Filter(s, p))
  {
    if s != [] {
      FilterMembers(s[1..], p);
      assert forall x :: x in s <==> x == s[0] || x in s[1..];
    }
  }

  lemma {:induction false} FilterAppend<T>(s: seq<T>, t: seq<T>, p: T -> bool)
    ensures Filter(s + t, p) == Filter(s, p) + Filter(t, p)
  {
    if s == [] {
      assert s + t == t;
    } else {
      FilterAppend(s[1..], t, p);
      assert (s + t)[0] == s[0] && (s + t)[1..] == s[1..] + t;
      var head := if p(s[0]) then [s[0]] else [];
      assert head + (Filter(s[1..], p) + Filter(t, p)) == (head + Filter(s[1..], p)) + Filter(t, p);
    }
  }

  /** Filtering keeps an element as often as it occurs, or not at all. */
  lemma {:induction false} FilterCounts<T>(s: seq<T>, p: T -> bool, x: T)
    ensures multiset(Filter(s, p))[x] == if p(x) then multiset(s)[x] else 0
    ensures |Filter(s, p)| == Count(s, p)
  {
    if s != [] {
      FilterCounts(s[1..], p, x);
      assert s == [s[0]] + s[1..];
    }
  }

  /** A duplicate-free list has as many elements as its set of members. */
  lemma {:induction false} DistinctSize<T>(s: seq<T>)
    requires Distinct(s)
    ensures |set x | x in s| == |s|
  {
    if s != [] {
      DistinctSize(s[1..]);
      assert (set x | x in s) == {s[0]} + (set x | x in s[1..]);
    }
  }

  predicate SortedBy<T>(s: seq<T>, key: T -> int) {
    forall i, j :: 0 <= i < j < |s| ==> key(s[i]) <= key(s[j])
  }

  /** `x` put into a sorted list, behind its equals. */
  function InsertBy<T>(s: seq<T>, x: T, key: T -> int): seq<T> {
    if s == [] || key(s[|s| - 1]) <= key(x) then s + [x]
    else InsertBy(s[..|s| - 1], x, key) + [s[|s| - 1]]
  }

  /** Stable sorting, as `list.sort(key=...)` does it. */
  function SortBy<T>(s: seq<T>, key: T -> int): seq<T> {
    if s == [] then [] else InsertBy(SortBy(s[..|s| - 1], key), s[|s| - 1], key)
  }

  lemma SortedSnoc<T>(s: seq<T>, x: T, key: T -> int)
    requires SortedBy(s, key) && forall y :: y in s ==> key(y) <= key(x)
    ensures SortedBy(s + [x], key)
  {
  }

  lemma SortedFront<T>(s: seq<T>, key: T -> int)
    requires SortedBy(s, key) && s != []
    ensures SortedBy(s[..|s| - 1], key) && forall y :: y in s ==> key(y) <= key(s[|s| - 1])
  {
  }

  lemma {:induction false} InsertByFacts<T>(s: seq<T>, x: T, key: T -> int)
    requires SortedBy(s, key)
    ensures SortedBy(InsertBy(s, x, key), key)
    ensures multiset(InsertBy(s, x, key)) == multiset(s) + multiset{x}
  {
    if s == [] || key(s[|s| - 1]) <= key(x) {
      assert forall y :: y in s ==> key(y) <= key(x);
      SortedSnoc(s, x, key);
    } else {
      hide SortedBy;
      var rest, last := s[..|s| - 1], s[|s| - 1];
      SortedFront(s, key);
      InsertByFacts(rest, x, key);
      assert s == rest + [last];
      forall y | y in InsertBy(rest, x, key) ensures key(y) <= key(last) {
        assert y in multiset(InsertBy(rest, x, key));
        assert y in rest || y == x;
      }
      SortedSnoc(InsertBy(rest, x, key), last, key);
    }
  }

  lemma {:induction false} SortByFacts<T>(s: seq<T>, key: T -> int)
    ensures SortedBy(SortBy(s, key), key)
    ensures multiset(SortBy(s, key)) == multiset(s)
    ensures forall x :: x in SortBy(s, key) <==> x in s
    ensures |SortBy(s, key)| == |s|
  {
    if s != [] {
      SortByFacts(s[..|s| - 1], key);
      InsertByFacts(SortBy(s[..|s| - 1], key), s[|s| - 1], key);
      assert s == s[..|s| - 1] + [s[|s| - 1]];
    }
    SameMultisetSameMembers(SortBy(s, key), s);
  }

  lemma SameMultisetSameMembers<T>(s: seq<T>, t: seq<T>)
    requires multiset(s) == multiset(t)
    ensures forall x :: x in s <==> x in t
    ensures |s| == |t|
  {
    assert forall x :: x in s <==> x in multiset(s);
    assert forall x :: x in t <==> x in multiset(t);
    assert |multiset(s)| == |s| && |multiset(t)| == |t|;
  }

  lemma {:induction false} DistinctAsMultiset<T>(s: seq<T>)
    ensures Distinct(s) <==> forall x :: x in multiset(s) ==> multiset(s)[x] == 1
  {
    if s != [] {
      var rest, last := s[..|s| - 1], s[|s| - 1];
      DistinctAsMultiset(rest);
      assert s == rest + [last];
      assert multiset(s) == multiset(rest) + multiset{last};
      assert Distinct(s) <==> Distinct(rest) && last !in rest;
      if Distinct(s) {
        assert last !in multiset(rest);
      } else if last in rest {
        assert last in multiset(rest) && multiset(s)[last] >= 2;
      } else {
        var x :| x in multiset(rest) && multiset(rest)[x] != 1;
        assert x in rest && x != last;
        assert multiset(s)[x] == multiset(rest)[x];
      }
    }
  }

  /** Sorting keeps a duplicate-free list duplicate-free. */
  lemma SortByDistinct<T>(s: seq<T>, key: T -> int)
    requires Distinct(s)
    ensures Distinct(SortBy(s, key))
  {
    SortByFacts(s, key);
    DistinctAsMultiset(s);
    DistinctAsMultiset(SortBy(s, key));
  }

  lemma {:induction false} SortByIdentity<T>(s: seq<T>, key: T -> int)
    requires SortedBy(s, key)
    ensures SortBy(s, key) == s
  {
    hide SortedBy;
    if s != [] {
      var rest, last := s[..|s| - 1], s[|s| - 1];
      SortedFront(s, key);
      SortByIdentity(rest, key);
      assert s == rest + [last];
      assert rest != [] ==> rest[|rest| - 1] == s[|s| - 2] && s[|s| - 2] in s;
    }
  }

  lemma {:induction false} CountInserted<T>(s: seq<T>, x: T, key: T -> int, p: T -> bool)
    ensures Count(InsertBy(s, x, key), p) == Count(s + [x], p)
  {
    CountAppend(s, [x], p);
    if s != [] && key(s[|s| - 1]) > key(x) {
      var rest, last := s[..|s| - 1], s[|s| - 1];
      CountInserted(rest, x, key, p);
      CountAppend(rest, [x], p);
      CountAppend(rest, [last], p);
      CountAppend(InsertBy(rest, x, key), [last], p);
      assert s == rest + [last];
    }
  }

  lemma {:induction false} CountSorted<T>(s: seq<T>, key: T -> int, p: T -> bool)
    ensures Count(SortBy(s, key), p) == Count(s, p)
  {
    if s != [] {
      var rest, last := s[..|s| - 1], s[|s| - 1];
      CountSorted(rest, key, p);
      CountInserted(SortBy(rest, key), last, key, p);
      CountAppend(SortBy(rest, key), [last], p);
      CountAppend(rest, [last], p);
      assert s == rest + [last];
    }
  }
}
