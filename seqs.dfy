/**
 * Sequence utilities shared by the model: order-preserving filtering (list
 * comprehensions with an `if`, boolean-mask row selection) and a stable sort
 * (Python's `sorted`, pandas' `mergesort`), with the facts the model needs.
 */
module Seqs {

  /** `[x for x in s if p(x)]` */
  function Filter<T>(s: seq<T>, p: T -> bool): (r: seq<T>)
    ensures |r| <= |s|
    decreases |s|
  {
    if |s| == 0 then [] else (if p(s[0]) then [s[0]] else []) + Filter(s[1..], p)
  }

  /** An element is selected exactly when it occurs in `s` and satisfies `p`. */
  lemma {:induction false} FilterMember<T>(s: seq<T>, p: T -> bool, x: T)
    ensures x in Filter(s, p) <==> x in s && p(x)
    decreases |s|
  {
    if |s| > 0 {
      FilterMember(s[1..], p, x);
      assert s == [s[0]] + s[1..];
    }
  }

  lemma {:induction false} FilterConcat<T>(a: seq<T>, b: seq<T>, p: T -> bool)
    ensures Filter(a + b, p) == Filter(a, p) + Filter(b, p)
    decreases |a|
  {
    if |a| == 0 {
      assert a + b == b;
    } else {
      var h := if p(a[0]) then [a[0]] else [];
      calc {
        Filter(a + b, p);
      == { ConsConcat(a, b); FilterCons(a[0], a[1..] + b, p); }
        h + Filter(a[1..] + b, p);
      == { FilterConcat(a[1..], b, p); }
        h + (Filter(a[1..], p) + Filter(b, p));
      == { ConcatAssoc(h, Filter(a[1..], p), Filter(b, p)); }
        (h + Filter(a[1..], p)) + Filter(b, p);
      == { ConsSplit(a); FilterCons(a[0], a[1..], p); }
        Filter(a, p) + Filter(b, p);
      }
    }
  }

  lemma ConsSplit<T>(s: seq<T>)
    requires |s| > 0
    ensures s == [s[0]] + s[1..]
  {
  }

  lemma ConsConcat<T>(a: seq<T>, b: seq<T>)
    requires |a| > 0
    ensures a + b == [a[0]] + (a[1..] + b)
  {
  }

  lemma ConcatAssoc<T>(a: seq<T>, b: seq<T>, c: seq<T>)
    ensures a + (b + c) == (a + b) + c
  {
  }

  lemma FilterCons<T>(a: T, t: seq<T>, p: T -> bool)
    ensures Filter([a] + t, p) == (if p(a) then [a] else []) + Filter(t, p)
  {
    assert ([a] + t)[0] == a;
    assert ([a] + t)[1..] == t;
  }

  lemma FilterSnoc<T>(s: seq<T>, x: T, p: T -> bool)
    ensures Filter(s + [x], p) == Filter(s, p) + (if p(x) then [x] else [])
  {
    FilterConcat(s, [x], p);
  }

  lemma {:induction false} FilterNone<T>(s: seq<T>, p: T -> bool)
    requires forall x :: x in s ==> !p(x)
    ensures Filter(s, p) == []
    decreases |s|
  {
    if |s| > 0 {
      assert s[0] in s;
      FilterNone(s[1..], p);
    }
  }

  lemma {:induction false} FilterAll<T>(s: seq<T>, p: T -> bool)
    requires forall x :: x in s ==> p(x)
    ensures Filter(s, p) == s
    decreases |s|
  {
    if |s| > 0 {
      assert s[0] in s;
      FilterAll(s[1..], p);
      assert [s[0]] + s[1..] == s;
    }
  }

  /** Two successive selections are one selection by both conditions. */
  lemma {:induction false} FilterFilter<T>(s: seq<T>, p: T -> bool, q: T -> bool, pq: T -> bool)
    requires forall x :: pq(x) == (p(x) && q(x))
    ensures Filter(Filter(s, p), q) == Filter(s, pq)
    decreases |s|
  {
    if |s| > 0 {
      FilterFilter(s[1..], p, q, pq);
      var head := if p(s[0]) then [s[0]] else [];
      FilterConcat(head, Filter(s[1..], p), q);
      if p(s[0]) {
        assert Filter(head, q) == (if q(s[0]) then [s[0]] else []) by {
          assert head[1..] == [];
        }
      }
    }
  }

  /** Masks that agree on the elements select the same elements. */
  lemma {:induction false} FilterSame<T>(s: seq<T>, p: T -> bool, q: T -> bool)
    requires forall x :: x in s ==> p(x) == q(x)
    ensures Filter(s, p) == Filter(s, q)
    decreases |s|
  {
    if |s| > 0 {
      assert s[0] in s;
      assert forall x :: x in s[1..] ==> x in s;
      FilterSame(s[1..], p, q);
    }
  }

  /** The first selected element is the first element satisfying `p`; `i` is its position. */
  lemma {:induction false} FilterFirst<T>(s: seq<T>, p: T -> bool) returns (i: nat)
    requires Filter(s, p) != []
    ensures i < |s| && s[i] == Filter(s, p)[0] && p(s[i])
    ensures forall j :: 0 <= j < i ==> !p(s[j])
    decreases |s|
  {
    if p(s[0]) {
      i := 0;
    } else {
      var k := FilterFirst(s[1..], p);
      i := k + 1;
      assert s[i] == s[1..][k];
      forall j | 0 <= j < i ensures !p(s[j]) {
        if j > 0 { assert s[j] == s[1..][j - 1]; }
      }
    }
  }

  /** `[f(x) for x in s]` */
  function Map<A, B>(s: seq<A>, f: A -> B): (r: seq<B>)
    ensures |r| == |s|
    decreases |s|
  {
    if |s| == 0 then [] else [f(s[0])] + Map(s[1..], f)
  }

  lemma MapCons<A, B>(h: A, t: seq<A>, f: A -> B)
    ensures Map([h] + t, f) == [f(h)] + Map(t, f)
  {
    assert ([h] + t)[0] == h;
    assert ([h] + t)[1..] == t;
  }

  lemma MapOne<A, B>(x: A, f: A -> B)
    ensures Map([x], f) == [f(x)]
  {
    assert [x][1..] == [];
  }

  lemma MapTwo<A, B>(x: A, y: A, f: A -> B)
    ensures Map([x, y], f) == [f(x), f(y)]
  {
    var s := [x, y];
    assert s[1..] == [y];
    MapOne(y, f);
  }

  /** Element `k` of the mapped sequence is the image of element `k`. */
  lemma {:induction false} MapAt<A, B>(s: seq<A>, f: A -> B, k: nat)
    requires k < |s|
    ensures Map(s, f)[k] == f(s[k])
    decreases k
  {
    if k > 0 {
      MapAt(s[1..], f, k - 1);
    }
  }

  lemma {:induction false} MapSnoc<A, B>(s: seq<A>, x: A, f: A -> B)
    ensures Map(s + [x], f) == Map(s, f) + [f(x)]
    decreases |s|
  {
    if |s| == 0 {
      assert s + [x] == [x];
      MapCons(x, [], f);
    } else {
      calc {
        Map(s + [x], f);
      == { ConsConcat(s, [x]); MapCons(s[0], s[1..] + [x], f); }
        [f(s[0])] + Map(s[1..] + [x], f);
      == { MapSnoc(s[1..], x, f); }
        [f(s[0])] + (Map(s[1..], f) + [f(x)]);
      == { ConcatAssoc([f(s[0])], Map(s[1..], f), [f(x)]); }
        ([f(s[0])] + Map(s[1..], f)) + [f(x)];
      == { ConsSplit(s); MapCons(s[0], s[1..], f); }
        Map(s, f) + [f(x)];
      }
    }
  }

  /** The mapped elements are exactly the images of the elements. */
  lemma {:induction false} MapMember<A, B>(s: seq<A>, f: A -> B, y: B)
    ensures y in Map(s, f) <==> exists x :: x in s && f(x) == y
    decreases |s|
  {
    if |s| > 0 {
      MapMember(s[1..], f, y);
      assert Map(s, f) == [f(s[0])] + Map(s[1..], f);
      assert forall x :: x in s <==> x == s[0] || x in s[1..] by {
        ConsSplit(s);
      }
    }
  }

  /** Selecting and mapping a sequence with one more element. */
  lemma MapFilterSnoc<A, B>(s: seq<A>, x: A, p: A -> bool, f: A -> B)
    ensures p(x) ==> Map(Filter(s + [x], p), f) == Map(Filter(s, p), f) + [f(x)]
    ensures !p(x) ==> Map(Filter(s + [x], p), f) == Map(Filter(s, p), f)
  {
    FilterSnoc(s, x, p);
    if p(x) {
      MapSnoc(Filter(s, p), x, f);
    } else {
      assert Filter(s, p) + [] == Filter(s, p);
    }
  }

  /** Some element satisfies `p`. */
  predicate Any<T>(s: seq<T>, p: T -> bool)
  {
    exists k :: 0 <= k < |s| && p(s[k])
  }

  lemma AnySnoc<T>(s: seq<T>, x: T, p: T -> bool)
    ensures Any(s + [x], p) == (Any(s, p) || p(x))
  {
    var t := s + [x];
    if Any(s, p) {
      var k :| 0 <= k < |s| && p(s[k]);
      assert t[k] == s[k];
    }
    if Any(t, p) {
      var k :| 0 <= k < |t| && p(t[k]);
      if k < |s| { assert t[k] == s[k]; }
    }
    assert t[|s|] == x;
  }

  /** Some element satisfies `p` exactly when filtering by `p` keeps something. */
  lemma {:induction false} AnyFilter<T>(s: seq<T>, p: T -> bool)
    ensures Any(s, p) <==> |Filter(s, p)| > 0
  {
    if |s| > 0 {
      FilterMember(s, p, s[0]);
      if Any(s, p) {
        var k :| 0 <= k < |s| && p(s[k]);
        FilterMember(s, p, s[k]);
      } else if |Filter(s, p)| > 0 {
        FilterMember(s, p, Filter(s, p)[0]);
        assert false;
      }
    }
  }

  predicate IsSubsequence<T(==)>(r: seq<T>, s: seq<T>)
    decreases |s|
  {
    if |r| == 0 then true
    else if |s| == 0 then false
    else if r[0] == s[0] then IsSubsequence(r[1..], s[1..])
    else IsSubsequence(r, s[1..])
  }

  lemma {:induction false} FilterIsSubsequence<T>(s: seq<T>, p: T -> bool)
    ensures IsSubsequence(Filter(s, p), s)
    decreases |s|
  {
    if |s| > 0 {
      FilterIsSubsequence(s[1..], p);
      var r := Filter(s, p);
      if p(s[0]) {
        assert r[0] == s[0] && r[1..] == Filter(s[1..], p);
      } else {
        assert r == Filter(s[1..], p);
        SubsequenceSkip(r, s);
      }
    }
  }

  lemma {:induction false} SubsequenceSkip<T>(r: seq<T>, s: seq<T>)
    requires |s| > 0 && IsSubsequence(r, s[1..])
    ensures IsSubsequence(r, s)
    decreases |s|, 1
  {
    if |r| > 0 && r[0] == s[0] {
      SubsequenceDrop(r, s[1..]);
    }
  }

  lemma {:induction false} SubsequenceDrop<T>(r: seq<T>, s: seq<T>)
    requires |r| > 0 && IsSubsequence(r, s)
    ensures IsSubsequence(r[1..], s)
    decreases |s|, 2
  {
    if |s| > 0 {
      if r[0] == s[0] {
        SubsequenceSkip(r[1..], s);
      } else {
        SubsequenceDrop(r, s[1..]);
        SubsequenceSkip(r[1..], s);
      }
    }
  }

  // ---------------------------------------------------------------------
  // Stable sort
  // ---------------------------------------------------------------------

  /** `le` is total and transitive: what a sort key's `<=` is. */
  ghost predicate TotalPreorder<T(!new)>(le: (T, T) -> bool)
  {
    (forall a, b :: le(a, b) || le(b, a))
    && (forall a, b, c :: le(a, b) && le(b, c) ==> le(a, c))
  }

  predicate SortedBy<T>(s: seq<T>, le: (T, T) -> bool)
  {
    forall i, j :: 0 <= i < j < |s| ==> le(s[i], s[j])
  }

  /** `x` inserted after every element not greater than it. */
  function Insert<T>(s: seq<T>, x: T, le: (T, T) -> bool): (r: seq<T>)
    ensures |r| == |s| + 1
    decreases |s|
  {
    if |s| == 0 then [x]
    else if le(s[0], x) then [s[0]] + Insert(s[1..], x, le)
    else [x] + s
  }

  /** A stable sort by `le` (insertion sort). */
  function SortBy<T>(s: seq<T>, le: (T, T) -> bool): (r: seq<T>)
    ensures |r| == |s|
    decreases |s|
  {
    if |s| == 0 then []
    else Insert(SortBy(s[..|s| - 1], le), s[|s| - 1], le)
  }

  lemma {:induction false} InsertPerm<T>(s: seq<T>, x: T, le: (T, T) -> bool)
    ensures multiset(Insert(s, x, le)) == multiset(s) + multiset{x}
    decreases |s|
  {
    if |s| > 0 {
      assert s == [s[0]] + s[1..];
      if le(s[0], x) {
        InsertPerm(s[1..], x, le);
      }
    }
  }

  /** The sort only reorders: the result is a permutation of the input. */
  lemma {:induction false} SortByPerm<T>(s: seq<T>, le: (T, T) -> bool)
    ensures multiset(SortBy(s, le)) == multiset(s)
    decreases |s|
  {
    if |s| > 0 {
      assert s == s[..|s| - 1] + [s[|s| - 1]];
      SortByPerm(s[..|s| - 1], le);
      InsertPerm(SortBy(s[..|s| - 1], le), s[|s| - 1], le);
    }
  }

  lemma {:induction false} InsertSorted<T(!new)>(s: seq<T>, x: T, le: (T, T) -> bool)
    requires TotalPreorder(le) && SortedBy(s, le)
    ensures SortedBy(Insert(s, x, le), le)
    decreases |s|
  {
    if |s| > 0 {
      if le(s[0], x) {
        InsertSorted(s[1..], x, le);
        var t := Insert(s[1..], x, le);
        InsertPerm(s[1..], x, le);
        forall y | y in t ensures le(s[0], y) {
          assert y in multiset(t);
          assert y in multiset(s[1..]) || y == x;
          if y != x {
            var j :| 0 <= j < |s[1..]| && s[1..][j] == y;
            assert s[1 + j] == y;
          }
        }
        SortedCons(s[0], t, le);
      } else {
        assert le(x, s[0]);
        SortedCons(x, s, le);
      }
    }
  }

  lemma SortedCons<T>(x: T, t: seq<T>, le: (T, T) -> bool)
    requires SortedBy(t, le) && forall y :: y in t ==> le(x, y)
    ensures SortedBy([x] + t, le)
  {
    var r := [x] + t;
    forall i, j | 0 <= i < j < |r| ensures le(r[i], r[j]) {
      if i == 0 {
        assert r[j] == t[j - 1] && t[j - 1] in t;
      } else {
        assert r[i] == t[i - 1] && r[j] == t[j - 1];
      }
    }
  }

  /** The sort's result is ordered by `le`. */
  lemma {:induction false} SortBySorted<T(!new)>(s: seq<T>, le: (T, T) -> bool)
    requires TotalPreorder(le)
    ensures SortedBy(SortBy(s, le), le)
    decreases |s|
  {
    if |s| > 0 {
      SortBySorted(s[..|s| - 1], le);
      InsertSorted(SortBy(s[..|s| - 1], le), s[|s| - 1], le);
    }
  }

  /** `a` and `b` have equal keys. */
  predicate Equiv<T>(le: (T, T) -> bool, a: T, b: T)
  {
    le(a, b) && le(b, a)
  }

  lemma {:induction false} InsertOther<T>(s: seq<T>, x: T, le: (T, T) -> bool, p: T -> bool)
    requires !p(x)
    ensures Filter(Insert(s, x, le), p) == Filter(s, p)
    decreases |s|
  {
    if |s| == 0 {
      assert Filter([x], p) == [] by { assert [x][1..] == []; }
    } else if le(s[0], x) {
      InsertOther(s[1..], x, le, p);
      var t := Insert(s[1..], x, le);
      assert ([s[0]] + t)[1..] == t;
    } else {
      assert ([x] + s)[1..] == s;
    }
  }

  lemma {:induction false} InsertSame<T(!new)>(s: seq<T>, x: T, k: T, le: (T, T) -> bool, p: T -> bool)
    requires TotalPreorder(le) && SortedBy(s, le)
    requires Equiv(le, x, k) && forall y :: p(y) == Equiv(le, y, k)
    ensures Filter(Insert(s, x, le), p) == Filter(s, p) + [x]
    decreases |s|
  {
    if |s| == 0 {
      assert Filter([x], p) == [x] by { assert [x][1..] == []; }
    } else if le(s[0], x) {
      InsertSame(s[1..], x, k, le, p);
      InsertSameStep(s, x, le, p);
    } else {
      InsertSameFront(s, x, k, le, p);
    }
  }

  lemma InsertSameStep<T>(s: seq<T>, x: T, le: (T, T) -> bool, p: T -> bool)
    requires |s| > 0 && le(s[0], x)
    requires Filter(Insert(s[1..], x, le), p) == Filter(s[1..], p) + [x]
    ensures Filter(Insert(s, x, le), p) == Filter(s, p) + [x]
  {
    var t := Insert(s[1..], x, le);
    var h := if p(s[0]) then [s[0]] else [];
    calc {
      Filter(Insert(s, x, le), p);
    == { assert Insert(s, x, le) == [s[0]] + t; }
      Filter([s[0]] + t, p);
    == { FilterCons(s[0], t, p); }
      h + (Filter(s[1..], p) + [x]);
    == { ConcatAssoc(h, Filter(s[1..], p), [x]); }
      (h + Filter(s[1..], p)) + [x];
    == { ConsSplit(s); FilterCons(s[0], s[1..], p); }
      Filter(s, p) + [x];
    }
  }

  /** Inserted before a greater head: nothing in `s` shares `x`'s key. */
  lemma InsertSameFront<T(!new)>(s: seq<T>, x: T, k: T, le: (T, T) -> bool, p: T -> bool)
    requires TotalPreorder(le) && SortedBy(s, le) && |s| > 0 && !le(s[0], x)
    requires Equiv(le, x, k) && forall y :: p(y) == Equiv(le, y, k)
    ensures Filter(Insert(s, x, le), p) == Filter(s, p) + [x]
  {
    forall y | y in s ensures !p(y) {
      var j :| 0 <= j < |s| && s[j] == y;
      assert le(s[0], y) by {
        if j > 0 { assert le(s[0], s[j]); }
      }
      assert le(k, x);
    }
    FilterNone(s, p);
    assert Insert(s, x, le) == [x] + s;
    FilterCons(x, s, p);
  }

  /**
   * Stability: the elements sharing one key come out in their input order.
   * `p` selects the elements whose key equals `k`'s.
   */
  lemma {:induction false} SortByStable<T(!new)>(s: seq<T>, le: (T, T) -> bool, k: T, p: T -> bool)
    requires TotalPreorder(le) && forall y :: p(y) == Equiv(le, y, k)
    ensures Filter(SortBy(s, le), p) == Filter(s, p)
    decreases |s|
  {
    if |s| > 0 {
      var init := s[..|s| - 1];
      var x := s[|s| - 1];
      var sorted := SortBy(init, le);
      assert SortBy(s, le) == Insert(sorted, x, le);
      SortByStable(init, le, k, p);
      assert Filter(Insert(sorted, x, le), p) == Filter(init, p) + (if p(x) then [x] else []) by {
        if p(x) {
          SortBySorted(init, le);
          InsertSame(sorted, x, k, le, p);
        } else {
          InsertOther(sorted, x, le, p);
        }
      }
      SplitLast(s);
      FilterSnoc(init, x, p);
    }
  }

  // ---------------------------------------------------------------------
  // drop_duplicates(keep="first")
  // ---------------------------------------------------------------------

  /** The elements whose key is not in `seen` and occurs at no earlier position. */
  function DedupFrom<T, K(==)>(s: seq<T>, key: T -> K, seen: set<K>): (r: seq<T>)
    ensures |r| <= |s|
    decreases |s|
  {
    if |s| == 0 then []
    else if key(s[0]) in seen then DedupFrom(s[1..], key, seen)
    else [s[0]] + DedupFrom(s[1..], key, seen + {key(s[0])})
  }

  /** The first element for each key, in order. */
  function DedupBy<T, K(==)>(s: seq<T>, key: T -> K): seq<T>
  {
    DedupFrom(s, key, {})
  }

  /** Kept elements come from `s`, with keys not already seen. */
  lemma {:induction false} DedupFromMembers<T, K>(s: seq<T>, key: T -> K, seen: set<K>)
    ensures forall y :: y in DedupFrom(s, key, seen) ==> y in s && key(y) !in seen
    decreases |s|
  {
    if |s| > 0 {
      DedupFromMembers(s[1..], key, seen);
      DedupFromMembers(s[1..], key, seen + {key(s[0])});
    }
  }

  /** No two elements of `r` share a key. */
  ghost predicate KeysDistinct<T, K>(r: seq<T>, key: T -> K)
  {
    forall i, j :: 0 <= i < j < |r| ==> key(r[i]) != key(r[j])
  }

  /** No two kept elements share a key. */
  lemma {:induction false} DedupFromDistinct<T, K>(s: seq<T>, key: T -> K, seen: set<K>)
    ensures KeysDistinct(DedupFrom(s, key, seen), key)
    decreases |s|
  {
    if |s| > 0 && key(s[0]) !in seen {
      var seen' := seen + {key(s[0])};
      var rest := DedupFrom(s[1..], key, seen');
      DedupFromDistinct(s[1..], key, seen');
      DedupFromMembers(s[1..], key, seen');
      var r := [s[0]] + rest;
      assert r == DedupFrom(s, key, seen);
      forall i, j | 0 <= i < j < |r| ensures key(r[i]) != key(r[j]) {
        assert r[j] == rest[j - 1] && rest[j - 1] in rest;
        assert key(r[j]) !in seen';
        if i > 0 {
          assert r[i] == rest[i - 1];
        }
      }
    } else if |s| > 0 {
      DedupFromDistinct(s[1..], key, seen);
      assert DedupFrom(s, key, seen) == DedupFrom(s[1..], key, seen);
    }
  }

  /** Every first occurrence of a key not already seen is kept. */
  lemma {:induction false} DedupFromFirsts<T, K>(s: seq<T>, key: T -> K, seen: set<K>, i: nat)
    requires i < |s| && key(s[i]) !in seen
    requires forall j :: 0 <= j < i ==> key(s[j]) != key(s[i])
    ensures s[i] in DedupFrom(s, key, seen)
    decreases |s|
  {
    if i > 0 {
      var seen' := if key(s[0]) in seen then seen else seen + {key(s[0])};
      assert key(s[0]) != key(s[i]);
      assert s[1..][i - 1] == s[i];
      DedupFromFirsts(s[1..], key, seen', i - 1);
    }
  }

  lemma {:induction false} DedupFromSubsequence<T, K>(s: seq<T>, key: T -> K, seen: set<K>)
    ensures IsSubsequence(DedupFrom(s, key, seen), s)
    decreases |s|
  {
    if |s| > 0 {
      if key(s[0]) in seen {
        DedupFromSubsequence(s[1..], key, seen);
        SubsequenceSkip(DedupFrom(s, key, seen), s);
      } else {
        var rest := DedupFrom(s[1..], key, seen + {key(s[0])});
        DedupFromSubsequence(s[1..], key, seen + {key(s[0])});
        assert ([s[0]] + rest)[1..] == rest;
      }
    }
  }

  /** Every key of the input is either already seen or carried by a kept element. */
  lemma {:induction false} DedupFromCovers<T, K>(s: seq<T>, key: T -> K, seen: set<K>)
    ensures forall x :: x in s ==> key(x) in seen || exists y :: y in DedupFrom(s, key, seen) && key(y) == key(x)
    decreases |s|
  {
    if |s| > 0 {
      var seen' := if key(s[0]) in seen then seen else seen + {key(s[0])};
      DedupFromCovers(s[1..], key, seen');
      var r := DedupFrom(s, key, seen);
      forall x | x in s && key(x) !in seen ensures exists y :: y in r && key(y) == key(x) {
        if x == s[0] {
          assert r[0] == s[0];
        } else {
          assert x in s[1..] by { ConsSplit(s); }
          if key(x) == key(s[0]) {
            assert r[0] == s[0];
          } else {
            var y :| y in DedupFrom(s[1..], key, seen') && key(y) == key(x);
            assert y in r;
          }
        }
      }
    }
  }

  /**
   * `drop_duplicates` by a key, keeping the first: the result is an
   * order-preserving selection, no key occurs twice, and the first element
   * of every key is kept (so every key of the input is represented).
   */
  lemma DedupBySpec<T, K>(s: seq<T>, key: T -> K)
    ensures IsSubsequence(DedupBy(s, key), s)
    ensures forall y :: y in DedupBy(s, key) ==> y in s
    ensures KeysDistinct(DedupBy(s, key), key)
    ensures forall i :: 0 <= i < |s| && (forall j :: 0 <= j < i ==> key(s[j]) != key(s[i])) ==> s[i] in DedupBy(s, key)
    ensures forall x :: x in s ==> exists y :: y in DedupBy(s, key) && key(y) == key(x)
  {
    DedupFromCovers(s, key, {});
    DedupFromSubsequence(s, key, {});
    DedupFromMembers(s, key, {});
    DedupFromDistinct(s, key, {});
    forall i | 0 <= i < |s| && (forall j :: 0 <= j < i ==> key(s[j]) != key(s[i])) ensures s[i] in DedupBy(s, key) {
      DedupFromFirsts(s, key, {}, i);
    }
  }

  /** Inserting an element whose key is new keeps the keys distinct. */
  lemma {:induction false} InsertKeysDistinct<T, K>(s: seq<T>, x: T, le: (T, T) -> bool, key: T -> K)
    requires KeysDistinct(s, key) && forall y :: y in s ==> key(y) != key(x)
    ensures KeysDistinct(Insert(s, x, le), key)
    decreases |s|
  {
    var r := Insert(s, x, le);
    if |s| > 0 && le(s[0], x) {
      var t := s[1..];
      assert forall y :: y in t ==> y in s;
      assert KeysDistinct(t, key) by {
        forall i, j | 0 <= i < j < |t| ensures key(t[i]) != key(t[j]) {
          assert t[i] == s[i + 1] && t[j] == s[j + 1];
        }
      }
      InsertKeysDistinct(t, x, le, key);
      var it := Insert(t, x, le);
      InsertPerm(t, x, le);
      forall i, j | 0 <= i < j < |r| ensures key(r[i]) != key(r[j]) {
        assert r[j] == it[j - 1];
        if i > 0 {
          assert r[i] == it[i - 1];
        } else {
          assert r[j] in multiset(t) + multiset{x} by { assert it[j - 1] in multiset(it); }
          if r[j] != x {
            assert r[j] in t;
            var k :| 0 <= k < |t| && t[k] == r[j];
            assert s[k + 1] == r[j];
          }
        }
      }
    } else if |s| > 0 {
      assert r == [x] + s;
      forall i, j | 0 <= i < j < |r| ensures key(r[i]) != key(r[j]) {
        assert r[j] == s[j - 1];
        if i > 0 {
          assert r[i] == s[i - 1];
        }
      }
    }
  }

  /** Sorting keeps distinct keys distinct. */
  lemma {:induction false} SortByKeysDistinct<T, K>(s: seq<T>, le: (T, T) -> bool, key: T -> K)
    requires KeysDistinct(s, key)
    ensures KeysDistinct(SortBy(s, le), key)
    decreases |s|
  {
    if |s| > 0 {
      var init := s[..|s| - 1];
      var x := s[|s| - 1];
      assert KeysDistinct(init, key) by {
        forall i, j | 0 <= i < j < |init| ensures key(init[i]) != key(init[j]) {
          assert init[i] == s[i] && init[j] == s[j];
        }
      }
      SortByKeysDistinct(init, le, key);
      SortByPerm(init, le);
      forall y | y in SortBy(init, le) ensures key(y) != key(x) {
        assert y in multiset(init);
        var k :| 0 <= k < |init| && init[k] == y;
        assert s[k] == y;
      }
      InsertKeysDistinct(SortBy(init, le), x, le, key);
    }
  }

  /** The pieces `f` makes of each element, concatenated in order. */
  function FlatMap<A, B>(s: seq<A>, f: A -> seq<B>): seq<B>
    decreases |s|
  {
    if |s| == 0 then [] else FlatMap(s[..|s| - 1], f) + f(s[|s| - 1])
  }

  lemma FlatMapSnoc<A, B>(s: seq<A>, x: A, f: A -> seq<B>)
    ensures FlatMap(s + [x], f) == FlatMap(s, f) + f(x)
  {
    var t := s + [x];
    assert t[..|t| - 1] == s && t[|t| - 1] == x;
  }

  /** Each part contributes its own pieces, in order. */
  lemma {:induction false} FlatMapConcat<A, B>(a: seq<A>, b: seq<A>, f: A -> seq<B>)
    ensures FlatMap(a + b, f) == FlatMap(a, f) + FlatMap(b, f)
    decreases |b|
  {
    if |b| == 0 {
      assert a + b == a;
    } else {
      var n := |b| - 1;
      FlatMapConcat(a, b[..n], f);
      assert a + b == (a + b[..n]) + [b[n]];
      assert b == b[..n] + [b[n]];
      FlatMapSnoc(a + b[..n], b[n], f);
      FlatMapSnoc(b[..n], b[n], f);
      calc {
        FlatMap(a + b, f);
        FlatMap(a + b[..n], f) + f(b[n]);
        (FlatMap(a, f) + FlatMap(b[..n], f)) + f(b[n]);
        { ConcatAssoc(FlatMap(a, f), FlatMap(b[..n], f), f(b[n])); }
        FlatMap(a, f) + (FlatMap(b[..n], f) + f(b[n]));
        FlatMap(a, f) + FlatMap(b, f);
      }
    }
  }

  /** A single element contributes its pieces. */
  lemma FlatMapOne<A, B>(x: A, f: A -> seq<B>)
    ensures FlatMap([x], f) == f(x)
  {
    assert [x][..0] == [];
  }

  /** When every element makes at most `k` pieces, there are at most `k` per element. */
  lemma {:induction false} FlatMapBound<A, B>(s: seq<A>, f: A -> seq<B>, k: nat)
    requires forall x :: x in s ==> |f(x)| <= k
    ensures |FlatMap(s, f)| <= |s| * k
    decreases |s|
  {
    if |s| > 0 {
      var n := |s| - 1;
      assert forall x :: x in s[..n] ==> x in s;
      FlatMapBound(s[..n], f, k);
      assert s[n] in s;
      BlockNext(n, k);
      assert |FlatMap(s, f)| == |FlatMap(s[..n], f)| + |f(s[n])|;
    }
  }

  /** The blocks before block `n` end where block `n` starts. */
  lemma BlockBefore(i: nat, j: nat, n: nat, m: nat)
    requires i < n && j < m
    ensures i * m + j < n * m
    decreases n
  {
    BlockNext(n - 1, m);
    if i < n - 1 {
      BlockBefore(i, j, n - 1, m);
    }
  }

  lemma BlockNext(n: nat, m: nat)
    ensures (n + 1) * m == n * m + m
  {
  }

  /** When every element makes exactly `m` pieces, there are `m` per element. */
  lemma {:induction false} FlatMapUniformLen<A, B>(s: seq<A>, f: A -> seq<B>, m: nat)
    requires forall x :: x in s ==> |f(x)| == m
    ensures |FlatMap(s, f)| == |s| * m
    decreases |s|
  {
    if |s| > 0 {
      var n := |s| - 1;
      assert forall x :: x in s[..n] ==> x in s;
      FlatMapUniformLen(s[..n], f, m);
      assert s[n] in s;
      BlockNext(n, m);
    }
  }

  /** When every element makes exactly `m` pieces, piece `j` of element `i` sits at `i * m + j`. */
  lemma {:induction false} FlatMapUniformAt<A, B>(s: seq<A>, f: A -> seq<B>, m: nat, i: nat, j: nat)
    requires forall x :: x in s ==> |f(x)| == m
    requires i < |s| && j < m
    ensures i * m + j < |FlatMap(s, f)| && FlatMap(s, f)[i * m + j] == f(s[i])[j]
    decreases |s|
  {
    var n := |s| - 1;
    var pre := s[..n];
    assert forall x :: x in pre ==> x in s;
    assert s[n] in s;
    FlatMapUniformLen(pre, f, m);
    assert FlatMap(s, f) == FlatMap(pre, f) + f(s[n]);
    BlockAt(FlatMap(pre, f), f(s[n]), n, m, i, j);
    if i < n {
      FlatMapUniformAt(pre, f, m, i, j);
      assert s[i] == pre[i];
    }
  }

  /** Position `i * m + j` of `n` blocks of `m` followed by one more block. */
  lemma BlockAt<T>(head: seq<T>, last: seq<T>, n: nat, m: nat, i: nat, j: nat)
    requires |head| == n * m && |last| == m && i <= n && j < m
    ensures i < n ==> i * m + j < |head| && (head + last)[i * m + j] == head[i * m + j]
    ensures i == n ==> i * m + j < |head + last| && (head + last)[i * m + j] == last[j]
  {
    if i < n {
      BlockBefore(i, j, n, m);
    }
  }

  /** When every element makes at least one piece, there are at least as many pieces as elements. */
  lemma {:induction false} FlatMapAtLeast<A, B>(s: seq<A>, f: A -> seq<B>)
    requires forall x :: x in s ==> |f(x)| >= 1
    ensures |FlatMap(s, f)| >= |s|
    decreases |s|
  {
    if |s| > 0 {
      var n := |s| - 1;
      assert forall x :: x in s[..n] ==> x in s;
      FlatMapAtLeast(s[..n], f);
      assert s[n] in s;
    }
  }

  /** Every piece comes from some element. */
  lemma {:induction false} FlatMapMember<A, B>(s: seq<A>, f: A -> seq<B>, y: B)
    requires y in FlatMap(s, f)
    ensures exists x :: x in s && y in f(x)
    decreases |s|
  {
    var n := |s| - 1;
    if y in f(s[n]) {
      assert s[n] in s;
    } else {
      FlatMapMember(s[..n], f, y);
      var x :| x in s[..n] && y in f(x);
      assert x in s;
    }
  }

  /** Mapping first changes nothing when `f` cannot tell an element from its image. */
  lemma {:induction false} FlatMapAfterMap<A, B>(s: seq<A>, g: A -> A, f: A -> seq<B>)
    requires forall x :: x in s ==> f(g(x)) == f(x)
    ensures FlatMap(Map(s, g), f) == FlatMap(s, f)
    decreases |s|
  {
    if |s| > 0 {
      var n := |s| - 1;
      assert forall x :: x in s[..n] ==> x in s;
      FlatMapAfterMap(s[..n], g, f);
      SplitLast(s);
      MapSnoc(s[..n], s[n], g);
      FlatMapSnoc(Map(s[..n], g), g(s[n]), f);
      assert s[n] in s;
    }
  }

  /** Maps that agree on the elements give the same sequence. */
  lemma {:induction false} MapSame<A, B>(s: seq<A>, f: A -> B, g: A -> B)
    requires forall x :: x in s ==> f(x) == g(x)
    ensures Map(s, f) == Map(s, g)
    decreases |s|
  {
    if |s| > 0 {
      assert forall x :: x in s[1..] ==> x in s;
      MapSame(s[1..], f, g);
      assert s[0] in s;
    }
  }

  /** Functions that agree on the elements give the same pieces. */
  lemma {:induction false} FlatMapSame<A, B>(s: seq<A>, f: A -> seq<B>, g: A -> seq<B>)
    requires forall x :: x in s ==> f(x) == g(x)
    ensures FlatMap(s, f) == FlatMap(s, g)
    decreases |s|
  {
    if |s| > 0 {
      var n := |s| - 1;
      assert forall x :: x in s[..n] ==> x in s;
      FlatMapSame(s[..n], f, g);
      assert s[n] in s;
    }
  }

  /** The prefix one longer is the prefix and the next element. */
  lemma PrefixSnoc<T>(s: seq<T>, i: nat)
    requires i < |s|
    ensures s[..i + 1] == s[..i] + [s[i]]
  {
  }

  lemma SplitLast<T>(s: seq<T>)
    requires |s| > 0
    ensures s == s[..|s| - 1] + [s[|s| - 1]]
  {
  }
}
