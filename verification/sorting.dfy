/**
  Stable sorting by a key comparer, the semantics of LINQ's `OrderBy`.

  A comparer is modelled as a total preorder `le` ("a sorts no later than b").
  Stability is stated without indices: for every element `x`, the elements
  equivalent to `x` (its `Class`) appear in the output in the same order as in
  the input. A stable sort is unique (`StableSortUnique`), which is what lets
  two successive `OrderBy` passes be compared with one lexicographic pass
  (`SortTwiceIsLexSort`).
 */
module Sorting {

  /** `le` is total and transitive, the contract of a .NET `IComparer`. */
  ghost predicate TotalPreorder<T(!new)>(le: (T, T) -> bool) {
    && (forall a, b :: le(a, b) || le(b, a))
    && (forall a, b, c :: le(a, b) && le(b, c) ==> le(a, c))
  }

  /** `a` and `b` compare equal under `le`. */
  predicate Equivalent<T>(le: (T, T) -> bool, a: T, b: T) {
    le(a, b) && le(b, a)
  }

  ghost predicate Sorted<T>(s: seq<T>, le: (T, T) -> bool) {
    forall i, j :: 0 <= i < j < |s| ==> le(s[i], s[j])
  }

  /** The elements of `s` that compare equal to `x`, in their order in `s`. */
  function Class<T>(s: seq<T>, x: T, le: (T, T) -> bool): seq<T> {
    if |s| == 0 then []
    else (if Equivalent(le, x, s[0]) then [s[0]] else []) + Class(s[1..], x, le)
  }

  /** `r` is `s` stably sorted by `le`. */
  ghost predicate StablySorts<T(!new)>(s: seq<T>, r: seq<T>, le: (T, T) -> bool) {
    && Sorted(r, le)
    && multiset(r) == multiset(s)
    && forall x :: Class(r, x, le) == Class(s, x, le)
  }

  /** Places `x` before the first element of `t` that it sorts no later than. */
  function Insert<T>(x: T, t: seq<T>, le: (T, T) -> bool): (r: seq<T>)
    ensures multiset(r) == multiset(t) + multiset{x}
  {
    if |t| == 0 then [x]
    else if le(x, t[0]) then [x] + t
    else
      assert t == [t[0]] + t[1..];
      [t[0]] + Insert(x, t[1..], le)
  }

  /** Insertion sort, processing the input from the back so that an earlier
      element is inserted in front of the later ones it compares equal to. */
  function StableSort<T(!new)>(s: seq<T>, le: (T, T) -> bool): (r: seq<T>)
    requires TotalPreorder(le)
    ensures StablySorts(s, r, le)
  {
    if |s| == 0 then []
    else
      var t := StableSort(s[1..], le);
      assert s == [s[0]] + s[1..];
      InsertSorted(s[0], t, le);
      InsertStable(s[0], t, s, le);
      Insert(s[0], t, le)
  }

  lemma ClassCons<T>(y: T, s: seq<T>, x: T, le: (T, T) -> bool)
    ensures Class([y] + s, x, le) == (if Equivalent(le, x, y) then [y] else []) + Class(s, x, le)
  {
    assert ([y] + s)[1..] == s;
  }

  lemma HeadInOwnClass<T(!new)>(s: seq<T>, le: (T, T) -> bool)
    requires TotalPreorder(le)
    ensures |s| > 0 ==> |Class(s, s[0], le)| > 0
  {
  }

  lemma {:induction false} ClassSubset<T>(s: seq<T>, x: T, le: (T, T) -> bool)
    ensures forall c :: c in Class(s, x, le) ==> c in s
  {
    if |s| > 0 {
      ClassSubset(s[1..], x, le);
    }
  }

  lemma {:induction false} ClassContains<T>(s: seq<T>, x: T, k: int, le: (T, T) -> bool)
    requires 0 <= k < |s| && Equivalent(le, x, s[k])
    ensures s[k] in Class(s, x, le)
  {
    if k > 0 {
      ClassContains(s[1..], x, k - 1, le);
    }
  }

  lemma {:induction false} InsertSorted<T(!new)>(x: T, t: seq<T>, le: (T, T) -> bool)
    requires TotalPreorder(le)
    requires Sorted(t, le)
    ensures Sorted(Insert(x, t, le), le)
  {
    if |t| == 0 {
    } else if le(x, t[0]) {
      var r := [x] + t;
      forall i, j | 0 <= i < j < |r| ensures le(r[i], r[j]) {
        if i == 0 && j > 1 {
          assert le(t[0], t[j - 1]);
        }
      }
    } else {
      var t' := t[1..];
      InsertSorted(x, t', le);
      var r' := Insert(x, t', le);
      assert le(t[0], x);
      forall k | 0 <= k < |r'| ensures le(t[0], r'[k]) {
        assert r'[k] in multiset(r');
        if r'[k] != x {
          assert r'[k] in t';
          var m :| 0 <= m < |t'| && t'[m] == r'[k];
          assert t'[m] == t[m + 1];
        }
      }
      var r := [t[0]] + r';
      forall i, j | 0 <= i < j < |r| ensures le(r[i], r[j]) {
        if i == 0 {
          assert r[j] == r'[j - 1];
        } else {
          assert r[i] == r'[i - 1] && r[j] == r'[j - 1];
        }
      }
    }
  }

  lemma {:induction false} InsertClass<T(!new)>(x: T, t: seq<T>, z: T, le: (T, T) -> bool)
    requires TotalPreorder(le)
    ensures Class(Insert(x, t, le), z, le) == Class([x] + t, z, le)
  {
    if |t| > 0 && !le(x, t[0]) {
      var y, t' := t[0], t[1..];
      assert Insert(x, t, le) == [y] + Insert(x, t', le);
      assert t == [y] + t';
      InsertClass(x, t', z, le);
      ClassCons(y, Insert(x, t', le), z, le);
      if Equivalent(le, z, y) {
        NotBothEquivalent(x, y, z, le);
      }
      SwapClass(x, y, t', z, le);
    }
  }

  /** Two adjacent elements that are not both equivalent to `z` can be
      swapped without changing the class of `z`. */
  lemma SwapClass<T>(x: T, y: T, t: seq<T>, z: T, le: (T, T) -> bool)
    requires !(Equivalent(le, z, x) && Equivalent(le, z, y))
    ensures Class([y] + ([x] + t), z, le) == Class([x] + ([y] + t), z, le)
  {
    ClassCons(x, t, z, le);
    ClassCons(y, t, z, le);
    ClassCons(y, [x] + t, z, le);
    ClassCons(x, [y] + t, z, le);
  }

  lemma NotBothEquivalent<T(!new)>(x: T, y: T, z: T, le: (T, T) -> bool)
    requires TotalPreorder(le)
    requires !le(x, y) && Equivalent(le, z, y)
    ensures !Equivalent(le, z, x)
  {
  }

  lemma InsertStable<T(!new)>(x: T, t: seq<T>, s: seq<T>, le: (T, T) -> bool)
    requires TotalPreorder(le)
    requires |s| > 0 && x == s[0]
    requires forall z :: Class(t, z, le) == Class(s[1..], z, le)
    ensures forall z :: Class(Insert(x, t, le), z, le) == Class(s, z, le)
  {
    forall z ensures Class(Insert(x, t, le), z, le) == Class(s, z, le) {
      InsertClass(x, t, z, le);
      ClassCons(x, t, z, le);
      ClassCons(x, s[1..], z, le);
      assert s == [x] + s[1..];
    }
  }

  lemma {:induction false} SortedTail<T>(s: seq<T>, le: (T, T) -> bool)
    requires |s| > 0 && Sorted(s, le)
    ensures Sorted(s[1..], le)
  {
    var t := s[1..];
    forall i, j | 0 <= i < j < |t| ensures le(t[i], t[j]) {
      assert t[i] == s[i + 1] && t[j] == s[j + 1];
    }
  }

  /** In a sorted sequence, anything equivalent to `x` bounds the head from above. */
  lemma {:induction false} HeadBelowClass<T(!new)>(s: seq<T>, x: T, le: (T, T) -> bool)
    requires TotalPreorder(le)
    requires Sorted(s, le) && |Class(s, x, le)| > 0
    ensures |s| > 0 && le(s[0], x)
  {
    if |s| > 0 && !Equivalent(le, x, s[0]) {
      SortedTail(s, le);
      HeadBelowClass(s[1..], x, le);
      assert le(s[0], s[1]);
    }
  }

  /** A stable sort is determined by its input: two sorted sequences with the
      same classes in the same orders are equal. */
  lemma {:induction false} StableSortUnique<T(!new)>(a: seq<T>, b: seq<T>, le: (T, T) -> bool)
    requires TotalPreorder(le)
    requires Sorted(a, le) && Sorted(b, le)
    requires forall x :: Class(a, x, le) == Class(b, x, le)
    ensures a == b
    decreases |a|
  {
    if |a| == 0 {
      forall x ensures Class(b, x, le) == [] {
        assert Class(a, x, le) == [];
      }
      HeadInOwnClass(b, le);
    } else {
      ClassCons(a[0], a[1..], a[0], le);
      assert a == [a[0]] + a[1..];
      assert |Class(b, a[0], le)| > 0;
      HeadBelowClass(b, a[0], le);
      var x, y := a[0], b[0];
      assert a == [x] + a[1..];
      assert b == [y] + b[1..];
      ClassCons(x, a[1..], x, le);
      ClassCons(y, b[1..], y, le);
      HeadBelowClass(b, x, le);
      HeadBelowClass(a, y, le);
      ClassCons(y, b[1..], x, le);
      assert Class(a, x, le) == Class(b, x, le);
      assert x == y by {
        assert Class(a, x, le)[0] == x && Class(b, x, le)[0] == y;
      }
      forall z ensures Class(a[1..], z, le) == Class(b[1..], z, le) {
        assert Class(a, z, le) == Class(b, z, le);
        ClassCons(x, a[1..], z, le);
        ClassCons(x, b[1..], z, le);
        if Equivalent(le, z, x) {
          assert Class(a, z, le) == [x] + Class(a[1..], z, le);
          assert Class(b, z, le) == [x] + Class(b[1..], z, le);
          assert Class(a[1..], z, le) == Class(a, z, le)[1..];
        } else {
          assert Class(a, z, le) == Class(a[1..], z, le);
          assert Class(b, z, le) == Class(b[1..], z, le);
        }
      }
      SortedTail(a, le);
      SortedTail(b, le);
      StableSortUnique(a[1..], b[1..], le);
    }
  }

  /** Sorting by `secondary` and then, stably, by `primary`, is sorting by
      `primary` with ties broken by `secondary`. */
  function Lex<T>(primary: (T, T) -> bool, secondary: (T, T) -> bool): (T, T) -> bool {
    (a, b) => primary(a, b) && (primary(b, a) ==> secondary(a, b))
  }

  lemma LexPreorder<T(!new)>(p: (T, T) -> bool, q: (T, T) -> bool)
    requires TotalPreorder(p) && TotalPreorder(q)
    ensures TotalPreorder(Lex(p, q))
  {
    var l := Lex(p, q);
    forall a, b, c | l(a, b) && l(b, c) ensures l(a, c) {
      if p(c, a) {
        assert p(b, a) && p(c, b);
      }
    }
  }

  lemma {:induction false} ClassSorted<T>(s: seq<T>, x: T, p: (T, T) -> bool, q: (T, T) -> bool)
    requires Sorted(s, q)
    ensures Sorted(Class(s, x, p), q)
  {
    if |s| > 0 {
      var t := s[1..];
      SortedTail(s, q);
      ClassSorted(t, x, p, q);
      ClassCons(s[0], t, x, p);
      assert s == [s[0]] + t;
      var c := Class(t, x, p);
      ClassSubset(t, x, p);
      forall k | 0 <= k < |c| ensures q(s[0], c[k]) {
        assert c[k] in t;
        var m :| 0 <= m < |t| && t[m] == c[k];
        assert t[m] == s[m + 1];
      }
      var r := Class(s, x, p);
      forall i, j | 0 <= i < j < |r| ensures q(r[i], r[j]) {
        if Equivalent(p, x, s[0]) {
          if i == 0 {
            assert r[j] == c[j - 1];
          } else {
            assert r[i] == c[i - 1] && r[j] == c[j - 1];
          }
        }
      }
    }
  }

  /** If the class of `x` is sorted by `q`, any two of its members in `s`
      are ordered by `q` as they appear in `s`. */
  lemma {:induction false} ClassPairs<T>(s: seq<T>, x: T, p: (T, T) -> bool, q: (T, T) -> bool, i: int, j: int)
    requires Sorted(Class(s, x, p), q)
    requires 0 <= i < j < |s|
    requires Equivalent(p, x, s[i]) && Equivalent(p, x, s[j])
    ensures q(s[i], s[j])
  {
    var t := s[1..];
    assert s == [s[0]] + t;
    ClassCons(s[0], t, x, p);
    var c := Class(t, x, p);
    if i == 0 {
      ClassContains(t, x, j - 1, p);
      var m :| 0 <= m < |c| && c[m] == t[j - 1];
      var cs := Class(s, x, p);
      assert cs == [s[0]] + c;
      assert cs[0] == s[0] && cs[m + 1] == c[m] == s[j];
      assert q(cs[0], cs[m + 1]);
    } else {
      if Equivalent(p, x, s[0]) {
        SortedTail(Class(s, x, p), q);
        assert Class(s, x, p)[1..] == c;
      } else {
        assert Class(s, x, p) == c;
      }
      ClassPairs(t, x, p, q, i - 1, j - 1);
    }
  }

  /** Filtering by `Lex(p, q)`-equivalence is filtering by `p`, then by `q`,
      or the other way round. */
  lemma {:induction false} ClassLex<T>(s: seq<T>, z: T, p: (T, T) -> bool, q: (T, T) -> bool)
    ensures Class(s, z, Lex(p, q)) == Class(Class(s, z, p), z, q)
    ensures Class(s, z, Lex(p, q)) == Class(Class(s, z, q), z, p)
  {
    if |s| > 0 {
      var y, t := s[0], s[1..];
      var lex := Lex(p, q);
      ClassLex(t, z, p, q);
      assert s == [y] + t;
      ClassCons(y, t, z, lex);
      ClassCons(y, t, z, p);
      ClassCons(y, t, z, q);
      assert lex(z, y) == (p(z, y) && (p(y, z) ==> q(z, y)));
      assert lex(y, z) == (p(y, z) && (p(z, y) ==> q(y, z)));
      if Equivalent(p, z, y) && Equivalent(q, z, y) {
        assert Equivalent(lex, z, y);
        ClassCons(y, Class(t, z, p), z, q);
        ClassCons(y, Class(t, z, q), z, p);
      } else if Equivalent(p, z, y) {
        assert !Equivalent(lex, z, y);
        ClassCons(y, Class(t, z, p), z, q);
        assert Class(s, z, lex) == Class(t, z, lex);
        assert Class(s, z, p) == [y] + Class(t, z, p);
        assert Class(s, z, q) == Class(t, z, q);
      } else if Equivalent(q, z, y) {
        assert !Equivalent(lex, z, y);
        ClassCons(y, Class(t, z, q), z, p);
        assert Class(s, z, lex) == Class(t, z, lex);
        assert Class(s, z, q) == [y] + Class(t, z, q);
        assert Class(s, z, p) == Class(t, z, p);
      } else {
        assert !Equivalent(lex, z, y);
        assert Class(s, z, lex) == Class(t, z, lex);
        assert Class(s, z, p) == Class(t, z, p);
        assert Class(s, z, q) == Class(t, z, q);
      }
    }
  }

  /** Two successive stable sorts — first by `q`, then by `p` — give the same
      sequence as one stable sort by `p` with ties broken by `q`. */
  lemma {:induction false} SortTwiceIsLexSort<T(!new)>(s: seq<T>, p: (T, T) -> bool, q: (T, T) -> bool)
    requires TotalPreorder(p) && TotalPreorder(q)
    ensures TotalPreorder(Lex(p, q))
    ensures StableSort(StableSort(s, q), p) == StableSort(s, Lex(p, q))
  {
    LexPreorder(p, q);
    var lex := Lex(p, q);
    var s1 := StableSort(s, q);
    var r := StableSort(s1, p);
    var l := StableSort(s, lex);
    forall i, j | 0 <= i < j < |r| ensures lex(r[i], r[j]) {
      if p(r[j], r[i]) {
        assert Equivalent(p, r[i], r[i]);
        ClassSorted(s1, r[i], p, q);
        assert Class(r, r[i], p) == Class(s1, r[i], p);
        ClassPairs(r, r[i], p, q, i, j);
      }
    }
    forall z ensures Class(r, z, lex) == Class(l, z, lex) {
      ClassLex(r, z, p, q);
      ClassLex(s1, z, p, q);
      ClassLex(s, z, p, q);
      assert Class(r, z, p) == Class(s1, z, p);
      assert Class(s1, z, q) == Class(s, z, q);
    }
    StableSortUnique(r, l, lex);
  }
}
