/**
 * The accessibility reading order over annotations: page by page, then top to
 * bottom, then left to right. `Cmp` is the comparator handed to the array sort;
 * `Sort` is the stable sort that uses it.
 */
module ReadingOrder {

  /** An annotation record as the engine hands it out; only these four fields are read. */
  datatype Annot = Annot(id: string, page: int, y: real, x: real)

  /** The reading-order key of an annotation, most significant component first. */
  function Key(a: Annot): (k: seq<real>)
    ensures |k| == 3
  {
    [a.page as real, a.y, a.x]
  }

  /** Reference ordering: lexicographic "strictly before" on keys of any length. */
  ghost predicate LexLess(u: seq<real>, v: seq<real>)
    decreases |u|
  {
    |u| > 0 && |v| > 0 && (u[0] < v[0] || (u[0] == v[0] && LexLess(u[1..], v[1..])))
  }

  lemma KeyLexLess(a: Annot, b: Annot)
    ensures LexLess(Key(a), Key(b)) <==>
      a.page < b.page || (a.page == b.page && (a.y < b.y || (a.y == b.y && a.x < b.x)))
  {
    var u, v := Key(a), Key(b);
    assert u[1..] == [a.y, a.x] && v[1..] == [b.y, b.x];
    assert u[1..][1..] == [a.x] && v[1..][1..] == [b.x];
    assert !LexLess(u[1..][1..][1..], v[1..][1..][1..]);
    assert LexLess(u[1..][1..], v[1..][1..]) <==> a.x < b.x;
    assert LexLess(u[1..], v[1..]) <==> a.y < b.y || (a.y == b.y && a.x < b.x);
  }

  /** The two annotations occupy the same position: same page, same coordinates. */
  predicate SamePlace(a: Annot, b: Annot)
  {
    a.page == b.page && a.y == b.y && a.x == b.x
  }

  /**
   * The comparator: -1 when `a` comes first, 1 when `b` comes first, 0 when
   * the two occupy the same position.
   */
  function Cmp(a: Annot, b: Annot): (r: int)
    ensures r == -1 || r == 0 || r == 1
    ensures r == 0 <==> SamePlace(a, b)
  {
    if a.page < b.page then -1
    else if a.page > b.page then 1
    else if a.y < b.y then -1
    else if a.y > b.y then 1
    else if a.x < b.x then -1
    else if a.x > b.x then 1
    else 0
  }

  /**
   * The comparator is the lexicographic order on (page, y, x): -1 exactly when
   * `a`'s key comes first, 1 exactly when `b`'s does, 0 exactly when the keys
   * are equal.
   */
  lemma CmpIsLexicographic(a: Annot, b: Annot)
    ensures Cmp(a, b) == -1 <==> LexLess(Key(a), Key(b))
    ensures Cmp(a, b) == 1 <==> LexLess(Key(b), Key(a))
    ensures Cmp(a, b) == 0 <==> Key(a) == Key(b)
  {
    KeyLexLess(a, b);
    KeyLexLess(b, a);
    if Key(a) == Key(b) {
      assert Key(a)[0] == Key(b)[0] && Key(a)[1] == Key(b)[1] && Key(a)[2] == Key(b)[2];
    }
  }

  lemma CmpReflexive(a: Annot)
    ensures Cmp(a, a) == 0
  {
  }

  lemma CmpAntisymmetric(a: Annot, b: Annot)
    ensures Cmp(a, b) == -Cmp(b, a)
  {
  }

  /** Annotations at different positions are ordered one way round and not the other. */
  lemma CmpTotal(a: Annot, b: Annot)
    requires !SamePlace(a, b)
    ensures (Cmp(a, b) < 0) != (Cmp(b, a) < 0)
  {
  }

  lemma CmpTransitive(a: Annot, b: Annot, c: Annot)
    requires Cmp(a, b) <= 0 && Cmp(b, c) <= 0
    ensures Cmp(a, c) <= 0
    ensures Cmp(a, b) < 0 || Cmp(b, c) < 0 ==> Cmp(a, c) < 0
  {
  }

  /** Every adjacent pair is in reading order. */
  ghost predicate Sorted(s: seq<Annot>)
  {
    forall i :: 0 <= i < |s| - 1 ==> Cmp(s[i], s[i + 1]) <= 0
  }

  /** Adjacent order extends to every pair, by transitivity of the comparator. */
  lemma {:induction false} SortedPairwise(s: seq<Annot>, i: int, j: int)
    requires Sorted(s)
    requires 0 <= i < j < |s|
    ensures Cmp(s[i], s[j]) <= 0
    decreases j - i
  {
    if i + 1 < j {
      SortedPairwise(s, i + 1, j);
      CmpTransitive(s[i], s[i + 1], s[j]);
    }
  }

  /**
   * Inserts `x` into `t` after the last element that does not come after it,
   * scanning from the back, as a stable insertion sort does.
   */
  function Insert(t: seq<Annot>, x: Annot): (r: seq<Annot>)
    ensures |r| == |t| + 1
    ensures multiset(r) == multiset(t) + multiset{x}
    ensures r[|r| - 1] == x || (|t| > 0 && r[|r| - 1] == t[|t| - 1])
    decreases |t|
  {
    if t == [] then [x]
    else if Cmp(t[|t| - 1], x) <= 0 then t + [x]
    else
      assert t == t[..|t| - 1] + [t[|t| - 1]];
      Insert(t[..|t| - 1], x) + [t[|t| - 1]]
  }

  lemma {:induction false} InsertSorted(t: seq<Annot>, x: Annot)
    requires Sorted(t)
    ensures Sorted(Insert(t, x))
    decreases |t|
  {
    if t != [] && Cmp(t[|t| - 1], x) > 0 {
      var init, last := t[..|t| - 1], t[|t| - 1];
      SortedInit(t);
      InsertSorted(init, x);
      var r := Insert(init, x);
      assert Cmp(r[|r| - 1], last) <= 0;
    }
  }

  /**
   * Stable sort by reading order: the behaviour the source obtains from the
   * array's own sort with `Cmp` as its comparator.
   */
  function Sort(s: seq<Annot>): (r: seq<Annot>)
    ensures multiset(r) == multiset(s)
    ensures |r| == |s|
    decreases |s|
  {
    if s == [] then []
    else
      assert s == s[..|s| - 1] + [s[|s| - 1]];
      Insert(Sort(s[..|s| - 1]), s[|s| - 1])
  }

  /** The sort leaves every adjacent pair in reading order. */
  lemma {:induction false} SortSorted(s: seq<Annot>)
    ensures Sorted(Sort(s))
    decreases |s|
  {
    if s != [] {
      SortSorted(s[..|s| - 1]);
      InsertSorted(Sort(s[..|s| - 1]), s[|s| - 1]);
    }
  }

  lemma SortedInit(s: seq<Annot>)
    requires Sorted(s) && s != []
    ensures Sorted(s[..|s| - 1])
  {
    var init := s[..|s| - 1];
    forall i | 0 <= i < |init| - 1
      ensures Cmp(init[i], init[i + 1]) <= 0
    {
      assert init[i] == s[i] && init[i + 1] == s[i + 1];
    }
  }

  /** Sorting a list that is already in reading order leaves it unchanged. */
  lemma {:induction false} SortOfSorted(s: seq<Annot>)
    requires Sorted(s)
    ensures Sort(s) == s
    decreases |s|
  {
    if s != [] {
      var init, last := s[..|s| - 1], s[|s| - 1];
      SortedInit(s);
      SortOfSorted(init);
      assert s == init + [last];
      if init != [] {
        assert init[|init| - 1] == s[|s| - 2];
        assert Cmp(init[|init| - 1], last) <= 0;
      }
    }
  }

  lemma SortIdempotent(s: seq<Annot>)
    ensures Sort(Sort(s)) == Sort(s)
  {
    SortSorted(s);
    SortOfSorted(Sort(s));
  }

  /** The annotations of `s` at the same position as `p`, in their order in `s`. */
  function AtPlaceOf(s: seq<Annot>, p: Annot): seq<Annot>
  {
    if s == [] then [] else KeptIf(s[0], p) + AtPlaceOf(s[1..], p)
  }

  function KeptIf(a: Annot, p: Annot): seq<Annot>
  {
    if SamePlace(a, p) then [a] else []
  }

  lemma AtPlaceOfSingle(a: Annot, p: Annot)
    ensures AtPlaceOf([a], p) == KeptIf(a, p)
  {
    assert [a][1..] == [];
  }

  lemma {:induction false} AtPlaceOfAppend(u: seq<Annot>, v: seq<Annot>, p: Annot)
    ensures AtPlaceOf(u + v, p) == AtPlaceOf(u, p) + AtPlaceOf(v, p)
    decreases |u|
  {
    if u == [] {
      assert u + v == v;
    } else {
      var w := u + v;
      assert w[0] == u[0] && w[1..] == u[1..] + v;
      AtPlaceOfAppend(u[1..], v, p);
      calc {
        AtPlaceOf(w, p);
        KeptIf(u[0], p) + AtPlaceOf(u[1..] + v, p);
        KeptIf(u[0], p) + (AtPlaceOf(u[1..], p) + AtPlaceOf(v, p));
        (KeptIf(u[0], p) + AtPlaceOf(u[1..], p)) + AtPlaceOf(v, p);
      }
    }
  }

  /** Inserting `x` adds it after every annotation already at its position. */
  lemma {:induction false} InsertAtPlaceOf(t: seq<Annot>, x: Annot, p: Annot)
    ensures AtPlaceOf(Insert(t, x), p) == AtPlaceOf(t, p) + KeptIf(x, p)
    decreases |t|
  {
    AtPlaceOfSingle(x, p);
    if t == [] {
      assert AtPlaceOf(t, p) == [];
    } else if Cmp(t[|t| - 1], x) <= 0 {
      AtPlaceOfAppend(t, [x], p);
    } else {
      var init, last := t[..|t| - 1], t[|t| - 1];
      var a, kx, kl := AtPlaceOf(init, p), KeptIf(x, p), KeptIf(last, p);
      assert AtPlaceOf(t, p) == a + kl by {
        assert t == init + [last];
        AtPlaceOfAppend(init, [last], p);
        AtPlaceOfSingle(last, p);
      }
      assert AtPlaceOf(Insert(t, x), p) == (a + kx) + kl by {
        assert Insert(t, x) == Insert(init, x) + [last];
        InsertAtPlaceOf(init, x, p);
        AtPlaceOfAppend(Insert(init, x), [last], p);
        AtPlaceOfSingle(last, p);
      }
      assert kx == [] || kl == [] by {
        assert !SamePlace(last, x);
      }
      assert (a + kx) + kl == (a + kl) + kx;
    }
  }

  /**
   * Stability: annotations at the same position keep their relative order from
   * the engine's list.
   */
  lemma {:induction false} SortStable(s: seq<Annot>, p: Annot)
    ensures AtPlaceOf(Sort(s), p) == AtPlaceOf(s, p)
    decreases |s|
  {
    if s != [] {
      var init, last := s[..|s| - 1], s[|s| - 1];
      assert s == init + [last];
      SortStable(init, p);
      InsertAtPlaceOf(Sort(init), last, p);
      AtPlaceOfAppend(init, [last], p);
      AtPlaceOfSingle(last, p);
    }
  }

  lemma SortSnoc(s: seq<Annot>, x: Annot)
    ensures Sort(s + [x]) == Insert(Sort(s), x)
  {
    assert (s + [x])[..|s|] == s;
  }

  /** An annotation that comes before everything in `t` is inserted at the front. */
  lemma {:induction false} InsertBeforeAll(t: seq<Annot>, x: Annot)
    requires forall i :: 0 <= i < |t| ==> Cmp(t[i], x) > 0
    ensures Insert(t, x) == [x] + t
    decreases |t|
  {
    if t != [] {
      var init := t[..|t| - 1];
      InsertBeforeAll(init, x);
      assert [x] + init + [t[|t| - 1]] == [x] + t;
    }
  }

  /** An annotation that comes before everything already in the list is sorted to the front. */
  lemma SortFront(s: seq<Annot>, x: Annot)
    requires forall i :: 0 <= i < |s| ==> Cmp(s[i], x) > 0
    ensures Sort(s + [x]) == [x] + Sort(s)
  {
    var t := Sort(s);
    forall i | 0 <= i < |t|
      ensures Cmp(t[i], x) > 0
    {
      assert t[i] in multiset(s);
    }
    SortSnoc(s, x);
    InsertBeforeAll(t, x);
  }

  /** The list read from the back. */
  function Reverse(s: seq<Annot>): seq<Annot>
  {
    if s == [] then [] else [s[|s| - 1]] + Reverse(s[..|s| - 1])
  }

  /** A list in strictly reverse reading order comes out of the sort reversed. */
  lemma {:induction false} SortReverses(s: seq<Annot>)
    requires forall i, j :: 0 <= i < j < |s| ==> Cmp(s[i], s[j]) > 0
    ensures Sort(s) == Reverse(s)
    decreases |s|
  {
    if s != [] {
      var init, last := s[..|s| - 1], s[|s| - 1];
      assert Sort(init) == Reverse(init) by {
        forall i, j | 0 <= i < j < |init|
          ensures Cmp(init[i], init[j]) > 0
        {
          assert init[i] == s[i] && init[j] == s[j];
        }
        SortReverses(init);
      }
      assert Sort(s) == [last] + Sort(init) by {
        forall i | 0 <= i < |init|
          ensures Cmp(init[i], last) > 0
        {
          assert init[i] == s[i];
        }
        assert s == init + [last];
        SortFront(init, last);
      }
      assert Reverse(s) == [last] + Reverse(init);
    }
  }

  /**
   * A worked instance: two annotations on page 1 at the same height come out
   * left to right, then the lower one on page 1, then the one on page 2.
   */
  lemma SortExample(p2y5: Annot, p1y10: Annot, p1x5: Annot, p1x2: Annot)
    requires p2y5.page == 2 && p2y5.y == 5.0 && p2y5.x == 1.0
    requires p1y10.page == 1 && p1y10.y == 10.0 && p1y10.x == 0.0
    requires p1x5.page == 1 && p1x5.y == 5.0 && p1x5.x == 5.0
    requires p1x2.page == 1 && p1x2.y == 5.0 && p1x2.x == 2.0
    ensures Sort([p2y5, p1y10, p1x5, p1x2]) == [p1x2, p1x5, p1y10, p2y5]
  {
    var s := [p2y5, p1y10, p1x5, p1x2];
    assert Reverse(s) == [p1x2, p1x5, p1y10, p2y5] by {
      assert [p2y5][..0] == [];
      assert Reverse([p2y5]) == [p2y5];
      assert [p2y5, p1y10][..1] == [p2y5];
      assert Reverse([p2y5, p1y10]) == [p1y10, p2y5];
      assert [p2y5, p1y10, p1x5][..2] == [p2y5, p1y10];
      assert Reverse([p2y5, p1y10, p1x5]) == [p1x5, p1y10, p2y5];
      assert s[..3] == [p2y5, p1y10, p1x5];
    }
    SortReverses(s);
  }
}
