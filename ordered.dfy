/** Strict total orders and the ascending traversal of a set under one,
    as std::set<T> yields its elements. */
module Ordered {

  ghost predicate Irreflexive<T(!new)>(lt: (T, T) -> bool)
  {
    forall a :: !lt(a, a)
  }

  ghost predicate Transitive<T(!new)>(lt: (T, T) -> bool)
  {
    forall a, b, c :: lt(a, b) && lt(b, c) ==> lt(a, c)
  }

  ghost predicate Connected<T(!new)>(lt: (T, T) -> bool)
  {
    forall a, b :: a != b ==> lt(a, b) || lt(b, a)
  }

  ghost predicate StrictTotalOrder<T(!new)>(lt: (T, T) -> bool)
  {
    Irreflexive(lt) && Transitive(lt) && Connected(lt)
  }

  /** Each element is below every later one (so there are no duplicates). */
  ghost predicate StrictlyAscending<T>(s: seq<T>, lt: (T, T) -> bool)
  {
    forall i, j :: 0 <= i < j < |s| ==> lt(s[i], s[j])
  }

  ghost predicate IsLeast<T>(m: T, s: set<T>, lt: (T, T) -> bool)
  {
    m in s && forall x :: x in s && x != m ==> lt(m, x)
  }

  /** A finite non-empty set has a least element under a strict total order. */
  lemma {:induction false} LeastExists<T(!new)>(s: set<T>, lt: (T, T) -> bool)
    requires StrictTotalOrder(lt) && s != {}
    ensures exists m :: IsLeast(m, s, lt)
    decreases |s|
  {
    var y :| y in s;
    var rest := s - {y};
    if rest == {} {
      assert s == {y};
      assert IsLeast(y, s, lt);
    } else {
      LeastExists(rest, lt);
      var m :| IsLeast(m, rest, lt);
      if lt(y, m) {
        forall x | x in s && x != y ensures lt(y, x) {
          if x != m {
            assert lt(m, x);
          }
        }
        assert IsLeast(y, s, lt);
      } else {
        assert IsLeast(m, s, lt);
      }
    }
  }

  /** Every element after the first is above it. */
  lemma HeadIsLeast<T>(xs: seq<T>, lt: (T, T) -> bool)
    requires StrictlyAscending(xs, lt) && xs != []
    ensures forall x :: x in xs && x != xs[0] ==> lt(xs[0], x)
  {
    forall x | x in xs && x != xs[0] ensures lt(xs[0], x) {
      var k :| 0 <= k < |xs| && xs[k] == x;
    }
  }

  /** The ascending traversal is determined by the set: two strictly
      ascending sequences with the same members are equal. */
  lemma {:induction false} AscendingUnique<T(!new)>(xs: seq<T>, ys: seq<T>, lt: (T, T) -> bool)
    requires Irreflexive(lt) && Transitive(lt)
    requires StrictlyAscending(xs, lt) && StrictlyAscending(ys, lt)
    requires forall x :: x in xs <==> x in ys
    ensures xs == ys
    decreases |xs|
  {
    assert xs == [] <==> ys == [] by {
      if xs != [] {
        assert xs[0] in xs;
      }
      if ys != [] {
        assert ys[0] in ys;
      }
    }
    if xs != [] {
      HeadIsLeast(xs, lt);
      HeadIsLeast(ys, lt);
      assert xs[0] in ys && ys[0] in xs;
      assert xs[0] == ys[0];
      forall x ensures x in xs[1..] <==> x in ys[1..] {
        if x in xs[1..] {
          var k :| 0 <= k < |xs[1..]| && xs[1..][k] == x;
          assert lt(xs[0], xs[k + 1]);
        }
        if x in ys[1..] {
          var k :| 0 <= k < |ys[1..]| && ys[1..][k] == x;
          assert lt(ys[0], ys[k + 1]);
        }
        assert x in xs <==> x in xs[1..] || x == xs[0] by {
          assert xs == [xs[0]] + xs[1..];
        }
        assert x in ys <==> x in ys[1..] || x == ys[0] by {
          assert ys == [ys[0]] + ys[1..];
        }
      }
      AscendingUnique(xs[1..], ys[1..], lt);
      assert xs == [xs[0]] + xs[1..] && ys == [ys[0]] + ys[1..];
    }
  }

  /** The elements of `s` in ascending order: what iterating a std::set
      from begin() to end() yields. */
  method Ascending<T(==, !new)>(s: set<T>, lt: (T, T) -> bool) returns (r: seq<T>)
    requires StrictTotalOrder(lt)
    ensures StrictlyAscending(r, lt)
    ensures forall x :: x in r <==> x in s
    ensures |r| == |s|
  {
    r := [];
    var rest := s;
    while rest != {}
      invariant rest <= s
      invariant forall x :: x in r <==> x in s && x !in rest
      invariant StrictlyAscending(r, lt)
      invariant forall i, y :: 0 <= i < |r| && y in rest ==> lt(r[i], y)
      invariant |r| + |rest| == |s|
      decreases |rest|
    {
      LeastExists(rest, lt);
      var m :| m in rest && forall x :: x in rest && x != m ==> lt(m, x);
      r := r + [m];
      rest := rest - {m};
    }
  }
}
