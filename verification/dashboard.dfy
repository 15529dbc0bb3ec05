/** The admin dashboard (src/pages/admin/Dashboard.tsx): three figures, the
    number of movies, the number of categories and the views summed over
    all movies. */
module Dashboard {
  import opened Basics
  import opened Rows

  /** `data.reduce((sum, movie) => sum + (movie.views || 0), 0)`: the running
      sum from the first row to the last, starting at zero. */
  function TotalViews(movies: seq<Movie>): (total: int)
    ensures |movies| == 0 ==> total == 0
    ensures (forall i :: 0 <= i < |movies| ==> ViewsOrZero(movies[i]) >= 0) ==> total >= 0
  {
    if |movies| == 0 then 0
    else TotalViews(movies[..|movies| - 1]) + ViewsOrZero(movies[|movies| - 1])
  }

  /** The total of a list made of two lists is the sum of their totals. */
  lemma {:induction false} TotalViewsAppend(a: seq<Movie>, b: seq<Movie>)
    ensures TotalViews(a + b) == TotalViews(a) + TotalViews(b)
    decreases |b|
  {
    if |b| == 0 {
      assert a + b == a;
    } else {
      var init := b[..|b| - 1];
      assert (a + b)[..|a + b| - 1] == a + init;
      assert (a + b)[|a + b| - 1] == b[|b| - 1];
      TotalViewsAppend(a, init);
    }
  }

  /** The total of a list that starts with `m`. */
  lemma TotalViewsCons(m: Movie, rest: seq<Movie>)
    ensures TotalViews([m] + rest) == ViewsOrZero(m) + TotalViews(rest)
  {
    TotalViewsAppend([m], rest);
    assert [m][..0] == [];
  }

  /** The total of a list split around position `k`. */
  lemma TotalViewsAround(b: seq<Movie>, k: int)
    requires 0 <= k < |b|
    ensures TotalViews(b) == TotalViews(b[..k]) + ViewsOrZero(b[k]) + TotalViews(b[k + 1..])
  {
    var pre, x, post := b[..k], b[k], b[k + 1..];
    assert b == (pre + [x]) + post;
    TotalViewsAppend(pre + [x], post);
    TotalViewsSnoc(pre, x);
  }

  /** The total of a list that ends with `m`. */
  lemma TotalViewsSnoc(rest: seq<Movie>, m: Movie)
    ensures TotalViews(rest + [m]) == TotalViews(rest) + ViewsOrZero(m)
  {
    assert (rest + [m])[..|rest|] == rest;
  }

  /** Taking the same row out of two permutations leaves two permutations. */
  lemma RemoveMatchingRow(a: seq<Movie>, b: seq<Movie>, k: int)
    requires multiset(a) == multiset(b) && |a| > 0
    requires 0 <= k < |b| && b[k] == a[0]
    ensures multiset(a[1..]) == multiset(b[..k] + b[k + 1..])
  {
    assert a == [a[0]] + a[1..];
    assert b == b[..k] + [b[k]] + b[k + 1..];
    calc {
      multiset(a[1..]);
      multiset(a) - multiset{a[0]};
      multiset(b) - multiset{b[k]};
      multiset(b[..k]) + multiset(b[k + 1..]);
      multiset(b[..k] + b[k + 1..]);
    }
  }

  /** The total does not depend on the order the rows arrive in. */
  lemma {:induction false} TotalViewsPermutation(a: seq<Movie>, b: seq<Movie>)
    requires multiset(a) == multiset(b)
    ensures TotalViews(a) == TotalViews(b)
    decreases |a|
  {
    if |a| > 0 {
      assert a[0] in multiset(b);
      var k :| 0 <= k < |b| && b[k] == a[0];
      var rest := b[..k] + b[k + 1..];
      RemoveMatchingRow(a, b, k);
      TotalViewsPermutation(a[1..], rest);
      assert a == [a[0]] + a[1..];
      TotalViewsCons(a[0], a[1..]);
      TotalViewsAround(b, k);
      TotalViewsAppend(b[..k], b[k + 1..]);
    } else {
      assert |b| == |multiset(b)|;
    }
  }

  predicate HasViews(m: Movie) { m.views.Some? }

  /** Rows without a view count add nothing: the total is the total of the
      rows that have one. */
  lemma {:induction false} MissingViewsCountZero(movies: seq<Movie>)
    ensures TotalViews(movies) == TotalViews(Filter(movies, HasViews))
  {
    if |movies| > 0 {
      var m := movies[0];
      var rest := movies[1..];
      assert movies == [m] + rest;
      MissingViewsCountZero(rest);
      TotalViewsCons(m, rest);
      var head := if HasViews(m) then [m] else [];
      assert Filter(movies, HasViews) == head + Filter(rest, HasViews);
      TotalViewsAppend(head, Filter(rest, HasViews));
      if HasViews(m) {
        assert TotalViews(head) == ViewsOrZero(m) by {
          TotalViewsCons(m, []);
          assert [m] + [] == [m];
        }
      }
    }
  }

  /** A count as shown: `count || 0` once the query has answered; the query's
      default of 0 while it has not, or when it failed. */
  function ShownCount(answer: Result<Option<nat>, Thrown>): (n: nat)
    ensures answer.Success? && answer.value.Some? ==> n == answer.value.value
    ensures answer.Failure? || answer.value.None? ==> n == 0
  {
    match answer
    case Success(count) => count.GetOr(0)
    case Failure(_) => 0
  }

  /** The total views as shown: the sum once the rows have arrived, 0 otherwise. */
  function ShownViews(answer: Result<seq<Movie>, Thrown>): (n: int)
    ensures answer.Success? ==> n == TotalViews(answer.value)
    ensures answer.Failure? ==> n == 0
  {
    match answer
    case Success(rows) => TotalViews(rows)
    case Failure(_) => 0
  }

  datatype Stat = Stat(title: string, value: int)

  /** The three cards, in order: movies, categories, views. */
  function Stats(movies: Result<Option<nat>, Thrown>, categories: Result<Option<nat>, Thrown>, views: Result<seq<Movie>, Thrown>): (s: seq<Stat>)
    ensures |s| == 3
    ensures s[0] == Stat("Total Movies", ShownCount(movies))
    ensures s[1] == Stat("Categories", ShownCount(categories))
    ensures s[2] == Stat("Total Views", ShownViews(views))
    ensures forall i, j :: 0 <= i < j < |s| ==> s[i].title != s[j].title
  {
    [Stat("Total Movies", ShownCount(movies)),
     Stat("Categories", ShownCount(categories)),
     Stat("Total Views", ShownViews(views))]
  }
}
