/** The two tables of the catalog, as rows, and the newest-first order both
    the public listing and the admin list read them in. */
module Rows {
  import opened Basics

  /** A row of the `categories` table. */
  datatype Category = Category(id: string, name: string, slug: string)

  /** A row of the `movies` table. Nullable columns are `Option`s; `rating` is
      a real because the screens only compare it; `createdAt` is the creation
      timestamp as a number. */
  datatype Movie = Movie(
    id: string,
    title: string,
    description: Option<string>,
    posterUrl: Option<string>,
    bannerUrl: Option<string>,
    trailerUrl: Option<string>,
    downloadUrl: Option<string>,
    year: Option<int>,
    rating: Option<real>,
    duration: Option<int>,
    views: Option<int>,
    categoryId: Option<string>,
    createdAt: int)

  /** `views || 0`: the view count, with a missing count read as zero. */
  function ViewsOrZero(m: Movie): (v: int)
    ensures m.views.Some? ==> v == m.views.value
    ensures m.views.None? ==> v == 0
  {
    m.views.GetOr(0)
  }

  /** `order("created_at", { ascending: false })`: later rows were created no later. */
  ghost predicate NewestFirst(s: seq<Movie>)
  {
    forall i, j :: 0 <= i < j < |s| ==> s[i].createdAt >= s[j].createdAt
  }

  /** No two different rows share a creation timestamp. */
  ghost predicate DatesIdentifyRows(s: seq<Movie>)
  {
    forall m, n :: m in s && n in s && m.createdAt == n.createdAt ==> m == n
  }

  /** When timestamps identify rows, there is only one newest-first order of
      a collection of rows: any two newest-first arrangements are equal. */
  lemma {:induction false} NewestFirstIsUnique(a: seq<Movie>, b: seq<Movie>)
    requires multiset(a) == multiset(b)
    requires NewestFirst(a) && NewestFirst(b)
    requires DatesIdentifyRows(a)
    ensures a == b
  {
    assert |a| == |multiset(a)| == |b|;
    if |a| > 0 {
      NewestHeadsAgree(a, b);
      TailsAgain(a, b);
      NewestFirstIsUnique(a[1..], b[1..]);
      SameHeadSameTail(a, b);
    }
  }

  lemma SameHeadSameTail(a: seq<Movie>, b: seq<Movie>)
    requires |a| > 0 && |b| > 0 && a[0] == b[0] && a[1..] == b[1..]
    ensures a == b
  {
    assert a == [a[0]] + a[1..] && b == [b[0]] + b[1..];
  }

  /** The newest row of a collection is the same in both arrangements. */
  lemma NewestHeadsAgree(a: seq<Movie>, b: seq<Movie>)
    requires multiset(a) == multiset(b) && |a| > 0 && |b| > 0
    requires NewestFirst(a) && NewestFirst(b)
    requires DatesIdentifyRows(a)
    ensures a[0] == b[0]
  {
    assert b[0] in multiset(a) && a[0] in multiset(b);
    var i :| 0 <= i < |a| && a[i] == b[0];
    var j :| 0 <= j < |b| && b[j] == a[0];
    assert a[0].createdAt >= a[i].createdAt;
    assert b[0].createdAt >= b[j].createdAt;
  }

  /** Dropping the common newest row leaves the same situation on the tails. */
  lemma TailsAgain(a: seq<Movie>, b: seq<Movie>)
    requires |a| > 0 && |b| > 0 && a[0] == b[0]
    requires multiset(a) == multiset(b)
    requires NewestFirst(a) && NewestFirst(b)
    requires DatesIdentifyRows(a)
    ensures multiset(a[1..]) == multiset(b[1..])
    ensures NewestFirst(a[1..]) && NewestFirst(b[1..])
    ensures DatesIdentifyRows(a[1..])
  {
    TailMultisets(a, b);
    NewestFirstTail(a);
    NewestFirstTail(b);
    forall m | m in a[1..] ensures m in a {
      var k :| 0 <= k < |a[1..]| && a[1..][k] == m;
      assert m == a[k + 1];
    }
  }

  lemma TailMultisets(a: seq<Movie>, b: seq<Movie>)
    requires |a| > 0 && |b| > 0 && a[0] == b[0]
    requires multiset(a) == multiset(b)
    ensures multiset(a[1..]) == multiset(b[1..])
  {
    assert a == [a[0]] + a[1..];
    assert b == [b[0]] + b[1..];
    assert multiset(a[1..]) == multiset(a) - multiset{a[0]};
    assert multiset(b[1..]) == multiset(b) - multiset{b[0]};
  }

  lemma NewestFirstTail(s: seq<Movie>)
    requires |s| > 0 && NewestFirst(s)
    ensures NewestFirst(s[1..])
  {
    forall i, j | 0 <= i < j < |s[1..]| ensures s[1..][i].createdAt >= s[1..][j].createdAt {
      assert s[1..][i] == s[i + 1] && s[1..][j] == s[j + 1];
    }
  }

  /** Places `m` before the first row that is not newer than it. */
  function InsertByDate(m: Movie, s: seq<Movie>): (r: seq<Movie>)
    ensures |r| == |s| + 1
    ensures r[0] == m || (|s| > 0 && r[0] == s[0])
  {
    if |s| == 0 || m.createdAt >= s[0].createdAt then [m] + s
    else [s[0]] + InsertByDate(m, s[1..])
  }

  /** Inserting adds `m` and keeps every other row. */
  lemma {:induction false} InsertByDateKeepsRows(m: Movie, s: seq<Movie>)
    ensures multiset(InsertByDate(m, s)) == multiset(s) + multiset{m}
  {
    if |s| > 0 && m.createdAt < s[0].createdAt {
      InsertByDateKeepsRows(m, s[1..]);
      assert s == [s[0]] + s[1..];
    }
  }

  /** Inserting into a newest-first sequence keeps it newest first. */
  lemma {:induction false} InsertByDateKeepsOrder(m: Movie, s: seq<Movie>)
    requires NewestFirst(s)
    ensures NewestFirst(InsertByDate(m, s))
  {
    if |s| > 0 && m.createdAt < s[0].createdAt {
      var rest := InsertByDate(m, s[1..]);
      InsertByDateKeepsOrder(m, s[1..]);
      // The head of `rest` is `m` or `s[1]`, both no newer than `s[0]`.
      assert rest[0].createdAt <= s[0].createdAt;
      var r := [s[0]] + rest;
      forall i, j | 0 <= i < j < |r| ensures r[i].createdAt >= r[j].createdAt {
        assert r[j] == rest[j - 1];
        if i == 0 {
          assert rest[0].createdAt >= rest[j - 1].createdAt;
        } else {
          assert r[i] == rest[i - 1];
        }
      }
    }
  }

  /** The rows of `s` in newest-first order: the same rows, reordered. */
  function SortNewestFirst(s: seq<Movie>): (r: seq<Movie>)
    ensures NewestFirst(r)
    ensures multiset(r) == multiset(s)
    ensures |r| == |s|
  {
    if |s| == 0 then []
    else
      assert s == [s[0]] + s[1..];
      var sorted := SortNewestFirst(s[1..]);
      InsertByDateKeepsRows(s[0], sorted);
      InsertByDateKeepsOrder(s[0], sorted);
      InsertByDate(s[0], sorted)
  }
}
