/**
 The relational meaning of the table-query calls the portal makes: a filtered
 select, an update-where, a first-match search (`Array.find`), the
 single-row select (`.single()`), and ordering newest-first by a timestamp.
 Every table is a sequence of rows in storage order.
 */
module Query {
  import opened Wrappers

  /** `select ... where p`: the rows satisfying `p`, each as often as it is
      stored. */
  function Select<T(!new)>(xs: seq<T>, p: T -> bool): (r: seq<T>)
    ensures |r| <= |xs|
    ensures forall x :: x in r <==> x in xs && p(x)
    ensures forall x :: multiset(r)[x] == if p(x) then multiset(xs)[x] else 0
    decreases |xs|
  {
    if xs == [] then []
    else
      assert xs == [xs[0]] + xs[1..];
      if p(xs[0]) then [xs[0]] + Select(xs[1..], p) else Select(xs[1..], p)
  }

  /** `update ... set f where p`: the rows satisfying `p` are rewritten by
      `f`, every other row stays where and as it was. */
  function UpdateWhere<T>(xs: seq<T>, p: T -> bool, f: T -> T): (r: seq<T>)
    ensures |r| == |xs|
    ensures forall i :: 0 <= i < |xs| && !p(xs[i]) ==> r[i] == xs[i]
    ensures forall i :: 0 <= i < |xs| && p(xs[i]) ==> r[i] == f(xs[i])
  {
    seq(|xs|, i requires 0 <= i < |xs| => if p(xs[i]) then f(xs[i]) else xs[i])
  }

  /** Row `i` is the first one satisfying `p`. */
  predicate FirstMatchAt<T>(xs: seq<T>, p: T -> bool, i: int) {
    && 0 <= i < |xs|
    && p(xs[i])
    && forall j :: 0 <= j < i ==> !p(xs[j])
  }

  /** `Array.prototype.find`: the first row satisfying `p`, if any. */
  function FindFirst<T>(xs: seq<T>, p: T -> bool): (r: Option<T>)
    ensures r.None? <==> forall i :: 0 <= i < |xs| ==> !p(xs[i])
    ensures r.Some? ==> exists i :: FirstMatchAt(xs, p, i) && xs[i] == r.value
    decreases |xs|
  {
    if xs == [] then None
    else if p(xs[0]) then
      assert FirstMatchAt(xs, p, 0);
      Some(xs[0])
    else
      MatchesShift(xs, p);
      FindFirst(xs[1..], p)
  }

  /** Row `i` is the only row satisfying `p`. */
  predicate OnlyMatchAt<T>(xs: seq<T>, p: T -> bool, i: int) {
    && 0 <= i < |xs|
    && p(xs[i])
    && forall j :: 0 <= j < |xs| && p(xs[j]) ==> j == i
  }

  /** Past a first row that does not match, the first and the only matching
      rows are those of the tail, one position further on. */
  lemma MatchesShift<T>(xs: seq<T>, p: T -> bool)
    requires xs != [] && !p(xs[0])
    ensures forall i :: FirstMatchAt(xs[1..], p, i) ==> FirstMatchAt(xs, p, i + 1)
    ensures forall i :: OnlyMatchAt(xs[1..], p, i) ==> OnlyMatchAt(xs, p, i + 1)
    ensures forall i :: OnlyMatchAt(xs, p, i) ==> OnlyMatchAt(xs[1..], p, i - 1)
  {
    forall i | OnlyMatchAt(xs[1..], p, i) ensures OnlyMatchAt(xs, p, i + 1) {
      forall j | 0 <= j < |xs| && p(xs[j]) ensures j == i + 1 {
        assert xs[1..][j - 1] == xs[j];
      }
    }
  }

  /** A matching first row is the only match exactly when the tail has none. */
  lemma HeadOnlyMatch<T>(xs: seq<T>, p: T -> bool)
    requires xs != [] && p(xs[0])
    ensures OnlyMatchAt(xs, p, 0) <==> forall i :: 0 <= i < |xs[1..]| ==> !p(xs[1..][i])
    ensures forall i :: 0 < i < |xs| ==> !OnlyMatchAt(xs, p, i)
  {
    if !OnlyMatchAt(xs, p, 0) {
      var j :| 0 <= j < |xs| && p(xs[j]) && j != 0;
      assert xs[1..][j - 1] == xs[j];
    }
  }

  /** `.single()`: a row only when exactly one row satisfies `p`; none when
      no row, or more than one, does. */
  function Single<T>(xs: seq<T>, p: T -> bool): (r: Option<T>)
    ensures r.Some? <==> exists i :: OnlyMatchAt(xs, p, i)
    ensures forall i :: OnlyMatchAt(xs, p, i) ==> r == Some(xs[i])
    decreases |xs|
  {
    if xs == [] then None
    else if p(xs[0]) then
      HeadOnlyMatch(xs, p);
      if FindFirst(xs[1..], p).Some? then None else Some(xs[0])
    else
      MatchesShift(xs, p);
      Single(xs[1..], p)
  }

  /** Ordered by `key`, largest (newest) first. */
  ghost predicate NewestFirst<T>(xs: seq<T>, key: T -> nat) {
    forall i, j :: 0 <= i < j < |xs| ==> key(xs[i]) >= key(xs[j])
  }

  /** Puts `x` into a newest-first sequence, keeping it newest-first. */
  function InsertNewest<T>(x: T, xs: seq<T>, key: T -> nat): (r: seq<T>)
    requires NewestFirst(xs, key)
    ensures NewestFirst(r, key)
    ensures multiset(r) == multiset(xs) + multiset{x}
    decreases |xs|
  {
    if xs == [] || key(x) >= key(xs[0]) then [x] + xs
    else
      var rest := InsertNewest(x, xs[1..], key);
      assert xs == [xs[0]] + xs[1..];
      HeadBoundsInsert(x, xs, rest, key);
      [xs[0]] + rest
  }

  /** When `x` is older than the head of `xs`, that head is at least as new
      as everything `x` is inserted among. */
  lemma HeadBoundsInsert<T>(x: T, xs: seq<T>, rest: seq<T>, key: T -> nat)
    requires xs != [] && NewestFirst(xs, key) && key(x) < key(xs[0])
    requires multiset(rest) == multiset(xs[1..]) + multiset{x}
    ensures forall j :: 0 <= j < |rest| ==> key(xs[0]) >= key(rest[j])
  {
    forall j | 0 <= j < |rest| ensures key(xs[0]) >= key(rest[j]) {
      assert rest[j] in multiset(rest);
      if rest[j] != x {
        assert rest[j] in multiset(xs[1..]);
        var k :| 0 <= k < |xs[1..]| && xs[1..][k] == rest[j];
        assert xs[k + 1] == rest[j];
      }
    }
  }

  /** `.order(key, { ascending: false })`: the same rows, newest first. */
  function SortNewestFirst<T>(xs: seq<T>, key: T -> nat): (r: seq<T>)
    ensures NewestFirst(r, key)
    ensures multiset(r) == multiset(xs)
    decreases |xs|
  {
    if xs == [] then []
    else
      assert xs == [xs[0]] + xs[1..];
      InsertNewest(xs[0], SortNewestFirst(xs[1..], key), key)
  }
}
