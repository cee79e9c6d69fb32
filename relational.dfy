/** What the SQL statements of the stores mean on an in-memory table: a WHERE
    condition keeps the rows that satisfy it, ORDER BY … DESC sorts, LIMIT and
    OFFSET cut a page, and SQLite numbers new rows one past the largest id. */
module Relational {
  import opened LaundryNotify

  /** WHERE: the rows that satisfy the condition, in table order. */
  function Filter<T>(rows: seq<T>, p: T -> bool): (r: seq<T>)
    ensures |r| <= |rows|
    ensures forall i :: 0 <= i < |r| ==> r[i] in rows && p(r[i])
    ensures forall i :: 0 <= i < |rows| && p(rows[i]) ==> rows[i] in r
    ensures multiset(r) <= multiset(rows)
  {
    if rows == [] then []
    else
      assert rows == [rows[0]] + rows[1..];
      (if p(rows[0]) then [rows[0]] else []) + Filter(rows[1..], p)
  }

  /** Two conditions that agree on every row select the same rows. */
  lemma {:induction false} FilterSame<T>(rows: seq<T>, p: T -> bool, q: T -> bool)
    requires forall i :: 0 <= i < |rows| ==> p(rows[i]) == q(rows[i])
    ensures Filter(rows, p) == Filter(rows, q)
  {
    if rows != [] {
      FilterSame(rows[1..], p, q);
    }
  }

  /** A condition that holds of exactly one row selects that row alone. */
  lemma {:induction false} FilterSingle<T>(rows: seq<T>, p: T -> bool, k: int)
    requires 0 <= k < |rows|
    requires forall i :: 0 <= i < |rows| ==> (p(rows[i]) <==> i == k)
    ensures Filter(rows, p) == [rows[k]]
  {
    if k == 0 {
      FilterNone(rows[1..], p);
    } else {
      FilterSingle(rows[1..], p, k - 1);
    }
  }

  /** A condition that holds of no row selects nothing. */
  lemma {:induction false} FilterNone<T>(rows: seq<T>, p: T -> bool)
    requires forall i :: 0 <= i < |rows| ==> !p(rows[i])
    ensures Filter(rows, p) == []
  {
    if rows != [] {
      FilterNone(rows[1..], p);
    }
  }

  /** Every pair of rows, taken in table order, has strictly increasing ids. */
  predicate IdsIncreasing<T>(rows: seq<T>, id: T -> int) {
    forall i, j :: 0 <= i < j < |rows| ==> id(rows[i]) < id(rows[j])
  }

  /** Filtering keeps table order, so it keeps increasing ids increasing. */
  lemma {:induction false} FilterKeepsIdsIncreasing<T>(rows: seq<T>, p: T -> bool, id: T -> int)
    requires IdsIncreasing(rows, id)
    ensures IdsIncreasing(Filter(rows, p), id)
  {
    if rows != [] {
      FilterKeepsIdsIncreasing(rows[1..], p, id);
      var rest := Filter(rows[1..], p);
      forall x | x in rest ensures id(rows[0]) < id(x) {
        var k :| 0 <= k < |rows[1..]| && rows[1..][k] == x;
        assert rows[k + 1] == x;
      }
    }
  }

  /** With increasing ids a row is determined by its id. */
  lemma IdsIncreasingUnique<T>(rows: seq<T>, id: T -> int, x: T, y: T)
    requires IdsIncreasing(rows, id)
    requires x in rows && y in rows && id(x) == id(y)
    ensures x == y
  {
    var i :| 0 <= i < |rows| && rows[i] == x;
    var j :| 0 <= j < |rows| && rows[j] == y;
    if i < j {
      assert id(rows[i]) < id(rows[j]);
    } else if j < i {
      assert id(rows[j]) < id(rows[i]);
    }
  }

  /** The id SQLite gives a row inserted without one: one more than the largest
      id in the table (the last one, when ids increase), or 1 in an empty table. */
  function NextId<T>(rows: seq<T>, id: T -> int): (r: int)
    requires IdsIncreasing(rows, id)
    ensures forall i :: 0 <= i < |rows| ==> id(rows[i]) < r
    ensures rows == [] ==> r == 1
  {
    if rows == [] then 1 else id(rows[|rows| - 1]) + 1
  }

  /** Appending a row with the next id keeps ids increasing. */
  lemma AppendKeepsIdsIncreasing<T>(rows: seq<T>, id: T -> int, x: T)
    requires IdsIncreasing(rows, id)
    requires id(x) == NextId(rows, id)
    ensures IdsIncreasing(rows + [x], id)
  {
    var s := rows + [x];
    forall i, j | 0 <= i < j < |s| ensures id(s[i]) < id(s[j]) {
      if j == |rows| {
        assert s[i] in rows;
      } else {
        assert s[i] == rows[i] && s[j] == rows[j];
      }
    }
  }

  /** Rows in non-increasing order of the key. */
  predicate SortedDesc<T>(rows: seq<T>, key: T -> int) {
    forall i, j :: 0 <= i < j < |rows| ==> key(rows[i]) >= key(rows[j])
  }

  /** Places `x` before the first row whose key does not exceed its own. */
  function InsertDesc<T>(x: T, rows: seq<T>, key: T -> int): (r: seq<T>)
    ensures multiset(r) == multiset(rows) + multiset{x}
    ensures |r| == |rows| + 1
  {
    if rows == [] then [x]
    else if key(rows[0]) <= key(x) then [x] + rows
    else
      assert rows == [rows[0]] + rows[1..];
      [rows[0]] + InsertDesc(x, rows[1..], key)
  }

  /** Inserting into a sorted sequence keeps it sorted. */
  lemma {:induction false} InsertDescSorted<T>(x: T, rows: seq<T>, key: T -> int)
    requires SortedDesc(rows, key)
    ensures SortedDesc(InsertDesc(x, rows, key), key)
  {
    if rows != [] && key(rows[0]) > key(x) {
      var tail := rows[1..];
      InsertDescSorted(x, tail, key);
      var t := InsertDesc(x, tail, key);
      var r := [rows[0]] + t;
      assert forall k :: 0 <= k < |tail| ==> key(tail[k]) <= key(rows[0]) by {
        forall k | 0 <= k < |tail| ensures key(tail[k]) <= key(rows[0]) {
          assert tail[k] == rows[k + 1];
        }
      }
      InsertDescBelow(x, tail, key, key(rows[0]));
      forall i, j | 0 <= i < j < |r| ensures key(r[i]) >= key(r[j]) {
        if i > 0 {
          assert r[i] == t[i - 1] && r[j] == t[j - 1];
        } else {
          assert r[0] == rows[0] && r[j] == t[j - 1];
        }
      }
    }
  }

  /** Inserting `x` into rows whose keys are all at most `bound`, with `x`'s
      key below it too, gives rows whose keys are all at most `bound`. */
  lemma InsertDescBelow<T>(x: T, rows: seq<T>, key: T -> int, bound: int)
    requires key(x) <= bound
    requires forall k :: 0 <= k < |rows| ==> key(rows[k]) <= bound
    ensures forall j :: 0 <= j < |InsertDesc(x, rows, key)| ==> key(InsertDesc(x, rows, key)[j]) <= bound
  {
    var t := InsertDesc(x, rows, key);
    forall j | 0 <= j < |t| ensures key(t[j]) <= bound {
      assert t[j] in multiset(t);
      if t[j] != x {
        assert t[j] in multiset(rows);
        var k :| 0 <= k < |rows| && rows[k] == t[j];
      }
    }
  }

  /** ORDER BY key DESC. Rows with equal keys keep their table order, which is
      one of the orders SQLite may return for them. */
  function SortDesc<T>(rows: seq<T>, key: T -> int): (r: seq<T>)
    ensures multiset(r) == multiset(rows)
    ensures |r| == |rows|
    ensures SortedDesc(r, key)
  {
    if rows == [] then []
    else
      assert rows == [rows[0]] + rows[1..];
      var sortedTail := SortDesc(rows[1..], key);
      InsertDescSorted(rows[0], sortedTail, key);
      InsertDesc(rows[0], sortedTail, key)
  }

  /** The first row of ORDER BY key DESC is a row of the table with the
      largest key. */
  lemma SortDescFirst<T>(rows: seq<T>, key: T -> int)
    requires rows != []
    ensures SortDesc(rows, key)[0] in rows
    ensures forall i :: 0 <= i < |rows| ==> key(rows[i]) <= key(SortDesc(rows, key)[0])
  {
    var sorted := SortDesc(rows, key);
    assert sorted[0] in multiset(sorted);
    forall i | 0 <= i < |rows| ensures key(rows[i]) <= key(sorted[0]) {
      assert rows[i] in multiset(sorted);
      var j :| 0 <= j < |sorted| && sorted[j] == rows[i];
      if j > 0 {
        assert key(sorted[0]) >= key(sorted[j]);
      }
    }
  }

  function Min(a: int, b: int): int { if a <= b then a else b }

  /** LIMIT and OFFSET, as FormatLimitOffset writes them: a clause appears only
      for a positive value, and SQLite refuses an OFFSET without a LIMIT. */
  function Page<T>(rows: seq<T>, limit: int, offset: int): (r: Result<seq<T>>)
    ensures r.Err? <==> limit <= 0 && offset > 0
    ensures r.Err? ==> r.error == SyntaxError
    ensures r.Ok? && offset <= 0 ==> r.value <= rows
    ensures r.Ok? && limit > 0 ==> |r.value| <= limit
    ensures r.Ok? && limit > 0 && offset <= 0 ==> |r.value| == Min(limit, |rows|)
    ensures r.Ok? && limit <= 0 ==> r.value == rows
  {
    if limit > 0 && offset > 0 then
      var skip := Min(offset, |rows|);
      Ok(rows[skip..][..Min(limit, |rows| - skip)])
    else if limit > 0 then Ok(rows[..Min(limit, |rows|)])
    else if offset > 0 then Err(SyntaxError)
    else Ok(rows)
  }

  /** LIMIT and OFFSET take a contiguous run of rows, so they keep increasing
      ids increasing. */
  lemma PageKeepsIdsIncreasing<T>(rows: seq<T>, limit: int, offset: int, id: T -> int)
    requires IdsIncreasing(rows, id) && Page(rows, limit, offset).Ok?
    ensures IdsIncreasing(Page(rows, limit, offset).value, id)
  {
    var page := Page(rows, limit, offset).value;
    var skip := if limit > 0 && offset > 0 then Min(offset, |rows|) else 0;
    assert page == rows[skip..skip + |page|];
    forall i, j | 0 <= i < j < |page| ensures id(page[i]) < id(page[j]) {
      assert page[i] == rows[skip + i] && page[j] == rows[skip + j];
    }
  }

  /** The value a Go row loop leaves in its count variable: every row carries
      COUNT(*) OVER(), the number of matches before LIMIT, and the variable
      stays 0 when no row comes back. */
  function CountRead(matches: nat, page: nat): nat {
    if page > 0 then matches else 0
  }

  /** The `rows.Next()` loop of a query whose columns always scan: each row
      is appended, and the count column is read into `n` on every row. */
  method ReadRows<T>(rows: seq<T>, matches: nat) returns (read: seq<T>, n: int)
    ensures read == rows
    ensures n == CountRead(matches, |rows|)
  {
    read, n := [], 0;
    var i := 0;
    while i < |rows|
      invariant 0 <= i <= |rows|
      invariant read == rows[..i]
      invariant n == CountRead(matches, i)
    {
      read := read + [rows[i]];
      n := matches;
      i := i + 1;
    }
    assert rows[..i] == rows;
  }

  /** The first `limit` rows that satisfy `p`, largest key first. */
  function Top<T>(rows: seq<T>, p: T -> bool, key: T -> int, limit: nat): seq<T>
  {
    var sorted := SortDesc(Filter(rows, p), key);
    sorted[..Min(limit, |sorted|)]
  }

  /** Top is what its name says: rows that match, largest key first, as many
      as the limit allows, and no match left out has a larger key than one
      taken. */
  lemma TopIsTop<T>(rows: seq<T>, p: T -> bool, key: T -> int, limit: nat)
    ensures var r := Top(rows, p, key, limit);
            var matches := Filter(rows, p);
            && |r| == Min(limit, |matches|)
            && multiset(r) <= multiset(matches)
            && (forall i :: 0 <= i < |r| ==> r[i] in rows && p(r[i]))
            && SortedDesc(r, key)
            && (forall x, y :: x in multiset(matches) - multiset(r) && y in r ==> key(x) <= key(y))
  {
    var matches := Filter(rows, p);
    var sorted := SortDesc(matches, key);
    var k := Min(limit, |sorted|);
    var r := sorted[..k];
    assert Top(rows, p, key, limit) == r;
    assert multiset(r) <= multiset(matches) && forall i :: 0 <= i < |r| ==> r[i] in rows && p(r[i]) by {
      PrefixWithin(sorted, matches, k);
      forall i | 0 <= i < |r| ensures r[i] in rows && p(r[i]) {
        var m :| 0 <= m < |matches| && matches[m] == r[i];
      }
    }
    assert forall x, y :: x in multiset(matches) - multiset(r) && y in r ==> key(x) <= key(y) by {
      TopBelowTaken(sorted, key, k);
    }
  }

  /** A prefix of a rearrangement of `rows` takes its elements from `rows`. */
  lemma PrefixWithin<T>(sorted: seq<T>, rows: seq<T>, k: nat)
    requires multiset(sorted) == multiset(rows) && k <= |sorted|
    ensures multiset(sorted[..k]) <= multiset(rows)
    ensures forall i :: 0 <= i < k ==> sorted[..k][i] in rows
  {
    var r := sorted[..k];
    assert sorted == r + sorted[k..];
    assert multiset(sorted) == multiset(r) + multiset(sorted[k..]);
    forall i | 0 <= i < k ensures r[i] in rows {
      assert r[i] in multiset(rows);
    }
  }

  /** In a sorted sequence, nothing after position `k` has a larger key than
      anything before it. */
  lemma TopBelowTaken<T>(sorted: seq<T>, key: T -> int, k: nat)
    requires SortedDesc(sorted, key) && k <= |sorted|
    ensures forall x, y :: x in multiset(sorted) - multiset(sorted[..k]) && y in sorted[..k] ==> key(x) <= key(y)
  {
    var r := sorted[..k];
    var rest := sorted[k..];
    assert sorted == r + rest;
    assert multiset(sorted) - multiset(r) == multiset(rest);
    forall x, y | x in multiset(rest) && y in r ensures key(x) <= key(y) {
      var i :| 0 <= i < |rest| && rest[i] == x;
      var j :| 0 <= j < |r| && r[j] == y;
      assert sorted[k + i] == x && sorted[j] == y;
    }
  }

  /** A table with increasing ids holds each row at most once. */
  lemma {:induction false} IncreasingOnce<T>(rows: seq<T>, id: T -> int, x: T)
    requires IdsIncreasing(rows, id)
    ensures multiset(rows)[x] <= 1
  {
    if rows != [] {
      var tail := rows[1..];
      assert rows == [rows[0]] + tail;
      assert IdsIncreasing(tail, id) by {
        forall i, j | 0 <= i < j < |tail| ensures id(tail[i]) < id(tail[j]) {
          assert tail[i] == rows[i + 1] && tail[j] == rows[j + 1];
        }
      }
      IncreasingOnce(tail, id, x);
    }
  }

  /** A value at two positions is counted twice. */
  lemma RepeatedTwice<T>(s: seq<T>, a: int, b: int)
    requires 0 <= a < b < |s| && s[a] == s[b]
    ensures multiset(s)[s[a]] >= 2
  {
    assert s == s[..b] + s[b..];
    assert s[a] in s[..b] && s[b..][0] == s[b];
  }

  /** The rows Top takes from a table with increasing ids have distinct ids. */
  lemma TopDistinct<T>(rows: seq<T>, p: T -> bool, key: T -> int, limit: nat, id: T -> int)
    requires IdsIncreasing(rows, id)
    ensures var r := Top(rows, p, key, limit);
            forall a, b :: 0 <= a < b < |r| ==> id(r[a]) != id(r[b])
  {
    var r := Top(rows, p, key, limit);
    var matches := Filter(rows, p);
    TopIsTop(rows, p, key, limit);
    FilterKeepsIdsIncreasing(rows, p, id);
    forall a, b | 0 <= a < b < |r| ensures id(r[a]) != id(r[b]) {
      if id(r[a]) == id(r[b]) {
        assert r[a] in multiset(matches) && r[b] in multiset(matches);
        assert r[a] in matches && r[b] in matches;
        IdsIncreasingUnique(matches, id, r[a], r[b]);
        RepeatedTwice(r, a, b);
        IncreasingOnce(matches, id, r[a]);
      }
    }
  }
}
