/** The search box: keep the rows of which some field contains the search term,
    ignoring letter case. */
module Filtering {
  import opened Values

  /** Some field of the row (visible or not), as lower-cased text, includes the
      lower-cased query. */
  predicate Matches(row: Record, query: string)
    ensures Matches(row, query) ==> |row| > 0
  {
    exists k :: k in row && Contains(Lower(ToText(row[k])), Lower(query))
  }

  /** `data.filter(row => Object.values(row).some(...))` */
  function Filter(rows: seq<Record>, query: string): (r: seq<Record>)
    ensures |r| <= |rows|
    ensures forall x :: x in r <==> x in rows && Matches(x, query)
    ensures multiset(r) <= multiset(rows)
  {
    if rows == [] then []
    else
      assert rows == [rows[0]] + rows[1..];
      if Matches(rows[0], query) then [rows[0]] + Filter(rows[1..], query)
      else Filter(rows[1..], query)
  }

  lemma {:induction false} FilterIsSubsequence(rows: seq<Record>, query: string)
    ensures Subsequence(Filter(rows, query), rows)
  {
    if rows != [] {
      FilterIsSubsequence(rows[1..], query);
      var r := Filter(rows, query);
      if Matches(rows[0], query) {
        assert r[0] == rows[0] && r[1..] == Filter(rows[1..], query);
      } else {
        if r != [] {
          assert r == Filter(rows[1..], query);
        }
      }
    }
  }

  /** Filtering works row by row: together with FilterSingle this pins the
      result down to the matching rows in their original order. */
  lemma {:induction false} FilterAppend(a: seq<Record>, b: seq<Record>, query: string)
    ensures Filter(a + b, query) == Filter(a, query) + Filter(b, query)
  {
    if a != [] {
      assert (a + b)[1..] == a[1..] + b;
      FilterAppend(a[1..], b, query);
    } else {
      assert a + b == b;
    }
  }

  lemma FilterSingle(x: Record, query: string)
    ensures Filter([x], query) == if Matches(x, query) then [x] else []
  {
    assert [x][1..] == [];
  }

  /** An empty search matches exactly the rows that have at least one field. */
  lemma MatchesEmptyQuery(x: Record)
    ensures Matches(x, "") <==> |x| > 0
  {
    if |x| > 0 {
      var k :| k in x;
      ContainsEmpty(Lower(ToText(x[k])));
    }
  }

  /** With an empty search box every row is kept, as long as each row has a field. */
  lemma {:induction false} FilterEmptyQuery(rows: seq<Record>)
    requires forall i :: 0 <= i < |rows| ==> |rows[i]| > 0
    ensures Filter(rows, "") == rows
  {
    if rows != [] {
      MatchesEmptyQuery(rows[0]);
      FilterEmptyQuery(rows[1..]);
    }
  }

  lemma {:induction false} FilterIdempotent(rows: seq<Record>, query: string)
    ensures Filter(Filter(rows, query), query) == Filter(rows, query)
  {
    if rows != [] {
      FilterIdempotent(rows[1..], query);
      if Matches(rows[0], query) {
        assert ([rows[0]] + Filter(rows[1..], query))[1..] == Filter(rows[1..], query);
      }
    }
  }
}
