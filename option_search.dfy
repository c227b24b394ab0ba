/** The search box filter `filteredOptions`: a row is kept when its code or
    its underlying symbol, lower-cased, contains the lower-cased query. */
module OptionSearch {
  import opened Text
  import opened OptionChain

  /** The filter predicate applied to one row. */
  predicate Matches(row: OptionRow, query: string) {
    Includes(ToLower(row.code), ToLower(query)) || Includes(ToLower(row.underlying), ToLower(query))
  }

  /** `optionsData.filter(...)`: the matching rows, in their original order. */
  function Filter(rows: seq<OptionRow>, query: string): seq<OptionRow>
    decreases |rows|
  {
    if rows == [] then []
    else (if Matches(rows[0], query) then [rows[0]] else []) + Filter(rows[1..], query)
  }

  /** `sub` is obtained from `s` by deleting elements, keeping the order. */
  predicate IsSubsequence(sub: seq<OptionRow>, s: seq<OptionRow>)
    decreases |s|
  {
    if sub == [] then true
    else if s == [] then false
    else if sub[0] == s[0] then IsSubsequence(sub[1..], s[1..])
    else IsSubsequence(sub, s[1..])
  }

  /** A subsequence of the tail of s is a subsequence of s. */
  lemma {:induction false} SubsequenceOfTail(sub: seq<OptionRow>, s: seq<OptionRow>)
    requires s != [] && IsSubsequence(sub, s[1..])
    ensures IsSubsequence(sub, s)
    decreases |s|, 0
  {
    if sub != [] && sub[0] == s[0] {
      SubsequenceDropHead(sub, s[1..]);
    }
  }

  /** Dropping the first element of a subsequence keeps it a subsequence. */
  lemma {:induction false} SubsequenceDropHead(sub: seq<OptionRow>, t: seq<OptionRow>)
    requires sub != [] && IsSubsequence(sub, t)
    ensures IsSubsequence(sub[1..], t)
    decreases |t|, 1
  {
    if sub[0] == t[0] {
      SubsequenceOfTail(sub[1..], t);
    } else {
      SubsequenceDropHead(sub, t[1..]);
      SubsequenceOfTail(sub[1..], t);
    }
  }

  /** The result is an order-preserving subsequence of the rows. */
  lemma {:induction false} FilterIsSubsequence(rows: seq<OptionRow>, query: string)
    ensures IsSubsequence(Filter(rows, query), rows)
    decreases |rows|
  {
    if rows != [] {
      FilterIsSubsequence(rows[1..], query);
      var rest := Filter(rows[1..], query);
      if Matches(rows[0], query) {
        assert Filter(rows, query) == [rows[0]] + rest;
        assert ([rows[0]] + rest)[1..] == rest;
      } else {
        assert Filter(rows, query) == rest;
        SubsequenceOfTail(rest, rows);
      }
    }
  }

  /** Exactly the matching rows are kept, each as many times as it occurs. */
  lemma {:induction false} FilterCounts(rows: seq<OptionRow>, query: string, row: OptionRow)
    ensures multiset(Filter(rows, query))[row]
            == if Matches(row, query) then multiset(rows)[row] else 0
    decreases |rows|
  {
    if rows != [] {
      FilterCounts(rows[1..], query, row);
      assert rows == [rows[0]] + rows[1..];
      assert multiset(rows) == multiset([rows[0]]) + multiset(rows[1..]);
    }
  }

  /** A row is in the result exactly when it is one of the rows and matches. */
  lemma FilterMembership(rows: seq<OptionRow>, query: string, row: OptionRow)
    ensures row in Filter(rows, query) <==> row in rows && Matches(row, query)
  {
    FilterCounts(rows, query, row);
  }

  /** The empty query keeps every row. */
  lemma {:induction false} FilterEmptyQuery(rows: seq<OptionRow>)
    ensures Filter(rows, "") == rows
    decreases |rows|
  {
    if rows != [] {
      assert ToLower("") == "";
      assert Matches(rows[0], "");
      FilterEmptyQuery(rows[1..]);
    }
  }

  /** The query's case does not matter: filtering by its lower-cased form
      gives the same rows. */
  lemma {:induction false} FilterCaseInsensitive(rows: seq<OptionRow>, query: string)
    ensures Filter(rows, ToLower(query)) == Filter(rows, query)
    decreases |rows|
  {
    ToLowerIdempotent(query);
    if rows != [] {
      FilterCaseInsensitive(rows[1..], query);
    }
  }

  /** Filtering twice by the same query is filtering once. */
  lemma {:induction false} FilterIdempotent(rows: seq<OptionRow>, query: string)
    ensures Filter(Filter(rows, query), query) == Filter(rows, query)
    decreases |rows|
  {
    if rows != [] {
      FilterIdempotent(rows[1..], query);
      var rest := Filter(rows[1..], query);
      if Matches(rows[0], query) {
        var kept := [rows[0]] + rest;
        assert kept[0] == rows[0] && kept[1..] == rest;
        assert Filter(rows, query) == kept;
        assert Filter(kept, query) == [rows[0]] + Filter(rest, query);
      } else {
        assert Filter(rows, query) == rest;
      }
    }
  }
}
