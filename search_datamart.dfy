/**
 * The search service's read-only view of the `books` table. A row comes back as a map
 * with the six columns of the table; here it is a record with those six fields, and the
 * table is a sequence of rows in the order SQLite returns them.
 */
module SearchDatamart {

  /** One row of `allBooks` / `queryByYearRange`: keys book_id, title, author, language, year, content. */
  datatype Book = Book(bookId: int, title: string, author: string, language: string, year: int, content: string)

  /** The rows of `rows` that `keep` accepts, in table order. */
  function Filter(rows: seq<Book>, keep: Book -> bool): (r: seq<Book>)
    ensures |r| <= |rows|
    decreases |rows|
  {
    if rows == [] then []
    else Filter(rows[..|rows| - 1], keep) + (if keep(rows[|rows| - 1]) then [rows[|rows| - 1]] else [])
  }

  /** A row is kept exactly when it is in the table and accepted. */
  lemma {:induction false} FilterMembers(rows: seq<Book>, keep: Book -> bool)
    ensures forall b :: b in Filter(rows, keep) <==> b in rows && keep(b)
    decreases |rows|
  {
    if rows != [] {
      var init := rows[..|rows| - 1];
      FilterMembers(init, keep);
      assert rows == init + [rows[|rows| - 1]];
    }
  }

  /** Filtering preserves order: it distributes over concatenation of tables. */
  lemma {:induction false} FilterConcat(a: seq<Book>, b: seq<Book>, keep: Book -> bool)
    ensures Filter(a + b, keep) == Filter(a, keep) + Filter(b, keep)
    decreases |b|
  {
    if b == [] {
      assert a + b == a;
    } else {
      var init := b[..|b| - 1];
      FilterConcat(a, init, keep);
      assert (a + b)[..|a + b| - 1] == a + init;
    }
  }

  /** A filter that accepts every row gives the table back. */
  lemma {:induction false} FilterAll(rows: seq<Book>, keep: Book -> bool)
    requires forall b :: b in rows ==> keep(b)
    ensures Filter(rows, keep) == rows
    decreases |rows|
  {
    if rows != [] {
      FilterAll(rows[..|rows| - 1], keep);
      assert rows == rows[..|rows| - 1] + [rows[|rows| - 1]];
    }
  }

  /** Two tests that agree on every row of the table select the same rows. */
  lemma {:induction false} FilterCongruent(rows: seq<Book>, keep: Book -> bool, same: Book -> bool)
    requires forall b :: b in rows ==> keep(b) == same(b)
    ensures Filter(rows, keep) == Filter(rows, same)
    decreases |rows|
  {
    if rows != [] {
      FilterCongruent(rows[..|rows| - 1], keep, same);
    }
  }

  /** The test passed by the rows that pass both `first` and `second`. */
  function Both(first: Book -> bool, second: Book -> bool): Book -> bool {
    b => first(b) && second(b)
  }

  /** Filtering twice is filtering once by both tests. */
  lemma {:induction false} FilterFilter(rows: seq<Book>, first: Book -> bool, second: Book -> bool)
    ensures Filter(Filter(rows, first), second) == Filter(rows, Both(first, second))
    decreases |rows|
  {
    if rows != [] {
      var init := rows[..|rows| - 1];
      var last := rows[|rows| - 1];
      FilterFilter(init, first, second);
      var f := Filter(init, first);
      var both := Both(first, second);
      assert Filter(rows, both) == Filter(init, both) + (if both(last) then [last] else []);
      if first(last) {
        assert (f + [last])[..|f + [last]| - 1] == f;
        assert Filter(rows, first) == f + [last];
      } else {
        assert Filter(rows, first) == f;
      }
    }
  }

  /** `retainAll`: the elements of `list` that also occur in `other`, in the order of `list`. */
  function RetainAll(list: seq<Book>, other: seq<Book>): seq<Book> {
    Filter(list, InTest(other))
  }

  function InTest(other: seq<Book>): Book -> bool {
    b => b in other
  }

  /** Keeping the rows of one filter of a table that another filter of it also returns filters by both. */
  lemma RetainAllOfFilters(rows: seq<Book>, first: Book -> bool, second: Book -> bool)
    ensures RetainAll(Filter(rows, first), Filter(rows, second)) == Filter(rows, Both(first, second))
  {
    var kept := Filter(rows, first);
    var other := Filter(rows, second);
    FilterMembers(rows, first);
    FilterMembers(rows, second);
    FilterCongruent(kept, InTest(other), second);
    FilterFilter(rows, first, second);
  }

  /** The row passes every test of `tests`. */
  predicate AllOf(tests: seq<Book -> bool>, b: Book)
    decreases |tests|
  {
    tests == [] || (AllOf(tests[..|tests| - 1], b) && tests[|tests| - 1](b))
  }

  lemma {:induction false} AllOfSpec(tests: seq<Book -> bool>, b: Book)
    ensures AllOf(tests, b) <==> forall i :: 0 <= i < |tests| ==> tests[i](b)
    decreases |tests|
  {
    if tests != [] {
      var init := tests[..|tests| - 1];
      AllOfSpec(init, b);
      assert forall i :: 0 <= i < |init| ==> init[i] == tests[i];
    }
  }

  function AllTest(tests: seq<Book -> bool>): Book -> bool {
    b => AllOf(tests, b)
  }

  /** A list narrowed by `retainAll` with the filter of each test in turn, starting from the first test's filter. */
  function NarrowBy(rows: seq<Book>, tests: seq<Book -> bool>): seq<Book>
    requires |tests| > 0
    decreases |tests|
  {
    var found := Filter(rows, tests[|tests| - 1]);
    if |tests| == 1 then found else RetainAll(NarrowBy(rows, tests[..|tests| - 1]), found)
  }

  /** One more test narrows the list by that test's filter. */
  lemma NarrowByStep(rows: seq<Book>, tests: seq<Book -> bool>, n: nat)
    requires 0 < n < |tests|
    ensures NarrowBy(rows, tests[..n + 1]) == RetainAll(NarrowBy(rows, tests[..n]), Filter(rows, tests[n]))
  {
    assert tests[..n + 1][..n] == tests[..n];
  }

  /** Narrowing keeps, in table order, exactly the rows that pass every test. */
  lemma {:induction false} NarrowBySpec(rows: seq<Book>, tests: seq<Book -> bool>)
    requires |tests| > 0
    ensures NarrowBy(rows, tests) == Filter(rows, AllTest(tests))
    decreases |tests|
  {
    var last := tests[|tests| - 1];
    var init := tests[..|tests| - 1];
    if |tests| == 1 {
      forall b: Book
        ensures last(b) == AllTest(tests)(b)
      {
        assert init == [] && AllOf(init, b);
      }
      FilterCongruent(rows, last, AllTest(tests));
    } else {
      NarrowBySpec(rows, init);
      RetainAllOfFilters(rows, AllTest(init), last);
      FilterCongruent(rows, Both(AllTest(init), last), AllTest(tests));
    }
  }

  /** The `WHERE year >= ? AND year <= ?` test. */
  predicate InYearRange(b: Book, startYear: int, endYear: int) {
    startYear <= b.year <= endYear
  }

  function YearTest(startYear: int, endYear: int): Book -> bool {
    b => InYearRange(b, startYear, endYear)
  }

  /** What `queryByYearRange` returns: the rows with a year in the inclusive range, in table order. */
  function YearRange(rows: seq<Book>, startYear: int, endYear: int): seq<Book> {
    Filter(rows, YearTest(startYear, endYear))
  }

  /** Both bounds are inclusive; a row is returned exactly when its year lies in between. */
  lemma YearRangeSpec(rows: seq<Book>, startYear: int, endYear: int)
    ensures forall b :: b in YearRange(rows, startYear, endYear) <==>
              b in rows && startYear <= b.year <= endYear
  {
    FilterMembers(rows, YearTest(startYear, endYear));
  }

  /** An inverted range selects nothing. */
  lemma {:induction false} YearRangeEmpty(rows: seq<Book>, startYear: int, endYear: int)
    requires startYear > endYear
    ensures YearRange(rows, startYear, endYear) == []
    decreases |rows|
  {
    if rows != [] {
      YearRangeEmpty(rows[..|rows| - 1], startYear, endYear);
    }
  }

  class Datamart {
    /** The `books` table, in the order the queries return its rows. */
    var rows: seq<Book>

    constructor(table: seq<Book>)
      ensures rows == table
    {
      rows := table;
    }

    /** `allBooks`: every row, in table order. */
    method AllBooks() returns (list: seq<Book>)
      ensures list == rows
    {
      list := [];
      var i := 0;
      while i < |rows|
        invariant 0 <= i <= |rows|
        invariant list == rows[..i]
      {
        list := list + [rows[i]];
        i := i + 1;
      }
    }

    /** `queryByYearRange`: the rows whose year lies in `[startYear, endYear]`, in table order. */
    method QueryByYearRange(startYear: int, endYear: int) returns (list: seq<Book>)
      ensures list == YearRange(rows, startYear, endYear)
    {
      list := [];
      var i := 0;
      while i < |rows|
        invariant 0 <= i <= |rows|
        invariant list == YearRange(rows[..i], startYear, endYear)
      {
        assert rows[..i + 1][..i] == rows[..i];
        if startYear <= rows[i].year <= endYear {
          list := list + [rows[i]];
        }
        i := i + 1;
      }
      assert rows[..i] == rows;
    }
  }
}
