/**
 * `AdvancedSearchEngine`: every query is a full scan of the `books` rows, in table order,
 * keeping the rows whose lower-cased content contains the lower-cased term and that pass
 * the optional author, language and year filters. Nothing here consults the postings.
 */
module AdvancedSearch {
  import opened Wrappers
  import opened JavaInt
  import opened JavaString
  import opened JavaSplit
  import opened SearchDatamart

  /** `String.equalsIgnoreCase`, with the case mapping of `ToLowerChar`. */
  predicate EqualsIgnoreCase(a: string, b: string) {
    ToLower(a) == ToLower(b)
  }

  /** A filter argument that is neither `null` nor blank. */
  predicate Given(filter: Option<string>) {
    filter.Some? && !IsBlank(filter.value)
  }

  /** The row's content contains `term`, both lower-cased. */
  predicate HasTerm(b: Book, term: string) {
    Contains(ToLower(b.content), ToLower(term))
  }

  /** The test `search` applies to one row. */
  predicate Matches(term: string, author: Option<string>, language: Option<string>, year: Option<int>, b: Book) {
    && Contains(ToLower(b.content), ToLower(term))
    && (Given(author) ==> Contains(ToLower(b.author), ToLower(author.value)))
    && (Given(language) ==> EqualsIgnoreCase(b.language, language.value))
    && (year.Some? ==> IntToString(b.year) == IntToString(year.value))
  }

  function MatchTest(term: string, author: Option<string>, language: Option<string>, year: Option<int>): Book -> bool {
    b => Matches(term, author, language, year, b)
  }

  /** What `search` returns over the table `rows`. */
  function Searched(rows: seq<Book>, term: string, author: Option<string>, language: Option<string>, year: Option<int>)
    : seq<Book>
  {
    Filter(rows, MatchTest(term, author, language, year))
  }

  /**
   * A row is found exactly when its content contains the term, ignoring case, and it
   * passes every given filter: the author as a case-insensitive substring, the language
   * equal ignoring case, and the year equal.
   */
  lemma SearchedSpec(rows: seq<Book>, term: string, author: Option<string>, language: Option<string>, year: Option<int>)
    ensures forall b :: b in Searched(rows, term, author, language, year) <==>
              && b in rows
              && Contains(ToLower(b.content), ToLower(term))
              && (Given(author) ==> Contains(ToLower(b.author), ToLower(author.value)))
              && (Given(language) ==> ToLower(b.language) == ToLower(language.value))
              && (year.Some? ==> b.year == year.value)
  {
    FilterMembers(rows, MatchTest(term, author, language, year));
    if year.Some? {
      forall b: Book
        ensures IntToString(b.year) == IntToString(year.value) <==> b.year == year.value
      {
        IntToStringInjective(b.year, year.value);
      }
    }
  }

  lemma ContainsEmpty(s: string)
    ensures Contains(s, "")
  {
    assert OccursAt(s, "", 0);
  }

  /** The empty term matches every row, so without filters the whole table comes back. */
  lemma SearchEmptyTerm(rows: seq<Book>)
    ensures Searched(rows, "", None, None, None) == rows
  {
    forall b: Book | b in rows
      ensures Matches("", None, None, None, b)
    {
      ContainsEmpty(ToLower(b.content));
    }
    FilterAll(rows, MatchTest("", None, None, None));
  }

  /** A `null` or blank author or language filter changes nothing. */
  lemma BlankFiltersIgnored(rows: seq<Book>, term: string, author: string, language: string, year: Option<int>)
    requires IsBlank(author) && IsBlank(language)
    ensures Searched(rows, term, Some(author), Some(language), year) == Searched(rows, term, None, None, year)
  {
    FilterCongruent(rows, MatchTest(term, Some(author), Some(language), year), MatchTest(term, None, None, year));
  }

  /** The operands of `booleanSearch`: the lower-cased query cut at every "and". */
  function Operands(query: string): seq<string> {
    SplitLiteral(ToLower(query), "and")
  }

  /** One search test per operand, each operand trimmed. */
  function OperandTests(terms: seq<string>, author: Option<string>, language: Option<string>, year: Option<int>)
    : (tests: seq<Book -> bool>)
    ensures |tests| == |terms|
  {
    seq(|terms|, i requires 0 <= i < |terms| => MatchTest(Trim(terms[i]), author, language, year))
  }

  /** Operand `i`'s test selects what a search for the trimmed operand finds. */
  lemma OperandSearch(rows: seq<Book>, terms: seq<string>, i: nat,
                      author: Option<string>, language: Option<string>, year: Option<int>)
    requires i < |terms|
    ensures Filter(rows, OperandTests(terms, author, language, year)[i]) == Searched(rows, Trim(terms[i]), author, language, year)
  {
  }

  /** What `booleanSearch` returns, or `None` for the `ArrayIndexOutOfBoundsException` of a query without operands. */
  function BooleanResult(rows: seq<Book>, query: string,
                         author: Option<string>, language: Option<string>, year: Option<int>): Option<seq<Book>>
  {
    var terms := Operands(query);
    if |terms| == 0 then None else Some(NarrowBy(rows, OperandTests(terms, author, language, year)))
  }

  /**
   * The boolean law: the result is the table's rows that every operand's search finds,
   * in table order (which is the first operand's order); it fails only without operands.
   */
  lemma BooleanResultSpec(rows: seq<Book>, query: string,
                          author: Option<string>, language: Option<string>, year: Option<int>)
    ensures var terms := Operands(query);
            var r := BooleanResult(rows, query, author, language, year);
            && (r.None? <==> |terms| == 0)
            && (r.Some? ==> forall b :: b in r.value <==>
                  b in rows && forall i :: 0 <= i < |terms| ==> b in Searched(rows, Trim(terms[i]), author, language, year))
  {
    var terms := Operands(query);
    if |terms| > 0 {
      var tests := OperandTests(terms, author, language, year);
      NarrowBySpec(rows, tests);
      FilterMembers(rows, AllTest(tests));
      forall b: Book {
        EveryOperandFinds(rows, terms, author, language, year, b);
      }
    }
  }

  /** A table row passes every operand's test exactly when every operand's search finds it. */
  lemma EveryOperandFinds(rows: seq<Book>, terms: seq<string>,
                          author: Option<string>, language: Option<string>, year: Option<int>, b: Book)
    ensures (b in rows && AllTest(OperandTests(terms, author, language, year))(b)) <==>
            b in rows && forall i :: 0 <= i < |terms| ==> b in Searched(rows, Trim(terms[i]), author, language, year)
  {
    var tests := OperandTests(terms, author, language, year);
    AllOfSpec(tests, b);
    forall i | 0 <= i < |terms|
      ensures b in Searched(rows, Trim(terms[i]), author, language, year) <==> b in rows && tests[i](b)
    {
      FilterMembers(rows, tests[i]);
    }
  }

  /** The result keeps the first operand's order: it is a filter of the first operand's results. */
  lemma BooleanKeepsFirstOrder(rows: seq<Book>, query: string,
                               author: Option<string>, language: Option<string>, year: Option<int>)
    requires |Operands(query)| > 0
    ensures var terms := Operands(query);
            var tests := OperandTests(terms, author, language, year);
            BooleanResult(rows, query, author, language, year) ==
            Some(Filter(Searched(rows, Trim(terms[0]), author, language, year), AllTest(tests)))
  {
    var terms := Operands(query);
    var tests := OperandTests(terms, author, language, year);
    NarrowBySpec(rows, tests);
    FilterFilter(rows, tests[0], AllTest(tests));
    forall b: Book {
      AllOfSpec(tests, b);
    }
    FilterCongruent(rows, Both(tests[0], AllTest(tests)), AllTest(tests));
  }

  /** A query with a single operand is a plain search for it. */
  lemma BooleanSingleOperand(rows: seq<Book>, query: string,
                             author: Option<string>, language: Option<string>, year: Option<int>)
    requires |Operands(query)| == 1
    ensures BooleanResult(rows, query, author, language, year) ==
            Some(Searched(rows, Trim(Operands(query)[0]), author, language, year))
  {
  }

  /** "and" alone splits into no operands, so `terms[0]` throws. */
  lemma BooleanWithoutOperands(rows: seq<Book>)
    ensures BooleanResult(rows, "AND", None, None, None) == None
  {
    var lowered := ToLower("AND");
    assert lowered == "and";
    assert OccursAt(lowered, "and", 0);
    assert IndexOf(lowered, "and") == 0;
    assert IndexOf("", "and") == -1;
    assert LiteralFields(lowered, "and") == ["", ""];
  }

  function TermTest(term: string): Book -> bool {
    b => HasTerm(b, term)
  }

  /** What `searchByYearRange` returns: the range rows, narrowed by the term when one is given. */
  function RangeResult(rows: seq<Book>, startYear: int, endYear: int, term: Option<string>): seq<Book> {
    var raw := YearRange(rows, startYear, endYear);
    if term.None? || IsBlank(term.value) then raw
    else Filter(raw, TermTest(term.value))
  }

  /**
   * A row is returned exactly when its year is in the inclusive range and, for a
   * non-blank term, its content contains the term ignoring case; no other filter applies.
   */
  lemma RangeResultSpec(rows: seq<Book>, startYear: int, endYear: int, term: Option<string>)
    ensures forall b :: b in RangeResult(rows, startYear, endYear, term) <==>
              && b in rows && startYear <= b.year <= endYear
              && (Given(term) ==> Contains(ToLower(b.content), ToLower(term.value)))
  {
    YearRangeSpec(rows, startYear, endYear);
    if Given(term) {
      FilterMembers(YearRange(rows, startYear, endYear), TermTest(term.value));
    }
  }

  /** The first operand's search starts the narrowing. */
  lemma BooleanFirst(rows: seq<Book>, terms: seq<string>,
                     author: Option<string>, language: Option<string>, year: Option<int>)
    requires |terms| > 0
    ensures Searched(rows, Trim(terms[0]), author, language, year) == NarrowBy(rows, OperandTests(terms, author, language, year)[..1])
  {
    var tests := OperandTests(terms, author, language, year);
    var first := tests[..1];
    assert |first| == 1 && first[0] == tests[0];
    assert NarrowBy(rows, first) == Filter(rows, tests[0]);
    OperandSearch(rows, terms, 0, author, language, year);
  }

  /** `retainAll` with operand `i`'s search narrows by one more test. */
  lemma BooleanNext(rows: seq<Book>, terms: seq<string>, i: nat,
                    author: Option<string>, language: Option<string>, year: Option<int>, list: seq<Book>)
    requires 0 < i < |terms|
    requires list == NarrowBy(rows, OperandTests(terms, author, language, year)[..i])
    ensures RetainAll(list, Searched(rows, Trim(terms[i]), author, language, year))
            == NarrowBy(rows, OperandTests(terms, author, language, year)[..i + 1])
  {
    OperandSearch(rows, terms, i, author, language, year);
    NarrowByStep(rows, OperandTests(terms, author, language, year), i);
  }

  /** After the last operand the narrowing has used every test. */
  lemma BooleanLast(rows: seq<Book>, terms: seq<string>,
                    author: Option<string>, language: Option<string>, year: Option<int>)
    requires |terms| > 0
    ensures NarrowBy(rows, OperandTests(terms, author, language, year)[..|terms|])
            == NarrowBy(rows, OperandTests(terms, author, language, year))
  {
    assert OperandTests(terms, author, language, year)[..|terms|] == OperandTests(terms, author, language, year);
  }

  class SearchEngine {
    const repo: Datamart

    constructor(repository: Datamart)
      ensures repo == repository
    {
      repo := repository;
    }

    /** `search`: the rows of `allBooks` that match, in table order. */
    method Search(term: string, author: Option<string>, language: Option<string>, year: Option<int>)
      returns (results: seq<Book>)
      ensures results == Searched(repo.rows, term, author, language, year)
    {
      var lowered := ToLower(term);
      var books := repo.AllBooks();
      results := [];
      for i := 0 to |books|
        invariant results == Searched(books[..i], term, author, language, year)
      {
        assert books[..i + 1][..i] == books[..i];
        var b := books[i];
        var content := ToLower(b.content);
        if !Contains(content, lowered) {
          continue;
        }
        if author.Some? && !IsBlank(author.value) {
          if !Contains(ToLower(b.author), ToLower(author.value)) {
            continue;
          }
        }
        if language.Some? && !IsBlank(language.value) {
          if !EqualsIgnoreCase(b.language, language.value) {
            continue;
          }
        }
        if year.Some? {
          if IntToString(b.year) != IntToString(year.value) {
            continue;
          }
        }
        results := results + [b];
      }
      assert books[..|books|] == books;
    }

    /** `searchPhrase` is `search` under another name. */
    method SearchPhrase(phrase: string, author: Option<string>, language: Option<string>, year: Option<int>)
      returns (results: seq<Book>)
      ensures results == Searched(repo.rows, phrase, author, language, year)
    {
      results := Search(phrase, author, language, year);
    }

    /** `booleanSearch`: search the first operand, then `retainAll` the results of each further one. */
    method BooleanSearch(query: string, author: Option<string>, language: Option<string>, year: Option<int>)
      returns (result: Option<seq<Book>>)
      ensures result == BooleanResult(repo.rows, query, author, language, year)
    {
      var terms := SplitLiteral(ToLower(query), "and");
      if |terms| == 0 {
        return None;
      }
      var list := Search(Trim(terms[0]), author, language, year);
      BooleanFirst(repo.rows, terms, author, language, year);
      for i := 1 to |terms|
        invariant list == NarrowBy(repo.rows, OperandTests(terms, author, language, year)[..i])
      {
        var next := Search(Trim(terms[i]), author, language, year);
        BooleanNext(repo.rows, terms, i, author, language, year, list);
        list := RetainAll(list, next);
      }
      BooleanLast(repo.rows, terms, author, language, year);
      return Some(list);
    }

    /** `searchByYearRange`: the range rows, then, for a non-blank term, those whose content contains it. */
    method SearchByYearRange(startYear: int, endYear: int, term: Option<string>) returns (out: seq<Book>)
      ensures out == RangeResult(repo.rows, startYear, endYear, term)
    {
      var raw := repo.QueryByYearRange(startYear, endYear);
      if term.None? || IsBlank(term.value) {
        return raw;
      }
      var lowered := ToLower(term.value);
      out := [];
      for i := 0 to |raw|
        invariant out == Filter(raw[..i], TermTest(term.value))
      {
        assert raw[..i + 1][..i] == raw[..i];
        if Contains(ToLower(raw[i].content), lowered) {
          out := out + [raw[i]];
        }
      }
      assert raw[..|raw|] == raw;
    }
  }
}
