/**
 * The console front end of the search service: `parseQuery` turns one input line into a
 * structured query (filter tokens first, then the mode in the order phrase, range, bool,
 * basic), and `execute` dispatches that query to the search engine.
 */
module LocalCli {
  import opened Wrappers
  import opened JavaInt
  import opened JavaString
  import opened JavaSplit
  import opened SearchDatamart
  import opened AdvancedSearch

  datatype Mode = Basic | Phrase | Boolean | Range

  /** The parsed query; `None` stands for a Java `null` field. */
  datatype Query = Query(mode: Mode, term: Option<string>, phrase: Option<string>, booleanExpr: Option<string>,
                         startYear: Option<int>, endYear: Option<int>,
                         author: Option<string>, language: Option<string>, year: Option<int>)

  const AuthorKey := "author:"
  const LanguageKey := "language:"
  const YearKey := "year:"
  const PhrasePrefix := "phrase:"
  const RangePrefix := "range:"
  const BoolPrefix := "bool:"

  // ---------------------------------------------------------------------------
  // Small helpers: trimToNull, parseIntOrNull, the quoted phrase, the range map
  // ---------------------------------------------------------------------------

  /** `trimToNull`: the trimmed text, or `None` for `null` or text that trims to nothing. */
  function TrimToNull(s: Option<string>): (r: Option<string>)
    ensures r.None? <==> s.None? || Trim(s.value) == ""
    ensures r.Some? ==> r.value == Trim(s.value) && Trim(r.value) == r.value
  {
    if s.None? then None
    else
      var t := Trim(s.value);
      TrimIdempotent(s.value);
      if t == "" then None else Some(t)
  }

  /** Applying `trimToNull` to its own result changes nothing. */
  lemma TrimToNullIdempotent(s: Option<string>)
    ensures TrimToNull(TrimToNull(s)) == TrimToNull(s)
  {
    if s.Some? {
      TrimIdempotent(s.value);
    }
  }

  /** `parseIntOrNull`: `None` for `null`, for text that trims to nothing, and where `parseInt` throws. */
  function ParseIntOrNull(s: Option<string>): (r: Option<int>)
    ensures r.Some? ==> s.Some? && IsInt32(r.value) && ParseInt(Trim(s.value)) == r
    ensures s.Some? && ParseInt(Trim(s.value)).Some? ==> r.Some?
  {
    if s.None? || Trim(s.value) == "" then None else ParseInt(Trim(s.value))
  }

  lemma IntToStringEnds(x: int)
    ensures var s := IntToString(x); |s| > 0 && !IsTrimmable(s[0]) && !IsTrimmable(s[|s| - 1])
  {
    var digits := NatToString(if x < 0 then -x else x);
    NatToStringValue(if x < 0 then -x else x);
    assert IsDigit(digits[0]) && IsDigit(digits[|digits| - 1]);
  }

  /** The text of any `int` reads back through `parseIntOrNull`. */
  lemma ParseIntOrNullRoundTrip(x: int)
    requires IsInt32(x)
    ensures ParseIntOrNull(Some(IntToString(x))) == Some(x)
  {
    IntToStringEnds(x);
    TrimNoop(IntToString(x));
    ParseIntRoundTrip(x);
  }

  /**
   * The text after the first case-insensitive occurrence of `prefix`, trimmed, or `None`
   * when `prefix` does not occur: the common first step of `extractQuotedAfterPrefix`
   * and `extractRange`.
   */
  function TailAfter(input: string, prefix: string): (r: Option<string>)
    ensures r.Some? ==> |r.value| <= |input|
  {
    var i := IndexOf(ToLower(input), prefix);
    if i < 0 then None else Some(TextAfter(input, i, prefix))
  }

  /** The text after the occurrence of `prefix` at `i`, trimmed. */
  function TextAfter(input: string, i: int, prefix: string): (r: string)
    requires 0 <= i && i + |prefix| <= |input|
    ensures |r| <= |input|
  {
    Trim(input[i + |prefix|..])
  }

  /** The tail is missing exactly when the prefix occurs nowhere in the lower-cased input. */
  lemma TailAfterNone(input: string, prefix: string)
    ensures TailAfter(input, prefix).None? <==> forall k :: !OccursAt(ToLower(input), prefix, k)
  {
    var low := ToLower(input);
    var i := IndexOf(low, prefix);
    if i >= 0 {
      assert OccursAt(low, prefix, i);
    }
  }

  /** The tail is the trimmed text after the first occurrence of the prefix. */
  lemma TailAfterFirst(input: string, prefix: string, i: int)
    requires OccursAt(ToLower(input), prefix, i)
    requires forall k :: 0 <= k < i ==> !OccursAt(ToLower(input), prefix, k)
    ensures TailAfter(input, prefix) == Some(TextAfter(input, i, prefix))
  {
    IndexOfFromAt(ToLower(input), prefix, 0, i);
  }

  /** `extractQuotedAfterPrefix`: the quoted text after `prefix`, or else the whole trimmed tail. */
  function ExtractQuotedAfterPrefix(input: string, prefix: string): (r: Option<string>)
  {
    match TailAfter(input, prefix)
    case None => None
    case Some(after) =>
      if StartsWith(after, "\"") && IndexOfFrom(after, "\"", 1) > 1 then Some(after[1..IndexOfFrom(after, "\"", 1)])
      else if after == "" then None
      else Some(after)
  }

  /**
   * The result is `None` exactly when the prefix is absent or nothing follows it; otherwise
   * it is non-empty and either the whole tail or the text between the tail's opening quote
   * and the next quote.
   */
  lemma ExtractQuotedSpec(input: string, prefix: string)
    ensures var t := TailAfter(input, prefix);
            var r := ExtractQuotedAfterPrefix(input, prefix);
            && (r.None? <==> t.None? || t.value == "")
            && (r.Some? ==> && r.value != ""
                            && (|| r.value == t.value
                                || (&& |r.value| + 1 < |t.value|
                                    && t.value[0] == '"' && t.value[|r.value| + 1] == '"'
                                    && r.value == t.value[1..|r.value| + 1]
                                    && '"' !in r.value)))
  {
    var t := TailAfter(input, prefix);
    if t.Some? && StartsWith(t.value, "\"") && IndexOfFrom(t.value, "\"", 1) > 1 {
      QuotedPart(t.value);
    }
  }

  /** The text between a tail's opening quote and the next quote holds no quote. */
  lemma QuotedPart(after: string)
    requires StartsWith(after, "\"") && IndexOfFrom(after, "\"", 1) > 1
    ensures var j := IndexOfFrom(after, "\"", 1);
            && j < |after| && after[0] == '"' && after[j] == '"' && '"' !in after[1..j]
  {
    var j := IndexOfFrom(after, "\"", 1);
    assert after[j..j + 1] == "\"";
    assert after[..1] == "\"";
    var between := after[1..j];
    forall k | 0 <= k < |between|
      ensures between[k] != '"'
    {
      assert !OccursAt(after, "\"", k + 1);
      assert after[k + 1..k + 2] == [between[k]];
    }
  }

  /** A quoted phrase without quotes inside comes back unchanged. */
  lemma PhraseRoundTrip(p: string)
    requires p != "" && '"' !in p
    ensures ExtractQuotedAfterPrefix(PhrasePrefix + "\"" + p + "\"", PhrasePrefix) == Some(p)
  {
    var after := "\"" + p + "\"";
    var input := PhrasePrefix + after;
    PrefixAtStart(input, PhrasePrefix);
    TailAfterFirst(input, PhrasePrefix, 0);
    assert input[|PhrasePrefix|..] == after;
    TrimNoop(after);
    ClosingQuote(p);
    ExtractQuotedClosed(input, PhrasePrefix, after, |p| + 1);
    assert after[1..|p| + 1] == p;
    assert input == PhrasePrefix + "\"" + p + "\"";
  }

  /** A tail that opens with a quote closed further on yields the text between the quotes. */
  lemma ExtractQuotedClosed(input: string, prefix: string, after: string, j: int)
    requires TailAfter(input, prefix) == Some(after)
    requires |after| > 0 && after[0] == '"'
    requires 1 < j && IndexOfFrom(after, "\"", 1) == j
    ensures ExtractQuotedAfterPrefix(input, prefix) == Some(after[1..j])
  {
    assert StartsWith(after, "\"");
  }

  /** Lower-casing leaves the lower-case prefixes unchanged, so each is found where it stands. */
  lemma PrefixAtStart(input: string, prefix: string)
    requires prefix in {PhrasePrefix, RangePrefix, BoolPrefix}
    requires StartsWith(input, prefix)
    ensures IndexOf(ToLower(input), prefix) == 0
  {
    var low := ToLower(input);
    forall k | 0 <= k < |prefix|
      ensures low[k] == prefix[k]
    {
      assert input[k] == prefix[k];
    }
    assert low[..|prefix|] == prefix;
    IndexOfFromAt(low, prefix, 0, 0);
  }

  /** The next quote after the opening one of `"p"` closes it, when `p` holds no quote. */
  lemma ClosingQuote(p: string)
    requires '"' !in p
    ensures IndexOfFrom("\"" + p + "\"", "\"", 1) == |p| + 1
  {
    var after := "\"" + p + "\"";
    assert after[|p| + 1..|p| + 2] == "\"";
    forall k | 1 <= k < |p| + 1
      ensures !OccursAt(after, "\"", k)
    {
      assert after[k..k + 1][0] == p[k - 1];
    }
    IndexOfFromAt(after, "\"", 1, |p| + 1);
  }

  /** `part.split("=", 2)` for a part that contains '=': the text before and after the first '='. */
  function SplitOnce(part: string): (kv: (string, string))
    requires Contains(part, "=")
  {
    var i := IndexOf(part, "=");
    (part[..i], part[i + 1..])
  }

  /** The two halves and the '=' between them give the part back; the key half holds no '='. */
  lemma SplitOnceJoin(part: string)
    requires Contains(part, "=")
    ensures var kv := SplitOnce(part); part == kv.0 + "=" + kv.1 && '=' !in kv.0
  {
    var i := IndexOf(part, "=");
    assert OccursAt(part, "=", i);
    forall k | 0 <= k < i
      ensures part[k] != '='
    {
      assert !OccursAt(part, "=", k);
    }
    assert part == part[..i] + "=" + part[i + 1..];
  }

  predicate IsPair(part: string) {
    Contains(part, "=")
  }

  /** The map key of a pair: the half before '=', trimmed and lower-cased. */
  function KeyOf(part: string): string
    requires IsPair(part)
  {
    ToLower(Trim(SplitOnce(part).0))
  }

  /** The map value of a pair: the half after '=', trimmed. */
  function ValueOf(part: string): string
    requires IsPair(part)
  {
    Trim(SplitOnce(part).1)
  }

  /** The map that `extractRange` builds from its parts, each pair put in turn. */
  function PartsMap(parts: seq<string>): map<string, string>
    decreases |parts|
  {
    if parts == [] then map[]
    else
      var m := PartsMap(parts[..|parts| - 1]);
      var part := parts[|parts| - 1];
      if IsPair(part) then m[KeyOf(part) := ValueOf(part)] else m
  }

  /** The keys are exactly the keys of the parts that hold an '='. */
  lemma {:induction false} PartsMapKeys(parts: seq<string>)
    ensures forall key :: key in PartsMap(parts) <==>
              exists j :: 0 <= j < |parts| && IsPair(parts[j]) && KeyOf(parts[j]) == key
    decreases |parts|
  {
    if parts != [] {
      var init := parts[..|parts| - 1];
      PartsMapKeys(init);
      assert forall j :: 0 <= j < |init| ==> init[j] == parts[j];
    }
  }

  /** A key maps to the value of the last part that names it: a later duplicate overwrites. */
  lemma {:induction false} PartsMapLastWins(parts: seq<string>, j: nat)
    requires j < |parts| && IsPair(parts[j])
    requires forall k :: j < k < |parts| && IsPair(parts[k]) ==> KeyOf(parts[k]) != KeyOf(parts[j])
    ensures KeyOf(parts[j]) in PartsMap(parts) && PartsMap(parts)[KeyOf(parts[j])] == ValueOf(parts[j])
    decreases |parts|
  {
    if j < |parts| - 1 {
      var init := parts[..|parts| - 1];
      assert init[j] == parts[j];
      forall k | j < k < |init| && IsPair(init[k])
        ensures KeyOf(init[k]) != KeyOf(init[j])
      {
        assert init[k] == parts[k];
      }
      PartsMapLastWins(init, j);
    }
  }

  /** The map `extractRange` returns: empty without "range:", else the pairs of the tail. */
  function RangeMap(input: string): map<string, string> {
    match TailAfter(input, RangePrefix)
    case None => map[]
    case Some(tail) => PartsMap(SplitRuns(tail, CommaOrWhitespace))
  }

  /** `extractRange`: puts the pairs of the text after "range:" into a map, in order. */
  method ExtractRange(input: string) returns (m: map<string, string>)
    ensures m == RangeMap(input)
  {
    m := map[];
    var low := ToLower(input);
    var i := IndexOf(low, RangePrefix);
    if i < 0 {
      return;
    }
    var tail := TextAfter(input, i, RangePrefix);
    assert TailAfter(input, RangePrefix) == Some(tail);
    var parts := SplitRuns(tail, CommaOrWhitespace);
    for k := 0 to |parts|
      invariant m == PartsMap(parts[..k])
    {
      PartsMapStep(parts, k);
      var part := parts[k];
      if Contains(part, "=") {
        var kv := SplitOnce(part);
        m := m[ToLower(Trim(kv.0)) := Trim(kv.1)];
      }
    }
    assert parts[..|parts|] == parts;
  }

  lemma PartsMapStep(parts: seq<string>, k: nat)
    requires k < |parts|
    ensures PartsMap(parts[..k + 1]) ==
            if IsPair(parts[k]) then PartsMap(parts[..k])[KeyOf(parts[k]) := ValueOf(parts[k])] else PartsMap(parts[..k])
  {
    assert parts[..k + 1][..k] == parts[..k];
  }

  /** `Map.get`. */
  function Get(m: map<string, string>, key: string): Option<string> {
    if key in m then Some(m[key]) else None
  }

  // ---------------------------------------------------------------------------
  // The filter-token scan of parseQuery
  // ---------------------------------------------------------------------------

  /** The variables the token loop updates. */
  datatype Filters = Filters(author: Option<string>, language: Option<string>, year: Option<int>, remaining: string)

  function Initial(input: string): Filters {
    Filters(None, None, None, input)
  }

  /** The token, lower-cased, starts with `key`. */
  predicate HasKey(token: string, key: string) {
    StartsWith(ToLower(token), key)
  }

  predicate SetsAuthor(token: string) {
    HasKey(token, AuthorKey)
  }

  predicate SetsLanguage(token: string) {
    !HasKey(token, AuthorKey) && HasKey(token, LanguageKey)
  }

  /** A `year:` token whose value parses; a malformed one sets nothing. */
  predicate SetsYear(token: string) {
    && !HasKey(token, AuthorKey) && !HasKey(token, LanguageKey) && HasKey(token, YearKey)
    && ParseInt(token[|YearKey|..]).Some?
  }

  /** One pass of the token loop: a filter token sets its filter and is cut out of `remaining`. */
  function FilterStep(f: Filters, token: string): (g: Filters)
    ensures |g.remaining| <= |f.remaining|
    ensures !SetsAuthor(token) && !SetsLanguage(token) && !SetsYear(token) ==> g == f
  {
    if HasKey(token, AuthorKey) then
      f.(author := Some(token[|AuthorKey|..]), remaining := Trim(RemoveAll(f.remaining, token)))
    else if HasKey(token, LanguageKey) then
      f.(language := Some(token[|LanguageKey|..]), remaining := Trim(RemoveAll(f.remaining, token)))
    else if HasKey(token, YearKey) then
      match ParseInt(token[|YearKey|..])
      case Some(y) => f.(year := Some(y), remaining := Trim(RemoveAll(f.remaining, token)))
      case None => f
    else f
  }

  /** A filter token is never empty: it starts with its key. */
  lemma FilterTokenNonEmpty(token: string, key: string)
    requires |key| > 0 && HasKey(token, key)
    ensures |token| > 0
  {
    assert |ToLower(token)| == |token|;
  }

  /** An author token is removed from `remaining`, which is then trimmed. */
  lemma AuthorTokenCut(f: Filters, token: string)
    requires SetsAuthor(token)
    ensures |token| > 0 && FilterStep(f, token).remaining == Trim(RemoveAll(f.remaining, token))
  {
    FilterTokenNonEmpty(token, AuthorKey);
  }

  /** A language token is removed from `remaining`, which is then trimmed. */
  lemma LanguageTokenCut(f: Filters, token: string)
    requires SetsLanguage(token)
    ensures |token| > 0 && FilterStep(f, token).remaining == Trim(RemoveAll(f.remaining, token))
  {
    FilterTokenNonEmpty(token, LanguageKey);
  }

  /** A well-formed year token is removed from `remaining`, which is then trimmed. */
  lemma YearTokenCut(f: Filters, token: string)
    requires SetsYear(token)
    ensures |token| > 0 && FilterStep(f, token).remaining == Trim(RemoveAll(f.remaining, token))
  {
    FilterTokenNonEmpty(token, YearKey);
  }

  /**
   * A filter token is cut out of `remaining` at every non-overlapping occurrence, scanning left
   * to right: what is left is the trimmed concatenation of the pieces between them.
   */
  lemma FilterStepRemoves(f: Filters, token: string)
    requires SetsAuthor(token) || SetsLanguage(token) || SetsYear(token)
    ensures |token| > 0
    ensures FilterStep(f, token).remaining == Trim(Join(LiteralFields(f.remaining, token), ""))
  {
    if SetsAuthor(token) {
      AuthorTokenCut(f, token);
    } else if SetsLanguage(token) {
      LanguageTokenCut(f, token);
    } else {
      YearTokenCut(f, token);
    }
    RemoveAllJoin(f.remaining, token);
  }

  /** The token loop over `tokens`, from the state `f`. */
  function ScanFilters(f: Filters, tokens: seq<string>): (g: Filters)
    ensures |g.remaining| <= |f.remaining|
    decreases |tokens|
  {
    if tokens == [] then f else FilterStep(ScanFilters(f, tokens[..|tokens| - 1]), tokens[|tokens| - 1])
  }

  /** One more token is one more step of the loop. */
  lemma ScanSnoc(f: Filters, tokens: seq<string>, n: nat)
    requires n < |tokens|
    ensures ScanFilters(f, tokens[..n + 1]) == FilterStep(ScanFilters(f, tokens[..n]), tokens[n])
  {
    assert tokens[..n + 1][..n] == tokens[..n];
  }

  /** The author filter is the value of the last author token, or unchanged without one. */
  lemma {:induction false} ScanAuthor(f: Filters, tokens: seq<string>, j: int)
    requires -1 <= j < |tokens|
    requires j >= 0 ==> SetsAuthor(tokens[j])
    requires forall k :: j < k < |tokens| ==> !SetsAuthor(tokens[k])
    ensures ScanFilters(f, tokens).author == if j < 0 then f.author else Some(tokens[j][|AuthorKey|..])
    decreases |tokens|
  {
    if tokens != [] && j < |tokens| - 1 {
      var init := tokens[..|tokens| - 1];
      assert forall k :: 0 <= k < |init| ==> init[k] == tokens[k];
      ScanAuthor(f, init, j);
    }
  }

  /** The language filter is the value of the last language token, or unchanged without one. */
  lemma {:induction false} ScanLanguage(f: Filters, tokens: seq<string>, j: int)
    requires -1 <= j < |tokens|
    requires j >= 0 ==> SetsLanguage(tokens[j])
    requires forall k :: j < k < |tokens| ==> !SetsLanguage(tokens[k])
    ensures ScanFilters(f, tokens).language == if j < 0 then f.language else Some(tokens[j][|LanguageKey|..])
    decreases |tokens|
  {
    if tokens != [] && j < |tokens| - 1 {
      var init := tokens[..|tokens| - 1];
      assert forall k :: 0 <= k < |init| ==> init[k] == tokens[k];
      ScanLanguage(f, init, j);
    }
  }

  /**
   * The year filter is the value of the last well-formed year token; malformed year
   * tokens are skipped, so without a well-formed one it stays unchanged.
   */
  lemma {:induction false} ScanYear(f: Filters, tokens: seq<string>, j: int)
    requires -1 <= j < |tokens|
    requires j >= 0 ==> SetsYear(tokens[j])
    requires forall k :: j < k < |tokens| ==> !SetsYear(tokens[k])
    ensures ScanFilters(f, tokens).year == if j < 0 then f.year else ParseInt(tokens[j][|YearKey|..])
    decreases |tokens|
  {
    if tokens != [] && j < |tokens| - 1 {
      var init := tokens[..|tokens| - 1];
      assert forall k :: 0 <= k < |init| ==> init[k] == tokens[k];
      ScanYear(f, init, j);
    }
  }

  /** A malformed `year:` token changes nothing: the year stays and the token stays in `remaining`. */
  lemma MalformedYearIgnored(f: Filters, token: string)
    requires HasKey(token, YearKey) && ParseInt(token[|YearKey|..]).None?
    ensures FilterStep(f, token) == f
  {
    var lowered := ToLower(token);
    assert lowered[0] == 'y';
    assert !HasKey(token, AuthorKey) && !HasKey(token, LanguageKey);
  }

  // ---------------------------------------------------------------------------
  // Mode detection and parseQuery
  // ---------------------------------------------------------------------------

  /** Exactly the fields of the query's mode are set, as `parseQuery` builds them. */
  predicate WellFormed(q: Query) {
    match q.mode
    case Phrase =>
      q.phrase.Some? && q.phrase.value != "" && q.term.None? && q.booleanExpr.None? && q.startYear.None? && q.endYear.None?
    case Range =>
      && q.startYear.Some? && q.endYear.Some? && q.phrase.None? && q.booleanExpr.None?
      && (q.term.Some? ==> q.term.value != "" && Trim(q.term.value) == q.term.value)
    case Boolean =>
      q.booleanExpr.Some? && q.term.None? && q.phrase.None? && q.startYear.None? && q.endYear.None?
    case Basic =>
      q.term.Some? && q.phrase.None? && q.booleanExpr.None? && q.startYear.None? && q.endYear.None?
  }

  predicate HasPhrase(remaining: string) {
    var t := TailAfter(remaining, PhrasePrefix);
    t.Some? && t.value != ""
  }

  predicate HasRange(remaining: string) {
    var range := RangeMap(remaining);
    ParseIntOrNull(Get(range, "start")).Some? && ParseIntOrNull(Get(range, "end")).Some?
  }

  predicate HasBool(remaining: string) {
    StartsWith(ToLower(remaining), BoolPrefix)
  }

  /** The mode decision of `parseQuery` on the text left after the filter tokens. */
  function Classify(f: Filters): (q: Query)
    ensures WellFormed(q)
    ensures q.author == f.author && q.language == f.language && q.year == f.year
  {
    var phrase := ExtractQuotedAfterPrefix(f.remaining, PhrasePrefix);
    if phrase.Some? then
      ExtractQuotedSpec(f.remaining, PhrasePrefix);
      Query(Phrase, None, phrase, None, None, None, f.author, f.language, f.year)
    else
      var range := RangeMap(f.remaining);
      var start := ParseIntOrNull(Get(range, "start"));
      var end := ParseIntOrNull(Get(range, "end"));
      if |range| > 0 && start.Some? && end.Some? then
        var term := TrimToNull(Get(range, "q"));
        Query(Range, term, None, None, start, end, f.author, f.language, f.year)
      else if StartsWith(ToLower(f.remaining), BoolPrefix) then
        Query(Boolean, None, None, Some(Trim(f.remaining[|BoolPrefix|..])), None, None, f.author, f.language, f.year)
      else
        Query(Basic, Some(Trim(f.remaining)), None, None, None, None, f.author, f.language, f.year)
  }

  /** What `parseQuery` returns. */
  function QueryOf(input: string): Query {
    Classify(ScanFilters(Initial(input), SplitRuns(input, Whitespace)))
  }

  /** Mode precedence: phrase, then range, then bool, then basic; the first that applies wins. */
  lemma ModePrecedence(f: Filters)
    ensures var q := Classify(f);
            var r := f.remaining;
            && (q.mode == Phrase <==> HasPhrase(r))
            && (q.mode == Range <==> !HasPhrase(r) && HasRange(r))
            && (q.mode == Boolean <==> !HasPhrase(r) && !HasRange(r) && HasBool(r))
            && (q.mode == Basic <==> !HasPhrase(r) && !HasRange(r) && !HasBool(r))
  {
    ExtractQuotedSpec(f.remaining, PhrasePrefix);
  }

  /** `parseQuery`: the token loop over the whitespace-split input, then the mode decision. */
  method ParseQuery(input: string) returns (q: Query)
    ensures q == QueryOf(input)
  {
    var author: Option<string> := None;
    var language: Option<string> := None;
    var year: Option<int> := None;
    var remaining := input;
    var tokens := SplitRuns(input, Whitespace);
    for i := 0 to |tokens|
      invariant Filters(author, language, year, remaining) == ScanFilters(Initial(input), tokens[..i])
    {
      ScanSnoc(Initial(input), tokens, i);
      var token := tokens[i];
      var lower := ToLower(token);
      if StartsWith(lower, AuthorKey) {
        author := Some(token[|AuthorKey|..]);
        remaining := Trim(RemoveAll(remaining, token));
      } else if StartsWith(lower, LanguageKey) {
        language := Some(token[|LanguageKey|..]);
        remaining := Trim(RemoveAll(remaining, token));
      } else if StartsWith(lower, YearKey) {
        var parsed := ParseInt(token[|YearKey|..]);
        if parsed.Some? {
          year := parsed;
          remaining := Trim(RemoveAll(remaining, token));
        }
      }
    }
    assert tokens[..|tokens|] == tokens;
    ghost var f := Filters(author, language, year, remaining);
    assert QueryOf(input) == Classify(f);

    var phrase := ExtractQuotedAfterPrefix(remaining, PhrasePrefix);
    if phrase.Some? {
      return Query(Phrase, None, phrase, None, None, None, author, language, year);
    }
    var range := ExtractRange(remaining);
    if |range| > 0 {
      var start := ParseIntOrNull(Get(range, "start"));
      var end := ParseIntOrNull(Get(range, "end"));
      var term := TrimToNull(Get(range, "q"));
      if start.Some? && end.Some? {
        return Query(Range, term, None, None, start, end, author, language, year);
      }
    }
    if StartsWith(ToLower(remaining), BoolPrefix) {
      var expr := Trim(remaining[|BoolPrefix|..]);
      return Query(Boolean, None, None, Some(expr), None, None, author, language, year);
    }
    return Query(Basic, Some(Trim(remaining)), None, None, None, None, author, language, year);
  }

  // ---------------------------------------------------------------------------
  // displayQuery
  // ---------------------------------------------------------------------------

  /** String concatenation of an `Integer`: its decimal text, or "null". */
  function IntegerText(x: Option<int>): string {
    if x.None? then "null" else IntToString(x.value)
  }

  /** `displayQuery`: the text shown above the results; `None` is a `null` term. */
  function DisplayQuery(q: Query): Option<string> {
    match q.mode
    case Phrase => q.phrase
    case Boolean => q.booleanExpr
    case Range =>
      var base := IntegerText(q.startYear) + "-" + IntegerText(q.endYear);
      Some(if q.term.None? then base else base + " q=" + q.term.value)
    case Basic => q.term
  }

  /** A range without a term is shown as "start-end", from which both years read back. */
  lemma DisplayRangeRoundTrip(q: Query)
    requires q.mode == Range && q.term.None? && q.startYear.Some? && q.endYear.Some?
    requires 0 <= q.startYear.value && IsInt32(q.startYear.value) && IsInt32(q.endYear.value)
    ensures var d := DisplayQuery(q).value;
            var k := IndexOf(d, "-");
            && k == |IntToString(q.startYear.value)|
            && ParseInt(d[..k]) == Some(q.startYear.value)
            && ParseInt(d[k + 1..]) == Some(q.endYear.value)
  {
    var s := IntToString(q.startYear.value);
    var e := IntToString(q.endYear.value);
    var d := DisplayQuery(q).value;
    assert d == s + "-" + e;
    NatToStringValue(q.startYear.value);
    assert d[|s|..|s| + 1] == "-";
    forall k | 0 <= k < |s|
      ensures !OccursAt(d, "-", k)
    {
      assert d[k..k + 1][0] == s[k] && IsDigit(s[k]);
    }
    IndexOfFromAt(d, "-", 0, |s|);
    assert d[..|s|] == s;
    assert d[|s| + 1..] == e;
    ParseIntRoundTrip(q.startYear.value);
    ParseIntRoundTrip(q.endYear.value);
  }

  // ---------------------------------------------------------------------------
  // execute
  // ---------------------------------------------------------------------------

  /**
   * What `execute` returns over the table `rows`; `None` is an exception: a `null` field
   * the mode needs, or a boolean expression without operands. A range with a term is
   * answered by `searchByYearRange`, so each row is judged by its own content.
   */
  function Executed(rows: seq<Book>, q: Query): Option<seq<Book>> {
    match q.mode
    case Phrase =>
      if q.phrase.None? then None else Some(Searched(rows, q.phrase.value, q.author, q.language, q.year))
    case Boolean =>
      if q.booleanExpr.None? then None else BooleanResult(rows, q.booleanExpr.value, q.author, q.language, q.year)
    case Range =>
      if q.startYear.None? || q.endYear.None? then None
      else Some(RangeResult(rows, q.startYear.value, q.endYear.value, q.term))
    case Basic =>
      if q.term.None? then None else Some(Searched(rows, q.term.value, q.author, q.language, q.year))
  }

  /**
   * A parsed query always runs; the only failure left is a boolean expression that splits
   * into no operands.
   */
  lemma ExecuteWellFormed(rows: seq<Book>, q: Query)
    requires WellFormed(q)
    ensures Executed(rows, q).None? <==> q.mode == Boolean && |Operands(q.booleanExpr.value)| == 0
  {
    if q.mode == Boolean {
      BooleanResultSpec(rows, q.booleanExpr.value, q.author, q.language, q.year);
    }
  }

  /** Every line the console reads yields results, unless it is a boolean query without operands. */
  lemma ParsedQueryRuns(rows: seq<Book>, input: string)
    ensures var q := QueryOf(input);
            Executed(rows, q).None? <==> q.mode == Boolean && |Operands(q.booleanExpr.value)| == 0
  {
    ExecuteWellFormed(rows, QueryOf(input));
  }

  /**
   * In range mode the result is the rows whose year is in the inclusive range and, when a
   * term is given, whose own content contains it; the author, language and year filters
   * play no part.
   */
  lemma ExecuteRangeSpec(rows: seq<Book>, q: Query)
    requires WellFormed(q) && q.mode == Range
    ensures var r := Executed(rows, q);
            && r.Some?
            && forall b :: b in r.value <==>
                 && b in rows && q.startYear.value <= b.year <= q.endYear.value
                 && (Given(q.term) ==> Contains(ToLower(b.content), ToLower(q.term.value)))
  {
    assert Executed(rows, q) == Some(RangeResult(rows, q.startYear.value, q.endYear.value, q.term));
    RangeResultSpec(rows, q.startYear.value, q.endYear.value, q.term);
  }

  /** `execute`: dispatch on the mode. */
  method Execute(q: Query, engine: SearchEngine) returns (r: Option<seq<Book>>)
    ensures r == Executed(engine.repo.rows, q)
  {
    match q.mode {
      case Phrase =>
        if q.phrase.None? {
          return None;
        }
        var list := engine.SearchPhrase(q.phrase.value, q.author, q.language, q.year);
        return Some(list);
      case Boolean =>
        if q.booleanExpr.None? {
          return None;
        }
        r := engine.BooleanSearch(q.booleanExpr.value, q.author, q.language, q.year);
      case Range =>
        if q.startYear.None? || q.endYear.None? {
          return None;
        }
        var list := engine.SearchByYearRange(q.startYear.value, q.endYear.value, q.term);
        return Some(list);
      case Basic =>
        if q.term.None? {
          return None;
        }
        var list := engine.Search(q.term.value, q.author, q.language, q.year);
        return Some(list);
    }
  }

  // ---------------------------------------------------------------------------
  // The range-with-term filter as the source writes it
  // ---------------------------------------------------------------------------

  /**
   * The source keeps a range row when a search for the term restricted to the row's
   * author, language and year finds any row at all, not necessarily this one.
   */
  function KeptAsWritten(rows: seq<Book>, term: string): Book -> bool {
    (b: Book) => Searched(rows, term, Some(b.author), Some(b.language), Some(b.year)) != []
  }

  /** The range-with-term branch of `execute` as written. */
  function RangeAsWritten(rows: seq<Book>, startYear: int, endYear: int, term: string): seq<Book> {
    Filter(YearRange(rows, startYear, endYear), KeptAsWritten(rows, term))
  }

  /**
   * Two books by the same author, in the same language and year: only the first contains
   * "love", yet the range query with q=love keeps both, while `searchByYearRange` keeps
   * the first only.
   */
  lemma RangeAsWrittenKeepsNonMatching()
    ensures var love := Book(1, "Pride", "Austen", "en", 1813, "love");
            var war := Book(2, "Emma", "Austen", "en", 1813, "war");
            var rows := [love, war];
            && RangeAsWritten(rows, 1800, 1850, "love") == rows
            && RangeResult(rows, 1800, 1850, Some("love")) == [love]
  {
    var love := Book(1, "Pride", "Austen", "en", 1813, "love");
    var war := Book(2, "Emma", "Austen", "en", 1813, "war");
    var rows := [love, war];
    assert YearRange(rows, 1800, 1850) == rows by {
      FilterAll(rows, YearTest(1800, 1850));
    }
    SameMetadataHit(rows, love);
    assert KeptAsWritten(rows, "love")(war) == KeptAsWritten(rows, "love")(love);
    FilterAll(rows, KeptAsWritten(rows, "love"));
    OwnContentOnly(rows, love, war);
  }

  /** As written, a range row whose own content holds the term is always kept: its own metadata finds it. */
  lemma OwnHitKeptAsWritten(rows: seq<Book>, term: string, b: Book)
    requires b in rows && HasTerm(b, term)
    ensures KeptAsWritten(rows, term)(b)
  {
    ContainsSelf(ToLower(b.author));
    assert Matches(term, Some(b.author), Some(b.language), Some(b.year), b);
    FilterMembers(rows, MatchTest(term, Some(b.author), Some(b.language), Some(b.year)));
  }

  /**
   * The code as written only adds rows to the intended result: every row `searchByYearRange`
   * returns for a non-blank term is also returned by the range branch of `execute`.
   */
  lemma IntendedWithinAsWritten(rows: seq<Book>, startYear: int, endYear: int, term: string)
    requires !IsBlank(term)
    ensures forall b :: b in RangeResult(rows, startYear, endYear, Some(term)) ==>
              b in RangeAsWritten(rows, startYear, endYear, term)
  {
    var raw := YearRange(rows, startYear, endYear);
    FilterMembers(rows, YearTest(startYear, endYear));
    FilterMembers(raw, TermTest(term));
    FilterMembers(raw, KeptAsWritten(rows, term));
    forall b | b in RangeResult(rows, startYear, endYear, Some(term))
      ensures b in RangeAsWritten(rows, startYear, endYear, term)
    {
      OwnHitKeptAsWritten(rows, term, b);
    }
  }

  /** A search for a row's own term under its own metadata finds that row. */
  lemma SameMetadataHit(rows: seq<Book>, b: Book)
    requires b in rows && b == Book(1, "Pride", "Austen", "en", 1813, "love")
    ensures Searched(rows, "love", Some(b.author), Some(b.language), Some(b.year)) != []
  {
    ContainsSelf(ToLower("love"));
    ContainsSelf(ToLower("Austen"));
    assert Matches("love", Some("Austen"), Some("en"), Some(1813), b);
    FilterMembers(rows, MatchTest("love", Some("Austen"), Some("en"), Some(1813)));
  }

  /** `searchByYearRange` keeps only the row whose own content holds the term. */
  lemma OwnContentOnly(rows: seq<Book>, love: Book, war: Book)
    requires love == Book(1, "Pride", "Austen", "en", 1813, "love")
    requires war == Book(2, "Emma", "Austen", "en", 1813, "war")
    requires rows == [love, war] && YearRange(rows, 1800, 1850) == rows
    ensures RangeResult(rows, 1800, 1850, Some("love")) == [love]
  {
    assert !IsWhitespace("love"[0]);
    ContainsSelf(ToLower("love"));
    assert !Contains(ToLower(war.content), ToLower("love"));
    var keep := TermTest("love");
    assert [love][..0] == [];
    assert Filter([love], keep) == [love];
    assert rows[..1] == [love];
    assert Filter(rows, keep) == Filter([love], keep);
  }

  // ---------------------------------------------------------------------------
  // The worked example "love author:Austen year:1813"
  // ---------------------------------------------------------------------------

  const ExampleTerm := "love"
  const ExampleAuthor := "author:Austen"
  const ExampleYear := "year:1813"
  const ExampleLine := ExampleTerm + " " + ExampleAuthor + " " + ExampleYear

  /** Three words without spaces, separated by single spaces, are the three tokens. */
  lemma ThreeTokens(w1: string, w2: string, w3: string)
    requires forall k :: 0 <= k < |w1| ==> !IsSpace(w1[k])
    requires forall k :: 0 <= k < |w2| ==> !IsSpace(w2[k])
    requires forall k :: 0 <= k < |w3| ==> !IsSpace(w3[k])
    requires w2 != "" && w3 != ""
    ensures SplitRuns(w1 + " " + w2 + " " + w3, Whitespace) == [w1, w2, w3]
  {
    var rest := w2 + " " + w3;
    FieldsAfterWord(w2, Whitespace, ' ', w3);
    FieldsWhole(w3, Whitespace);
    FieldsAfterWord(w1, Whitespace, ' ', rest);
    var s := w1 + " " + w2 + " " + w3;
    assert s == w1 + [' '] + rest;
    assert s[|w1|] == ' ';
    var fs := Fields(s, Whitespace);
    assert fs == [w1, w2, w3];
    assert DropTrailingEmpty(fs) == fs;
  }

  lemma ExampleTokens()
    ensures SplitRuns(ExampleLine, Whitespace) == [ExampleTerm, ExampleAuthor, ExampleYear]
  {
    assert forall k :: 0 <= k < |ExampleTerm| ==> !IsSpace(ExampleTerm[k]);
    assert forall k :: 0 <= k < |ExampleAuthor| ==> !IsSpace(ExampleAuthor[k]);
    assert forall k :: 0 <= k < |ExampleYear| ==> !IsSpace(ExampleYear[k]);
    ThreeTokens(ExampleTerm, ExampleAuthor, ExampleYear);
  }

  /** Removing a token that occurs once, at `i`, splices the text around it. */
  lemma RemoveOnce(s: string, token: string, i: nat)
    requires |token| > 0 && OccursAt(s, token, i)
    requires forall j :: 0 <= j < i ==> !OccursAt(s, token, j)
    requires |s| - (i + |token|) < |token|
    ensures RemoveAll(s, token) == s[..i] + s[i + |token|..]
  {
    IndexOfFromAt(s, token, 0, i);
  }

  lemma ExampleAuthorStep()
    ensures FilterStep(Initial(ExampleLine), ExampleAuthor) ==
            Filters(Some("Austen"), None, None, ExampleTerm + "  " + ExampleYear)
  {
    var lowered := ToLower(ExampleAuthor);
    assert lowered[..7] == AuthorKey;
    assert ExampleAuthor[7..] == "Austen";
    var s := ExampleLine;
    assert s[5..18] == ExampleAuthor;
    forall j | 0 <= j < 5
      ensures !OccursAt(s, ExampleAuthor, j)
    {
      assert s[j..j + 13][0] == s[j] != 'a';
    }
    RemoveOnce(s, ExampleAuthor, 5);
    var r := ExampleTerm + "  " + ExampleYear;
    assert s[..5] + s[18..] == r;
    TrimNoop(r);
  }

  lemma ExampleYearStep(f: Filters)
    requires f.remaining == ExampleTerm + "  " + ExampleYear
    ensures FilterStep(f, ExampleYear) == f.(year := Some(1813), remaining := ExampleTerm)
  {
    ExampleYearKeys();
    ExampleYearRemoved();
  }

  lemma ExampleYearKeys()
    ensures !HasKey(ExampleYear, AuthorKey) && !HasKey(ExampleYear, LanguageKey) && HasKey(ExampleYear, YearKey)
    ensures ParseInt(ExampleYear[|YearKey|..]) == Some(1813)
  {
    var lowered := ToLower(ExampleYear);
    assert lowered[..5] == YearKey;
    assert lowered[0] == 'y';
    assert ExampleYear[5..] == "1813";
    ParseExampleYear();
  }

  lemma ExampleYearRemoved()
    ensures Trim(RemoveAll(ExampleTerm + "  " + ExampleYear, ExampleYear)) == ExampleTerm
  {
    var s := ExampleTerm + "  " + ExampleYear;
    assert s[6..15] == ExampleYear;
    forall j | 0 <= j < 6
      ensures !OccursAt(s, ExampleYear, j)
    {
      assert s[j..j + 9][0] == s[j] != 'y';
    }
    RemoveOnce(s, ExampleYear, 6);
    assert s[..6] + s[15..] == ExampleTerm + "  ";
    TrimTwoSpaces(ExampleTerm);
  }

  /** Trimming cuts the two trailing spaces left behind by the removed token. */
  lemma TrimTwoSpaces(w: string)
    requires |w| > 0 && !IsTrimmable(w[0]) && !IsTrimmable(w[|w| - 1])
    ensures Trim(w + "  ") == w
  {
    var r := w + "  ";
    assert TrimStart(r) == r;
    assert r[..|r| - 1] == w + " ";
    assert (w + " ")[..|w|] == w;
    assert TrimEnd(w) == w;
    assert TrimEnd(w + " ") == w;
  }

  lemma ParseExampleYear()
    ensures ParseInt("1813") == Some(1813)
  {
    var digits := "1813";
    assert AllDigits(digits);
    assert digits[..3] == "181" && digits[..3][..2] == "18" && digits[..3][..2][..1] == "1";
    assert DigitsValue("1") == 1;
    assert DigitsValue("18") == 18;
    assert DigitsValue("181") == 181;
    assert DigitsValue(digits) == 1813;
  }

  /** The filter tokens are taken out and the rest is the basic term. */
  lemma ExampleQuery()
    ensures QueryOf(ExampleLine) == Query(Basic, Some("love"), None, None, None, None, Some("Austen"), None, Some(1813))
  {
    var tokens := [ExampleTerm, ExampleAuthor, ExampleYear];
    ExampleTokens();
    var f0 := Initial(ExampleLine);
    ExampleScan(f0, tokens);
    var f3 := ScanFilters(f0, tokens);
    assert f3 == Filters(Some("Austen"), None, Some(1813), ExampleTerm);
    assert IndexOf(ToLower(ExampleTerm), PhrasePrefix) == -1;
    assert IndexOf(ToLower(ExampleTerm), RangePrefix) == -1;
    TrimNoop(ExampleTerm);
  }

  lemma ExampleScan(f0: Filters, tokens: seq<string>)
    requires f0 == Initial(ExampleLine) && tokens == [ExampleTerm, ExampleAuthor, ExampleYear]
    ensures ScanFilters(f0, tokens) == Filters(Some("Austen"), None, Some(1813), ExampleTerm)
  {
    ExampleScanTwo(f0, tokens);
    var f2 := ScanFilters(f0, tokens[..2]);
    ScanSnoc(f0, tokens, 2);
    ExampleYearStep(f2);
    assert tokens[..3] == tokens;
  }

  lemma ExampleScanTwo(f0: Filters, tokens: seq<string>)
    requires f0 == Initial(ExampleLine) && tokens == [ExampleTerm, ExampleAuthor, ExampleYear]
    ensures ScanFilters(f0, tokens[..2]) == Filters(Some("Austen"), None, None, ExampleTerm + "  " + ExampleYear)
  {
    assert !HasKey(ExampleTerm, AuthorKey) && !HasKey(ExampleTerm, LanguageKey) && !HasKey(ExampleTerm, YearKey);
    assert FilterStep(f0, ExampleTerm) == f0;
    ScanSnoc(f0, tokens, 0);
    assert tokens[..0] == [];
    ScanSnoc(f0, tokens, 1);
    ExampleAuthorStep();
  }
}
