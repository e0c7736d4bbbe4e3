/**
 * Heuristic metadata extraction from a book's header lines. Each regular expression of
 * the source is modelled as an explicit scan (`Pattern`, `MatchAt`) and `Find` takes
 * the leftmost match, as `Matcher.find()` does. Matching is case-insensitive for ASCII
 * letters only, and `.` never crosses a line terminator.
 */
module MetadataExtractor {
  import opened Wrappers
  import opened JavaString
  import opened JavaInt
  import opened JavaSplit

  // ---------------------------------------------------------------------------------
  // Scanning primitives

  /** Case folding of `Pattern.CASE_INSENSITIVE` without UNICODE_CASE: ASCII only. */
  function AsciiLower(c: char): char {
    if 'A' <= c <= 'Z' then (c as int + 32) as char else c
  }

  predicate IsAsciiLetter(c: char) {
    'a' <= c <= 'z' || 'A' <= c <= 'Z'
  }

  /** The literal `lit` matches `s` at `i`, ignoring ASCII case. */
  predicate LiteralAt(s: string, i: nat, lit: string) {
    i + |lit| <= |s| && forall k :: 0 <= k < |lit| ==> AsciiLower(s[i + k]) == AsciiLower(lit[k])
  }

  /** The first line terminator at or after `i`, or `|s|`: where a `.` run starting at `i` must stop. */
  function LineEnd(s: string, i: nat): (r: nat)
    requires i <= |s|
    ensures i <= r <= |s|
    decreases |s| - i
  {
    if i == |s| || IsLineTerminator(s[i]) then i else LineEnd(s, i + 1)
  }

  /** A `.` run from `i` stops exactly at the first line terminator. */
  lemma {:induction false} LineEndSpec(s: string, i: nat)
    requires i <= |s|
    ensures LineEnd(s, i) < |s| ==> IsLineTerminator(s[LineEnd(s, i)])
    ensures forall k :: i <= k < LineEnd(s, i) ==> !IsLineTerminator(s[k])
    decreases |s| - i
  {
    if i < |s| && !IsLineTerminator(s[i]) {
      LineEndSpec(s, i + 1);
    }
  }

  /** The last `"` in `s[lo..hi)`, or -1. */
  function LastQuote(s: string, lo: nat, hi: nat): (r: int)
    requires hi <= |s|
    ensures r == -1 || lo <= r < hi
    decreases hi
  {
    if hi <= lo then -1 else if s[hi - 1] == '"' then hi - 1 else LastQuote(s, lo, hi - 1)
  }

  /** The greedy `(.+)"` backs off to the last quote. */
  lemma {:induction false} LastQuoteSpec(s: string, lo: nat, hi: nat)
    requires hi <= |s|
    ensures LastQuote(s, lo, hi) >= 0 ==> s[LastQuote(s, lo, hi)] == '"'
    ensures forall k :: lo <= k < hi && LastQuote(s, lo, hi) < k ==> s[k] != '"'
    decreases hi
  {
    if lo < hi && s[hi - 1] != '"' {
      LastQuoteSpec(s, lo, hi - 1);
    }
  }

  /** The first `r` in `[lo, hi)` where two ASCII letters start, or -1. */
  function LetterPair(s: string, lo: nat, hi: nat): (r: int)
    requires hi <= |s|
    ensures r == -1 || lo <= r < hi
    decreases hi - lo
  {
    if hi <= lo then -1
    else if lo + 1 < |s| && IsAsciiLetter(s[lo]) && IsAsciiLetter(s[lo + 1]) then lo
    else LetterPair(s, lo + 1, hi)
  }

  /** The lazy `.*?` stops at the first place where two letters start. */
  lemma {:induction false} LetterPairSpec(s: string, lo: nat, hi: nat)
    requires hi <= |s|
    ensures var r := LetterPair(s, lo, hi);
            r >= 0 ==> r + 1 < |s| && IsAsciiLetter(s[r]) && IsAsciiLetter(s[r + 1])
    ensures forall k :: lo <= k < hi && (LetterPair(s, lo, hi) == -1 || k < LetterPair(s, lo, hi)) ==>
              !(k + 1 < |s| && IsAsciiLetter(s[k]) && IsAsciiLetter(s[k + 1]))
    decreases hi - lo
  {
    if lo < hi && !(lo + 1 < |s| && IsAsciiLetter(s[lo]) && IsAsciiLetter(s[lo + 1])) {
      LetterPairSpec(s, lo + 1, hi);
    }
  }

  /** The end of the run of ASCII letters starting at `i`. */
  function LetterRunEnd(s: string, i: nat): (r: nat)
    requires i <= |s|
    ensures i <= r <= |s|
    decreases |s| - i
  {
    if i < |s| && IsAsciiLetter(s[i]) then LetterRunEnd(s, i + 1) else i
  }

  /** The greedy `{2,}` takes the whole run of letters. */
  lemma {:induction false} LetterRunEndSpec(s: string, i: nat)
    requires i <= |s|
    ensures forall k :: i <= k < LetterRunEnd(s, i) ==> IsAsciiLetter(s[k])
    ensures LetterRunEnd(s, i) < |s| ==> !IsAsciiLetter(s[LetterRunEnd(s, i)])
    decreases |s| - i
  {
    if i < |s| && IsAsciiLetter(s[i]) {
      LetterRunEndSpec(s, i + 1);
    }
  }

  /** `(.+)` from `j`: the rest of the line, when it is not empty. */
  function RestOfLineFrom(s: string, j: nat): Option<string>
    requires j <= |s|
  {
    var e := LineEnd(s, j);
    if e > j then Some(s[j..e]) else None
  }

  /** `(.+?)\n` from `j`: the rest of the line, when it is not empty and ends in `\n`. */
  function RestBeforeNewlineFrom(s: string, j: nat): Option<string>
    requires j <= |s|
  {
    var e := LineEnd(s, j);
    if j < e < |s| && s[e] == '\n' then Some(s[j..e]) else None
  }

  /** The shapes of the regular expressions the extractor compiles. */
  datatype Pattern =
    | RestOfLine(lit: string)               // lit(.+)   and   lit(.+?)$
    | SpacedColon(name: string)             // name\s*: (.+)
    | Quoted                                // "(.+)"
    | LineBeforeNewline                     // ^(.+?)\n  (MULTILINE)
    | RestBeforeNewline(lit: string)        // lit(.+?)\n
    | FirstWord(lit: string)                // lit.*?([a-zA-Z]{2,})

  /** The group captured by `p` for a match that starts at `i`, if any. */
  function MatchAt(p: Pattern, s: string, i: nat): Option<string>
    requires i <= |s|
  {
    match p
    case RestOfLine(lit) =>
      if LiteralAt(s, i, lit) then RestOfLineFrom(s, i + |lit|) else None
    case SpacedColon(name) =>
      if LiteralAt(s, i, name) then
        var j := RunEnd(s, Whitespace, i + |name|);
        if LiteralAt(s, j, ": ") then RestOfLineFrom(s, j + 2) else None
      else None
    case Quoted =>
      if i < |s| && s[i] == '"' then
        var q := LastQuote(s, i + 2, LineEnd(s, i + 1));
        if q >= 0 then Some(s[i + 1..q]) else None
      else None
    case LineBeforeNewline =>
      if i == 0 || IsLineTerminator(s[i - 1]) then RestBeforeNewlineFrom(s, i) else None
    case RestBeforeNewline(lit) =>
      if LiteralAt(s, i, lit) then RestBeforeNewlineFrom(s, i + |lit|) else None
    case FirstWord(lit) =>
      if LiteralAt(s, i, lit) then
        var j := i + |lit|;
        var r := LetterPair(s, j, LineEnd(s, j));
        if r >= 0 then Some(s[r..LetterRunEnd(s, r)]) else None
      else None
  }

  /** The leftmost position at or after `i` where `p` matches, or -1. */
  function FirstMatchFrom(p: Pattern, s: string, i: nat): (r: int)
    requires i <= |s|
    ensures r == -1 || i <= r <= |s|
    decreases |s| - i
  {
    if MatchAt(p, s, i).Some? then i
    else if i == |s| then -1
    else FirstMatchFrom(p, s, i + 1)
  }

  /** `find()` returns the leftmost match: there is none before the position it reports,
    * and none at all when it reports none. */
  lemma {:induction false} FirstMatchFromSpec(p: Pattern, s: string, i: nat)
    requires i <= |s|
    ensures FirstMatchFrom(p, s, i) >= 0 ==> MatchAt(p, s, FirstMatchFrom(p, s, i)).Some?
    ensures forall k :: i <= k <= |s| && (FirstMatchFrom(p, s, i) == -1 || k < FirstMatchFrom(p, s, i)) ==>
              MatchAt(p, s, k).None?
    decreases |s| - i
  {
    if MatchAt(p, s, i).None? && i < |s| {
      FirstMatchFromSpec(p, s, i + 1);
    }
  }

  /** `Matcher.find()` followed by `group(1)`. */
  function Find(p: Pattern, s: string): Option<string> {
    var r := FirstMatchFrom(p, s, 0);
    if r < 0 then None else MatchAt(p, s, r)
  }

  // ---------------------------------------------------------------------------------
  // Validators and clean-up

  predicate IsValidTitle(title: string) {
    var lower := ToLower(title);
    && Trim(title) != ""
    && !Contains(lower, "gutenberg")
    && !Contains(lower, "project")
    && !Contains(lower, "ebook")
    && 2 < Utf16Length(title) < 200
  }

  predicate IsValidAuthor(author: string) {
    var lower := ToLower(author);
    && Trim(author) != ""
    && !Contains(lower, "gutenberg")
    && !Contains(lower, "project")
    && !Contains(lower, "unknown")
    && 2 < Utf16Length(author) < 100
  }

  predicate IsControl(c: char) {
    c == '\r' || c == '\n' || c == '\t'
  }

  /** `replaceAll("[\\r\\n\\t]", " ")`. */
  function ReplaceControls(s: string): string {
    seq(|s|, i requires 0 <= i < |s| => if IsControl(s[i]) then ' ' else s[i])
  }

  /** `replaceAll("\\s+", " ")`: each maximal run of `\s` characters becomes one space. */
  function CollapseSpaces(s: string): string
    decreases |s|
  {
    if |s| == 0 then ""
    else if IsSpace(s[0]) then " " + CollapseSpaces(s[RunEnd(s, Whitespace, 0)..])
    else [s[0]] + CollapseSpaces(s[1..])
  }

  /** After collapsing, every `\\s` character is a plain space, no two are adjacent, and
    * every other character comes from the input. */
  lemma {:induction false} CollapseSpacesShape(s: string)
    ensures var r := CollapseSpaces(s);
            forall k :: 0 <= k < |r| ==> (IsSpace(r[k]) ==> r[k] == ' ') && (r[k] in s || r[k] == ' ')
    ensures |s| > 0 && !IsSpace(s[0]) ==> |CollapseSpaces(s)| > 0 && CollapseSpaces(s)[0] == s[0]
    ensures var r := CollapseSpaces(s);
            forall k :: 0 <= k < |r| - 1 ==> !SpacePairAt(r, k)
    decreases |s|
  {
    if |s| > 0 {
      var rest := if IsSpace(s[0]) then s[RunEnd(s, Whitespace, 0)..] else s[1..];
      CollapseSpacesShape(rest);
      assert forall c :: c in rest ==> c in s;
      var r := CollapseSpaces(s);
      var tail := CollapseSpaces(rest);
      assert r == (if IsSpace(s[0]) then " " else [s[0]]) + tail;
      forall k | 0 <= k < |r| - 1
        ensures !SpacePairAt(r, k)
      {
        if k > 0 {
          assert !SpacePairAt(tail, k - 1);
        } else if IsSpace(s[0]) {
          assert !IsSpace(rest[0]);
        }
      }
    }
  }

  /** `cleanText`: controls become spaces, space runs collapse, the ends are trimmed. */
  function CleanText(text: string): string {
    Trim(CollapseSpaces(ReplaceControls(text)))
  }

  /** Two `\\s` characters side by side at `k`. */
  predicate SpacePairAt(s: string, k: nat)
    requires k + 1 < |s|
  {
    IsSpace(s[k]) && IsSpace(s[k + 1])
  }

  /** The shape of `cleanText`'s output. */
  predicate IsClean(s: string) {
    IsSpaced(s) && (|s| > 0 ==> !IsTrimmable(s[0]) && !IsTrimmable(s[|s| - 1]))
  }

  /** No control character, and every `\\s` character is a plain space with no other beside it. */
  predicate IsSpaced(s: string) {
    && (forall k :: 0 <= k < |s| ==> !IsControl(s[k]))
    && (forall k :: 0 <= k < |s| ==> IsSpace(s[k]) ==> s[k] == ' ')
    && (forall k :: 0 <= k < |s| - 1 ==> !SpacePairAt(s, k))
  }

  // ---------------------------------------------------------------------------------
  // The candidate chains

  const TitlePatterns: seq<Pattern> := [
    RestOfLine("Title: "),
    SpacedColon("Title"),
    RestOfLine("The Project Gutenberg eBook of "),
    Quoted,
    LineBeforeNewline
  ]

  const AuthorPatterns: seq<Pattern> := [
    RestOfLine("Author: "),
    SpacedColon("Author"),
    RestBeforeNewline("by "),
    RestOfLine("Written by "),
    RestOfLine("by ")
  ]

  const LanguagePatterns: seq<Pattern> := [
    RestOfLine("Language: "),
    SpacedColon("Language"),
    FirstWord("Language:")
  ]

  datatype Field = TitleField | AuthorField | LanguageField

  /** The test a trimmed candidate must pass for `field`. */
  predicate Accepts(field: Field, candidate: string) {
    match field
    case TitleField => IsValidTitle(candidate)
    case AuthorField => IsValidAuthor(candidate)
    case LanguageField => candidate != "" && Utf16Length(candidate) <= 20
  }

  /** Pattern `k`'s first match exists and its trimmed group is accepted. */
  predicate AcceptedAt(field: Field, pats: seq<Pattern>, text: string, k: nat)
    requires k < |pats|
  {
    var m := Find(pats[k], text);
    m.Some? && Accepts(field, Trim(m.value))
  }

  /** The verdict of every pattern of the chain, in order. */
  function Verdicts(field: Field, pats: seq<Pattern>, text: string): (v: seq<bool>)
    ensures |v| == |pats|
  {
    if pats == [] then [] else [AcceptedAt(field, pats, text, 0)] + Verdicts(field, pats[1..], text)
  }

  lemma {:induction false} VerdictsAt(field: Field, pats: seq<Pattern>, text: string, k: nat)
    requires k < |pats|
    ensures Verdicts(field, pats, text)[k] == AcceptedAt(field, pats, text, k)
  {
    if k > 0 {
      VerdictsAt(field, pats[1..], text, k - 1);
      assert pats[1..][k - 1] == pats[k];
    }
  }

  /** The first index at or after `i` holding `true`, or -1. */
  function FirstTrue(b: seq<bool>, i: nat): (r: int)
    requires i <= |b|
    ensures r == -1 || i <= r < |b|
    decreases |b| - i
  {
    if i == |b| then -1
    else if b[i] then i
    else FirstTrue(b, i + 1)
  }

  /** `FirstTrue` finds a `true`, and every index it passes over holds `false`. */
  lemma {:induction false} FirstTrueSpec(b: seq<bool>, i: nat)
    requires i <= |b|
    ensures FirstTrue(b, i) >= 0 ==> b[FirstTrue(b, i)]
    ensures forall k :: i <= k < |b| && (FirstTrue(b, i) == -1 || k < FirstTrue(b, i)) ==> !b[k]
    decreases |b| - i
  {
    if i < |b| && !b[i] {
      FirstTrueSpec(b, i + 1);
    }
  }

  /** The first pattern index at or after `i` whose first match is accepted, or -1. */
  function FirstAcceptedFrom(field: Field, pats: seq<Pattern>, text: string, i: nat): (r: int)
    requires i <= |pats|
    ensures r == -1 || i <= r < |pats|
  {
    FirstTrue(Verdicts(field, pats, text), i)
  }

  /** The chain stops at the first pattern whose candidate passes, and gives up only when none does. */
  lemma FirstAcceptedFromSpec(field: Field, pats: seq<Pattern>, text: string, i: nat)
    requires i <= |pats|
    ensures var r := FirstAcceptedFrom(field, pats, text, i);
            r >= 0 ==> AcceptedAt(field, pats, text, r)
    ensures var r := FirstAcceptedFrom(field, pats, text, i);
            forall k :: i <= k < |pats| && (r == -1 || k < r) ==> !AcceptedAt(field, pats, text, k)
  {
    FirstTrueSpec(Verdicts(field, pats, text), i);
    forall k | i <= k < |pats|
      ensures Verdicts(field, pats, text)[k] == AcceptedAt(field, pats, text, k)
    {
      VerdictsAt(field, pats, text, k);
    }
  }

  /** The trimmed group of the first accepted pattern, if any. */
  function Chosen(field: Field, pats: seq<Pattern>, text: string): Option<string> {
    var k := FirstAcceptedFrom(field, pats, text, 0);
    if k < 0 then None
    else match Find(pats[k], text)
      case Some(g) => Some(Trim(g))
      case None => None
  }

  /** A chosen candidate is the trimmed group of the first pattern whose group passes the
    * field's test; no earlier pattern's group does. */
  lemma ChosenSpec(field: Field, pats: seq<Pattern>, text: string)
    ensures var c := Chosen(field, pats, text);
            var k := FirstAcceptedFrom(field, pats, text, 0);
            && (c.Some? <==> k >= 0)
            && (c.Some? ==> Find(pats[k], text).Some? && c.value == Trim(Find(pats[k], text).value))
            && (c.Some? ==> Accepts(field, c.value))
            && (forall j :: 0 <= j < |pats| && (k == -1 || j < k) ==> !AcceptedAt(field, pats, text, j))
  {
    FirstAcceptedFromSpec(field, pats, text, 0);
    var k := FirstAcceptedFrom(field, pats, text, 0);
    if k >= 0 {
      ChosenAccepted(field, pats, text, k);
    }
  }

  /** An accepted first pattern gives its trimmed group, which passes the field's test. */
  lemma ChosenAccepted(field: Field, pats: seq<Pattern>, text: string, k: nat)
    requires k < |pats| && k == FirstAcceptedFrom(field, pats, text, 0)
    requires AcceptedAt(field, pats, text, k)
    ensures Chosen(field, pats, text) == Some(Trim(Find(pats[k], text).value))
    ensures Accepts(field, Trim(Find(pats[k], text).value))
  {
  }

  lemma ChosenAt(field: Field, pats: seq<Pattern>, text: string, k: nat)
    requires k < |pats| && FirstAcceptedFrom(field, pats, text, 0) == FirstAcceptedFrom(field, pats, text, k)
    requires AcceptedAt(field, pats, text, k)
    ensures Chosen(field, pats, text) == Some(Trim(Find(pats[k], text).value))
  {
    VerdictsAt(field, pats, text, k);
  }

  lemma SkipRejected(field: Field, pats: seq<Pattern>, text: string, k: nat)
    requires k < |pats| && !AcceptedAt(field, pats, text, k)
    ensures FirstAcceptedFrom(field, pats, text, k) == FirstAcceptedFrom(field, pats, text, k + 1)
  {
    VerdictsAt(field, pats, text, k);
  }

  lemma ChosenNone(field: Field, pats: seq<Pattern>, text: string)
    requires FirstAcceptedFrom(field, pats, text, 0) == FirstAcceptedFrom(field, pats, text, |pats|)
    ensures Chosen(field, pats, text) == None
  {
  }

  /** A trimmed header line that the fallback title scan accepts. */
  predicate IsTitleLine(trimmed: string) {
    && trimmed != ""
    && !StartsWith(trimmed, "Author:")
    && !StartsWith(trimmed, "Language:")
    && !StartsWith(trimmed, "***")
    && 5 < Utf16Length(trimmed) < 200
  }

  predicate TitleLineAt(lines: seq<string>, k: nat)
    requires k < |lines|
  {
    IsTitleLine(Trim(lines[k]))
  }

  /** The first line index at or after `i` whose trimmed text is a title line, or -1. */
  function FirstTitleLine(lines: seq<string>, i: nat): (r: int)
    requires i <= |lines|
    ensures r == -1 || i <= r < |lines|
    decreases |lines| - i
  {
    if i == |lines| then -1
    else if TitleLineAt(lines, i) then i
    else FirstTitleLine(lines, i + 1)
  }

  /** The fallback takes the first qualifying line. */
  lemma {:induction false} FirstTitleLineSpec(lines: seq<string>, i: nat)
    requires i <= |lines|
    ensures var r := FirstTitleLine(lines, i);
            r >= 0 ==> TitleLineAt(lines, r)
    ensures var r := FirstTitleLine(lines, i);
            forall k :: i <= k < |lines| && (r == -1 || k < r) ==> !TitleLineAt(lines, k)
    decreases |lines| - i
  {
    var r := FirstTitleLine(lines, i);
    if i < |lines| && !TitleLineAt(lines, i) {
      FirstTitleLineSpec(lines, i + 1);
      assert r == FirstTitleLine(lines, i + 1);
      forall k | i <= k < |lines| && (r == -1 || k < r)
        ensures !TitleLineAt(lines, k)
      {
        if k == i {
          assert !TitleLineAt(lines, i);
        }
      }
    }
  }

  /** What `extractTitle` returns. */
  function TitleOf(fullText: string, lines: seq<string>): string {
    match Chosen(TitleField, TitlePatterns, fullText)
    case Some(c) => CleanText(c)
    case None =>
      var i := FirstTitleLine(lines, 0);
      if i < 0 then "Unknown" else CleanText(Trim(lines[i]))
  }

  /** What `extractAuthor` returns. */
  function AuthorOf(fullText: string): string {
    match Chosen(AuthorField, AuthorPatterns, fullText)
    case Some(c) => CleanText(c)
    case None => "Unknown"
  }

  /** What `extractLanguage` returns. */
  function LanguageOf(fullText: string): string {
    match Chosen(LanguageField, LanguagePatterns, fullText)
    case Some(c) => ToLower(CleanText(c))
    case None => "en"
  }

  // ---------------------------------------------------------------------------------
  // Years

  /**
   * The word test of `\b` as Java up to version 18 defines it: `Character.isLetterOrDigit(c)
   * || c == '_'` (ASCII and Latin-1 here). From Java 19 on, `\b` without
   * `UNICODE_CHARACTER_CLASS` counts only ASCII letters, digits and `_` as word characters.
   */
  predicate IsWordChar(c: char) {
    || 'a' <= c <= 'z' || 'A' <= c <= 'Z' || '0' <= c <= '9' || c == '_'
    || c == '\U{00AA}' || c == '\U{00B5}' || c == '\U{00BA}'
    || ('\U{00C0}' <= c <= '\U{00FF}' && c != '\U{00D7}' && c != '\U{00F7}')
  }

  /** `\b(1[0-9]{3}|20[0-2][0-9])\b` matches at `p`. */
  predicate YearMatchAt(s: string, p: nat) {
    && p + 4 <= |s|
    && AllDigits(s[p..p + 4])
    && (s[p] == '1' || (s[p] == '2' && s[p + 1] == '0' && s[p + 2] <= '2'))
    && (p == 0 || !IsWordChar(s[p - 1]))
    && (p + 4 == |s| || !IsWordChar(s[p + 4]))
  }

  function YearAt(s: string, p: nat): int
    requires YearMatchAt(s, p)
  {
    DigitsValue(s[p..p + 4])
  }

  /** A match at `p` whose value the extractor keeps (at most 2024). */
  predicate KeptYearAt(s: string, p: nat) {
    YearMatchAt(s, p) && YearAt(s, p) <= 2024
  }

  /** The values kept from matches starting before `p`, in text order. */
  function KeptYears(s: string, p: nat): seq<int>
    requires p <= |s|
  {
    if p == 0 then []
    else KeptYears(s, p - 1) + (if KeptYearAt(s, p - 1) then [YearAt(s, p - 1)] else [])
  }

  /** The first position at or after `p` with a kept year, or -1. */
  function FirstKeptYear(s: string, p: nat): (r: int)
    requires p <= |s|
    ensures r == -1 || (p <= r < |s| && KeptYearAt(s, r))
    decreases |s| - p
  {
    if p == |s| then -1 else if KeptYearAt(s, p) then p else FirstKeptYear(s, p + 1)
  }

  /** The year reported is the first kept one in the text. */
  lemma {:induction false} FirstKeptYearSpec(s: string, p: nat)
    requires p <= |s|
    ensures forall k :: p <= k < |s| && (FirstKeptYear(s, p) == -1 || k < FirstKeptYear(s, p)) ==> !KeptYearAt(s, k)
    decreases |s| - p
  {
    if p < |s| && !KeptYearAt(s, p) {
      FirstKeptYearSpec(s, p + 1);
    }
  }

  /** What `extractYear` returns. */
  function YearOf(s: string): int {
    var p := FirstKeptYear(s, 0);
    if p < 0 then -1 else YearAt(s, p)
  }

  // ---------------------------------------------------------------------------------
  // The record

  datatype Meta = Meta(title: string, author: string, language: string, year: int)

  /** A field of the `Meta` constructor: the trimmed value, or `default` when `null` or blank. */
  function FieldOr(v: Option<string>, default: string): (r: string)
    requires default != "" && !IsTrimmable(default[0]) && !IsTrimmable(default[|default| - 1])
    ensures r != "" && Trim(r) == r
    ensures v.Some? && Trim(v.value) != "" ==> r == Trim(v.value)
    ensures v.None? || Trim(v.value) == "" ==> r == default
  {
    if v.Some? && Trim(v.value) != "" then
      TrimIdempotent(v.value);
      Trim(v.value)
    else
      TrimNoop(default);
      default
  }

  /** The `Meta` constructor: trimmed values, with defaults for `null` or blank ones. */
  function NewMeta(t: Option<string>, a: Option<string>, l: Option<string>, y: int): (m: Meta)
    ensures m.title != "" && Trim(m.title) == m.title
    ensures m.author != "" && Trim(m.author) == m.author
    ensures m.language != "" && Trim(m.language) == m.language
    ensures t.Some? && Trim(t.value) != "" ==> m.title == Trim(t.value)
    ensures a.Some? && Trim(a.value) != "" ==> m.author == Trim(a.value)
    ensures l.Some? && Trim(l.value) != "" ==> m.language == Trim(l.value)
    ensures m.year == y
  {
    Meta(FieldOr(t, "Unknown"), FieldOr(a, "Unknown"), FieldOr(l, "en"), y)
  }

  /** What `extract` returns for a header file with these lines. */
  function MetaOf(lines: seq<string>): Meta {
    var fullText := Join(lines, "\n");
    NewMeta(Some(TitleOf(fullText, lines)), Some(AuthorOf(fullText)), Some(LanguageOf(fullText)), YearOf(fullText))
  }

  // ---------------------------------------------------------------------------------
  // Properties of cleanText

  lemma ReplaceControlsShape(s: string)
    ensures |ReplaceControls(s)| == |s|
    ensures forall k :: 0 <= k < |s| ==> !IsControl(ReplaceControls(s)[k])
    ensures forall k :: 0 <= k < |s| ==> !IsControl(s[k]) ==> ReplaceControls(s)[k] == s[k]
  {
  }

  lemma CollapsedIsSpaced(text: string)
    ensures IsSpaced(CollapseSpaces(ReplaceControls(text)))
  {
    var t := ReplaceControls(text);
    var c := CollapseSpaces(t);
    ReplaceControlsShape(text);
    CollapseSpacesShape(t);
    forall k | 0 <= k < |c|
      ensures !IsControl(c[k])
    {
      if c[k] != ' ' {
        var j :| 0 <= j < |t| && t[j] == c[k];
      }
    }
  }

  /** Any slice of spaced text is spaced. */
  lemma SliceSpaced(c: string, a: nat, b: nat)
    requires a <= b <= |c|
    requires IsSpaced(c)
    ensures IsSpaced(c[a..b])
  {
    var r := c[a..b];
    forall k | 0 <= k < |r|
      ensures !IsControl(r[k]) && (IsSpace(r[k]) ==> r[k] == ' ')
    {
      assert r[k] == c[a + k];
    }
    forall k | 0 <= k < |r| - 1
      ensures !SpacePairAt(r, k)
    {
      assert r[k] == c[a + k] && r[k + 1] == c[a + k + 1];
      assert !SpacePairAt(c, a + k);
    }
  }

  /** Trimming keeps the spacing shape and removes the spaces at the ends. */
  lemma TrimKeepsSpaced(c: string)
    requires IsSpaced(c)
    ensures IsClean(Trim(c))
  {
    var off := |c| - |TrimStart(c)|;
    SliceSpaced(c, off, off + |Trim(c)|);
  }

  /** Whatever it is given, `cleanText` returns text with no control characters, single
    * plain spaces between words and no space at either end. */
  lemma CleanTextIsClean(text: string)
    ensures IsClean(CleanText(text))
  {
    CollapsedIsSpaced(text);
    TrimKeepsSpaced(CollapseSpaces(ReplaceControls(text)));
  }

  /** `replaceAll("\\s+", " ")` leaves text alone whose spaces are already single plain spaces. */
  lemma {:induction false} CollapseNoop(s: string)
    requires forall k :: 0 <= k < |s| ==> IsSpace(s[k]) ==> s[k] == ' '
    requires forall k :: 0 <= k < |s| - 1 ==> !SpacePairAt(s, k)
    ensures CollapseSpaces(s) == s
    decreases |s|
  {
    if |s| > 0 {
      assert forall k :: 0 <= k < |s[1..]| ==> s[1..][k] == s[k + 1];
      forall k | 0 <= k < |s| - 2
        ensures !SpacePairAt(s[1..], k)
      {
        assert !SpacePairAt(s, k + 1);
      }
      if |s| > 1 {
        assert !SpacePairAt(s, 0);
      }
      CollapseNoop(s[1..]);
      if IsSpace(s[0]) {
        assert RunEnd(s, Whitespace, 1) == 1;
        assert RunEnd(s, Whitespace, 0) == 1;
      }
      assert s == [s[0]] + s[1..];
    }
  }

  /** `cleanText` is the identity on clean text... */
  lemma CleanTextNoop(s: string)
    requires IsClean(s)
    ensures CleanText(s) == s
  {
    assert ReplaceControls(s) == s;
    CollapseNoop(s);
    TrimNoop(s);
  }

  /** ...and therefore idempotent. */
  lemma CleanTextIdempotent(text: string)
    ensures CleanText(CleanText(text)) == CleanText(text)
  {
    CleanTextIsClean(text);
    CleanTextNoop(CleanText(text));
  }

  // ---------------------------------------------------------------------------------
  // The extraction methods

  /** The pattern loop shared by the three field extractors: the trimmed group of the
    * first pattern whose first match passes the field's test. */
  method FirstAccepted(field: Field, pats: seq<Pattern>, text: string) returns (candidate: Option<string>)
    ensures candidate == Chosen(field, pats, text)
  {
    var k := 0;
    while k < |pats|
      invariant 0 <= k <= |pats|
      invariant FirstAcceptedFrom(field, pats, text, 0) == FirstAcceptedFrom(field, pats, text, k)
    {
      var m := Find(pats[k], text);
      if m.Some? {
        var trimmed := Trim(m.value);
        if Accepts(field, trimmed) {
          ChosenAt(field, pats, text, k);
          return Some(trimmed);
        }
      }
      SkipRejected(field, pats, text, k);
      k := k + 1;
    }
    ChosenNone(field, pats, text);
    return None;
  }

  method ExtractTitle(fullText: string, lines: seq<string>) returns (title: string)
    ensures title == TitleOf(fullText, lines)
  {
    var chosen := FirstAccepted(TitleField, TitlePatterns, fullText);
    if chosen.Some? {
      return CleanText(chosen.value);
    }
    var i := 0;
    while i < |lines|
      invariant 0 <= i <= |lines|
      invariant FirstTitleLine(lines, 0) == FirstTitleLine(lines, i)
    {
      var trimmed := Trim(lines[i]);
      if IsTitleLine(trimmed) {
        return CleanText(trimmed);
      }
      i := i + 1;
    }
    return "Unknown";
  }

  method ExtractAuthor(fullText: string) returns (author: string)
    ensures author == AuthorOf(fullText)
  {
    var chosen := FirstAccepted(AuthorField, AuthorPatterns, fullText);
    author := if chosen.Some? then CleanText(chosen.value) else "Unknown";
  }

  method ExtractLanguage(fullText: string) returns (language: string)
    ensures language == LanguageOf(fullText)
  {
    var chosen := FirstAccepted(LanguageField, LanguagePatterns, fullText);
    language := if chosen.Some? then ToLower(CleanText(chosen.value)) else "en";
  }

  /** Successive `find()` calls: after a match the scan resumes where it ended. */
  method ExtractYear(fullText: string) returns (year: int)
    ensures year == YearOf(fullText)
    ensures year == -1 || 1000 <= year <= 2024
  {
    var years: seq<int> := [];
    var p := 0;
    while p < |fullText|
      invariant 0 <= p <= |fullText|
      invariant years == KeptYears(fullText, p)
      decreases |fullText| - p
    {
      if YearMatchAt(fullText, p) {
        var y := YearAt(fullText, p);
        YearAtLowerBound(fullText, p);
        if 1000 <= y <= 2024 {
          years := years + [y];
        }
        NoYearInsideMatch(fullText, p);
        p := p + 4;
      } else {
        p := p + 1;
      }
    }
    KeptYearsFirst(fullText, |fullText|);
    YearOfRange(fullText);
    year := if |years| > 0 then years[0] else -1;
  }

  /** A year match at `p` starts with a digit followed by three more, so no match starts
    * inside it: `\b` cannot hold between two digits. */
  lemma NoYearInsideMatch(s: string, p: nat)
    requires YearMatchAt(s, p)
    ensures KeptYears(s, p + 4) == KeptYears(s, p) + (if YearAt(s, p) <= 2024 then [YearAt(s, p)] else [])
  {
    var d := s[p..p + 4];
    assert d[0] == s[p] && d[1] == s[p + 1] && d[2] == s[p + 2];
    assert IsDigit(s[p]) && IsDigit(s[p + 1]) && IsDigit(s[p + 2]);
    assert !KeptYearAt(s, p + 1) && !KeptYearAt(s, p + 2) && !KeptYearAt(s, p + 3);
    assert KeptYears(s, p + 2) == KeptYears(s, p + 1);
    assert KeptYears(s, p + 3) == KeptYears(s, p + 2);
    assert KeptYears(s, p + 4) == KeptYears(s, p + 3);
  }

  /** A match of the year pattern reads as at least 1000. */
  lemma YearAtLowerBound(s: string, p: nat)
    requires YearMatchAt(s, p)
    ensures YearAt(s, p) >= 1000
  {
    var d := s[p..p + 4];
    assert d[..4] == d && d[..3][..2] == d[..2] && d[..2][..1] == d[..1] && d[..1][..0] == [];
    assert DigitsValue(d[..1]) == DigitValue(d[0]) >= 1;
    assert DigitsValue(d[..2]) == DigitsValue(d[..1]) * 10 + DigitValue(d[1]);
    assert DigitsValue(d[..3]) == DigitsValue(d[..2]) * 10 + DigitValue(d[2]);
    assert DigitsValue(d) == DigitsValue(d[..3]) * 10 + DigitValue(d[3]);
  }

  /** `extractYear` returns -1 or a year from 1000 to 2024. */
  lemma YearOfRange(s: string)
    ensures YearOf(s) == -1 || 1000 <= YearOf(s) <= 2024
  {
    var p := FirstKeptYear(s, 0);
    if p >= 0 {
      YearAtLowerBound(s, p);
    }
  }

  /** The first kept value is the one at the first kept position. */
  lemma {:induction false} KeptYearsFirst(s: string, p: nat)
    requires p <= |s|
    ensures |KeptYears(s, p)| == 0 <==> FirstKeptYear(s, 0) == -1 || FirstKeptYear(s, 0) >= p
    ensures |KeptYears(s, p)| > 0 ==> KeptYears(s, p)[0] == YearOf(s)
  {
    FirstKeptYearSpec(s, 0);
    if p > 0 {
      KeptYearsFirst(s, p - 1);
    }
  }

  /** `extract`: the header lines joined with `\n`, then each field's extractor. */
  method Extract(lines: seq<string>) returns (meta: Meta)
    ensures meta == MetaOf(lines)
    ensures meta.title != "" && meta.author != "" && meta.language != ""
    ensures meta.year == -1 || 1000 <= meta.year <= 2024
  {
    var fullText := Join(lines, "\n");
    var title := ExtractTitle(fullText, lines);
    var author := ExtractAuthor(fullText);
    var language := ExtractLanguage(fullText);
    var year := ExtractYear(fullText);
    meta := NewMeta(Some(title), Some(author), Some(language), year);
  }

  // ---------------------------------------------------------------------------------
  // Examples

  lemma NothingFoundInEmpty(p: Pattern)
    ensures Find(p, "") == None
  {
    assert MatchAt(p, "", 0) == None;
  }

  lemma NoChoiceInEmpty(field: Field, pats: seq<Pattern>)
    ensures Chosen(field, pats, "") == None
  {
    FirstAcceptedFromSpec(field, pats, "", 0);
    var k := FirstAcceptedFrom(field, pats, "", 0);
    if k >= 0 {
      NothingFoundInEmpty(pats[k]);
    }
  }

  /**
   * Length is counted as `String.length()` counts it: a title of 100 characters outside the
   * Basic Multilingual Plane has length 200, so `isValidTitle` rejects it.
   */
  lemma WideTitleRejected()
    ensures var title := seq(100, _ => '\U{1F600}');
            |title| == 100 && !IsValidTitle(title)
  {
    var title := seq(100, _ => '\U{1F600}');
    Utf16LengthWide(title);
  }

  /** An empty header falls back to every default. */
  lemma EmptyHeaderDefaults()
    ensures MetaOf([]) == Meta("Unknown", "Unknown", "en", -1)
  {
    assert Join([], "\n") == "";
    NoChoiceInEmpty(TitleField, TitlePatterns);
    NoChoiceInEmpty(AuthorField, AuthorPatterns);
    NoChoiceInEmpty(LanguageField, LanguagePatterns);
    assert TitleOf("", []) == "Unknown";
    assert AuthorOf("") == "Unknown";
    assert LanguageOf("") == "en";
    assert YearOf("") == -1;
    TrimNoop("Unknown");
    TrimNoop("en");
  }

  /** The first title pattern reads the rest of the line after `Title: `, in any ASCII case. */
  lemma TitleLineExample()
    ensures Find(TitlePatterns[0], "TITLE: Emma\nAuthor: Jane") == Some("Emma")
  {
    var s := "TITLE: Emma\nAuthor: Jane";
    forall k | 0 <= k < 7
      ensures AsciiLower(s[k]) == AsciiLower("Title: "[k])
    {
    }
    assert LiteralAt(s, 0, "Title: ");
    assert LineEnd(s, 7) == 11;
    assert s[7..11] == "Emma";
  }

  /** A year followed by a letter is not a whole word, so the next one is taken. */
  lemma YearWordBoundaryExample()
    ensures YearOf("1999x 1850") == 1850
  {
    var s := "1999x 1850";
    assert !YearMatchAt(s, 0);
    assert s[6..10] == "1850";
    assert YearMatchAt(s, 6);
    assert DigitsValue("1850") == 1850 by {
      assert "1850"[..3] == "185" && "185"[..2] == "18" && "18"[..1] == "1" && "1"[..0] == "";
    }
    assert FirstKeptYear(s, 6) == 6;
  }
}
