/**
 * The header/body split that the ingestion service applies to a downloaded Project
 * Gutenberg text before saving it to the datalake. The text is cut into lines; the line
 * holding the "*** start of" marker closes the header, and the line holding the
 * "*** end of" marker closes the body. Without markers the first fifty lines are taken
 * as the header and the rest as the body.
 */
module IngestionController {
  import opened JavaString
  import opened JavaSplit

  const StartMarker := "*** start of"
  const EndMarker := "*** end of"
  /** Number of lines taken as header when no start marker is found. */
  const FallbackLines := 50

  /** `rawText.split("\n")`. */
  function Lines(rawText: string): seq<string> {
    SplitLiteral(rawText, "\n")
  }

  /** The lower-cased line contains `marker`. */
  predicate Marks(line: string, marker: string) {
    Contains(ToLower(line), marker)
  }

  /** Index of the first line of `ls` that contains `marker`, or `|ls|` when none does. */
  function FirstWith(ls: seq<string>, marker: string): (r: nat)
    ensures r <= |ls|
    decreases |ls|
  {
    if ls == [] then 0
    else
      var k := FirstWith(ls[..|ls| - 1], marker);
      if k < |ls| - 1 then k
      else if Marks(ls[|ls| - 1], marker) then |ls| - 1
      else |ls|
  }

  /** `FirstWith` finds the first marked line, and nothing before it is marked. */
  lemma {:induction false} FirstWithSpec(ls: seq<string>, marker: string)
    ensures FirstWith(ls, marker) < |ls| ==> Marks(ls[FirstWith(ls, marker)], marker)
    ensures forall k :: 0 <= k < FirstWith(ls, marker) ==> !Marks(ls[k], marker)
    decreases |ls|
  {
    if ls != [] {
      FirstWithSpec(ls[..|ls| - 1], marker);
    }
  }

  /** A marked line found within a prefix is the first marked line of the whole list. */
  lemma {:induction false} FirstWithPrefix(ls: seq<string>, n: nat, marker: string)
    requires n <= |ls|
    ensures FirstWith(ls[..n], marker) < n ==> FirstWith(ls, marker) == FirstWith(ls[..n], marker)
    ensures FirstWith(ls[..n], marker) == n ==> FirstWith(ls, marker) >= n
    decreases |ls| - n
  {
    if n < |ls| {
      FirstWithPrefix(ls, n + 1, marker);
      assert ls[..n + 1][..n] == ls[..n];
    } else {
      assert ls[..n] == ls;
    }
  }

  /** `end`: the index of the first end-marker line, or the number of lines. */
  function EndIndex(lines: seq<string>): nat {
    FirstWith(lines, EndMarker)
  }

  /** The lines the loop examines: up to and including the first end-marker line. */
  function Scanned(lines: seq<string>): (r: nat)
    ensures r <= |lines|
  {
    if EndIndex(lines) < |lines| then EndIndex(lines) + 1 else |lines|
  }

  /** The value of `start` once the lines `ls` have been examined. */
  function StartAfter(ls: seq<string>): int {
    var k := FirstWith(ls, StartMarker);
    if k < |ls| then k + 1 else -1
  }

  /** `start`: one past the first start-marker line among the examined lines, or -1. */
  function StartIndex(lines: seq<string>): (r: int)
    ensures -1 <= r <= Scanned(lines) && r != 0
  {
    StartAfter(lines[..Scanned(lines)])
  }

  function Min(a: int, b: int): int {
    if a <= b then a else b
  }

  /** `header`: the lines before `start`, or the first fifty lines. */
  function Header(lines: seq<string>): seq<string> {
    var start := StartIndex(lines);
    lines[..if start > 0 then start else Min(FallbackLines, |lines|)]
  }

  /** `body`: the lines between the markers, or everything after the first fifty lines. */
  function Body(lines: seq<string>): seq<string> {
    var start := StartIndex(lines);
    var end := EndIndex(lines);
    if start >= 0 && end > start then lines[start..end]
    else lines[Min(FallbackLines, |lines|)..]
  }

  /** One more examined line: `start` is set by the first start marker only. */
  lemma StartAfterStep(ls: seq<string>, line: string)
    ensures StartAfter(ls + [line]) ==
              if StartAfter(ls) == -1 && Marks(line, StartMarker) then |ls| + 1 else StartAfter(ls)
  {
    assert (ls + [line])[..|ls|] == ls;
  }

  /** The loop stops at line `i`: `end` and `start` take their final values. */
  lemma StopsAt(lines: seq<string>, i: nat)
    requires i < |lines| && Marks(lines[i], EndMarker)
    requires FirstWith(lines[..i], EndMarker) == i
    ensures EndIndex(lines) == i
    ensures StartIndex(lines) == StartAfter(lines[..i + 1])
  {
    assert lines[..i + 1][..i] == lines[..i];
    FirstWithPrefix(lines, i + 1, EndMarker);
  }

  /** The loop runs through every line: there is no end marker. */
  lemma RunsThrough(lines: seq<string>)
    requires FirstWith(lines, EndMarker) == |lines|
    ensures EndIndex(lines) == |lines| && StartIndex(lines) == StartAfter(lines)
  {
    assert lines[..|lines|] == lines;
  }

  /** The split of `downloadBook`: scan for the markers, stop at the first end marker, then cut. */
  method SplitLines(lines: seq<string>) returns (header: seq<string>, body: seq<string>)
    ensures header == Header(lines) && body == Body(lines)
  {
    var start := -1;
    var end := |lines|;
    var i := 0;
    while i < |lines|
      invariant 0 <= i <= |lines|
      invariant FirstWith(lines[..i], EndMarker) == i
      invariant start == StartAfter(lines[..i])
    {
      var line := ToLower(lines[i]);
      assert lines[..i + 1] == lines[..i] + [lines[i]];
      StartAfterStep(lines[..i], lines[i]);
      if start == -1 && Contains(line, StartMarker) {
        start := i + 1;
      }
      if Contains(line, EndMarker) {
        StopsAt(lines, i);
        end := i;
        break;
      }
      i := i + 1;
    }
    if end == |lines| {
      assert lines[..i] == lines;
      RunsThrough(lines);
    }
    var cut := if start > 0 then start else Min(FallbackLines, |lines|);
    assert Header(lines) == lines[..cut];
    header := lines[..cut];
    if start >= 0 && end > start {
      body := lines[start..end];
    } else {
      body := lines[Min(FallbackLines, |lines|)..];
    }
  }

  /** `downloadBook` lines 28-42: split the text into lines, then into header and body. */
  method SplitBook(rawText: string) returns (header: seq<string>, body: seq<string>)
    ensures header == Header(Lines(rawText)) && body == Body(Lines(rawText))
  {
    header, body := SplitLines(Lines(rawText));
  }

  /** `end` is the first end-marker line, with no end marker before it. */
  lemma EndIndexSpec(lines: seq<string>)
    ensures EndIndex(lines) == |lines| || Marks(lines[EndIndex(lines)], EndMarker)
    ensures forall k :: 0 <= k < EndIndex(lines) ==> !Marks(lines[k], EndMarker)
  {
    FirstWithSpec(lines, EndMarker);
  }

  /**
   * `start` is -1 exactly when no examined line holds the start marker; otherwise the line
   * before it is the first start-marker line, and it lies no later than the end-marker line.
   */
  lemma StartIndexSpec(lines: seq<string>)
    ensures StartIndex(lines) == -1 <==> forall k :: 0 <= k < Scanned(lines) ==> !Marks(lines[k], StartMarker)
    ensures StartIndex(lines) > 0 ==>
              StartIndex(lines) - 1 <= EndIndex(lines) &&
              Marks(lines[StartIndex(lines) - 1], StartMarker) &&
              forall k :: 0 <= k < StartIndex(lines) - 1 ==> !Marks(lines[k], StartMarker)
  {
    var scanned := lines[..Scanned(lines)];
    FirstWithSpec(scanned, StartMarker);
    assert forall k :: 0 <= k < Scanned(lines) ==> scanned[k] == lines[k];
  }

  /** The first end-marker line determines `end`. */
  lemma EndIndexIs(lines: seq<string>, e: nat)
    requires e < |lines| && Marks(lines[e], EndMarker)
    requires forall k :: 0 <= k < e ==> !Marks(lines[k], EndMarker)
    ensures EndIndex(lines) == e && Scanned(lines) == e + 1
  {
    EndIndexSpec(lines);
  }

  /** The first start-marker line, at or before the end-marker line, determines `start`. */
  lemma StartIndexIs(lines: seq<string>, s: nat)
    requires s < Scanned(lines) && Marks(lines[s], StartMarker)
    requires forall k :: 0 <= k < s ==> !Marks(lines[k], StartMarker)
    ensures StartIndex(lines) == s + 1
  {
    StartIndexSpec(lines);
  }

  /**
   * Both markers, in order, with at least one line between them: the header ends with the
   * start-marker line, the body is exactly the lines between the markers, and together they
   * are the text up to the end marker.
   */
  lemma MarkedBook(lines: seq<string>, s: nat, e: nat)
    requires s + 1 < e < |lines|
    requires Marks(lines[s], StartMarker) && Marks(lines[e], EndMarker)
    requires forall k :: 0 <= k < s ==> !Marks(lines[k], StartMarker)
    requires forall k :: 0 <= k < e ==> !Marks(lines[k], EndMarker)
    ensures Header(lines) == lines[..s + 1]
    ensures Body(lines) == lines[s + 1..e]
    ensures Header(lines) + Body(lines) == lines[..e]
  {
    EndIndexIs(lines, e);
    StartIndexIs(lines, s);
    assert lines[..s + 1] + lines[s + 1..e] == lines[..e];
  }

  /** A start marker and no end marker: the body runs from the line after the marker to the last line. */
  lemma StartWithoutEnd(lines: seq<string>, s: nat)
    requires s + 1 < |lines| && Marks(lines[s], StartMarker)
    requires forall k :: 0 <= k < s ==> !Marks(lines[k], StartMarker)
    requires forall k :: 0 <= k < |lines| ==> !Marks(lines[k], EndMarker)
    ensures Header(lines) == lines[..s + 1] && Body(lines) == lines[s + 1..]
    ensures Header(lines) + Body(lines) == lines
  {
    EndIndexSpec(lines);
    StartIndexIs(lines, s);
    assert lines[..s + 1] + lines[s + 1..] == lines;
  }

  /** Markers on consecutive lines leave nothing between them, and the body falls back. */
  lemma AdjacentMarkers(lines: seq<string>, s: nat)
    requires s + 1 < |lines|
    requires Marks(lines[s], StartMarker) && Marks(lines[s + 1], EndMarker)
    requires forall k :: 0 <= k < s ==> !Marks(lines[k], StartMarker)
    requires forall k :: 0 <= k < s + 1 ==> !Marks(lines[k], EndMarker)
    ensures Header(lines) == lines[..s + 1]
    ensures Body(lines) == lines[Min(FallbackLines, |lines|)..]
  {
    EndIndexIs(lines, s + 1);
    StartIndexIs(lines, s);
  }

  /** Without a start marker among the examined lines, header and body are the whole text cut after fifty lines. */
  lemma NoStartFallback(lines: seq<string>)
    requires forall k :: 0 <= k < Scanned(lines) ==> !Marks(lines[k], StartMarker)
    ensures StartIndex(lines) == -1
    ensures Header(lines) == lines[..Min(FallbackLines, |lines|)]
    ensures Header(lines) + Body(lines) == lines
  {
    StartIndexSpec(lines);
    var cut := Min(FallbackLines, |lines|);
    assert lines[..cut] + lines[cut..] == lines;
  }

  /** An end marker before any start marker: `start` stays -1 and nothing is lost. */
  lemma EndBeforeStart(lines: seq<string>, e: nat)
    requires e < |lines| && Marks(lines[e], EndMarker)
    requires forall k :: 0 <= k <= e ==> !Marks(lines[k], StartMarker)
    ensures StartIndex(lines) == -1
    ensures Header(lines) + Body(lines) == lines
  {
    EndIndexSpec(lines);
    NoStartFallback(lines);
  }

  /** A line holding both markers sets `start` past `end`, so the body falls back to the fifty-line rule. */
  lemma BothMarkersOnOneLine(lines: seq<string>, i: nat)
    requires i < |lines| && Marks(lines[i], StartMarker) && Marks(lines[i], EndMarker)
    requires forall k :: 0 <= k < i ==> !Marks(lines[k], StartMarker) && !Marks(lines[k], EndMarker)
    ensures StartIndex(lines) == i + 1 && EndIndex(lines) == i
    ensures Header(lines) == lines[..i + 1]
    ensures Body(lines) == lines[Min(FallbackLines, |lines|)..]
  {
    EndIndexIs(lines, i);
    StartIndexIs(lines, i);
  }
}
