/**
 * `String.split` with a limit of zero, as the services call it: the input is cut at
 * every match of the separator, an input without any match comes back whole, and
 * trailing empty pieces are dropped (a leading empty piece stays).
 */
module JavaSplit {
  import opened JavaString

  /** The separator-run patterns in use: `\s+` and `[,\s]+`. */
  datatype Delimiter = Whitespace | CommaOrWhitespace

  predicate IsDelim(d: Delimiter, c: char) {
    match d
    case Whitespace => IsSpace(c)
    case CommaOrWhitespace => c == ',' || IsSpace(c)
  }

  /** The first position at or after `i` that holds a delimiter, or `|s|`. */
  function NextDelim(s: string, d: Delimiter, i: nat): (r: nat)
    requires i <= |s|
    ensures i <= r <= |s|
    ensures r < |s| ==> IsDelim(d, s[r])
    ensures forall k :: i <= k < r ==> !IsDelim(d, s[k])
    decreases |s| - i
  {
    if i == |s| || IsDelim(d, s[i]) then i else NextDelim(s, d, i + 1)
  }

  /** The end of the run of delimiters that starts at `i`. */
  function RunEnd(s: string, d: Delimiter, i: nat): (r: nat)
    requires i <= |s|
    ensures i <= r <= |s|
    ensures forall k :: i <= k < r ==> IsDelim(d, s[k])
    ensures r < |s| ==> !IsDelim(d, s[r])
    decreases |s| - i
  {
    if i < |s| && IsDelim(d, s[i]) then RunEnd(s, d, i + 1) else i
  }

  /** The pieces between maximal delimiter runs, trailing empty piece included. */
  function Fields(s: string, d: Delimiter): (r: seq<string>)
    ensures |r| > 0
    ensures forall j, k :: 0 <= j < |r| && 0 <= k < |r[j]| ==> !IsDelim(d, r[j][k]) && r[j][k] in s
    decreases |s|
  {
    var i := NextDelim(s, d, 0);
    if i == |s| then [s]
    else
      var rest := s[RunEnd(s, d, i)..];
      var tail := Fields(rest, d);
      assert forall c :: c in rest ==> c in s;
      [s[..i]] + tail
  }

  /** A first delimiter at `i`, alone between two pieces, cuts off the first piece. */
  lemma FieldsCons(s: string, d: Delimiter, i: nat)
    requires i + 1 < |s| && IsDelim(d, s[i]) && !IsDelim(d, s[i + 1])
    requires forall k :: 0 <= k < i ==> !IsDelim(d, s[k])
    ensures NextDelim(s, d, 0) == i
    ensures Fields(s, d) == [s[..i]] + Fields(s[i + 1..], d)
  {
    assert NextDelim(s, d, 0) == i;
    assert RunEnd(s, d, i) == i + 1;
  }

  /** A word, one delimiter and more text: the word is the first piece. */
  lemma FieldsAfterWord(w: string, d: Delimiter, sep: char, rest: string)
    requires IsDelim(d, sep) && forall k :: 0 <= k < |w| ==> !IsDelim(d, w[k])
    requires |rest| > 0 && !IsDelim(d, rest[0])
    ensures Fields(w + [sep] + rest, d) == [w] + Fields(rest, d)
  {
    var s := w + [sep] + rest;
    FieldsCons(s, d, |w|);
    assert s[..|w|] == w && s[|w| + 1..] == rest;
  }

  /** Text without a delimiter is a single piece. */
  lemma FieldsWhole(s: string, d: Delimiter)
    requires forall k :: 0 <= k < |s| ==> !IsDelim(d, s[k])
    ensures NextDelim(s, d, 0) == |s| && Fields(s, d) == [s]
  {
  }

  /** Removes the empty strings at the end of `xs`. */
  function DropTrailingEmpty(xs: seq<string>): (r: seq<string>)
    ensures |r| <= |xs| && r == xs[..|r|]
    ensures |r| > 0 ==> r[|r| - 1] != ""
    ensures forall k :: |r| <= k < |xs| ==> xs[k] == ""
    decreases |xs|
  {
    if |xs| > 0 && xs[|xs| - 1] == "" then DropTrailingEmpty(xs[..|xs| - 1]) else xs
  }

  /** `s.split("\\s+")` or `s.split("[,\\s]+")`: no piece holds a delimiter, and every character comes from `s`. */
  function SplitRuns(s: string, d: Delimiter): (r: seq<string>)
    ensures forall j, k :: 0 <= j < |r| && 0 <= k < |r[j]| ==> !IsDelim(d, r[j][k]) && r[j][k] in s
  {
    if NextDelim(s, d, 0) == |s| then [s] else DropTrailingEmpty(Fields(s, d))
  }

  /** The pieces between non-overlapping occurrences of `sep`, scanning left to right. */
  function LiteralFields(s: string, sep: string): (r: seq<string>)
    requires |sep| > 0
    ensures |r| > 0
    decreases |s|
  {
    var i := IndexOf(s, sep);
    if i < 0 then [s] else [s[..i]] + LiteralFields(s[i + |sep|..], sep)
  }

  /** Joining a piece in front of at least one other puts one separator between them. */
  lemma JoinCons(head: string, tail: seq<string>, sep: string)
    requires |tail| > 0
    ensures Join([head] + tail, sep) == head + sep + Join(tail, sep)
  {
    assert ([head] + tail)[1..] == tail;
  }

  /** One found separator ends the first piece, and the split resumes after it. */
  lemma LiteralStep(s: string, t: string)
    requires |t| > 0 && IndexOf(s, t) >= 0
    ensures var i := IndexOf(s, t);
            i + |t| <= |s| && LiteralFields(s, t) == [s[..i]] + LiteralFields(s[i + |t|..], t)
  {
  }

  /** One found separator is `t` itself, between the first piece and the rest. */
  lemma SeparatorStep(s: string, t: string)
    requires |t| > 0 && IndexOf(s, t) >= 0
    ensures var i := IndexOf(s, t);
            i + |t| <= |s| && s == s[..i] + t + s[i + |t|..]
  {
    var i := IndexOf(s, t);
    assert OccursAt(s, t, i);
    assert s == s[..i] + s[i..i + |t|] + s[i + |t|..];
  }

  /** One found separator is dropped, and the removal resumes after it. */
  lemma RemoveStep(s: string, t: string)
    requires |t| > 0 && IndexOf(s, t) >= 0
    ensures var i := IndexOf(s, t);
            i + |t| <= |s| && RemoveAll(s, t) == s[..i] + RemoveAll(s[i + |t|..], t)
  {
  }

  /** Joining with nothing in between just concatenates. */
  lemma JoinNothingCons(head: string, tail: seq<string>)
    requires |tail| > 0
    ensures Join([head] + tail, "") == head + Join(tail, "")
  {
    JoinCons(head, tail, "");
    assert head + "" == head;
  }

  /** `s.replace(t, "")` concatenates the pieces of `LiteralFields(s, t)`. */
  lemma {:induction false} RemoveAllJoin(s: string, t: string)
    requires |t| > 0
    ensures RemoveAll(s, t) == Join(LiteralFields(s, t), "")
    decreases |s|
  {
    if IndexOf(s, t) < 0 {
      assert LiteralFields(s, t) == [s] && RemoveAll(s, t) == s;
    } else {
      LiteralStep(s, t);
      RemoveStep(s, t);
      var i := IndexOf(s, t);
      var rest := s[i + |t|..];
      var head, pieces := s[..i], LiteralFields(rest, t);
      calc {
        RemoveAll(s, t);
        head + RemoveAll(rest, t);
        { RemoveAllJoin(rest, t); }
        head + Join(pieces, "");
        { JoinNothingCons(head, pieces); }
        Join([head] + pieces, "");
        Join(LiteralFields(s, t), "");
      }
    }
  }

  /** Joining the pieces of `LiteralFields(s, t)` with `t` gives `s` back. */
  lemma {:induction false} LiteralFieldsJoin(s: string, t: string)
    requires |t| > 0
    ensures Join(LiteralFields(s, t), t) == s
    decreases |s|
  {
    if IndexOf(s, t) < 0 {
      assert LiteralFields(s, t) == [s];
    } else {
      LiteralStep(s, t);
      SeparatorStep(s, t);
      var i := IndexOf(s, t);
      var rest := s[i + |t|..];
      LiteralFieldsJoin(rest, t);
      JoinCons(s[..i], LiteralFields(rest, t), t);
    }
  }

  /** `s.split(sep)` for a separator without regular-expression meta-characters. */
  function SplitLiteral(s: string, sep: string): seq<string>
    requires |sep| > 0
  {
    if IndexOf(s, sep) < 0 then [s] else DropTrailingEmpty(LiteralFields(s, sep))
  }
}
