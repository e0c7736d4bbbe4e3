/**
 * The indexer: reads a book's header and body from the datalake, extracts its metadata,
 * builds the inverted index of its body and replaces the book's rows in the datamart.
 * The datalake is the list of its directories in `Files.walk` order.
 */
module Indexing {
  import opened Wrappers
  import opened JavaInt
  import opened JavaString
  import opened JavaSplit
  import opened IndexingDatamart
  import MetadataExtractor

  // ---------------------------------------------------------------------------------
  // Tokens and the inverted index

  /** The letters `[a-záéíóúüñ]` kept by the normaliser. */
  predicate IsIndexLetter(c: char) {
    || 'a' <= c <= 'z'
    || c == '\U{00E1}' || c == '\U{00E9}' || c == '\U{00ED}' || c == '\U{00F3}'
    || c == '\U{00FA}' || c == '\U{00FC}' || c == '\U{00F1}'
  }

  function NormalizeChar(c: char): (r: char)
    ensures IsIndexLetter(r) || IsSpace(r)
  {
    var lower := ToLowerChar(c);
    if IsIndexLetter(lower) || IsSpace(lower) then lower else ' '
  }

  /** `toLowerCase()` then `replaceAll("[^a-záéíóúüñ\\s]", " ")`. */
  function Normalize(text: string): (r: string)
    ensures |r| == |text|
    ensures forall c :: c in r ==> IsIndexLetter(c) || IsSpace(c)
  {
    seq(|text|, i requires 0 <= i < |text| => NormalizeChar(text[i]))
  }

  /** `split("\\s+")` of the normalised text; a token's position is its index here. */
  function Tokens(text: string): (toks: seq<string>)
    ensures forall j, k :: 0 <= j < |toks| && 0 <= k < |toks[j]| ==> IsIndexLetter(toks[j][k])
  {
    SplitRuns(Normalize(text), Whitespace)
  }

  /** The positions before `n` where `w` occurs, in increasing order. */
  function PositionsOf(toks: seq<string>, w: string, n: nat): seq<nat>
    requires n <= |toks|
  {
    if n == 0 then [] else PositionsOf(toks, w, n - 1) + (if toks[n - 1] == w then [n - 1] else [])
  }

  /** The positions listed are exactly those where `w` occurs, each once, in increasing order. */
  lemma {:induction false} PositionsOfSpec(toks: seq<string>, w: string, n: nat)
    requires n <= |toks|
    ensures forall i: nat :: i in PositionsOf(toks, w, n) <==> i < n && toks[i] == w
    ensures forall a :: 0 <= a < |PositionsOf(toks, w, n)| ==> PositionsOf(toks, w, n)[a] < n
    ensures forall a, b :: 0 <= a < b < |PositionsOf(toks, w, n)| ==> PositionsOf(toks, w, n)[a] < PositionsOf(toks, w, n)[b]
  {
    if n > 0 {
      PositionsOfSpec(toks, w, n - 1);
    }
  }

  /** The index of the first `n` tokens: each word longer than two letters, with its positions. */
  function PartialIndex(toks: seq<string>, n: nat): map<string, seq<nat>>
    requires n <= |toks|
  {
    map w | w in toks[..n] && |w| > 2 :: PositionsOf(toks, w, n)
  }

  /** What `buildInvertedIndex` returns. */
  function InvertedIndex(text: string): map<string, seq<nat>> {
    var toks := Tokens(text);
    PartialIndex(toks, |toks|)
  }

  lemma PositionsOfEmpty(toks: seq<string>, w: string, n: nat)
    requires n <= |toks|
    requires w !in toks[..n]
    ensures PositionsOf(toks, w, n) == []
  {
    PositionsOfSpec(toks, w, n);
  }

  /** The body of the indexing loop, `computeIfAbsent(word, ...).add(i)` for a word longer than
    * two letters: position `i` is appended to the word's list, which is created when absent. */
  function AddOccurrence(index: map<string, seq<nat>>, word: string, i: nat): map<string, seq<nat>> {
    if |word| > 2 then index[word := (if word in index then index[word] else []) + [i]] else index
  }

  /** Adding token `n` to the index appends `n` to that word's positions and touches nothing else. */
  lemma PartialIndexStep(toks: seq<string>, n: nat)
    requires n < |toks|
    ensures PartialIndex(toks, n + 1) == AddOccurrence(PartialIndex(toks, n), toks[n], n)
  {
    var before := PartialIndex(toks, n);
    var after := PartialIndex(toks, n + 1);
    var w := toks[n];
    assert toks[..n + 1] == toks[..n] + [w];
    assert forall v :: v in after <==> v in before || (v == w && |w| > 2);
    forall v | v in after && v != w
      ensures after[v] == before[v]
    {
      assert PositionsOf(toks, v, n + 1) == PositionsOf(toks, v, n) + [];
    }
    if |w| > 2 {
      assert PositionsOf(toks, w, n + 1) == PositionsOf(toks, w, n) + [n];
      if w !in toks[..n] {
        PositionsOfEmpty(toks, w, n);
      }
    }
    var expected := AddOccurrence(before, w, n);
    assert forall v :: v in after <==> v in expected;
    assert forall v :: v in after ==> after[v] == expected[v];
    assert after == expected;
  }

  /** A token holds index letters only, so `trim()` leaves it alone. */
  lemma TrimToken(tok: string)
    requires forall k :: 0 <= k < |tok| ==> IsIndexLetter(tok[k])
    ensures Trim(tok) == tok
  {
    TrimNoop(tok);
  }

  /** One iteration of the indexing loop, which trims each token before using it. */
  lemma IndexLoopStep(toks: seq<string>, i: nat)
    requires i < |toks|
    requires forall k :: 0 <= k < |toks[i]| ==> IsIndexLetter(toks[i][k])
    ensures PartialIndex(toks, i + 1) == AddOccurrence(PartialIndex(toks, i), Trim(toks[i]), i)
  {
    TrimToken(toks[i]);
    PartialIndexStep(toks, i);
  }

  method BuildInvertedIndex(text: string) returns (index: map<string, seq<nat>>)
    ensures index == InvertedIndex(text)
  {
    var toks := Tokens(text);
    index := map[];
    for i := 0 to |toks|
      invariant index == PartialIndex(toks, i)
    {
      var word := Trim(toks[i]);
      IndexLoopStep(toks, i);
      index := AddOccurrence(index, word, i);
    }
    assert toks[..|toks|] == toks;
  }

  /** `index` lists, for each word longer than two letters among `toks`, exactly the
    * positions where it occurs, in increasing order, and holds nothing else. */
  ghost predicate IndexesTokens(toks: seq<string>, index: map<string, seq<nat>>) {
    && (forall w :: w in index ==> |w| > 2)
    && (forall i :: 0 <= i < |toks| && |toks[i]| > 2 ==> toks[i] in index)
    && (forall w, i: nat :: w in index ==> (i in index[w] <==> i < |toks| && toks[i] == w))
    && (forall w, a, b :: w in index && 0 <= a < b < |index[w]| ==> index[w][a] < index[w][b])
  }

  lemma InvertedIndexSpec(text: string)
    ensures IndexesTokens(Tokens(text), InvertedIndex(text))
    ensures forall w :: w in InvertedIndex(text) ==> forall k :: 0 <= k < |w| ==> IsIndexLetter(w[k])
  {
    var toks := Tokens(text);
    var index := InvertedIndex(text);
    assert toks[..|toks|] == toks;
    forall w | w in index
      ensures forall i: nat :: i in index[w] <==> i < |toks| && toks[i] == w
      ensures forall a, b :: 0 <= a < b < |index[w]| ==> index[w][a] < index[w][b]
      ensures forall k :: 0 <= k < |w| ==> IsIndexLetter(w[k])
    {
      PositionsOfSpec(toks, w, |toks|);
      var j :| 0 <= j < |toks| && toks[j] == w;
    }
    forall i | 0 <= i < |toks| && |toks[i]| > 2
      ensures toks[i] in index
    {
      assert toks[i] in toks;
    }
  }

  /** Text that starts with punctuation splits into a leading empty token, which takes position 0. */
  lemma LeadingEmptyToken()
    ensures Tokens(".cat") == ["", "cat"]
  {
    assert Normalize(".cat") == " cat";
    FieldsAfterWord("", Whitespace, ' ', "cat");
    FieldsWhole("cat", Whitespace);
    assert Fields(" cat", Whitespace) == ["", "cat"];
  }

  /** So the first word of ".cat" is indexed at position 1. */
  lemma LeadingEmptyTokenIndex()
    ensures InvertedIndex(".cat") == map["cat" := [1]]
  {
    LeadingEmptyToken();
    var toks := Tokens(".cat");
    assert PositionsOf(toks, "cat", 2) == [1];
    assert toks[..2] == toks;
    var index := InvertedIndex(".cat");
    assert forall w :: w in index <==> w == "cat";
  }

  // ---------------------------------------------------------------------------------
  // The datalake

  /** A directory found by `Files.walk`: its name and the two files of a book, when present. */
  datatype Dir = Dir(name: string, header: Option<seq<string>>, body: Option<string>)

  /** `findBookDirectory`: the first directory, in walk order, named `String.valueOf(bookId)`. */
  function FindBookDirectory(lake: seq<Dir>, bookId: int): (r: Option<Dir>)
    ensures r.Some? ==> r.value.name == IntToString(bookId)
    decreases |lake|
  {
    if |lake| == 0 then None
    else if lake[0].name == IntToString(bookId) then Some(lake[0])
    else FindBookDirectory(lake[1..], bookId)
  }

  /** A directory is found exactly when one carries the name, and it is the first such one. */
  lemma {:induction false} FindBookDirectorySpec(lake: seq<Dir>, bookId: int)
    ensures var r := FindBookDirectory(lake, bookId);
            && (r.Some? <==> exists i :: 0 <= i < |lake| && lake[i].name == IntToString(bookId))
            && (r.Some? ==>
                  exists i :: 0 <= i < |lake| && lake[i] == r.value &&
                    forall j :: 0 <= j < i ==> lake[j].name != IntToString(bookId))
    decreases |lake|
  {
    if |lake| > 0 && lake[0].name != IntToString(bookId) {
      var rest := lake[1..];
      FindBookDirectorySpec(rest, bookId);
      assert forall i :: 1 <= i < |lake| ==> lake[i] == rest[i - 1];
      var r := FindBookDirectory(rest, bookId);
      if r.Some? {
        var i :| 0 <= i < |rest| && rest[i] == r.value &&
                 forall j :: 0 <= j < i ==> rest[j].name != IntToString(bookId);
        assert lake[i + 1] == r.value;
        assert forall j :: 0 <= j < i + 1 ==> lake[j].name != IntToString(bookId);
      } else {
        assert forall i :: 0 <= i < |lake| ==> lake[i].name != IntToString(bookId);
      }
    }
  }

  /** The name filter of `findAllBookDirectories`: `\d+` but neither `\d{8}` nor `\d{2}`. */
  predicate IsCandidateName(name: string) {
    |name| > 0 && AllDigits(name) && |name| != 8 && |name| != 2
  }

  /** `findAllBookDirectories`: the candidate directories, in walk order. */
  function Candidates(lake: seq<Dir>): (r: seq<Dir>)
    ensures |r| <= |lake|
  {
    if |lake| == 0 then []
    else (if IsCandidateName(lake[0].name) then [lake[0]] else []) + Candidates(lake[1..])
  }

  /** The candidates are exactly the directories whose names pass the filter. */
  lemma {:induction false} CandidatesSpec(lake: seq<Dir>)
    ensures forall d :: d in Candidates(lake) <==> d in lake && IsCandidateName(d.name)
  {
    if |lake| > 0 {
      CandidatesSpec(lake[1..]);
      assert lake == [lake[0]] + lake[1..];
    }
  }

  /** `safeParseInt`: `Integer.parseInt`, or -1 when it throws. */
  function SafeParseInt(s: string): (r: int)
    ensures r == -1 || IsInt32(r)
    ensures ParseInt(s).Some? ==> r == ParseInt(s).value
    ensures ParseInt(s).None? ==> r == -1
  {
    match ParseInt(s)
    case Some(v) => v
    case None => -1
  }

  /** What `indexBook` writes for `bookId`, or `None` when it gives up before writing:
    * no directory, a missing header or body, or a blank body. */
  function Prepared(lake: seq<Dir>, bookId: int): Option<(BookRow, map<string, seq<nat>>)> {
    match FindBookDirectory(lake, bookId)
    case None => None
    case Some(dir) =>
      if dir.header.None? || dir.body.None? || IsBlank(dir.body.value) then None
      else
        var meta := MetadataExtractor.MetaOf(dir.header.value);
        var content := dir.body.value;
        Some((BookRow(meta.title, meta.author, meta.language, meta.year, content), InvertedIndex(content)))
  }

  /** The three writes of `indexBook`: delete the book's postings, upsert its row, insert its index. */
  function Reindex(t: Tables, bookId: int, row: BookRow, index: map<string, seq<nat>>): Tables {
    InsertPostings(UpsertBook(DeletePostings(t, bookId), bookId, row), bookId, index)
  }

  /** After a reindex the book's row is the new one and its postings are exactly its new
    * index (stale terms are gone); every other book's row and postings are untouched. */
  lemma ReindexSpec(t: Tables, bookId: int, row: BookRow, index: map<string, seq<nat>>)
    requires t.schema
    ensures var r := Reindex(t, bookId, row, index);
            && r.schema
            && bookId in r.books && r.books[bookId] == row
            && (forall id :: id != bookId ==>
                  ((id in r.books <==> id in t.books) && (id in t.books ==> r.books[id] == t.books[id])))
            && (forall k: PostingKey :: k.bookId == bookId ==> (k in r.postings <==> k.term in index))
            && (forall k :: k in r.postings && k.bookId == bookId ==> r.postings[k] == RenderPositions(index[k.term]))
            && (forall k: PostingKey :: k.bookId != bookId ==> (k in r.postings <==> k in t.postings))
            && (forall k :: k in r.postings && k.bookId != bookId ==> r.postings[k] == t.postings[k])
  {
  }

  /** Reindexing a book twice with the same data is the same as doing it once. */
  lemma ReindexIdempotent(t: Tables, bookId: int, row: BookRow, index: map<string, seq<nat>>)
    ensures Reindex(Reindex(t, bookId, row, index), bookId, row, index) == Reindex(t, bookId, row, index)
  {
    if t.schema {
      var cleared := WithoutBook(t.postings, bookId);
      WithoutBookOfWritten(cleared, PostingRows(bookId, index), bookId);
      assert t.books[bookId := row][bookId := row] == t.books[bookId := row];
    }
  }

  /** Without a schema every write is swallowed. */
  lemma ReindexWithoutSchema(t: Tables, bookId: int, row: BookRow, index: map<string, seq<nat>>)
    requires !t.schema
    ensures Reindex(t, bookId, row, index) == t
  {
  }

  /** The tables after `indexBook(bookId)`: reindexed when the book could be read, unchanged otherwise. */
  function AfterIndexBook(t: Tables, lake: seq<Dir>, bookId: int): Tables {
    match Prepared(lake, bookId)
    case Some(p) => Reindex(t, bookId, p.0, p.1)
    case None => t
  }

  /** One step of `rebuildAll`: the candidate's number, if positive, is indexed. */
  function RebuildStep(t: Tables, lake: seq<Dir>, dir: Dir): Tables {
    var bookId := SafeParseInt(dir.name);
    if bookId > 0 then AfterIndexBook(t, lake, bookId) else t
  }

  predicate RebuildSucceeds(lake: seq<Dir>, dir: Dir) {
    var bookId := SafeParseInt(dir.name);
    bookId > 0 && Prepared(lake, bookId).Some?
  }

  /** The tables after the first `n` candidates. */
  function RebuildState(t: Tables, lake: seq<Dir>, cands: seq<Dir>, n: nat): Tables
    requires n <= |cands|
  {
    if n == 0 then t else RebuildStep(RebuildState(t, lake, cands, n - 1), lake, cands[n - 1])
  }

  /** The number of successes among the first `n` candidates. */
  function RebuildCount(lake: seq<Dir>, cands: seq<Dir>, n: nat): (c: nat)
    requires n <= |cands|
    ensures c <= n
  {
    if n == 0 then 0
    else RebuildCount(lake, cands, n - 1) + (if RebuildSucceeds(lake, cands[n - 1]) then 1 else 0)
  }

  /** The state and count after `n + 1` candidates follow from those after `n` and the outcome of candidate `n`. */
  lemma RebuildNext(t: Tables, lake: seq<Dir>, cands: seq<Dir>, n: nat, after: Tables, ok: bool)
    requires n < |cands|
    requires after == RebuildStep(RebuildState(t, lake, cands, n), lake, cands[n])
    requires ok == RebuildSucceeds(lake, cands[n])
    ensures after == RebuildState(t, lake, cands, n + 1)
    ensures RebuildCount(lake, cands, n + 1) == RebuildCount(lake, cands, n) + if ok then 1 else 0
  {
  }

  /** The digits of the name below, read four at a time. */
  lemma FourNines()
    ensures DigitsValue("9999") == 9999
  {
    assert DigitsValue("9") == 9;
    assert "99"[..1] == "9";
    assert DigitsValue("99") == 99;
    assert "999"[..2] == "99";
    assert DigitsValue("999") == 999;
    assert "9999"[..3] == "999";
    assert DigitsValue("9999") == 9999;
  }

  lemma EightNines()
    ensures DigitsValue("99999999") == 99999999
  {
    FourNines();
    assert "99999"[..4] == "9999";
    assert DigitsValue("99999") == 99999;
    assert "999999"[..5] == "99999";
    assert DigitsValue("999999") == 999999;
    assert "9999999"[..6] == "999999";
    assert DigitsValue("9999999") == 9999999;
    assert "99999999"[..7] == "9999999";
    assert DigitsValue("99999999") == 99999999;
  }

  /** Eleven nines exceed the `int` range, so `parseInt` rejects them. */
  lemma OverflowingDigits()
    ensures ParseInt("99999999999").None?
  {
    EightNines();
    assert "999999999"[..8] == "99999999";
    assert DigitsValue("999999999") == 999999999;
    assert "9999999999"[..9] == "999999999";
    assert DigitsValue("9999999999") == 9999999999;
    assert "99999999999"[..10] == "9999999999";
    assert DigitsValue("99999999999") == 99999999999;
  }

  /** A candidate whose name `parseInt` rejects reads as -1, so `rebuildAll` skips it without writing. */
  lemma UnparsableCandidateSkipped(t: Tables, lake: seq<Dir>, d: Dir)
    requires ParseInt(d.name).None?
    ensures SafeParseInt(d.name) == -1
    ensures !RebuildSucceeds(lake, d) && RebuildStep(t, lake, d) == t
  {
  }

  /** An all-digit directory name beyond the `int` range passes the filter but is skipped. */
  lemma OverflowingCandidate(t: Tables, lake: seq<Dir>, d: Dir)
    requires d.name == "99999999999"
    ensures IsCandidateName(d.name)
    ensures !RebuildSucceeds(lake, d) && RebuildStep(t, lake, d) == t
  {
    assert AllDigits(d.name);
    OverflowingDigits();
    UnparsableCandidateSkipped(t, lake, d);
  }

  class Indexer {
    const repo: Datamart

    constructor(repository: Datamart)
      ensures repo == repository
    {
      repo := repository;
    }

    /** `indexBook`: `true` exactly when the book was found, complete and not blank;
      * only then are its rows replaced. */
    method IndexBook(bookId: int, lake: seq<Dir>) returns (ok: bool)
      modifies repo
      ensures ok <==> Prepared(lake, bookId).Some?
      ensures repo.State() == AfterIndexBook(old(repo.State()), lake, bookId)
    {
      var dir := FindBookDirectory(lake, bookId);
      if dir.None? || dir.value.header.None? || dir.value.body.None? {
        return false;
      }
      var meta := MetadataExtractor.Extract(dir.value.header.value);
      var content := dir.value.body.value;
      if IsBlank(content) {
        return false;
      }
      var index := BuildInvertedIndex(content);
      repo.DeleteIndexForBook(bookId);
      repo.InsertOrUpdateBook(bookId, meta.title, meta.author, meta.language, meta.year, content);
      repo.InsertIndex(bookId, index);
      return true;
    }

    /** `indexDocument`, the entry point of the message consumer. */
    method IndexDocument(bookId: int, lake: seq<Dir>) returns (ok: bool)
      modifies repo
      ensures ok <==> Prepared(lake, bookId).Some?
      ensures repo.State() == AfterIndexBook(old(repo.State()), lake, bookId)
    {
      ok := IndexBook(bookId, lake);
    }

    /** The body of `rebuildAll`'s loop: `bookId > 0 && indexBook(bookId)` for one directory. */
    method IndexCandidate(dir: Dir, lake: seq<Dir>) returns (ok: bool)
      modifies repo
      ensures ok == RebuildSucceeds(lake, dir)
      ensures repo.State() == RebuildStep(old(repo.State()), lake, dir)
    {
      var bookId := SafeParseInt(dir.name);
      ok := false;
      if bookId > 0 {
        ok := IndexBook(bookId, lake);
      }
    }

    /** `rebuildAll`: indexes every candidate directory with a positive number and counts the successes. */
    method RebuildAll(lake: seq<Dir>) returns (count: int)
      modifies repo
      ensures count == RebuildCount(lake, Candidates(lake), |Candidates(lake)|)
      ensures 0 <= count <= |Candidates(lake)|
      ensures repo.State() == RebuildState(old(repo.State()), lake, Candidates(lake), |Candidates(lake)|)
    {
      var dirs := Candidates(lake);
      count := 0;
      for i := 0 to |dirs|
        invariant count == RebuildCount(lake, dirs, i)
        invariant repo.State() == RebuildState(old(repo.State()), lake, dirs, i)
      {
        var ok := IndexCandidate(dirs[i], lake);
        RebuildNext(old(repo.State()), lake, dirs, i, repo.State(), ok);
        if ok {
          count := count + 1;
        }
      }
    }
  }
}
