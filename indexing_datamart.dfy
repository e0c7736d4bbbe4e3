/**
 * The indexing service's SQLite datamart: a `books` table keyed by `book_id` and an
 * `inverted_index` table keyed by `(term, book_id)`. Every SQL failure is logged and
 * swallowed; the failure modelled here is a missing schema, which turns each write into
 * a no-op and each read into "no row".
 */
module IndexingDatamart {
  import opened Wrappers
  import opened JavaInt
  import opened JavaString

  /** A row of `books`, without its key. */
  datatype BookRow = BookRow(title: string, author: string, language: string, year: int, content: string)

  /** The primary key of `inverted_index`. */
  datatype PostingKey = PostingKey(term: string, bookId: int)

  /** Both tables, and whether `initSchema` has created them. */
  datatype Tables = Tables(schema: bool, books: map<int, BookRow>, postings: map<PostingKey, string>)

  /** `List<Integer>.toString()`, the text stored in the `positions` column: "[p1, p2, ...]". */
  function RenderPositions(ps: seq<nat>): string {
    "[" + Join(seq(|ps|, i requires 0 <= i < |ps| => IntToString(ps[i])), ", ") + "]"
  }

  /** The rows `insertIndex` writes for one book: one per term, holding the rendered positions. */
  function PostingRows(bookId: int, index: map<string, seq<nat>>): (rows: map<PostingKey, string>)
    ensures forall k :: k in rows <==> k.bookId == bookId && k.term in index
    ensures forall k :: k in rows ==> rows[k] == RenderPositions(index[k.term])
  {
    map term | term in index :: PostingKey(term, bookId) := RenderPositions(index[term])
  }

  /** The upsert of `insertOrUpdateBook`. */
  function UpsertBook(t: Tables, bookId: int, row: BookRow): Tables {
    if t.schema then t.(books := t.books[bookId := row]) else t
  }

  /** The postings of every book but `bookId`. */
  function WithoutBook(postings: map<PostingKey, string>, bookId: int): (r: map<PostingKey, string>)
    ensures forall k :: k in r ==> k.bookId != bookId
  {
    map k | k in postings && k.bookId != bookId :: postings[k]
  }

  /** Writing rows of `bookId` over postings that hold none and removing them again restores the postings. */
  lemma WithoutBookOfWritten(m: map<PostingKey, string>, rows: map<PostingKey, string>, bookId: int)
    requires forall k :: k in m ==> k.bookId != bookId
    requires forall k :: k in rows ==> k.bookId == bookId
    ensures WithoutBook(m + rows, bookId) == m
  {
    var r := WithoutBook(m + rows, bookId);
    assert forall k :: k in r <==> k in m;
  }

  /** `DELETE FROM inverted_index WHERE book_id = ?`. */
  function DeletePostings(t: Tables, bookId: int): Tables {
    if t.schema then t.(postings := WithoutBook(t.postings, bookId)) else t
  }

  /** The batch of `insertIndex`: each term's row is written, overwriting a row with the same key. */
  function InsertPostings(t: Tables, bookId: int, index: map<string, seq<nat>>): Tables {
    if t.schema then t.(postings := t.postings + PostingRows(bookId, index)) else t
  }

  /** Row `bookId` becomes `row` and nothing else changes; without a schema nothing does. */
  lemma UpsertBookSpec(t: Tables, bookId: int, row: BookRow)
    ensures var r := UpsertBook(t, bookId, row);
            && r.schema == t.schema && r.postings == t.postings
            && (t.schema ==> bookId in r.books && r.books[bookId] == row)
            && (forall id :: id != bookId || !t.schema ==>
                  (id in r.books <==> id in t.books) && (id in t.books ==> r.books[id] == t.books[id]))
  {
  }

  /** Exactly the postings of `bookId` go; without a schema nothing does. */
  lemma DeletePostingsSpec(t: Tables, bookId: int)
    ensures var r := DeletePostings(t, bookId);
            && r.schema == t.schema && r.books == t.books
            && (forall k :: k in r.postings <==> k in t.postings && (!t.schema || k.bookId != bookId))
            && (forall k :: k in r.postings ==> r.postings[k] == t.postings[k])
  {
  }

  /** Every term of `index` gets its row for `bookId`, replacing any row with that key;
    * every other row is kept. Without a schema nothing changes. */
  lemma InsertPostingsSpec(t: Tables, bookId: int, index: map<string, seq<nat>>)
    ensures var r := InsertPostings(t, bookId, index);
            && r.schema == t.schema && r.books == t.books
            && (!t.schema ==> r.postings == t.postings)
            && (t.schema ==> forall k :: k in r.postings <==> k in t.postings || (k.bookId == bookId && k.term in index))
            && (t.schema ==> forall k :: k in r.postings && k.bookId == bookId && k.term in index ==>
                  r.postings[k] == RenderPositions(index[k.term]))
            && (t.schema ==> forall k :: k in r.postings && !(k.bookId == bookId && k.term in index) ==>
                  r.postings[k] == t.postings[k])
  {
  }

  /** Inserting an empty index writes nothing. */
  lemma InsertEmptyIndex(t: Tables, bookId: int)
    ensures InsertPostings(t, bookId, map[]) == t
  {
    assert PostingRows(bookId, map[]) == map[];
  }

  class Datamart {
    var schema: bool
    var books: map<int, BookRow>
    var postings: map<PostingKey, string>

    function State(): Tables
      reads this
    {
      Tables(schema, books, postings)
    }

    /** Opening the database file: whatever it already holds is kept. */
    constructor(existing: Tables)
      ensures State() == existing
    {
      schema, books, postings := existing.schema, existing.books, existing.postings;
    }

    /** `CREATE TABLE IF NOT EXISTS` for both tables: existing rows survive. */
    method InitSchema()
      modifies this
      ensures State() == old(State()).(schema := true)
    {
      schema := true;
    }

    method InsertOrUpdateBook(bookId: int, title: string, author: string, language: string,
                              year: int, content: string)
      modifies this
      ensures State() == UpsertBook(old(State()), bookId, BookRow(title, author, language, year, content))
    {
      if schema {
        books := books[bookId := BookRow(title, author, language, year, content)];
      }
    }

    method DeleteIndexForBook(bookId: int)
      modifies this
      ensures State() == DeletePostings(old(State()), bookId)
    {
      if schema {
        postings := map k | k in postings && k.bookId != bookId :: postings[k];
      }
    }

    /** Adds one row per entry of `index` to a batch, in the map's iteration order, then runs it. */
    method InsertIndex(bookId: int, index: map<string, seq<nat>>)
      modifies this
      ensures State() == InsertPostings(old(State()), bookId, index)
    {
      var batch: map<PostingKey, string> := map[];
      var pending := index.Keys;
      while pending != {}
        invariant pending <= index.Keys
        invariant forall k :: k in batch <==> k.bookId == bookId && k.term in index && k.term !in pending
        invariant forall k :: k in batch ==> batch[k] == RenderPositions(index[k.term])
        decreases pending
      {
        var term :| term in pending;
        batch := batch[PostingKey(term, bookId) := RenderPositions(index[term])];
        pending := pending - {term};
      }
      assert batch == PostingRows(bookId, index);
      if schema {
        postings := postings + batch;
      }
    }

    /** `SELECT content FROM books WHERE book_id = ?`; `None` is the `null` returned when no row is found. */
    method GetBookContent(bookId: int) returns (content: Option<string>)
      ensures schema && bookId in books ==> content == Some(books[bookId].content)
      ensures !(schema && bookId in books) ==> content == None
    {
      if schema && bookId in books {
        content := Some(books[bookId].content);
      } else {
        content := None;
      }
    }
  }
}
