/** The Books table of the catalog's SQLite database, as a value, with the effect of each SQL
    statement the repository and the initializer issue (BookRepository.cs, DbInitializer.cs). */
module BooksTable {

  import opened Wrappers
  import opened Domain

  /** The schema state and contents of the Books table.
      `created`: CREATE TABLE has run; `rows`: the rows, keyed by their Id column;
      `lastId`: the AUTOINCREMENT high-water mark (the table's sqlite_sequence entry), the
      largest id ever handed out, 0 before the first insert. */
  datatype Table = Table(created: bool, rows: map<int, Book>, lastId: int)

  /** The database before the initializer first runs: there is no Books table. */
  const NoTable: Table := Table(false, map[], 0)

  /** What the schema guarantees: no rows without a table; every row is stored under its own
      id (the INTEGER PRIMARY KEY), so ids are unique; and every id is positive and no larger
      than the largest id handed out. */
  predicate Valid(t: Table)
  {
    && (!t.created ==> t.rows == map[] && t.lastId == 0)
    && 0 <= t.lastId
    && forall id | id in t.rows :: t.rows[id].id == id && 0 < id <= t.lastId
  }

  /** CREATE TABLE IF NOT EXISTS Books (…): a missing table is created empty; an existing one,
      its rows and its id counter are left alone. */
  function CreateIfNotExists(t: Table): (r: Table)
    ensures r.created
    ensures Valid(t) ==> Valid(r)
    ensures t.created ==> r == t
  {
    if t.created then t else Table(true, map[], 0)
  }

  /** The id AUTOINCREMENT gives the next row: one more than any id ever handed out. */
  function NextId(t: Table): int
  {
    t.lastId + 1
  }

  /** INSERT INTO Books (Name, Description, Author, Quantity, Price) VALUES (…) followed by
      SELECT last_insert_rowid(): the new row gets a fresh id and the five data fields of `b`
      (`b.id` is not a column of the statement), and that id is the result. */
  function Insert(t: Table, b: Book): (r: (Table, int))
    ensures Valid(t) && t.created ==>
      && Valid(r.0) && r.0.created
      && r.1 > 0 && r.1 !in t.rows
      && r.1 > t.lastId && r.0.lastId == r.1
      && (forall id | id in t.rows :: id < r.1)
      && r.1 in r.0.rows && r.0.rows[r.1].id == r.1 && SameData(r.0.rows[r.1], b)
      && r.0.rows.Keys == t.rows.Keys + {r.1}
  {
    var id := NextId(t);
    (t.(rows := t.rows[id := b.(id := id)], lastId := id), id)
  }

  /** SELECT * FROM Books WHERE Id = @Id, read with QuerySingleOrDefault: the row with that id,
      or absent. The primary key makes a second matching row impossible. */
  function Find(t: Table, id: int): (r: Option<Book>)
    ensures r.Some? <==> id in t.rows
    ensures Valid(t) && r.Some? ==> r.value.id == id
  {
    if id in t.rows then Some(t.rows[id]) else None
  }

  /** UPDATE Books SET Name = …, Description = …, Author = …, Quantity = …, Price = …
      WHERE Id = @Id: the five data fields of the row with `b`'s id are replaced; without such
      a row nothing happens and no error is raised. */
  function Update(t: Table, b: Book): (r: Table)
    ensures Valid(t) ==> Valid(r)
    ensures r.created == t.created && r.lastId == t.lastId && r.rows.Keys == t.rows.Keys
  {
    if b.id in t.rows then t.(rows := t.rows[b.id := b]) else t
  }

  /** DELETE FROM Books WHERE Id = @Id: the row with that id is gone, if there was one. The id
      counter is not lowered, so AUTOINCREMENT never hands the id out again. */
  function Delete(t: Table, id: int): (r: Table)
    ensures Valid(t) ==> Valid(r)
    ensures r.created == t.created && r.lastId == t.lastId && r.rows.Keys == t.rows.Keys - {id}
  {
    t.(rows := t.rows - {id})
  }

  /** `books` is a possible result of SELECT * FROM Books: every row exactly once, in an order
      the statement leaves unspecified (it has no ORDER BY). */
  predicate Listing(t: Table, books: seq<Book>)
  {
    && |books| == |t.rows|
    && (forall i | 0 <= i < |books| :: books[i].id in t.rows && t.rows[books[i].id] == books[i])
    && (forall i, j | 0 <= i < j < |books| :: books[i].id != books[j].id)
  }

  /** The statements that change the database, for reasoning about whole histories. */
  datatype Statement =
    | CreateTable
    | InsertRow(book: Book)
    | UpdateRow(book: Book)
    | DeleteRow(id: int)

  /** The effect of one statement. A data statement against a missing table fails with
      "no such table" and changes nothing. */
  function Apply(t: Table, s: Statement): Table
  {
    match s
    case CreateTable => CreateIfNotExists(t)
    case InsertRow(b) => if t.created then Insert(t, b).0 else t
    case UpdateRow(b) => Update(t, b)
    case DeleteRow(id) => Delete(t, id)
  }

  /** The effect of a sequence of statements, first to last. */
  function Run(t: Table, ss: seq<Statement>): Table
    decreases |ss|
  {
    if ss == [] then t else Run(Apply(t, ss[0]), ss[1..])
  }

  // ---------------------------------------------------------------------------------------
  // Properties of the statements

  /** Every history keeps the schema's guarantees (ids unique and positive), and the id
      counter, the largest id ever handed out, never goes down. */
  lemma {:induction false} RunKeepsValid(t: Table, ss: seq<Statement>)
    requires Valid(t)
    ensures Valid(Run(t, ss))
    ensures t.lastId <= Run(t, ss).lastId
    ensures t.created ==> Run(t, ss).created
    decreases |ss|
  {
    if ss != [] {
      RunKeepsValid(Apply(t, ss[0]), ss[1..]);
    }
  }

  /** AUTOINCREMENT: an id handed out by an insert is larger than every id handed out before
      it, whatever statements (deletes included) came in between. */
  lemma {:induction false} LaterInsertGetsLargerId(t: Table, first: Book, between: seq<Statement>, second: Book)
    requires Valid(t) && t.created
    ensures var (t1, n1) := Insert(t, first);
      var (t2, n2) := Insert(Run(t1, between), second);
      n1 < n2
  {
    var (t1, n1) := Insert(t, first);
    RunKeepsValid(t1, between);
  }

  /** An id that was handed out and whose row is gone never comes back: no later statement
      creates a row with it. */
  lemma {:induction false} RetiredIdStaysAbsent(t: Table, id: int, ss: seq<Statement>)
    requires Valid(t)
    requires id <= t.lastId && id !in t.rows
    ensures id !in Run(t, ss).rows
    decreases |ss|
  {
    if ss != [] {
      var next := Apply(t, ss[0]);
      assert Valid(next) && t.lastId <= next.lastId && id !in next.rows;
      RetiredIdStaysAbsent(next, id, ss[1..]);
    }
  }

  /** Once a row is deleted, no later history makes a read by its id succeed again. */
  lemma {:induction false} DeletedNeverReadAgain(t: Table, id: int, ss: seq<Statement>)
    requires Valid(t) && id in t.rows
    ensures Find(Run(Delete(t, id), ss), id) == None
  {
    RetiredIdStaysAbsent(Delete(t, id), id, ss);
  }

  /** After an insert, the read by the returned id yields a row with that id and the five data
      fields of the inserted book, and every row that was there before is unchanged. */
  lemma AddThenGet(t: Table, b: Book)
    requires Valid(t) && t.created
    ensures var (t', n) := Insert(t, b);
      && Find(t', n) == Some(b.(id := n))
      && forall id | id in t.rows :: Find(t', id) == Find(t, id)
  {
  }

  /** An update replaces the five data fields of the addressed row, keeps its id, and leaves
      every other row as it was; on an id with no row it leaves the table unchanged. */
  lemma UpdateOnlyTouchesTarget(t: Table, b: Book)
    requires Valid(t)
    ensures b.id in t.rows ==> Find(Update(t, b), b.id) == Some(b) && SameData(Update(t, b).rows[b.id], b)
    ensures b.id !in t.rows ==> Update(t, b) == t
    ensures forall id | id != b.id :: Find(Update(t, b), id) == Find(t, id)
  {
  }

  /** A delete removes exactly the addressed row; deleting twice leaves the same table as
      deleting once. */
  lemma DeleteOnlyTouchesTarget(t: Table, id: int)
    ensures Find(Delete(t, id), id) == None
    ensures forall k | k != id :: Find(Delete(t, id), k) == Find(t, k)
    ensures Delete(Delete(t, id), id) == Delete(t, id)
    ensures id !in t.rows ==> Delete(t, id) == t
  {
  }

  /** The initializer is idempotent: running it twice is running it once. */
  lemma CreateIfNotExistsIdempotent(t: Table)
    ensures CreateIfNotExists(CreateIfNotExists(t)) == CreateIfNotExists(t)
  {
  }

  // ---------------------------------------------------------------------------------------
  // Listings contain every row

  /** The ids of a sequence of books. */
  function IdsOf(books: seq<Book>): set<int>
  {
    if books == [] then {} else {books[0].id} + IdsOf(books[1..])
  }

  lemma {:induction false} IdsOfMember(books: seq<Book>, id: int)
    requires id in IdsOf(books)
    ensures exists i :: 0 <= i < |books| && books[i].id == id
  {
    if books[0].id != id {
      IdsOfMember(books[1..], id);
      var i :| 0 <= i < |books[1..]| && books[1..][i].id == id;
      assert books[i + 1].id == id;
    }
  }

  lemma {:induction false} IdsOfSize(books: seq<Book>)
    requires forall i, j | 0 <= i < j < |books| :: books[i].id != books[j].id
    ensures |IdsOf(books)| == |books|
    ensures forall i | 0 <= i < |books| :: books[i].id in IdsOf(books)
  {
    if books != [] {
      IdsOfSize(books[1..]);
      if books[0].id in IdsOf(books[1..]) {
        IdsOfMember(books[1..], books[0].id);
        assert false;
      }
      forall i | 0 <= i < |books| ensures books[i].id in IdsOf(books) {
        if i > 0 {
          assert books[i] == books[1..][i - 1];
        }
      }
    }
  }

  lemma SubsetOfSameSize(a: set<int>, b: set<int>)
    requires a <= b && |a| == |b|
    ensures a == b
  {
    assert b == a + (b - a);
    assert a * (b - a) == {};
    assert |b - a| == 0;
  }

  /** A listing holds every row of the table, so it is empty exactly when the table is. */
  lemma ListingCoversRows(t: Table, books: seq<Book>)
    requires Listing(t, books)
    ensures forall id | id in t.rows :: exists i :: 0 <= i < |books| && books[i] == t.rows[id]
    ensures books == [] <==> t.rows == map[]
  {
    IdsOfSize(books);
    var ids := IdsOf(books);
    assert ids <= t.rows.Keys by {
      forall id | id in ids ensures id in t.rows {
        IdsOfMember(books, id);
      }
    }
    assert |ids| == |t.rows.Keys|;
    SubsetOfSameSize(ids, t.rows.Keys);
    forall id | id in t.rows ensures exists i :: 0 <= i < |books| && books[i] == t.rows[id] {
      IdsOfMember(books, id);
    }
    if t.rows != map[] {
      var id :| id in t.rows;
      assert books != [];
    }
  }
}
