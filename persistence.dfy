/** The relational backend (project BookCatalog.Infrastructure): the database both the
    repository and the initializer reach through the connection factory, the repository that
    runs one SQL statement per operation, and the schema initializer. */
module Persistence {

  import opened Wrappers
  import opened Domain
  import BooksTable

  /** One call on the repository contract IBookRepository, with its argument: listing, lookup
      by id, add, update and delete. */
  datatype RepositoryCall =
    | GetAllBooksCall
    | GetBookByIdCall(id: int)
    | AddBookCall(book: Book)
    | UpdateBookCall(book: Book)
    | DeleteBookCall(id: int)

  /** The SQLite database behind the connection factory, reduced to its Books table. */
  class Database {
    /** Whether the Books table exists. */
    var tableExists: bool
    /** The rows, keyed by their Id column. */
    var rows: map<int, Book>
    /** The largest id AUTOINCREMENT has handed out. */
    var lastId: int

    function State(): BooksTable.Table
      reads this
    {
      BooksTable.Table(tableExists, rows, lastId)
    }

    ghost predicate Valid()
      reads this
    {
      BooksTable.Valid(State())
    }

    /** A database file with no Books table yet. */
    constructor ()
      ensures Valid() && State() == BooksTable.NoTable
    {
      tableExists := false;
      rows := map[];
      lastId := 0;
    }
  }

  /** Creates the Books table at start-up (DbInitializer). */
  class DbInitializer {
    const database: Database

    constructor (database: Database)
      ensures this.database == database
    {
      this.database := database;
    }

    /** CREATE TABLE IF NOT EXISTS Books (…): afterwards the table exists; when it already
        existed, its rows and its id counter are unchanged. */
    method Initialize()
      requires database.Valid()
      modifies database
      ensures database.Valid() && database.tableExists
      ensures database.State() == BooksTable.CreateIfNotExists(old(database.State()))
      ensures old(database.tableExists) ==> database.State() == old(database.State())
    {
      if !database.tableExists {
        database.tableExists := true;
        database.rows := map[];
        database.lastId := 0;
      }
    }
  }

  /** The Dapper repository: each operation runs one statement on the Books table. `calls`
      records, for the model only, the operations invoked on it, in order. */
  class BookRepository {
    const database: Database
    ghost var calls: seq<RepositoryCall>

    constructor (database: Database)
      ensures this.database == database && calls == []
    {
      this.database := database;
      calls := [];
    }

    /** The initializer has run (the table exists) and the schema's guarantees hold. */
    ghost predicate Valid()
      reads database
    {
      database.tableExists && database.Valid()
    }

    /** SELECT * FROM Books: every row exactly once, in no particular order. The reader hands
        the rows over one at a time; the order in which `:|` picks them stands for the order
        the statement leaves open. */
    method GetAllBooks() returns (books: seq<Book>)
      requires Valid()
      modifies this
      ensures calls == old(calls) + [GetAllBooksCall]
      ensures BooksTable.Listing(database.State(), books)
    {
      calls := calls + [GetAllBooksCall];
      var rows := database.rows;
      assert forall k | k in rows :: rows[k].id == k;
      var pending := rows.Keys;
      books := [];
      while pending != {}
        invariant pending <= rows.Keys
        invariant |books| + |pending| == |rows|
        invariant forall i | 0 <= i < |books| ::
          books[i].id in rows && books[i].id !in pending && rows[books[i].id] == books[i]
        invariant forall i, j | 0 <= i < j < |books| :: books[i].id != books[j].id
        decreases pending
      {
        var key :| key in pending;
        books := books + [rows[key]];
        pending := pending - {key};
      }
    }

    /** SELECT * FROM Books WHERE Id = @Id: the row with that id, or absent (not an error). */
    method GetBookById(id: int) returns (book: Option<Book>)
      requires Valid()
      modifies this
      ensures calls == old(calls) + [GetBookByIdCall(id)]
      ensures book == BooksTable.Find(database.State(), id)
      ensures book.Some? ==> book.value.id == id
    {
      calls := calls + [GetBookByIdCall(id)];
      if id in database.rows {
        book := Some(database.rows[id]);
      } else {
        book := None;
      }
    }

    /** INSERT … ; SELECT last_insert_rowid(): stores the five data fields of `book` under a
        fresh id, ignoring `book.id`, and returns that id. */
    method AddBook(book: Book) returns (id: int)
      requires Valid()
      modifies this, database
      ensures Valid()
      ensures calls == old(calls) + [AddBookCall(book)]
      ensures (database.State(), id) == BooksTable.Insert(old(database.State()), book)
      ensures id !in old(database.rows) && forall k | k in old(database.rows) :: k < id
      ensures id > old(database.lastId) && database.lastId == id
      ensures database.rows == old(database.rows)[id := book.(id := id)]
    {
      calls := calls + [AddBookCall(book)];
      id := database.lastId + 1;
      database.rows := database.rows[id := book.(id := id)];
      database.lastId := id;
    }

    /** UPDATE Books SET … WHERE Id = @Id: replaces the five data fields of the row with
        `book.id`; with no such row, nothing changes and nothing is reported. */
    method UpdateBook(book: Book)
      requires Valid()
      modifies this, database
      ensures Valid()
      ensures calls == old(calls) + [UpdateBookCall(book)]
      ensures database.State() == BooksTable.Update(old(database.State()), book)
      ensures book.id in old(database.rows) ==> database.rows == old(database.rows)[book.id := book]
      ensures book.id !in old(database.rows) ==> database.State() == old(database.State())
    {
      calls := calls + [UpdateBookCall(book)];
      if book.id in database.rows {
        database.rows := database.rows[book.id := book];
      }
    }

    /** DELETE FROM Books WHERE Id = @Id: removes the row with that id, if any. */
    method DeleteBook(id: int)
      requires Valid()
      modifies this, database
      ensures Valid()
      ensures calls == old(calls) + [DeleteBookCall(id)]
      ensures database.State() == BooksTable.Delete(old(database.State()), id)
      ensures database.rows == old(database.rows) - {id}
    {
      calls := calls + [DeleteBookCall(id)];
      database.rows := database.rows - {id};
    }
  }
}
