/** The operation handlers (BookCatalog.Application.Features.Books): one request datatype and
    one handler per operation. Each handler maps between the transfer shapes and the entity and
    makes exactly one repository call. Dispatch through the mediator is a direct call here. */
module Handlers {

  import opened Wrappers
  import opened Domain
  import opened Dtos
  import opened Persistence
  import BooksTable

  // ---------------------------------------------------------------------------------------
  // Requests

  datatype GetAllBookQuery = GetAllBookQuery
  datatype GetBookIdQuery = GetBookIdQuery(id: int)
  datatype AddBookCommand = AddBookCommand(book: CreateBookDto)
  datatype UpdateBookAsyncCommand = UpdateBookAsyncCommand(id: int, book: BookDto)
  datatype DeleteBookCommand = DeleteBookCommand(id: int)

  // ---------------------------------------------------------------------------------------
  // Mappings between the entity and the transfer shapes

  /** The entity the create handler builds: the five data fields of the request, and an Id
      that is never assigned, so it keeps its default. */
  function NewBook(dto: CreateBookDto): (r: Book)
    ensures r.id == DefaultId
  {
    Book(DefaultId, dto.name, dto.description, dto.author, dto.quantity, dto.price)
  }

  /** The entity the update handler builds: the Id from the command, the five data fields from
      the body. The body's own Id is not read. */
  function BookWithCommandId(id: int, dto: BookDto): (r: Book)
    ensures r.id == id
  {
    Book(id, dto.name, dto.description, dto.author, dto.quantity, dto.price)
  }

  /** The field-for-field copy of an entity that both query handlers return. */
  function ToDto(b: Book): (r: BookDto)
    ensures r.id == b.id && BookWithCommandId(r.id, r) == b
  {
    BookDto(b.id, b.name, b.description, b.author, b.quantity, b.price)
  }

  /** The get-by-id handler's result: null for an absent book, its copy otherwise. */
  function ToDtoOrNull(b: Option<Book>): (r: Option<BookDto>)
    ensures r.None? <==> b.None?
    ensures r.Some? ==> BookWithCommandId(r.value.id, r.value) == b.value
  {
    if b.Some? then Some(ToDto(b.value)) else None
  }

  /** The list handler's `Select`: element i of the result is the copy of element i of the
      repository's sequence, so length and order are kept. */
  function ToDtos(books: seq<Book>): (r: seq<BookDto>)
    ensures |r| == |books|
    ensures forall i | 0 <= i < |books| :: r[i] == ToDto(books[i])
  {
    if books == [] then [] else [ToDto(books[0])] + ToDtos(books[1..])
  }

  /** Reading an entity into a BookDto and building an entity from it under the same id gives
      the entity back; building an entity under a command id and reading it gives the body with
      its Id replaced by the command id. */
  lemma MappingsRoundTrip(b: Book, id: int, dto: BookDto)
    ensures BookWithCommandId(b.id, ToDto(b)) == b
    ensures ToDto(BookWithCommandId(id, dto)) == dto.(id := id)
  {
  }

  /** Identity precedence on update: the entity's Id is the command's, whatever the body says;
      the other five fields are the body's. */
  lemma UpdateUsesCommandId(id: int, dto: BookDto)
    ensures BookWithCommandId(id, dto).id == id
    ensures forall bodyId :: BookWithCommandId(id, dto.(id := bodyId)) == BookWithCommandId(id, dto)
  {
  }

  /** The create handler's entity carries the default id and the request's five fields. */
  lemma NewBookKeepsFields(dto: CreateBookDto)
    ensures NewBook(dto).id == DefaultId
    ensures ToDto(NewBook(dto)) == BookDto(DefaultId, dto.name, dto.description, dto.author, dto.quantity, dto.price)
  {
  }

  /** Composed with the repository, the list handler returns each row exactly once, as its
      copy: as many DTOs as rows, each DTO the copy of the row with its id, no id twice, and
      every row present; an empty table gives an empty sequence. */
  lemma ListedDtosAreTheRows(t: BooksTable.Table, books: seq<Book>)
    requires BooksTable.Listing(t, books)
    ensures var dtos := ToDtos(books);
      && |dtos| == |t.rows|
      && (forall i | 0 <= i < |dtos| :: dtos[i].id in t.rows && dtos[i] == ToDto(t.rows[dtos[i].id]))
      && (forall i, j | 0 <= i < j < |dtos| :: dtos[i].id != dtos[j].id)
      && (forall id | id in t.rows :: exists i :: 0 <= i < |dtos| && dtos[i] == ToDto(t.rows[id]))
      && (dtos == [] <==> t.rows == map[])
  {
    BooksTable.ListingCoversRows(t, books);
    var dtos := ToDtos(books);
    forall id | id in t.rows ensures exists i :: 0 <= i < |dtos| && dtos[i] == ToDto(t.rows[id]) {
      var i :| 0 <= i < |books| && books[i] == t.rows[id];
      assert dtos[i] == ToDto(t.rows[id]);
    }
  }

  // ---------------------------------------------------------------------------------------
  // Handlers

  class GetAllBookQueryHandler {
    const bookRepository: BookRepository

    constructor (bookRepository: BookRepository)
      ensures this.bookRepository == bookRepository
    {
      this.bookRepository := bookRepository;
    }

    /** Lists the books once and copies each. */
    method Handle(request: GetAllBookQuery) returns (dtos: seq<BookDto>)
      requires bookRepository.Valid()
      modifies bookRepository
      ensures bookRepository.calls == old(bookRepository.calls) + [GetAllBooksCall]
      ensures exists books :: BooksTable.Listing(bookRepository.database.State(), books) && dtos == ToDtos(books)
    {
      var books := bookRepository.GetAllBooks();
      dtos := ToDtos(books);
    }
  }

  class GetBookIdQueryHandler {
    const bookRepository: BookRepository

    constructor (bookRepository: BookRepository)
      ensures this.bookRepository == bookRepository
    {
      this.bookRepository := bookRepository;
    }

    /** Looks the query's id up once; null when there is no such book, its copy otherwise. */
    method Handle(request: GetBookIdQuery) returns (dto: Option<BookDto>)
      requires bookRepository.Valid()
      modifies bookRepository
      ensures bookRepository.calls == old(bookRepository.calls) + [GetBookByIdCall(request.id)]
      ensures dto == ToDtoOrNull(BooksTable.Find(bookRepository.database.State(), request.id))
      ensures dto.Some? ==> dto.value.id == request.id
    {
      var book := bookRepository.GetBookById(request.id);
      dto := ToDtoOrNull(book);
    }
  }

  class AddBookCommandHandler {
    const bookRepository: BookRepository

    constructor (bookRepository: BookRepository)
      ensures this.bookRepository == bookRepository
    {
      this.bookRepository := bookRepository;
    }

    /** Adds the request's book once and returns exactly the id the repository returned. */
    method Handle(request: AddBookCommand) returns (id: int)
      requires bookRepository.Valid()
      modifies bookRepository, bookRepository.database
      ensures bookRepository.Valid()
      ensures bookRepository.calls == old(bookRepository.calls) + [AddBookCall(NewBook(request.book))]
      ensures (bookRepository.database.State(), id)
           == BooksTable.Insert(old(bookRepository.database.State()), NewBook(request.book))
    {
      var book := NewBook(request.book);
      id := bookRepository.AddBook(book);
    }
  }

  class UpdateBookAsyncCommandHandler {
    const bookRepository: BookRepository

    constructor (bookRepository: BookRepository)
      ensures this.bookRepository == bookRepository
    {
      this.bookRepository := bookRepository;
    }

    /** Updates once, addressing the row by the command's id, with no prior existence check. */
    method Handle(request: UpdateBookAsyncCommand)
      requires bookRepository.Valid()
      modifies bookRepository, bookRepository.database
      ensures bookRepository.Valid()
      ensures bookRepository.calls
           == old(bookRepository.calls) + [UpdateBookCall(BookWithCommandId(request.id, request.book))]
      ensures bookRepository.database.State()
           == BooksTable.Update(old(bookRepository.database.State()), BookWithCommandId(request.id, request.book))
    {
      var book := BookWithCommandId(request.id, request.book);
      bookRepository.UpdateBook(book);
    }
  }

  class DeleteBookCommandHandler {
    const bookRepository: BookRepository

    constructor (bookRepository: BookRepository)
      ensures this.bookRepository == bookRepository
    {
      this.bookRepository := bookRepository;
    }

    /** Forwards the command's id to one delete, with no existence check and no result. */
    method Handle(request: DeleteBookCommand)
      requires bookRepository.Valid()
      modifies bookRepository, bookRepository.database
      ensures bookRepository.Valid()
      ensures bookRepository.calls == old(bookRepository.calls) + [DeleteBookCall(request.id)]
      ensures bookRepository.database.State()
           == BooksTable.Delete(old(bookRepository.database.State()), request.id)
    {
      bookRepository.DeleteBook(request.id);
    }
  }

  /** Handling the same delete command twice issues two deletes, and the table ends as it
      would after one. */
  method HandleDeleteTwice(handler: DeleteBookCommandHandler, request: DeleteBookCommand)
    requires handler.bookRepository.Valid()
    modifies handler.bookRepository, handler.bookRepository.database
    ensures handler.bookRepository.calls
         == old(handler.bookRepository.calls) + [DeleteBookCall(request.id), DeleteBookCall(request.id)]
    ensures handler.bookRepository.database.State()
         == BooksTable.Delete(old(handler.bookRepository.database.State()), request.id)
  {
    handler.Handle(request);
    handler.Handle(request);
    BooksTable.DeleteOnlyTouchesTarget(old(handler.bookRepository.database.State()), request.id);
  }
}
