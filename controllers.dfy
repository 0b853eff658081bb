/** The HTTP controller (BookCatalog.API, BooksController): the checks each action makes
    before dispatching, and how it turns a handler's result into a response. ASP.NET model
    validation is an input flag; dispatch through the mediator is a direct handler call. */
module Api {

  import opened Wrappers
  import opened Dtos
  import opened Persistence
  import opened Handlers
  import BooksTable

  /** Why a request was refused: the route id is not positive ("Invalid book ID."), or model
      validation failed (the ModelState is returned). */
  datatype BadRequestReason = InvalidId | InvalidModel

  /** The responses the actions produce. NotFound carries the id its message names. */
  datatype ActionResult<T> =
    | Ok(value: T)
    | BadRequest(reason: BadRequestReason)
    | NotFound(id: int)
    | NoContent

  // ---------------------------------------------------------------------------------------
  // Decisions, as functions of the action's inputs and its handler's result

  /** GET api/books/{id}: a non-positive id is refused; otherwise a null result is NotFound and
      a book is Ok. `found` is consulted only for a positive id. */
  function GetBookByIdResult(id: int, found: Option<BookDto>): (r: ActionResult<BookDto>)
    ensures r.BadRequest? <==> id <= 0
    ensures r.BadRequest? ==> r.reason == InvalidId
    ensures r.NotFound? <==> id > 0 && found.None?
    ensures r.NotFound? ==> r.id == id
    ensures r.Ok? <==> id > 0 && found.Some?
    ensures r.Ok? ==> r.value == found.value
  {
    if id <= 0 then BadRequest(InvalidId)
    else if found.None? then NotFound(id)
    else Ok(found.value)
  }

  /** POST api/books: an invalid model is refused; otherwise Ok with the new id. */
  function AddBookResult(modelValid: bool, newId: int): (r: ActionResult<int>)
    ensures r.BadRequest? <==> !modelValid
    ensures r.BadRequest? ==> r.reason == InvalidModel
    ensures r.Ok? <==> modelValid
    ensures r.Ok? ==> r.value == newId
  {
    if !modelValid then BadRequest(InvalidModel) else Ok(newId)
  }

  /** PUT api/books/{id}: the id is checked before model validity; otherwise NoContent. */
  function UpdateBookResult(id: int, modelValid: bool): (r: ActionResult<()>)
    ensures r.BadRequest? <==> id <= 0 || !modelValid
    ensures r.BadRequest? ==> (r.reason == InvalidId <==> id <= 0)
    ensures r.NoContent? <==> id > 0 && modelValid
  {
    if id <= 0 then BadRequest(InvalidId)
    else if !modelValid then BadRequest(InvalidModel)
    else NoContent
  }

  /** DELETE api/books/{id}: a non-positive id is refused; otherwise NoContent. */
  function DeleteBookResult(id: int): (r: ActionResult<()>)
    ensures r.BadRequest? <==> id <= 0
    ensures r.BadRequest? ==> r.reason == InvalidId
    ensures r.NoContent? <==> id > 0
  {
    if id <= 0 then BadRequest(InvalidId) else NoContent
  }

  // ---------------------------------------------------------------------------------------
  // Properties of the decisions, composed with the handlers and the table

  /** Get by id against a table: BadRequest exactly for a non-positive id, NotFound exactly for
      a positive id with no row, and otherwise Ok with the copy of that row, whose id is the
      requested one. */
  lemma GetBookByIdOutcomes(t: BooksTable.Table, id: int)
    requires BooksTable.Valid(t)
    ensures var r := GetBookByIdResult(id, ToDtoOrNull(BooksTable.Find(t, id)));
      && (r.BadRequest? <==> id <= 0)
      && (r.NotFound? <==> id > 0 && id !in t.rows)
      && (r.Ok? <==> id > 0 && id in t.rows)
      && (r.Ok? ==> r.value == ToDto(t.rows[id]) && r.value.id == id)
      && !r.NoContent?
  {
  }

  /** Update and delete never answer NotFound, although the actions declare that response:
      a positive id is NoContent whether or not the row exists. */
  lemma UpdateAndDeleteNeverNotFound(id: int, modelValid: bool)
    ensures !UpdateBookResult(id, modelValid).NotFound? && !DeleteBookResult(id).NotFound?
    ensures id > 0 ==> DeleteBookResult(id) == NoContent
    ensures id > 0 && modelValid ==> UpdateBookResult(id, modelValid) == NoContent
    ensures UpdateBookResult(id, modelValid).BadRequest? <==> id <= 0 || !modelValid
    ensures id <= 0 ==> UpdateBookResult(id, modelValid) == BadRequest(InvalidId)
  {
  }

  /** Creating a book and then reading it back by the returned id yields every field of the
      request, plus that id; the id is positive, so the read is not refused. */
  lemma CreateThenGet(t: BooksTable.Table, dto: CreateBookDto)
    requires BooksTable.Valid(t) && t.created
    ensures var (t', n) := BooksTable.Insert(t, NewBook(dto));
      && AddBookResult(true, n) == Ok(n)
      && GetBookByIdResult(n, ToDtoOrNull(BooksTable.Find(t', n)))
         == Ok(BookDto(n, dto.name, dto.description, dto.author, dto.quantity, dto.price))
  {
  }

  /** An update addressed to route id `id` changes only the row `id`, which afterwards reads
      back as the body with its Id replaced by `id`; with no row `id` nothing changes. */
  lemma UpdateTargetsRouteId(t: BooksTable.Table, id: int, dto: BookDto)
    requires BooksTable.Valid(t) && id > 0
    ensures var t' := BooksTable.Update(t, BookWithCommandId(id, dto));
      && (forall k | k != id :: BooksTable.Find(t', k) == BooksTable.Find(t, k))
      && (id in t.rows ==> GetBookByIdResult(id, ToDtoOrNull(BooksTable.Find(t', id))) == Ok(dto.(id := id)))
      && (id !in t.rows ==> t' == t)
  {
  }

  /** After a delete the read by that id is NotFound, and stays so whatever data statements
      follow. */
  lemma {:induction false} DeleteThenGetNotFound(t: BooksTable.Table, id: int, later: seq<BooksTable.Statement>)
    requires BooksTable.Valid(t) && id in t.rows
    ensures var t' := BooksTable.Run(BooksTable.Delete(t, id), later);
      GetBookByIdResult(id, ToDtoOrNull(BooksTable.Find(t', id))) == NotFound(id)
  {
    BooksTable.DeletedNeverReadAgain(t, id, later);
  }

  // ---------------------------------------------------------------------------------------
  // The controller

  class BooksController {
    const getAll: GetAllBookQueryHandler
    const getById: GetBookIdQueryHandler
    const add: AddBookCommandHandler
    const update: UpdateBookAsyncCommandHandler
    const delete: DeleteBookCommandHandler
    const repository: BookRepository

    /** Every handler works on the one repository. */
    ghost predicate Wired()
    {
      && getAll.bookRepository == repository
      && getById.bookRepository == repository
      && add.bookRepository == repository
      && update.bookRepository == repository
      && delete.bookRepository == repository
    }

    constructor (repository: BookRepository)
      ensures Wired() && this.repository == repository
    {
      this.repository := repository;
      getAll := new GetAllBookQueryHandler(repository);
      getById := new GetBookIdQueryHandler(repository);
      add := new AddBookCommandHandler(repository);
      update := new UpdateBookAsyncCommandHandler(repository);
      delete := new DeleteBookCommandHandler(repository);
    }

    /** GET api/books: always Ok with the list handler's result. */
    method GetAll() returns (r: ActionResult<seq<BookDto>>)
      requires Wired() && repository.Valid()
      modifies repository
      ensures repository.calls == old(repository.calls) + [GetAllBooksCall]
      ensures r.Ok?
      ensures exists books :: BooksTable.Listing(repository.database.State(), books) && r.value == ToDtos(books)
    {
      var books := getAll.Handle(GetAllBookQuery);
      r := Ok(books);
    }

    /** GET api/books/{id}: a non-positive id is refused without any repository call. */
    method GetBookById(id: int) returns (r: ActionResult<BookDto>)
      requires Wired() && repository.Valid()
      modifies repository
      ensures r == GetBookByIdResult(id, ToDtoOrNull(BooksTable.Find(repository.database.State(), id)))
      ensures id <= 0 ==> repository.calls == old(repository.calls)
      ensures id > 0 ==> repository.calls == old(repository.calls) + [GetBookByIdCall(id)]
    {
      if id <= 0 {
        return BadRequest(InvalidId);
      }
      var book := getById.Handle(GetBookIdQuery(id));
      if book.None? {
        return NotFound(id);
      }
      r := Ok(book.value);
    }

    /** POST api/books: an invalid model is refused without any repository call; otherwise the
        book is added and its new id returned. */
    method AddBook(modelValid: bool, bookDto: CreateBookDto) returns (r: ActionResult<int>)
      requires Wired() && repository.Valid()
      modifies repository, repository.database
      ensures repository.Valid()
      ensures !modelValid ==> r == BadRequest(InvalidModel)
      ensures !modelValid ==> repository.calls == old(repository.calls)
      ensures !modelValid ==> repository.database.State() == old(repository.database.State())
      ensures modelValid ==> repository.calls == old(repository.calls) + [AddBookCall(NewBook(bookDto))]
      ensures modelValid ==>
        var (t', n) := BooksTable.Insert(old(repository.database.State()), NewBook(bookDto));
        repository.database.State() == t' && r == AddBookResult(modelValid, n)
    {
      if !modelValid {
        return BadRequest(InvalidModel);
      }
      var id := add.Handle(AddBookCommand(bookDto));
      r := Ok(id);
    }

    /** PUT api/books/{id}: the id, then the model, is checked before dispatch; a dispatched
        update answers NoContent whether or not the row existed. */
    method UpdateBook(id: int, modelValid: bool, bookDto: BookDto) returns (r: ActionResult<()>)
      requires Wired() && repository.Valid()
      modifies repository, repository.database
      ensures repository.Valid()
      ensures r == UpdateBookResult(id, modelValid)
      ensures r.BadRequest? ==> repository.calls == old(repository.calls)
      ensures r.BadRequest? ==> repository.database.State() == old(repository.database.State())
      ensures r.NoContent? ==>
        repository.calls == old(repository.calls) + [UpdateBookCall(BookWithCommandId(id, bookDto))]
      ensures r.NoContent? ==>
        repository.database.State() == BooksTable.Update(old(repository.database.State()), BookWithCommandId(id, bookDto))
    {
      if id <= 0 {
        return BadRequest(InvalidId);
      }
      if !modelValid {
        return BadRequest(InvalidModel);
      }
      update.Handle(UpdateBookAsyncCommand(id, bookDto));
      r := NoContent;
    }

    /** DELETE api/books/{id}: a non-positive id is refused without dispatch; any positive id
        answers NoContent whether or not the row existed. */
    method DeleteBook(id: int) returns (r: ActionResult<()>)
      requires Wired() && repository.Valid()
      modifies repository, repository.database
      ensures repository.Valid()
      ensures r == DeleteBookResult(id)
      ensures id <= 0 ==> repository.calls == old(repository.calls)
      ensures id <= 0 ==> repository.database.State() == old(repository.database.State())
      ensures id > 0 ==> repository.calls == old(repository.calls) + [DeleteBookCall(id)]
      ensures id > 0 ==> repository.database.State() == BooksTable.Delete(old(repository.database.State()), id)
    {
      if id <= 0 {
        return BadRequest(InvalidId);
      }
      delete.Handle(DeleteBookCommand(id));
      r := NoContent;
    }
  }

  /** A start-up and a short session of requests, as a client of the contracts above: create
      a book, read it back, update it through a body carrying another id, delete it twice,
      and read it again. */
  method CatalogSession()
  {
    var database := new Database();
    var initializer := new DbInitializer(database);
    initializer.Initialize();
    initializer.Initialize();
    assert database.State() == BooksTable.Table(true, map[], 0);

    var repository := new BookRepository(database);
    var controller := new BooksController(repository);

    var created := controller.AddBook(true, CreateBookDto("1984", "dystopian", "Orwell", 3, 15.99));
    assert created == Ok(1);

    var read := controller.GetBookById(1);
    assert read == Ok(BookDto(1, "1984", "dystopian", "Orwell", 3, 15.99));

    var refused := controller.GetBookById(-1);
    assert refused == BadRequest(InvalidId);

    var updated := controller.UpdateBook(1, true, BookDto(999, "X", "dystopian", "Orwell", 3, 12.99));
    assert updated == NoContent;
    read := controller.GetBookById(1);
    assert read == Ok(BookDto(1, "X", "dystopian", "Orwell", 3, 12.99));
    read := controller.GetBookById(999);
    assert read == NotFound(999);

    var deleted := controller.DeleteBook(50);
    assert deleted == NoContent;
    deleted := controller.DeleteBook(1);
    deleted := controller.DeleteBook(1);
    assert deleted == NoContent;
    read := controller.GetBookById(1);
    assert read == NotFound(1);

    var listed := controller.GetAll();
    assert listed.value == [] by {
      var books :| BooksTable.Listing(repository.database.State(), books) && listed.value == ToDtos(books);
      BooksTable.ListingCoversRows(repository.database.State(), books);
    }
  }
}
