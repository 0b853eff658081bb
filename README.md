# Book catalog: a Dafny model of its store, handlers and controller

The catalog service lists, fetches, creates, updates and deletes books kept in one SQLite
table. This project models that core in Dafny and proves properties of it:

- **Entity and transfer shapes** (`domain.dfy`, `dtos.dfy`): `Book`, `BookDto` (with an id) and
  `CreateBookDto` (without one) as datatypes. Name, Description and Author are constructor
  arguments, so they are always supplied. Quantity is an unconstrained `int`, so negative values
  are representable. Price is an exact `real`, not a float.
- **The Books table** (`table.dfy`, module `BooksTable`): the table as a value. It holds a
  "created" flag, the rows keyed by id, and the AUTOINCREMENT high-water mark. Each statement the
  repository and the initializer issue is a function: `CreateIfNotExists`, `Insert`, `Find`,
  `Update` and `Delete`. `Listing` describes what `SELECT *` may return. `Statement` and `Run`
  describe whole histories of statements.
- **The backend** (`persistence.dfy`, module `Persistence`): classes `Database` (the table's
  fields, updated in place), `DbInitializer` and `BookRepository`. Their methods are proved
  against the table functions. The repository keeps a ghost log of the calls made on it. The
  log's entries are the five operations of the repository contract `IBookRepository`, so
  handlers can state "exactly one call, with this argument".
- **The handlers** (`handlers.dfy`, module `Handlers`): the request datatypes, the field-for-field
  mappings, and one class per handler. Each handler holds the repository and makes one call.
- **The controller** (`controllers.dfy`, module `Api`): the response decisions as functions.
  `BooksController` is a class whose actions check their inputs, dispatch to the handlers and
  answer `Ok`, `BadRequest`, `NotFound` or `NoContent`. `CatalogSession` is a client that runs
  start-up and a short session of requests using only the contracts.

Some behaviour of the code worth stating plainly:

- The code does not check that quantity is non-negative or that the name is non-empty.
- Non-positive ids are refused in the controller, not in the handlers.
- Update and delete answer `NoContent` for a missing row.

## Model

| member | source | states |
|---|---|---|
| BooksTable.CreateIfNotExists | BookCatalog.Infrastructure/Persistence/DbInitializer.cs:19-26 | afterwards the table exists; an existing table is returned unchanged (rows and id counter); the schema guarantees are kept |
| BooksTable.CreateIfNotExistsIdempotent | BookCatalog.Infrastructure/Persistence/DbInitializer.cs:19 | running the initializer twice is the same as running it once |
| BooksTable.Insert | BookCatalog.Infrastructure/Persistence/BookRepository.cs:29-37 | the returned id is positive, absent before, larger than every id ever handed out (deleted ones included) and becomes the new high-water mark; the new row carries that id and the book's five data fields; the keys grow by exactly that id |
| BooksTable.LaterInsertGetsLargerId | BookCatalog.Infrastructure/Persistence/DbInitializer.cs:20 | an insert returns a larger id than any earlier insert, whatever statements (deletes included) came in between |
| BooksTable.Find | BookCatalog.Infrastructure/Persistence/BookRepository.cs:22-27 | a row is found exactly when the id is a key, and the row found has the requested id |
| BooksTable.Update | BookCatalog.Infrastructure/Persistence/BookRepository.cs:39-44 | keeps the schema guarantees, the set of ids and the id counter |
| BooksTable.Delete | BookCatalog.Infrastructure/Persistence/BookRepository.cs:46-50 | keeps the schema guarantees and the id counter; removes exactly the given id from the keys |
| BooksTable.AddThenGet | BookCatalog.Infrastructure/Persistence/BookRepository.cs:22-37 | reading the id an insert returned yields the inserted data under that id; every older row reads as before |
| BooksTable.UpdateOnlyTouchesTarget | BookCatalog.Infrastructure/Persistence/BookRepository.cs:42-43 | an update replaces the addressed row's five fields and keeps its id; other rows are untouched; with no such row the table is unchanged |
| BooksTable.DeleteOnlyTouchesTarget | BookCatalog.Infrastructure/Persistence/BookRepository.cs:49 | after a delete the id reads absent and every other id reads as before; deleting twice equals deleting once; deleting a missing id changes nothing |
| BooksTable.RunKeepsValid | BookCatalog.Infrastructure/Persistence/DbInitializer.cs:20 | every history of statements keeps ids unique and positive, and the id counter never decreases |
| BooksTable.RetiredIdStaysAbsent | BookCatalog.Infrastructure/Persistence/DbInitializer.cs:20 | an id handed out whose row is gone is never given to a row again (AUTOINCREMENT) |
| BooksTable.DeletedNeverReadAgain | BookCatalog.Infrastructure/Persistence/BookRepository.cs:49 | once a row is deleted, a read by its id is absent after any later history |
| BooksTable.Listing | BookCatalog.Infrastructure/Persistence/BookRepository.cs:19 | what SELECT * may return: every row once under its own id, no id twice, order unspecified; ListingCoversRows proves it holds every row |
| BooksTable.ListingCoversRows | BookCatalog.Infrastructure/Persistence/BookRepository.cs:16-20 | a listing contains every row; it is empty exactly when the table is |
| Persistence.DbInitializer.Initialize | BookCatalog.Infrastructure/Persistence/DbInitializer.cs:14-31 | the table exists afterwards; if it existed before, rows and id counter are unchanged |
| Persistence.BookRepository.GetAllBooks | BookCatalog.Infrastructure/Persistence/BookRepository.cs:16-20 | returns every row exactly once, in an unspecified order; logs one list call |
| Persistence.BookRepository.GetBookById | BookCatalog.Infrastructure/Persistence/BookRepository.cs:22-27 | returns the row with that id or absent; a row returned has the requested id |
| Persistence.BookRepository.AddBook | BookCatalog.Infrastructure/Persistence/BookRepository.cs:29-37 | stores the book's data under a fresh id larger than every id handed out before, ignoring the book's own id, and returns that id; older rows unchanged |
| Persistence.BookRepository.UpdateBook | BookCatalog.Infrastructure/Persistence/BookRepository.cs:39-44 | replaces the row with the book's id; with no such row the table is unchanged and nothing is reported |
| Persistence.BookRepository.DeleteBook | BookCatalog.Infrastructure/Persistence/BookRepository.cs:46-50 | removes exactly the row with that id, if any |
| Handlers.NewBook | BookCatalog.Application/Features/Books/Commands/AddBookCommand.cs:28-35 | the create entity has the default id 0; NewBookKeepsFields states it also carries the request's five fields |
| Handlers.BookWithCommandId | BookCatalog.Application/Features/Books/Commands/UpdateBookCommand.cs:29-37 | the update entity carries the command's id; UpdateUsesCommandId and MappingsRoundTrip state the body's id is ignored and its five fields kept |
| Handlers.ToDto | BookCatalog.Application/Features/Books/Queries/GetBookIdQuery.cs:29-36 | the copy keeps the entity's id, and building an entity from it under that id gives the entity back |
| Handlers.ToDtoOrNull | BookCatalog.Application/Features/Books/Queries/GetBookIdQuery.cs:29-37 | null exactly for an absent book; a present book's DTO equals it field for field, id included |
| Handlers.ToDtos | BookCatalog.Application/Features/Books/Queries/GetAllBookQuery.cs:24-32 | same length as the input; element i is the copy of input element i |
| Handlers.MappingsRoundTrip | BookCatalog.Application/Features/Books/Commands/UpdateBookCommand.cs:29-37 | building an entity from an entity's DTO under its own id gives it back; reading an entity built under a command id gives the body with that id |
| Handlers.UpdateUsesCommandId | BookCatalog.Application/Features/Books/Commands/UpdateBookCommand.cs:31 | the update entity's id is the command id, and the body's id has no influence on it |
| Handlers.NewBookKeepsFields | BookCatalog.Application/Features/Books/Commands/AddBookCommand.cs:28-35 | the create entity has the default id 0 and the request's five fields unchanged |
| Handlers.ListedDtosAreTheRows | BookCatalog.Application/Features/Books/Queries/GetAllBookQuery.cs:23-32 | with the concrete repository, the list result has one DTO per row, each the copy of its row, no id twice; empty exactly for an empty table |
| Handlers.GetAllBookQueryHandler.Handle | BookCatalog.Application/Features/Books/Queries/GetAllBookQuery.cs:21-33 | one list call; the result is the copy of a listing of the table |
| Handlers.GetBookIdQueryHandler.Handle | BookCatalog.Application/Features/Books/Queries/GetBookIdQuery.cs:26-38 | one lookup with the query's id; null if absent, else the row's copy, whose id is the requested one |
| Handlers.AddBookCommandHandler.Handle | BookCatalog.Application/Features/Books/Commands/AddBookCommand.cs:26-37 | one add call with the mapped entity; returns exactly the id the insert produced |
| Handlers.UpdateBookAsyncCommandHandler.Handle | BookCatalog.Application/Features/Books/Commands/UpdateBookCommand.cs:27-39 | one update call, no prior lookup, with the command id and the body's five fields |
| Handlers.DeleteBookCommandHandler.Handle | BookCatalog.Application/Features/Books/Commands/DeleteBookCommand.cs:26-29 | one delete call with the command id unchanged, no existence check, no result |
| Handlers.HandleDeleteTwice | BookCatalog.Application/Features/Books/Commands/DeleteBookCommand.cs:28 | handling a delete twice issues two deletes and leaves the table as one delete does |
| Api.GetBookByIdResult | BookCatalog.API/Controllers.cs:34-42 | the get action's answer: BadRequest (invalid id) exactly for id <= 0, NotFound exactly for a positive id and a null result, Ok with the handler's DTO exactly otherwise; GetBookByIdOutcomes states it against the table |
| Api.AddBookResult | BookCatalog.API/Controllers.cs:50-54 | the add action's answer: BadRequest (invalid model) exactly for an invalid model, Ok with the new id exactly otherwise |
| Api.UpdateBookResult | BookCatalog.API/Controllers.cs:63-70 | the update action's answer: BadRequest exactly for id <= 0 or an invalid model, with the id reason whenever id <= 0 (the id is checked first); NoContent exactly otherwise, so never NotFound |
| Api.DeleteBookResult | BookCatalog.API/Controllers.cs:79-83 | the delete action's answer: BadRequest (invalid id) exactly for id <= 0, NoContent exactly otherwise, so never NotFound |
| Api.GetBookByIdOutcomes | BookCatalog.API/Controllers.cs:32-43 | BadRequest exactly for id <= 0, NotFound exactly for a positive id without a row, otherwise Ok with the row's copy, whose id is the requested one |
| Api.UpdateAndDeleteNeverNotFound | BookCatalog.API/Controllers.cs:57-84 | update and delete never answer NotFound; a positive id (and, for update, a valid model) gives NoContent; the id is checked before the model |
| Api.CreateThenGet | BookCatalog.API/Controllers.cs:32-55 | creating a book and reading it back by the returned id gives Ok with every field of the request plus that id |
| Api.UpdateTargetsRouteId | BookCatalog.Application/Features/Books/Commands/UpdateBookCommand.cs:29-38 | an update routed to id changes only row id, which then reads back as the body with that id; with no such row nothing changes |
| Api.DeleteThenGetNotFound | BookCatalog.Infrastructure/Persistence/BookRepository.cs:49 | after a delete, reading that id is NotFound, whatever statements follow |
| Api.BooksController.GetAll | BookCatalog.API/Controllers.cs:22-26 | always Ok with the list handler's result |
| Api.BooksController.GetBookById | BookCatalog.API/Controllers.cs:32-43 | id <= 0 is BadRequest with no repository call; otherwise one lookup, NotFound for null, Ok with the DTO otherwise |
| Api.BooksController.AddBook | BookCatalog.API/Controllers.cs:48-55 | an invalid model is BadRequest with no call and no change; otherwise one add and Ok with the new id |
| Api.BooksController.UpdateBook | BookCatalog.API/Controllers.cs:61-71 | id <= 0, then an invalid model, is BadRequest with no call; otherwise one update with the route id and NoContent |
| Api.BooksController.DeleteBook | BookCatalog.API/Controllers.cs:77-84 | id <= 0 is BadRequest with no call; any positive id is one delete and NoContent, whether or not the row existed |

## Left out

- The repository contract `IBookRepository` is not modelled as an abstract interface. Handlers
  are bound to the one concrete `BookRepository`. The five operations of the contract appear as
  the `RepositoryCall` log entries. The mock repositories of the unit tests are not modelled.
- Connection handling (`IDbConnectionFactory`, `using var connection`) is not modelled. Neither
  are Dapper parameter binding, column mapping and the SQL text; only each statement's effect on
  the table is modelled.
- The initializer must run before any operation: `BookRepository.Valid` requires the table to
  exist. Start-up wiring, Swagger and hosting (`Program.cs`) are not part of this model.
- Persistence failures (lost connection, constraint violation) are not modelled. The only
  constraint is Name NOT NULL, and the model never writes a null.
- Nullable columns: the schema allows null Description, Author, Quantity and Price. The model
  always stores values, because every write comes from a `Book` whose fields are set. So the
  decimal type handler's "null price reads as 0" never arises.
- Price is stored and read back exactly. SQLite's NUMERIC affinity for `Decimal(18,2)` and the
  conversion through `Convert.ToDecimal` are not modelled.
- Ids and quantities are unbounded integers. 32-bit `int` overflow, including of
  `ExecuteScalar<int>` on a large rowid, is not modelled.
- `async`/`Task`/`CancellationToken` and mediator dispatch become direct sequential calls.
  Concurrent requests (last writer wins on a row) are not modelled.
- ASP.NET model validation becomes a boolean input. Response messages become the reason
  (`InvalidId`, `InvalidModel`) or the id named by NotFound. Routing and response-type metadata
  are not modelled.
- `BadRequestReason` follows the action bodies. The `[ApiController]` attribute answers 400 for an
  invalid model before an action body runs, so at the HTTP level an invalid model with id <= 0
  gets the model-validation reply, not "Invalid book ID."; that automatic validation is not
  modelled.
