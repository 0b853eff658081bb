/** The transfer shapes exchanged at the operation boundary (BookCatalog.Application.DTOs). */
module Dtos {

  /** The read and update shape: an identifier beside the same five data fields as Book. */
  datatype BookDto = BookDto(
    id: int,
    name: string,
    description: string,
    author: string,
    quantity: int,
    price: real)

  /** The create shape: the five data fields and no identifier, so a create request cannot
      carry one. */
  datatype CreateBookDto = CreateBookDto(
    name: string,
    description: string,
    author: string,
    quantity: int,
    price: real)
}
