/** The catalog's entity (project BookCatalog.Domain). */
module Domain {

  /** A catalog item.
      Name, Description and Author are `required` members, so every Book is constructed with
      all three. Quantity is a plain int with no range restriction (negative values are
      representable). Price is a `decimal`: an exact value, modelled as a `real`. */
  datatype Book = Book(
    id: int,
    name: string,
    description: string,
    author: string,
    quantity: int,
    price: real)

  /** The value of an `int` property that is never assigned: Book.Id stays 0 unless set. */
  const DefaultId: int := 0

  /** Two books agree on the five data columns (everything but the identifier). */
  predicate SameData(a: Book, b: Book)
  {
    && a.name == b.name
    && a.description == b.description
    && a.author == b.author
    && a.quantity == b.quantity
    && a.price == b.price
  }
}
