/** The records exchanged with the upstream APIs and returned to clients. */
module Structs {

  /** An author as the catalog reports it. Two authors are the same author
      exactly when both the name and the birth year agree, which is the
      structural equality of this datatype. */
  datatype Author = Author(name: string, birthYear: int)

  /** A catalog book; its author list may be empty. */
  datatype Book = Book(id: int, title: string, authors: seq<Author>)

  /** One decoded catalog page. `count` is the number of results across all
      pages of the query, which the catalog never reports as negative. */
  datatype GutendexResponse = GutendexResponse(
    language: string,
    next: string,
    count: nat,
    results: seq<Book>,
    authors: int)

  /** One entry of the bookcount answer. The floating-point `Fraction`
      field is not part of the model. */
  datatype GutendexOutput = GutendexOutput(language: string, count: int, authors: int)

  /** One entry of the readership answer. */
  datatype ReadershipOutput = ReadershipOutput(
    country: string,
    isocode: string,
    books: int,
    authors: int,
    readership: int)

  /** One country of the language-to-countries directory. */
  datatype ReadershipResponse = ReadershipResponse(country: string, isoCode: string)

  /** One administrative entry of the countries API. */
  datatype PopulationResponse = PopulationResponse(population: int)
}
