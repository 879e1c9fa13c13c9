/** The book record the service stores and returns. */
module Models {

  /** `models.Book`. `createdAt` is the store-assigned creation instant,
      kept abstract as a number; `genres` is the ordered list of genres. */
  datatype Book = Book(
    id: int,
    title: string,
    createdAt: int,
    published: int,
    pages: int,
    genres: seq<string>,
    version: int)
}
