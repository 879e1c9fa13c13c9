/** The book repository (`app.models.Books`), whose implementation is not
    part of this model. It is an oracle: every call is logged, and each
    answer is whatever the store gives for that request after that history
    of calls, so the service's contracts hold for any store behaviour. */
module Repository {
  import opened Common
  import opened Models
  import opened InternalFilters

  /** The store errors the service tells apart; any other is `OtherError`. */
  datatype StoreError = ErrRecordNotFound | ErrEditConflict | OtherError

  /** One call the service makes on the store. */
  datatype Call =
    | InsertCall(book: Book)
    | GetCall(id: int)
    | UpdateCall(book: Book)
    | DeleteCall(id: int)
    | AllCall(title: string, genres: seq<string>, filters: Filters)

  /** What `Insert` writes back into the book it is given. */
  datatype Assigned = Assigned(id: int, createdAt: int, version: int)

  /** What `All` returns besides its error. */
  datatype Listing = Listing(books: seq<Book>, metadata: PaginationMetadata)

  class BookStore {
    var calls: seq<Call>
    const insertReply: (seq<Call>, Book) -> Result<Assigned, StoreError>
    const getReply: (seq<Call>, int) -> Result<Book, StoreError>
    const updateReply: (seq<Call>, Book) -> Result<int, StoreError>
    const deleteReply: (seq<Call>, int) -> Option<StoreError>
    const allReply: (seq<Call>, string, seq<string>, Filters) -> Result<Listing, StoreError>

    constructor (
      insertReply: (seq<Call>, Book) -> Result<Assigned, StoreError>,
      getReply: (seq<Call>, int) -> Result<Book, StoreError>,
      updateReply: (seq<Call>, Book) -> Result<int, StoreError>,
      deleteReply: (seq<Call>, int) -> Option<StoreError>,
      allReply: (seq<Call>, string, seq<string>, Filters) -> Result<Listing, StoreError>)
      ensures calls == []
      ensures this.insertReply == insertReply && this.getReply == getReply && this.updateReply == updateReply
      ensures this.deleteReply == deleteReply && this.allReply == allReply
    {
      calls := [];
      this.insertReply, this.getReply, this.updateReply := insertReply, getReply, updateReply;
      this.deleteReply, this.allReply := deleteReply, allReply;
    }

    /** `Insert(book)`: the id, creation instant and version it assigns. */
    method Insert(book: Book) returns (r: Result<Assigned, StoreError>)
      modifies this
      ensures calls == old(calls) + [InsertCall(book)]
      ensures r == insertReply(old(calls), book)
    {
      r := insertReply(calls, book);
      calls := calls + [InsertCall(book)];
    }

    /** `Get(id)`. */
    method Get(id: int) returns (r: Result<Book, StoreError>)
      modifies this
      ensures calls == old(calls) + [GetCall(id)]
      ensures r == getReply(old(calls), id)
    {
      r := getReply(calls, id);
      calls := calls + [GetCall(id)];
    }

    /** `Update(book)`: the new version it writes back into the book. */
    method Update(book: Book) returns (r: Result<int, StoreError>)
      modifies this
      ensures calls == old(calls) + [UpdateCall(book)]
      ensures r == updateReply(old(calls), book)
    {
      r := updateReply(calls, book);
      calls := calls + [UpdateCall(book)];
    }

    /** `Delete(id)`: None when the row was deleted. */
    method Delete(id: int) returns (r: Option<StoreError>)
      modifies this
      ensures calls == old(calls) + [DeleteCall(id)]
      ensures r == deleteReply(old(calls), id)
    {
      r := deleteReply(calls, id);
      calls := calls + [DeleteCall(id)];
    }

    /** `All(title, genres, filters)`. */
    method All(title: string, genres: seq<string>, filters: Filters) returns (r: Result<Listing, StoreError>)
      modifies this
      ensures calls == old(calls) + [AllCall(title, genres, filters)]
      ensures r == allReply(old(calls), title, genres, filters)
    {
      r := allReply(calls, title, genres, filters);
      calls := calls + [AllCall(title, genres, filters)];
    }
  }
}
