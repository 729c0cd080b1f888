/** BookServiceImpl: the registry of books and their open/closed status. The BOOKS table is
    a map from name to `isClosed`; the runtime cache is another such map. */
module BookRegistry {
  import opened Wrappers
  import opened Model

  class BookService {
    /** `booksMap`: the cache, authoritative while the service runs. */
    var booksMap: map<string, bool>
    /** The BOOKS table behind `bookRepository`. */
    var bookRepository: map<string, bool>
    /** The rows handed to `bookRepository.save`, in call order. */
    ghost var saves: seq<Book>
    var isRunning: bool

    constructor (stored: map<string, bool>)
      ensures booksMap == map[] && bookRepository == stored && saves == [] && !isRunning
    {
      booksMap := map[];
      bookRepository := stored;
      saves := [];
      isRunning := false;
    }

    /** The book is known to the cache. */
    predicate IsBookAvailable(bookName: string)
      reads this
    {
      bookName in booksMap
    }

    /** The cached status of a known book; BookDoesNotExists for an unknown one. */
    function IsBookClosed(bookName: string): (r: Result<bool, Error>)
      reads this
      ensures r.Success? <==> IsBookAvailable(bookName)
      ensures r.Failure? ==> r.error == BookDoesNotExists
      ensures r.Success? ==> r.value == booksMap[bookName]
    {
      if IsBookAvailable(bookName) then Success(booksMap[bookName]) else Failure(BookDoesNotExists)
    }

    /** Looks the book up in the store, not in the cache. */
    function FindByName(bookName: string): (r: Option<Book>)
      reads this
      ensures r.Some? <==> bookName in bookRepository
      ensures r.Some? ==> r.value == Book(bookName, bookRepository[bookName])
    {
      if bookName in bookRepository then Some(Book(bookName, bookRepository[bookName])) else None
    }

    /** Saves a book row, as `bookRepository.save(BookEntity.toEntity(book))`. */
    method SaveRow(book: Book)
      modifies this
      ensures bookRepository == old(bookRepository)[book.bookName := book.isClosed]
      ensures saves == old(saves) + [book]
      ensures booksMap == old(booksMap) && isRunning == old(isRunning)
    {
      bookRepository := bookRepository[book.bookName := book.isClosed];
      saves := saves + [book];
    }

    /** Get-or-create: an unknown name becomes an open book in the store and the cache,
        with exactly one save; a known name changes nothing and saves nothing. */
    method AddBookIfDoesNotExists(bookName: string)
      modifies this
      ensures old(IsBookAvailable(bookName)) ==>
                booksMap == old(booksMap) && bookRepository == old(bookRepository) && saves == old(saves)
      ensures !old(IsBookAvailable(bookName)) ==>
                && booksMap == old(booksMap)[bookName := false]
                && bookRepository == old(bookRepository)[bookName := false]
                && saves == old(saves) + [Book(bookName, false)]
      ensures isRunning == old(isRunning)
    {
      if bookName !in booksMap {
        var book := Book(bookName, false);
        SaveRow(book);
        booksMap := booksMap[bookName := book.isClosed];
      }
    }

    /** Creates a book; BookAlreadyExists when the cache knows the name. */
    method Save(bookName: string) returns (r: Outcome<Error>)
      modifies this
      ensures r == Fail(BookAlreadyExists) <==> old(IsBookAvailable(bookName))
      ensures r.Fail? ==> booksMap == old(booksMap) && bookRepository == old(bookRepository) && saves == old(saves)
      ensures r.Pass? ==>
                && booksMap == old(booksMap)[bookName := false]
                && bookRepository == old(bookRepository)[bookName := false]
                && saves == old(saves) + [Book(bookName, false)]
      ensures isRunning == old(isRunning)
    {
      if IsBookAvailable(bookName) {
        return Fail(BookAlreadyExists);
      }
      AddBookIfDoesNotExists(bookName);
      r := Pass;
    }

    /** Marks a known book closed in the store and the cache, leaving every other book as it
        was; BookDoesNotExists for an unknown name. */
    method CloseBook(bookName: string) returns (r: Outcome<Error>)
      modifies this
      ensures r == Fail(BookDoesNotExists) <==> !old(IsBookAvailable(bookName))
      ensures r.Fail? ==> booksMap == old(booksMap) && bookRepository == old(bookRepository) && saves == old(saves)
      ensures r.Pass? ==>
                && booksMap == old(booksMap)[bookName := true]
                && bookRepository == old(bookRepository)[bookName := true]
                && saves == old(saves) + [Book(bookName, true)]
      ensures isRunning == old(isRunning)
    {
      if IsBookAvailable(bookName) {
        var book := Book(bookName, true);
        SaveRow(book);
        booksMap := booksMap[bookName := book.isClosed];
        return Pass;
      }
      return Fail(BookDoesNotExists);
    }

    /** Marks a book open. The source dereferences the cached entry without checking it,
        so the book must be known. */
    method OpenBook(bookName: string)
      requires IsBookAvailable(bookName)
      modifies this
      ensures booksMap == old(booksMap)[bookName := false]
      ensures bookRepository == old(bookRepository)[bookName := false]
      ensures saves == old(saves) + [Book(bookName, false)]
      ensures isRunning == old(isRunning)
    {
      var book := Book(bookName, false);
      SaveRow(book);
      booksMap := booksMap[bookName := book.isClosed];
    }

    /** Copies every stored book into the cache (a stored row overrides a cached one). */
    method Start()
      modifies this
      ensures booksMap == old(booksMap) + bookRepository
      ensures forall n :: IsBookAvailable(n) <==> old(IsBookAvailable(n)) || n in bookRepository
      ensures bookRepository == old(bookRepository) && saves == old(saves)
      ensures isRunning
    {
      var pending := bookRepository.Keys;
      while pending != {}
        invariant pending <= bookRepository.Keys
        invariant booksMap == old(booksMap) + map n | n in bookRepository.Keys - pending :: bookRepository[n]
        invariant bookRepository == old(bookRepository) && saves == old(saves)
        decreases pending
      {
        var name :| name in pending;
        booksMap := booksMap[name := bookRepository[name]];
        pending := pending - {name};
      }
      assert bookRepository == map n | n in bookRepository.Keys - pending :: bookRepository[n];
      isRunning := true;
    }

    /** Clears the cache; the store is untouched, and afterwards no book is available. */
    method Stop()
      modifies this
      ensures booksMap == map[]
      ensures forall n :: !IsBookAvailable(n)
      ensures bookRepository == old(bookRepository) && saves == old(saves)
      ensures !isRunning
    {
      booksMap := map[];
      isRunning := false;
    }
  }
}
