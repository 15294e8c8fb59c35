/**
 * The home page: the catalog filtered by the search box, the first three
 * results as recommendations, and the details modal with its favourite
 * button and its "Start Reading" button.
 */
module Home {
  import opened Wrappers
  import opened Text
  import opened Seqs
  import opened Catalog
  import opened Browser

  /**
   * The filter's test: the lowercased title contains the lowercased query, or
   * the book has a (non-empty) author whose lowercased form contains it.
   */
  predicate KeepsBook(b: Book, query: string) {
    Includes(Lower(b.title), Lower(query)) || (b.author != [] && Includes(Lower(b.author), Lower(query)))
  }

  function BookTest(query: string): Book -> bool {
    b => KeepsBook(b, query)
  }

  /** `Object.values(books).filter(...)`. */
  function FilteredBooks(books: seq<Book>, query: string): (r: seq<Book>)
    ensures |r| <= |books|
  {
    Filter(books, BookTest(query))
  }

  /**
   * The filtered list holds exactly the catalog's books that pass the test,
   * in catalog order.
   */
  lemma FilteredBooksSpec(books: seq<Book>, query: string, b: Book)
    ensures b in FilteredBooks(books, query) <==> b in books && KeepsBook(b, query)
    ensures Subsequence(FilteredBooks(books, query), books)
  {
    FilterMembers(books, BookTest(query), b);
    FilterSubsequence(books, BookTest(query));
  }

  /** The empty string occurs in every string. */
  lemma IncludesEmpty(s: string)
    ensures Includes(s, [])
  {
    assert OccursAt(s, [], 0);
  }

  /** With an empty search box every book is listed. */
  lemma EmptyQueryKeepsAll(books: seq<Book>)
    ensures FilteredBooks(books, []) == books
  {
    forall i | 0 <= i < |books|
      ensures BookTest([])(books[i])
    {
      IncludesEmpty(Lower(books[i].title));
    }
    FilterKeepsAll(books, BookTest([]));
  }

  /** `filteredBooks.slice(0, 3)`: the first three results, or all of them when fewer. */
  function Recommendations(filtered: seq<Book>): (r: seq<Book>)
    ensures |r| == if |filtered| < 3 then |filtered| else 3
    ensures forall i :: 0 <= i < |r| ==> r[i] == filtered[i]
  {
    if |filtered| < 3 then filtered else filtered[..3]
  }

  /** The alert after the modal's favourite button. */
  function FavouriteAlert(next: bool): string {
    if next then "Added to favourites" else "Removed from favourites"
  }

  /** The route of the reader page of a book. */
  function ReaderPath(id: string): (r: string)
    ensures |r| == 8 + |id| && r[8..] == id
  {
    "/reader/" + id
  }

  class HomePage {
    /** `Object.values(books)`, in the catalog's order. */
    const catalog: seq<Book>
    const store: Store
    const body: Element
    var query: string
    var modalBook: Option<Book>

    constructor (catalog: seq<Book>, store: Store, body: Element)
      ensures this.catalog == catalog && this.store == store && this.body == body
      ensures query == [] && modalBook == None
    {
      this.catalog := catalog;
      this.store := store;
      this.body := body;
      query := [];
      modalBook := None;
    }

    /** The "All Books" row. */
    function Listed(): seq<Book>
      reads this
    {
      FilteredBooks(catalog, query)
    }

    /** The recommendations row. */
    function Recommended(): seq<Book>
      reads this
    {
      Recommendations(Listed())
    }

    /** `searchBooks(q)`. */
    method SearchBooks(q: string)
      modifies this
      ensures query == q && modalBook == old(modalBook)
    {
      query := q;
    }

    /** `openModal(book)`: show the book and stop the page from scrolling. */
    method OpenModal(b: Book)
      modifies this, body
      ensures modalBook == Some(b) && body.overflow == "hidden"
      ensures body.classes == old(body.classes) && query == old(query)
    {
      modalBook := Some(b);
      body.SetOverflow("hidden");
    }

    /**
     * `closeModal()`: the close button, and a click on the overlay; the
     * modal's content stops its clicks from reaching the overlay.
     */
    method CloseModal()
      modifies this, body
      ensures modalBook == None && body.overflow == "auto"
      ensures body.classes == old(body.classes) && query == old(query)
    {
      modalBook := None;
      body.SetOverflow("auto");
    }

    /** `startReading(book)`: close the modal, then go to the book's reader page. */
    method StartReading(b: Book) returns (path: string)
      modifies this, body
      ensures path == ReaderPath(b.id)
      ensures modalBook == None && body.overflow == "auto"
      ensures body.classes == old(body.classes) && query == old(query)
    {
      CloseModal();
      path := ReaderPath(b.id);
    }

    /**
     * The modal's favourite button: flip `fav_<id>` of the shown book and
     * say which way it went; no other stored item changes.
     */
    method ToggleFavourite() returns (message: string)
      requires modalBook.Some?
      modifies store
      ensures store.items == ToggleIn(old(store.items), FavouriteKey(modalBook.value.id))
      ensures message == FavouriteAlert(old(store.Get(FavouriteKey(modalBook.value.id))) != Some("1"))
    {
      var next := store.ToggleFlag(FavouriteKey(modalBook.value.id));
      message := FavouriteAlert(next);
    }
  }
}
