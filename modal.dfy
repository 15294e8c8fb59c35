/**
 * The reusable book-details modal component: it renders only while open with
 * a book, marks the page body with `modal-open` while open, closes on Escape
 * or on a click on its own overlay, and carries a favourite button and the
 * star strings of the book's rating and reviews.
 */
module Modal {
  import opened Wrappers
  import opened Catalog
  import opened Browser
  import opened Stars

  /** The body class that locks page scrolling while the modal is open. */
  const OpenClass: string := "modal-open"
  /** The class of the overlay element that wraps the modal's content. */
  const OverlayClass: string := "modal"
  /** The class of the content box inside the overlay. */
  const ContentClass: string := "modal-content"
  /** The favourite button's class for a book that is a favourite. */
  const ActiveClass: string := "active"

  class ModalView {
    /** `document.body`. */
    const body: Element
    const store: Store
    /** The favourite button, `e.currentTarget` of its click. */
    const favButton: Element
    /** The `isOpen` and `book` props. */
    var isOpen: bool
    var book: Option<Book>

    /**
     * Mounting with the first props, and the `isOpen` effect's first run:
     * the body carries `modal-open` exactly when the modal mounts open, and
     * no other body class changes.
     */
    constructor (isOpen: bool, book: Option<Book>, body: Element, store: Store, favButton: Element)
      modifies body
      ensures this.isOpen == isOpen && this.book == book
      ensures this.body == body && this.store == store && this.favButton == favButton
      ensures OpenClass in body.classes <==> isOpen
      ensures body.classes - {OpenClass} == old(body.classes) - {OpenClass}
      ensures body.overflow == old(body.overflow)
    {
      this.isOpen := isOpen;
      this.book := book;
      this.body := body;
      this.store := store;
      this.favButton := favButton;
      new;
      body.ToggleClass(OpenClass, isOpen);
    }

    /** The component returns markup only when it is open and has a book. */
    predicate Renders()
      reads this
    {
      isOpen && book.Some?
    }

    /**
     * A new `isOpen` and the effect that follows it: the body carries
     * `modal-open` exactly while the modal is open, and no other body class
     * changes.
     */
    method SetOpen(open: bool)
      modifies this, body
      ensures isOpen == open && book == old(book)
      ensures OpenClass in body.classes <==> open
      ensures body.classes - {OpenClass} == old(body.classes) - {OpenClass}
      ensures body.overflow == old(body.overflow)
    {
      isOpen := open;
      body.ToggleClass(OpenClass, open);
    }

    /** The effect's cleanup on unmount: the body loses `modal-open`. */
    method Unmount()
      modifies body
      ensures OpenClass !in body.classes
      ensures body.classes == old(body.classes) - {OpenClass}
      ensures body.overflow == old(body.overflow)
    {
      body.ToggleClass(OpenClass, false);
    }

    /** The document's keydown listener: it asks to close only on Escape while open. */
    method KeyDown(key: string) returns (close: bool)
      ensures close <==> key == "Escape" && isOpen
    {
      close := key == "Escape" && isOpen;
    }

    /**
     * A click that reaches the overlay: it asks to close only when the
     * clicked element is the overlay itself, so a click inside the content
     * box, whose classes do not include `modal`, does not close.
     */
    method OverlayClick(targetClasses: set<string>) returns (close: bool)
      ensures close <==> OverlayClass in targetClasses
      ensures targetClasses == {ContentClass} ==> !close
    {
      close := OverlayClass in targetClasses;
    }

    /**
     * The favourite button: flip `fav_<id>` of the shown book in storage and
     * make the button's `active` class agree with the flag just written.
     */
    method ToggleFavourite() returns (next: bool)
      requires Renders()
      modifies store, favButton
      ensures next <==> old(store.Get(FavouriteKey(book.value.id))) != Some("1")
      ensures store.items == ToggleIn(old(store.items), FavouriteKey(book.value.id))
      ensures ActiveClass in favButton.classes <==> store.Get(FavouriteKey(book.value.id)) == Some("1")
      ensures favButton.classes - {ActiveClass} == old(favButton.classes) - {ActiveClass}
    {
      next := store.ToggleFlag(FavouriteKey(book.value.id));
      favButton.ToggleClass(ActiveClass, next);
    }

    /** The rating stars of the shown book, `renderStars(book.rating ?? 0)`. */
    function RatingStars(): (r: Result<string, RangeError>)
      requires Renders()
      reads this
      ensures r.Ok? <==> 0 <= RatingOf(book.value.rating) <= 50
      ensures r.Ok? ==> |r.value| == 5
    {
      RenderStarsShape(book.value.rating);
      RenderStars(book.value.rating)
    }
  }
}
