/**
 * The book card of the home page's rows: a click anywhere on the card opens
 * the details modal, and three buttons inside it (favourite, view, download)
 * handle their own clicks and stop them from bubbling up to the card.
 */
module BookCard {
  import opened Wrappers
  import opened Catalog
  import opened Browser

  /** The favourite button's class for a book that is a favourite. */
  const ActiveClass: string := "active"

  /** The element a click lands on. */
  datatype Target = CardBody | FavouriteButton | ViewButton | DownloadButton

  /** Whether a click on `t` opens the details modal, as the page sees it. */
  predicate OpensModal(t: Target) {
    t == CardBody || t == ViewButton
  }

  class Card {
    /** The `book` prop. */
    const book: Option<Book>
    const store: Store
    /** The favourite button, `e.currentTarget` of its click. */
    const favButton: Element

    constructor (book: Option<Book>, store: Store, favButton: Element)
      ensures this.book == book && this.store == store && this.favButton == favButton
    {
      this.book := book;
      this.store := store;
      this.favButton := favButton;
    }

    /** The card renders nothing without a book. */
    predicate Renders() {
      book.Some?
    }

    /**
     * One click on `t`, bubbling from the clicked button to the card unless
     * the button's handler stops it. `opens` counts the calls of
     * `onOpenModal(book)`, and `alerted` says whether the download alert
     * showed. The modal opens exactly once for a click on the card or on the
     * View button, never for the other buttons; only the favourite button
     * touches storage, and then only its own key.
     */
    method Click(t: Target) returns (opens: nat, alerted: bool)
      requires Renders()
      modifies store, favButton
      ensures opens == if OpensModal(t) then 1 else 0
      ensures alerted <==> t == DownloadButton
      ensures t == FavouriteButton ==> store.items == ToggleIn(old(store.items), FavouriteKey(book.value.id))
      ensures t == FavouriteButton ==> (ActiveClass in favButton.classes <==> store.Get(FavouriteKey(book.value.id)) == Some("1"))
      ensures t == FavouriteButton ==> favButton.classes - {ActiveClass} == old(favButton.classes) - {ActiveClass}
      ensures t != FavouriteButton ==> store.items == old(store.items) && favButton.classes == old(favButton.classes)
    {
      opens := 0;
      alerted := false;
      var propagate := true;
      match t {
        case FavouriteButton =>
          propagate := false;
          var next := store.ToggleFlag(FavouriteKey(book.value.id));
          favButton.ToggleClass(ActiveClass, next);
        case ViewButton =>
          propagate := false;
          opens := opens + 1;
        case DownloadButton =>
          propagate := false;
          alerted := true;
        case CardBody =>
      }
      if propagate {
        // the card's own handler
        opens := opens + 1;
      }
    }
  }
}
