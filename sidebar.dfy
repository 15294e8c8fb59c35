/**
 * The navigation sidebar: a collapse flag persisted under `sidebarExpanded`
 * and a highlighted menu entry that follows the last click.
 */
module Sidebar {
  import opened Wrappers
  import opened Browser

  /** The storage key of the persisted flag. */
  const ExpandedKey: string := "sidebarExpanded"

  datatype MenuItem = MenuItem(id: string, caption: string, path: string)

  /** The five menu entries, in display order. */
  function MenuItems(): seq<MenuItem> {
    [ MenuItem("home", "Home", "/"),
      MenuItem("favourites", "Favourites", "/favourites"),
      MenuItem("downloads", "Downloads", "/downloads"),
      MenuItem("feedback", "Feedback", "/feedback"),
      MenuItem("help", "Help", "/help") ]
  }

  /** No two menu entries share an id or a route. */
  lemma MenuItemsDistinct()
    ensures |MenuItems()| == 5
    ensures forall i, j :: 0 <= i < j < |MenuItems()| ==> MenuItems()[i].id != MenuItems()[j].id
    ensures forall i, j :: 0 <= i < j < |MenuItems()| ==> MenuItems()[i].path != MenuItems()[j].path
  {
  }

  /** The collapse flag read at start-up: collapsed unless exactly `"true"` is stored. */
  function InitialCollapsed(stored: Option<string>): (r: bool)
    ensures !r <==> stored == Some("true")
  {
    stored != Some("true")
  }

  /** The text a boolean is stored as. */
  function BoolText(b: bool): string {
    if b then "true" else "false"
  }

  /**
   * The flag is written as the new `collapsed` value but read back as
   * "expanded", so a reload after a toggle to `s` starts with `!s`.
   */
  lemma ReloadInverts(items: map<string, string>, s: bool)
    ensures InitialCollapsed(GetItem(items[ExpandedKey := BoolText(s)], ExpandedKey)) == !s
  {
    assert GetItem(items[ExpandedKey := BoolText(s)], ExpandedKey) == Some(BoolText(s));
  }

  class SidebarState {
    const store: Store
    var collapsed: bool
    var activePage: string

    /** Mounting: read the persisted flag; the home entry is highlighted. */
    constructor (store: Store)
      ensures this.store == store
      ensures collapsed == InitialCollapsed(store.Get(ExpandedKey))
      ensures activePage == "home"
    {
      this.store := store;
      collapsed := store.Get(ExpandedKey) != Some("true");
      activePage := "home";
    }

    /** The toggle button: flip `collapsed` and persist the new value. */
    method Toggle()
      modifies this, store
      ensures collapsed == !old(collapsed) && activePage == old(activePage)
      ensures store.items == old(store.items)[ExpandedKey := BoolText(collapsed)]
    {
      var nextState := !collapsed;
      collapsed := nextState;
      store.SetItem(ExpandedKey, if nextState then "true" else "false");
    }

    /** A menu click: highlight the entry and return its route. */
    method MenuClick(item: MenuItem) returns (path: string)
      modifies this
      ensures activePage == item.id && path == item.path
      ensures collapsed == old(collapsed)
    {
      activePage := item.id;
      path := item.path;
    }

    /** Whether a menu entry is shown as the active one. */
    predicate IsActive(item: MenuItem)
      reads this
    {
      activePage == item.id
    }
  }

  /**
   * After a click on a menu entry, that entry and no other is shown active:
   * the entries' ids are distinct.
   */
  lemma OneActiveEntry(activePage: string, k: nat)
    requires k < |MenuItems()| && activePage == MenuItems()[k].id
    ensures forall j :: 0 <= j < |MenuItems()| ==> (MenuItems()[j].id == activePage <==> j == k)
  {
    MenuItemsDistinct();
  }
}
