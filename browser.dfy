/**
 * The two browser objects the application writes to: `window.localStorage`,
 * a map from string keys to string values, and a DOM element's class list and
 * inline `overflow` style.
 */
module Browser {
  import opened Wrappers

  /** `localStorage.getItem(k)` on a map of stored items; `None` is `null`. */
  function GetItem(items: map<string, string>, k: string): Option<string> {
    if k in items then Some(items[k]) else None
  }

  /** `fav_${id}`: the storage key of a book's favourite flag. */
  function FavouriteKey(id: string): string {
    "fav_" + id
  }

  /** The text a favourite flag is stored as. */
  function FlagText(on: bool): string {
    if on then "1" else "0"
  }

  /**
   * The value the favourite toggle writes: `"1"` unless the stored value was
   * exactly `"1"`, so an absent, `"0"` or unrecognised value all become `"1"`.
   */
  function Toggled(stored: Option<string>): (r: string)
    ensures r == "1" <==> stored != Some("1")
    ensures r == "0" <==> stored == Some("1")
  {
    FlagText(stored != Some("1"))
  }

  /** The stored items after one favourite toggle of key `k`. */
  function ToggleIn(items: map<string, string>, k: string): (r: map<string, string>)
    ensures k in r && r[k] == Toggled(GetItem(items, k))
    ensures forall k' :: k' != k ==> GetItem(r, k') == GetItem(items, k')
  {
    items[k := Toggled(GetItem(items, k))]
  }

  /** Toggling a flag that holds `"1"` or `"0"` twice puts back the stored items. */
  lemma ToggleTwice(items: map<string, string>, k: string)
    requires k in items && (items[k] == "1" || items[k] == "0")
    ensures ToggleIn(ToggleIn(items, k), k) == items
  {
    var once := ToggleIn(items, k);
    assert GetItem(once, k) == Some(Toggled(Some(items[k])));
  }

  class Store {
    var items: map<string, string>

    constructor (items: map<string, string>)
      ensures this.items == items
    {
      this.items := items;
    }

    function Get(k: string): Option<string>
      reads this
    {
      GetItem(items, k)
    }

    /** `localStorage.setItem(k, v)`. */
    method SetItem(k: string, v: string)
      modifies this
      ensures items == old(items)[k := v]
    {
      items := items[k := v];
    }

    /**
     * The favourite click handler: read `k`, then write `"1"` if it was not
     * `"1"` and `"0"` if it was; `next` is the new favourite state.
     */
    method ToggleFlag(k: string) returns (next: bool)
      modifies this
      ensures next <==> old(Get(k)) != Some("1")
      ensures items == ToggleIn(old(items), k)
      ensures Get(k) == Some(FlagText(next))
    {
      next := Get(k) != Some("1");
      items := items[k := if next then "1" else "0"];
    }
  }

  /** A DOM element: its class list and its inline `overflow` style. */
  class Element {
    var classes: set<string>
    var overflow: string

    constructor ()
      ensures classes == {} && overflow == ""
    {
      classes := {};
      overflow := "";
    }

    /** `classList.toggle(name, force)`: adds `name` when `force`, removes it otherwise. */
    method ToggleClass(name: string, force: bool)
      modifies this
      ensures force ==> classes == old(classes) + {name}
      ensures !force ==> classes == old(classes) - {name}
      ensures overflow == old(overflow)
    {
      if force {
        classes := classes + {name};
      } else {
        classes := classes - {name};
      }
    }

    method SetOverflow(value: string)
      modifies this
      ensures overflow == value && classes == old(classes)
    {
      overflow := value;
    }
  }
}
