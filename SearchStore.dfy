/** The `store` object of the plugin factory: the registry the suggestion
    portals use to find where to draw and whether they were dismissed.
    Its three variables are replaced wholesale by every update (Immutable
    maps in the original), which Dafny's value maps give for free. */
module SearchStore {
  import opened Wrappers

  /** Keys are the decorators' offset keys. `F` is the client-rect function a
      portal hands in; what it computes (a DOM rectangle) is not modelled. */
  class Store<F> {
    var searches: map<string, string>
    var escapedSearch: Option<string>
    var clientRectFunctions: map<string, F>

    /** Every registered key maps to itself. */
    ghost predicate Valid()
      reads this
    {
      forall k :: k in searches ==> searches[k] == k
    }

    /** Two empty maps and an `undefined` escape marker. */
    constructor ()
      ensures Valid()
      ensures searches == map[] && escapedSearch == None && clientRectFunctions == map[]
    {
      searches := map[];
      escapedSearch := None;
      clientRectFunctions := map[];
    }

    /** `getPortalClientRect(offsetKey)`: calls the stored function, so it
        throws when none is stored for the key. */
    method GetPortalClientRect(offsetKey: string) returns (r: Result<F>)
      ensures offsetKey in clientRectFunctions ==> r == Ok(clientRectFunctions[offsetKey])
      ensures offsetKey !in clientRectFunctions ==> r == Err(UndefinedCall)
    {
      if offsetKey in clientRectFunctions {
        r := Ok(clientRectFunctions[offsetKey]);
      } else {
        r := Err(UndefinedCall);
      }
    }

    /** `getAllSearches()`: the current snapshot of registered keys. */
    function GetAllSearches(): (all: map<string, string>)
      reads this
      requires Valid()
      ensures all.Keys == searches.Keys
      ensures forall k :: k in all ==> all[k] == k
    {
      searches
    }

    /** `isEscaped(offsetKey)`: strict comparison with the one marker, so
        nothing is escaped while the marker is `undefined`. */
    function IsEscaped(offsetKey: string): (escaped: bool)
      reads this
      ensures escaped <==> escapedSearch == Some(offsetKey)
    {
      escapedSearch.Some? && escapedSearch.value == offsetKey
    }

    /** `escapeSearch(offsetKey)`: the key becomes the only escaped one. */
    method EscapeSearch(offsetKey: string)
      modifies this
      ensures IsEscaped(offsetKey)
      ensures forall other :: other != offsetKey ==> !IsEscaped(other)
      ensures searches == old(searches) && clientRectFunctions == old(clientRectFunctions)
    {
      escapedSearch := Some(offsetKey);
    }

    /** `resetEscapedSearch()`: no key is escaped afterwards. */
    method ResetEscapedSearch()
      modifies this
      ensures forall k :: !IsEscaped(k)
      ensures searches == old(searches) && clientRectFunctions == old(clientRectFunctions)
    {
      escapedSearch := None;
    }

    /** `register(offsetKey)`: records the key (mapped to itself); a second
        registration changes nothing; the client-rect functions are untouched. */
    method Register(offsetKey: string)
      requires Valid()
      modifies this
      ensures Valid()
      ensures searches == old(searches)[offsetKey := offsetKey]
      ensures old(offsetKey in searches) ==> searches == old(searches)
      ensures clientRectFunctions == old(clientRectFunctions) && escapedSearch == old(escapedSearch)
    {
      searches := searches[offsetKey := offsetKey];
    }

    /** `updatePortalClientRect(offsetKey, func)`: stores or replaces the
        key's function, whether or not the key is registered. */
    method UpdatePortalClientRect(offsetKey: string, func: F)
      modifies this
      ensures clientRectFunctions == old(clientRectFunctions)[offsetKey := func]
      ensures searches == old(searches) && escapedSearch == old(escapedSearch)
    {
      clientRectFunctions := clientRectFunctions[offsetKey := func];
    }

    /** `unregister(offsetKey)`: drops the key from both maps and keeps every
        other entry; the escape marker is left as it was. */
    method Unregister(offsetKey: string)
      requires Valid()
      modifies this
      ensures Valid()
      ensures searches == old(searches) - {offsetKey}
      ensures clientRectFunctions == old(clientRectFunctions) - {offsetKey}
      ensures escapedSearch == old(escapedSearch)
    {
      searches := searches - {offsetKey};
      clientRectFunctions := clientRectFunctions - {offsetKey};
    }
  }

  /** A portal's life on a new store: registering alone stores no function,
      so a lookup throws; after an update it succeeds; after `unregister` it
      throws again. */
  method PortalLifecycle<F>(offsetKey: string, func: F)
    returns (registered: Result<F>, updated: Result<F>, unregistered: Result<F>)
    ensures registered == Err(UndefinedCall)
    ensures updated == Ok(func)
    ensures unregistered == Err(UndefinedCall)
  {
    var store := new Store<F>();
    store.Register(offsetKey);
    registered := store.GetPortalClientRect(offsetKey);
    store.UpdatePortalClientRect(offsetKey, func);
    updated := store.GetPortalClientRect(offsetKey);
    store.Unregister(offsetKey);
    unregistered := store.GetPortalClientRect(offsetKey);
  }

  /** The escape marker is last-write-wins: escaping `b` after `a` un-escapes `a`. */
  method EscapeTwice(a: string, b: string) returns (aAfterA: bool, bAfterA: bool, aAfterB: bool, bAfterB: bool)
    requires a != b
    ensures aAfterA && !bAfterA
    ensures !aAfterB && bAfterB
  {
    var store := new Store<int>();
    store.EscapeSearch(a);
    aAfterA, bAfterA := store.IsEscaped(a), store.IsEscaped(b);
    store.EscapeSearch(b);
    aAfterB, bAfterB := store.IsEscaped(a), store.IsEscaped(b);
  }
}
