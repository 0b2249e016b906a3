/** The App component's search term: `useSemiPersistentState('search', 'React')` together
    with `handleSearch`. The term lives in component state and is mirrored into the store. */
module SearchState {
  import opened Storage
  import opened Stories

  /** The store key the App component uses for its search term. */
  const SearchKey: string := "search"

  /** The term the App component starts with when the store holds no usable value. */
  const DefaultTerm: string := "React"

  class SearchTerm {
    /** The component state `searchTerm`. */
    var term: string
    /** The key-value store standing in for `localStorage`. */
    var store: Store

    /** The store holds the current term under the search key. */
    ghost predicate Synced()
      reads this
    {
      SearchKey in store && store[SearchKey] == term
    }

    /** Mounting the component over the store `saved`: the term is the saved value when present
        and non-empty and "React" otherwise; the effect that runs after mounting then writes the
        term back under the search key and touches no other key. */
    constructor (saved: Store)
      ensures term == InitialValue(saved, SearchKey, DefaultTerm)
      ensures store == SetItem(saved, SearchKey, term)
      ensures Synced()
    {
      var initial := InitialValue(saved, SearchKey, DefaultTerm);
      term := initial;
      // the effect on [value, key] after the first render
      store := SetItem(saved, SearchKey, initial);
    }

    /** `handleSearch`: the new value becomes the state term and is written under the search key;
        the effect triggered by the state change writes the same value again. */
    method Search(v: string)
      modifies this
      ensures term == v
      ensures store == SetItem(old(store), SearchKey, v)
      ensures Synced()
    {
      term := v;
      store := SetItem(store, SearchKey, v);
      // the effect on [value, key] after the re-render
      store := SetItem(store, SearchKey, term);
    }
  }

  /** Start from an empty store, type "Redux": the list shows only the Redux story,
      and a later start-up over the resulting store comes back with "Redux". */
  method TypeReduxThenReload() returns (shown: seq<Story>, reloaded: string)
    ensures shown == [SampleStories()[1]]
    ensures reloaded == "Redux"
  {
    var s := new SearchTerm(map[]);
    assert s.term == "React";
    s.Search("Redux");
    SampleSearches();
    shown := SearchStories(SampleStories(), s.term);
    var again := new SearchTerm(s.store);
    reloaded := again.term;
  }
}
