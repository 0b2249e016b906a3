/** The browser's key-value store, as an in-memory map from keys to strings,
    and the initial-value rule of the semi-persistent state hook. */
module Storage {

  datatype Option<T> = None | Some(value: T)

  type Store = map<string, string>

  /** `localStorage.getItem(key)`: the stored string, or None (JavaScript's null) when absent. */
  function GetItem(store: Store, key: string): (r: Option<string>)
    ensures r.Some? <==> key in store
    ensures r.Some? ==> r.value == store[key]
  {
    if key in store then Some(store[key]) else None
  }

  /** `localStorage.setItem(key, value)`: key now maps to value; every other key keeps its entry. */
  function SetItem(store: Store, key: string, value: string): (r: Store)
    ensures r.Keys == store.Keys + {key}
    ensures r[key] == value
    ensures forall k :: k in store && k != key ==> r[k] == store[k]
  {
    store[key := value]
  }

  /** JavaScript's `a || b` where a is a string or null: a when it is truthy
      (present and non-empty), b otherwise. */
  function Or(a: Option<string>, b: string): (r: string)
    ensures r == b || (a.Some? && r == a.value && r != "")
    ensures a.Some? && a.value != "" ==> r == a.value
  {
    if a.Some? && a.value != "" then a.value else b
  }

  /** `localStorage.getItem(key) || initialState`: the stored value when it is present and
      non-empty; otherwise the initial state, also when "" is stored. */
  function InitialValue(store: Store, key: string, initialState: string): (r: string)
    ensures key in store && store[key] != "" ==> r == store[key]
    ensures key !in store || store[key] == "" ==> r == initialState
    ensures initialState != "" ==> r != ""
  {
    Or(GetItem(store, key), initialState)
  }

  /** Reading a key just written gives the written value; reading any other key gives what it held before. */
  lemma GetAfterSet(store: Store, key: string, value: string, other: string)
    ensures GetItem(SetItem(store, key, value), key) == Some(value)
    ensures other != key ==> GetItem(SetItem(store, key, value), other) == GetItem(store, other)
  {
  }

  /** Writing a non-empty value and reading it back at the next start-up yields that value;
      writing "" yields the initial state instead. */
  lemma ReloadAfterWrite(store: Store, key: string, value: string, initialState: string)
    ensures InitialValue(SetItem(store, key, value), key, initialState) ==
            if value == "" then initialState else value
  {
  }
}
