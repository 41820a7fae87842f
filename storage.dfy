/** The browser's `localStorage`, as a map from keys to stored strings. */
module Storage {
  import opened Wrappers

  /** `localStorage.getItem(key)`: the stored string, or null. */
  function GetItem(storage: map<string, string>, key: string): (r: Option<string>)
    ensures r.Some? <==> key in storage
    ensures r.Some? ==> r.value == storage[key]
  {
    if key in storage then Some(storage[key]) else None
  }
}
