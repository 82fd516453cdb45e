/** The local key/value store: string keys, string values, last write wins. */
module Storage {
  import opened Wrappers

  type Store = map<string, string>

  function Get(st: Store, key: string): (v: Option<string>) {
    if key in st then Some(st[key]) else None
  }

  /** Unconditional overwrite of one key; every other key keeps its value. */
  function Put(st: Store, key: string, value: string): (r: Store)
    ensures Get(r, key) == Some(value)
    ensures forall other :: other != key ==> Get(r, other) == Get(st, other)
    ensures r.Keys == st.Keys + {key}
  {
    st[key := value]
  }
}
