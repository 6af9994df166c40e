/** What each driver call does to the flat store seen by its transaction, and what it answers.
    The methods of the classes are proved against these functions. */
module BucketOps {
  import opened Keys
  import opened BadgerStore
  import opened BucketLayout

  datatype ErrorKind = Invalid | Exist | NotExist | IO

  datatype Reply =
    | Done
    | Failed(error: ErrorKind)
    | Opened
    | Absent
    | Found(value: seq<byte>)
    | Listed(entries: seq<Pair>)

  /** The durable store and the current transaction's view of it. */
  datatype State<T> = State(committed: T, view: T)

  function FlatCreateTop(m: Store, key: Key): (Store, Reply) {
    if key == [] then (m, Failed(Invalid))
    else if key !in m then (m[key := Marker(|key|)], Opened)
    else if m[key].isBucket then (m, Opened)
    else (m, Failed(Invalid))
  }

  function FlatOpen(m: Store, key: Key): Reply {
    if key != [] && key in m && m[key].isBucket then Opened else Absent
  }

  function FlatCreateNested(m: Store, prefix: Key, key: Key, errorIfExists: bool): (Store, Reply) {
    if key == [] || |key| > MAX_KEY_SIZE then (m, Failed(Invalid))
    else if prefix + key !in m then (m[prefix + key := Marker(|prefix|)], Opened)
    else if !m[prefix + key].isBucket then (m, Failed(Invalid))
    else if errorIfExists then (m, Failed(Exist))
    else (m, Opened)
  }

  function FlatOpenNested(m: Store, prefix: Key, key: Key): Reply {
    if |key| > MAX_KEY_SIZE then Absent else FlatOpen(m, prefix + key)
  }

  function FlatPut(m: Store, prefix: Key, key: Key, value: seq<byte>): (Store, Reply) {
    if key == [] || |key| > MAX_KEY_SIZE then (m, Failed(Invalid))
    else (m[prefix + key := Leaf(value, |prefix|)], Done)
  }

  function FlatGet(m: Store, prefix: Key, key: Key): Reply {
    if key == [] || |key| > MAX_KEY_SIZE || prefix + key !in m || m[prefix + key].value == [] then Absent
    else Found(m[prefix + key].value[1..])
  }

  function FlatDelete(m: Store, prefix: Key, key: Key): (Store, Reply) {
    if key == [] then (m, Done)
    else if |key| > MAX_KEY_SIZE then (m, Failed(Invalid))
    else (m - {prefix + key}, Done)
  }

  /** Dropping a nested bucket scans the durable store, commits the transaction with the direct
      entries deleted, and leaves only the deletion of the marker pending. */
  function FlatDrop(s: State<Store>, prefix: Key, key: Key): (State<Store>, Reply) {
    var target := prefix + key;
    if |key| > MAX_KEY_SIZE || target == [] then (s, Failed(Invalid))
    else if target !in s.view then (s, Failed(NotExist))
    else if !s.view[target].isBucket then (s, Failed(Invalid))
    else
      var committed := s.view - DirectKeys(s.committed, target);
      (State(committed, committed - {target}), Done)
  }

  /** Deleting a top-level bucket works on the transaction's own view and commits nothing. */
  function FlatDeleteTop(m: Store, key: Key): (Store, Reply) {
    if key == [] then (m, Failed(Invalid))
    else if key !in m then (m, Failed(NotExist))
    else if !m[key].isBucket then (m, Failed(Invalid))
    else (m - DirectKeys(m, key) - {key}, Done)
  }
}
