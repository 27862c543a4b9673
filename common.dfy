/** Identifiers and small helpers shared by the server model and the client stores. */
module Common {

  /** A value that may be absent: JavaScript's `null` or `undefined`. */
  datatype Option<+T> = None | Some(value: T)

  /** The ids the server draws from `uuidv4()`. They are modelled as values of a counter, so they never repeat. */
  type Uuid = nat

  /** A socket connection id. The server uses it as the identity of teachers and students alike. */
  type ConnId = string

  /**
   * Index of the first element of `s` whose key is `k`. This is what
   * `Array.prototype.findIndex` computes; `find` returns the element at that index.
   */
  function FindIndex<T, K(==)>(s: seq<T>, key: T -> K, k: K): (r: Option<nat>)
    ensures r.None? <==> forall i :: 0 <= i < |s| ==> key(s[i]) != k
    ensures r.Some? ==> r.value < |s| && key(s[r.value]) == k
    ensures r.Some? ==> forall j :: 0 <= j < r.value ==> key(s[j]) != k
  {
    if s == [] then None
    else if key(s[0]) == k then Some(0)
    else match FindIndex(s[1..], key, k)
      case None => None
      case Some(i) => Some(i + 1)
  }
}
