/** Shared vocabulary: Go's machine integers and the missing-key default of Go maps. */
module Prelude {

  datatype Option<+T> = None | Some(value: T)

  const TWO32: int := 0x1_0000_0000
  const TWO63: int := 0x8000_0000_0000_0000
  const TWO64: int := 0x1_0000_0000_0000_0000

  type uint64 = x: int | 0 <= x < TWO64

  /** Indexing a Go map yields the zero value when the key is absent. */
  function GetOr<K, V>(m: map<K, V>, k: K, zero: V): V
  {
    if k in m then m[k] else zero
  }

  /** Everything but the last element. */
  function Front<T>(s: seq<T>): seq<T>
    requires s != []
  {
    s[..|s| - 1]
  }

  function Last<T>(s: seq<T>): T
    requires s != []
  {
    s[|s| - 1]
  }

  /** Concatenation of a sequence of sequences. */
  function Flat<T>(ss: seq<seq<T>>): seq<T>
  {
    if ss == [] then [] else Flat(Front(ss)) + Last(ss)
  }
}
