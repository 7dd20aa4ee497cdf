/** Shared vocabulary: optional values, fallible results, clock units, prefixes of runs. */
module Common {

  datatype Option<+T> = None | Some(value: T)

  datatype Result<+T, +E> = Ok(value: T) | Err(error: E)

  // Every clock reading is an integer count of nanoseconds.
  const SECOND: int := 1_000_000_000
  const HOUR: int := 3600 * SECOND

  // One more than the largest u32.
  const U32: int := 0x1_0000_0000

  function Get<K, V>(m: map<K, V>, k: K): Option<V> {
    if k in m then Some(m[k]) else None
  }

  function Max(a: int, b: int): int {
    if a < b then b else a
  }

  /** The run without its last step. */
  function Init<T>(s: seq<T>): seq<T>
    requires s != []
  {
    s[..|s| - 1]
  }

  function Last<T>(s: seq<T>): T
    requires s != []
  {
    s[|s| - 1]
  }

  /** Prefixes of a run are prefixes of every longer run. */
  lemma PrefixOfInit<T>(s: seq<T>, k: nat)
    requires k < |s|
    ensures Init(s)[..k] == s[..k]
  {
  }

  lemma InitOfSnoc<T>(s: seq<T>, x: T)
    ensures s + [x] != [] && Init(s + [x]) == s && Last(s + [x]) == x
  {
    assert (s + [x])[..|s|] == s;
  }
}
