/** What several of the models share. */
module Common {

  datatype Option<T> = None | Some(value: T)

  const NUL := '\0'

  /** A C string, without its terminator. */
  type CString = s: seq<char> | NUL !in s

  function Reversed<T>(s: seq<T>): (r: seq<T>)
    ensures |r| == |s|
    ensures forall k {:trigger r[k]} | 0 <= k < |s| :: r[k] == s[|s| - 1 - k]
  {
    if s == [] then [] else Reversed(s[1..]) + [s[0]]
  }
}
