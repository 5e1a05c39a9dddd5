/** The two string tests the upload handler and Node's path helpers rely on,
    written once for sequences of any element type. */
module Seqs {

  /** `s.startsWith(p)`; on bytes, "p is a prefix of s". */
  predicate StartsWith<T(==)>(s: seq<T>, p: seq<T>)
  {
    |p| <= |s| && s[..|p|] == p
  }

  /** `s.endsWith(p)`. */
  predicate EndsWith<T(==)>(s: seq<T>, p: seq<T>)
  {
    |p| <= |s| && s[|s| - |p|..] == p
  }

  function Min(a: int, b: int): int
  {
    if a < b then a else b
  }

}
