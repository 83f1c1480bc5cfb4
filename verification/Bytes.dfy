/** Bytes, C strings and the error codes that the components share. */
module Bytes {
  type byte = b: int | 0 <= b < 256

  /** What C code sees through a `const char *`: no byte before the terminator is zero. */
  type CString = s: seq<byte> | 0 !in s

  const SLASH: byte := 47
  const DOT: byte := 46

  datatype Errno =
    | EINVAL | EPERM | ENOENT | EEXIST | EIO | ENOTDIR | EISDIR | ENOTEMPTY
    | ENAMETOOLONG | EOVERFLOW | ENOSYS | ENOSPC

  datatype Option<+T> = None | Some(value: T)

  datatype Result<+T> = Ok(value: T) | Err(error: Errno)

  /** The elements from `at` on are those of `part`: a slice that was assigned, or a memcpy. */
  function Overwrite<T>(target: seq<T>, at: nat, part: seq<T>): (r: seq<T>)
    requires at + |part| <= |target|
    ensures |r| == |target|
    ensures forall k | 0 <= k < |target| :: r[k] == if at <= k < at + |part| then part[k - at] else target[k]
  {
    target[..at] + part + target[at + |part|..]
  }

  /** The quotient and the remainder are the only numbers that fit. */
  lemma DivModUnique(x: int, m: int, q: int, r: int)
    requires 0 <= r < m && x == m * q + r
    ensures x / m == q && x % m == r
  {
    var k := x / m - q;
    assert m * k == r - x % m;
    assert k >= 1 ==> m * k >= m;
    assert k <= -1 ==> m * k <= -m;
  }
}
