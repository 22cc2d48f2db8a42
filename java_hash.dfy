/** Java's 32-bit hashing primitives, written out over unbounded integers:
    two's-complement wrap-around of `int`, `String.hashCode` and
    `Objects.hash` (which is `Arrays.hashCode` of its arguments). */
module JavaHash {

  const TwoTo31: int := 0x8000_0000
  const TwoTo32: int := 0x1_0000_0000

  /** The Java `int` that an unbounded integer wraps around to. */
  function Wrap32(x: int): (r: int)
    ensures -TwoTo31 <= r < TwoTo31
    ensures -TwoTo31 <= x < TwoTo31 ==> r == x
    ensures (x - r) % TwoTo32 == 0
  {
    var m := x % TwoTo32;
    if m < TwoTo31 then m else m - TwoTo32
  }

  /** `Integer.hashCode`: the value itself, as a Java `int`. */
  function IntHash(x: int): (h: int)
    ensures -TwoTo31 <= h < TwoTo31
    ensures -TwoTo31 <= x < TwoTo31 ==> h == x
  {
    Wrap32(x)
  }

  /** `String.hashCode`: h := 31 * h + c over the characters, from the first. */
  function StringHash(s: string): (h: int)
    ensures -TwoTo31 <= h < TwoTo31
  {
    if s == [] then 0 else Wrap32(31 * StringHash(s[..|s| - 1]) + s[|s| - 1] as int)
  }

  /** `Objects.hash(v1, ..., vn)`: result := 31 * result + hash(vi), from 1. */
  function CombineHashes(hs: seq<int>): (h: int)
    ensures hs != [] ==> -TwoTo31 <= h < TwoTo31
  {
    if hs == [] then 1 else Wrap32(31 * CombineHashes(hs[..|hs| - 1]) + hs[|hs| - 1])
  }
}
