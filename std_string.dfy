/**
 * The two pieces of the C++ standard library that the extractor relies on
 * for its slicing: unsigned `size_t` subtraction and `std::string::erase`.
 */
module StdString {
  import opened Wrappers

  /**
   * `std::string::size_type` is an unsigned integer, 64 bits wide on the
   * platforms modelled: arithmetic on it wraps modulo 2^64.
   */
  const SizeTModulus: nat := 0x1_0000_0000_0000_0000

  /**
   * The unsigned subtraction `a - b` on `size_t` operands. String lengths
   * stay below 2^64, so for `a >= b` the difference is exact; for `a < b`
   * it wraps around to a value just below 2^64, which lies beyond the end
   * of every such string.
   */
  function SizeSub(a: nat, b: nat): (r: nat)
    requires b < SizeTModulus
    ensures (r - (a - b)) % SizeTModulus == 0
    ensures a >= b ==> r == a - b
    ensures a < b ==> a < r < SizeTModulus
  {
    if a >= b then a - b else SizeTModulus + a - b
  }

  /** How many characters `erase` removes: a count, or `npos` for "to the end". */
  datatype EraseCount = Chars(n: nat) | ToEnd

  /** The number of characters `erase(pos, count)` removes from a string of length `size`. */
  function Removed(size: nat, pos: nat, count: EraseCount): nat
    requires pos <= size
  {
    match count
    case ToEnd => size - pos
    case Chars(n) => if n < size - pos then n else size - pos
  }

  /**
   * `s.erase(pos, count)`. The library throws `std::out_of_range` when
   * `pos > s.size()`, modelled as `None`; otherwise it removes
   * `min(count, size - pos)` characters starting at `pos` and keeps the
   * characters before and after them in order.
   */
  function Erase(s: string, pos: nat, count: EraseCount): (r: Option<string>)
    ensures r.None? <==> pos > |s|
    ensures r.Some? ==> |r.value| == |s| - Removed(|s|, pos, count)
    ensures r.Some? ==> r.value[..pos] == s[..pos]
    ensures r.Some? ==> r.value[pos..] == s[pos + Removed(|s|, pos, count)..]
    ensures r.Some? && count.ToEnd? ==> r.value == s[..pos]
  {
    if pos > |s| then None
    else Some(s[..pos] + s[pos + Removed(|s|, pos, count)..])
  }
}
