/** Bytes and fixed-width big-endian integers (Rust's `to_be_bytes`). */
module Bytes {

  newtype byte = x: int | 0 <= x < 256

  /** 256 to the power `n`: the number of values a `n`-byte word can hold. */
  function Pow256(n: nat): (r: nat)
    ensures r >= 1
  {
    if n == 0 then 1 else 256 * Pow256(n - 1)
  }

  /** The unsigned integer a big-endian byte string denotes. */
  function BeValue(s: seq<byte>): (r: nat)
    ensures r < Pow256(|s|)
  {
    if s == [] then 0 else BeValue(s[..|s| - 1]) * 256 + s[|s| - 1] as nat
  }

  /** The `width`-byte big-endian representation of `n`; it denotes `n` again. */
  function BeBytes(n: nat, width: nat): (r: seq<byte>)
    requires n < Pow256(width)
    ensures |r| == width
    ensures BeValue(r) == n
  {
    if width == 0 then []
    else
      var high := BeBytes(n / 256, width - 1);
      var r := high + [(n % 256) as byte];
      assert r[..|r| - 1] == high;
      r
  }

  /** Every big-endian byte string is the representation of the value it denotes. */
  lemma {:induction false} BeBytesOfBeValue(s: seq<byte>)
    ensures BeBytes(BeValue(s), |s|) == s
  {
    if s != [] {
      var init := s[..|s| - 1];
      BeBytesOfBeValue(init);
      var n := BeValue(s);
      assert n / 256 == BeValue(init);
      assert n % 256 == s[|s| - 1] as nat;
      assert s == init + [s[|s| - 1]];
    }
  }
}
