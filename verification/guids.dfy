/** GUIDs as 16 raw bytes, and the RPC runtime's `UuidCompare`. */
module Guids {

  newtype byte = x: int | 0 <= x < 256

  type Guid = g: seq<byte> | |g| == 16 witness seq(16, i => 0)

  /** Three-way comparison of equally long byte strings, first differing byte decides. */
  function Compare(a: seq<byte>, b: seq<byte>): (r: int)
    requires |a| == |b|
    ensures -1 <= r <= 1
  {
    if a == [] then 0
    else if a[0] < b[0] then -1
    else if a[0] > b[0] then 1
    else Compare(a[1..], b[1..])
  }

  lemma {:induction false} CompareZeroIffEqual(a: seq<byte>, b: seq<byte>)
    requires |a| == |b|
    ensures Compare(a, b) == 0 <==> a == b
  {
    if a != [] {
      CompareZeroIffEqual(a[1..], b[1..]);
      assert a == [a[0]] + a[1..];
      assert b == [b[0]] + b[1..];
    }
  }

  /**
   `UuidCompare`: 0 when the two GUIDs are equal, -1 or 1 otherwise. For two
   valid GUID pointers the status it reports is always `RPC_S_OK`.
   */
  function UuidCompare(a: Guid, b: Guid): (r: int)
    ensures -1 <= r <= 1
    ensures r == 0 <==> a == b
  {
    CompareZeroIffEqual(a, b);
    Compare(a, b)
  }
}
