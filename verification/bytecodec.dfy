/**
 * Fixed-length big-endian encoding of naturals: the usual reading of the
 * SRP helpers `padToN` (left-pad the magnitude bytes to the byte length of
 * N) and `intFromBytes` (`big.Int.SetBytes`). Those helpers are not part of
 * this model; this module gives one concrete codec with which the SRP
 * server's round-trip assumption is discharged.
 */
module ByteCodec {
  import opened ModArith

  type Byte = b: int | 0 <= b < 256

  /** Value of a big-endian byte string. */
  function IntFromBytes(bs: seq<Byte>): (r: nat)
    ensures r < Pow(256, |bs|)
  {
    if bs == [] then 0
    else
      var init := bs[..|bs| - 1];
      var r0 := IntFromBytes(init);
      assert Pow(256, |bs|) == 256 * Pow(256, |init|);
      r0 * 256 + bs[|bs| - 1]
  }

  /** The low `len` bytes of x, most significant first. */
  function PadTo(x: nat, len: nat): (r: seq<Byte>)
    ensures |r| == len
  {
    if len == 0 then [] else PadTo(x / 256, len - 1) + [x % 256]
  }

  /** Decoding a padded encoding gives back every value that fits. */
  lemma {:induction false} IntFromPadTo(x: nat, len: nat)
    requires x < Pow(256, len)
    ensures IntFromBytes(PadTo(x, len)) == x
  {
    if len > 0 {
      var q := x / 256;
      assert x == q * 256 + x % 256;
      assert q < Pow(256, len - 1);
      IntFromPadTo(q, len - 1);
      var bs := PadTo(x, len);
      assert bs[..|bs| - 1] == PadTo(q, len - 1);
    }
  }
}
