/** PKCS#7 padding to the 16-byte AES block, as `pad(data, AES.block_size)`
    and `unpad(data, AES.block_size)` (style 'pkcs7') compute it. */
module Pkcs7 {
  import opened Common

  const BlockSize: nat := 16

  /** `pad(data, 16)`: append n copies of the byte n, where n = 16 - len % 16
      (a whole block of 16s when the length is already a multiple of 16). */
  function Pad(data: seq<byte>): (r: seq<byte>)
  {
    var n := BlockSize - |data| % BlockSize;
    data + seq(n, _ => n)
  }

  /** `unpad(p, 16)`: refuse an empty input, a length that is not a multiple
      of 16, a last byte n outside 1..min(16, len), or a tail that is not n
      copies of n; otherwise drop the last n bytes. A refusal (a ValueError
      in the library) is None. */
  function Unpad(p: seq<byte>): (r: Option<seq<byte>>)
  {
    if |p| == 0 || |p| % BlockSize != 0 then None
    else
      var n := p[|p| - 1];
      if n < 1 || n > Min(BlockSize, |p|) then None
      else if p[|p| - n..] != seq(n, _ => n) then None
      else Some(p[..|p| - n])
  }

  /** The padded length is the next multiple of 16 strictly above the data
      length, and the data survives as a prefix. */
  lemma PadShape(data: seq<byte>)
    ensures |Pad(data)| == BlockSize * (|data| / BlockSize + 1)
    ensures |Pad(data)| % BlockSize == 0 && |data| < |Pad(data)| <= |data| + BlockSize
    ensures Pad(data)[..|data|] == data
  {
  }

  /** Unpadding inverts padding: `unpad(pad(d)) == d`. */
  lemma UnpadPad(data: seq<byte>)
    ensures Unpad(Pad(data)) == Some(data)
  {
    var p := Pad(data);
    var n := BlockSize - |data| % BlockSize;
    assert p[|p| - 1] == n;
    assert p[|p| - n..] == seq(n, _ => n);
    assert p[..|p| - n] == data;
  }

  /** Only a padded string unpads: whatever `unpad` accepts is `pad` of
      what it returns. */
  lemma PadUnpad(p: seq<byte>, data: seq<byte>)
    requires Unpad(p) == Some(data)
    ensures Pad(data) == p
  {
    var n := p[|p| - 1];
    assert |data| == |p| - n;
    assert |data| % BlockSize == BlockSize - n by {
      assert |p| == BlockSize * (|p| / BlockSize);
    }
    assert p == data + p[|p| - n..];
  }

  /** The two directions together: `unpad(p) == d` exactly when `p == pad(d)`. */
  lemma UnpadIff(p: seq<byte>, data: seq<byte>)
    ensures Unpad(p) == Some(data) <==> Pad(data) == p
  {
    if Unpad(p) == Some(data) {
      PadUnpad(p, data);
    }
    if Pad(data) == p {
      UnpadPad(data);
    }
  }
}
