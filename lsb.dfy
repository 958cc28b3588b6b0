/** The LSB pixel codec: `can_hide_data`, `hide_data_in_image` and
    `extract_data_from_image`. The carrier is an H×W×3 grid of channel bytes;
    one payload bit goes into the least significant bit of each channel, in
    row-major pixel order and R, G, B channel order. */
module Lsb {
  import opened Common
  import opened BitCodec

  /** `(p & 254) | b`: the channel with its least significant bit replaced. */
  function SetLsb(p: byte, b: bit): (r: byte)
    ensures r % 2 == b && r / 2 == p / 2
  {
    p - p % 2 + b
  }

  /** `(width * height * 3) // 8`: whole bytes the grid can carry. */
  function MaxBytes(width: nat, height: nat): nat
  {
    (width * height * 3) / 8
  }

  /** `can_hide_data(image, size)`: room for `size` bytes and the 4-byte
      length field, i.e. the length field and the payload fit bit for bit. */
  function CanHide(width: nat, height: nat, size: nat): (r: bool)
    ensures r <==> 8 * (size + 4) <= 3 * (width * height)
  {
    MaxBytes(width, height) >= size + 4
  }

  /** The bits `hide_data_in_image` writes: the 4-byte big-endian length,
      then the data, least significant bit first, zero-padded to a
      multiple of 3. */
  function PayloadBits(data: seq<byte>): seq<bit>
    requires |data| < Two32
  {
    PadToTriple(BytesToBits(Be32(|data|) + data))
  }

  /** Pixels the embedder visits for a payload of n bytes: ⌈8·(n+4)/3⌉. */
  function PixelsTouched(n: nat): nat
  {
    (8 * (n + 4) + 2) / 3
  }

  /** The bits written fill exactly the first PixelsTouched pixels. */
  lemma PayloadBitsLength(data: seq<byte>)
    requires |data| < Two32
    ensures |PayloadBits(data)| == 3 * PixelsTouched(|data|)
    ensures 8 * (|data| + 4) <= |PayloadBits(data)| < 8 * (|data| + 4) + 3
  {
    assert |Be32(|data|) + data| == |data| + 4;
  }

  /** The least significant bit of every channel, in scan order. */
  function Lsbs(c: seq<byte>): (r: seq<bit>)
    ensures |r| == |c|
  {
    seq(|c|, t requires 0 <= t < |c| => c[t] % 2)
  }

  /** What the embedding loop leaves in channel t of the scan. */
  function Rewritten(was: byte, bits: seq<bit>, t: nat, visited: bool): byte
  {
    if visited && t < |bits| then SetLsb(was, bits[t]) else was
  }

  /** The channels after bit t of `bits` went into channel t, for every t
      the channels reach. */
  function Embedded(c: seq<byte>, bits: seq<bit>): (r: seq<byte>)
    ensures |r| == |c|
  {
    seq(|c|, t requires 0 <= t < |c| => Rewritten(c[t], bits, t, true))
  }

  /** The length the extractor reads: the first 32 bits (fewer if the grid
      is smaller, the missing ones read as 0), folded LSB-first into four
      bytes, read big-endian. */
  function DeclaredSize(stream: seq<bit>): nat
  {
    BeValue(BitsToBytes(ZeroExtend(stream[..Min(32, |stream|)], 32)))
  }

  /** What `extract_data_from_image` returns for a scan `stream` of channel
      bits: `extracted_bits[32:32 + 8 * size]` folded into whole bytes. */
  function ExtractedFrom(stream: seq<bit>): seq<byte>
  {
    BitsToBytes(Slice(stream, 32, 32 + 8 * DeclaredSize(stream)))
  }

  /** Round trip: extracting from channels into which a payload was embedded
      gives the payload back, whenever the channels hold the length field
      and the payload (`can_hide_data(len(data))`). */
  lemma EmbedRoundTrip(c: seq<byte>, data: seq<byte>)
    requires |data| < Two32
    requires 8 * (|data| + 4) <= |c|
    ensures ExtractedFrom(Lsbs(Embedded(c, PayloadBits(data)))) == data
  {
    var n := |data|;
    var bits := PayloadBits(data);
    var s := Lsbs(Embedded(c, bits));
    BytesToBitsAppend(Be32(n), data);
    assert bits[..8 * (n + 4)] == BytesToBits(Be32(n)) + BytesToBits(data);
    EmbeddedLsbs(c, bits, 8 * (n + 4));
    assert s[..8 * (n + 4)] == bits[..8 * (n + 4)];
    ExtractFramed(s, data);
  }

  /** Within the bits written, the low bit of each channel is the bit
      written into it. */
  lemma EmbeddedLsbs(c: seq<byte>, bits: seq<bit>, m: nat)
    requires m <= |bits| && m <= |c|
    ensures Lsbs(Embedded(c, bits))[..m] == bits[..m]
  {
  }

  /** A scan that starts with the bits of a length field and of the data
      it announces extracts to that data. */
  lemma ExtractFramed(s: seq<bit>, data: seq<byte>)
    requires |data| < Two32 && 8 * (|data| + 4) <= |s|
    requires s[..8 * (|data| + 4)] == BytesToBits(Be32(|data|)) + BytesToBits(data)
    ensures ExtractedFrom(s) == data
  {
    var n := |data|;
    var head, body := BytesToBits(Be32(n)), BytesToBits(data);
    assert s[..32] == head by {
      assert s[..32] == s[..8 * (n + 4)][..32];
    }
    assert ZeroExtend(s[..Min(32, |s|)], 32) == head;
    BytesRoundTrip(Be32(n));
    BeValueOfBe32(n);
    assert DeclaredSize(s) == n;
    assert Slice(s, 32, 32 + 8 * n) == body by {
      assert s[32..32 + 8 * n] == s[..8 * (n + 4)][32..];
    }
    BytesRoundTrip(data);
  }

  /** Frame: embedding keeps the upper seven bits of every channel, and
      leaves every channel past the pixels it visits as it was. */
  lemma EmbedFrame(c: seq<byte>, data: seq<byte>, t: nat)
    requires |data| < Two32 && t < |c|
    ensures Embedded(c, PayloadBits(data))[t] / 2 == c[t] / 2
    ensures t >= 3 * PixelsTouched(|data|) ==> Embedded(c, PayloadBits(data))[t] == c[t]
  {
    PayloadBitsLength(data);
  }

  /** Truncation: when the declared length asks for more bits than the grid
      holds, only the whole bytes that were collected come back; a declared
      length of 0 gives nothing; a fully present payload comes back at its
      declared length, which is always below 2^32. */
  lemma ExtractedLength(stream: seq<bit>)
    ensures |ExtractedFrom(stream)| <= DeclaredSize(stream)
    ensures |stream| >= 32 ==> |ExtractedFrom(stream)| <= (|stream| - 32) / 8
    ensures |stream| <= 32 || DeclaredSize(stream) == 0 ==> ExtractedFrom(stream) == []
    ensures 32 + 8 * DeclaredSize(stream) <= |stream| ==> |ExtractedFrom(stream)| == DeclaredSize(stream)
    ensures 32 <= |stream| < 32 + 8 * DeclaredSize(stream) ==> ExtractedFrom(stream) == BitsToBytes(stream[32..])
    ensures DeclaredSize(stream) < Two32
  {
    BeValue4Bound(BitsToBytes(ZeroExtend(stream[..Min(32, |stream|)], 32)));
  }

  /** The first 32 bits of the head scan are the first 32 of the stream. */
  lemma HeadPrefix(stream: seq<bit>, head: seq<bit>)
    requires head == stream[..Min(33, |stream|)]
    ensures head[..Min(32, |head|)] == stream[..Min(32, |stream|)]
  {
  }

  /** Channel t of the scan sits at row `(t // 3) // W`, column
      `(t // 3) % W`, channel `t % 3`, whose flat position in the
      row-start form is t again. */
  lemma ScanPosition(t: nat, height: nat, width: nat)
    requires t < 3 * (height * width)
    ensures width > 0 && (t / 3) / width < height && (t / 3) % width < width
    ensures 3 * (RowStart((t / 3) / width, width) + (t / 3) % width) + t % 3 == t
  {
    ChannelOfScan(t, height, width);
    var i, j := (t / 3) / width, (t / 3) % width;
    var flat := i * width;
    assert 3 * (flat + j) + t % 3 == t;
    RowStartIsProduct(i, width);
  }

  /** Expand `full_data` into bits and pad them, as the loops at the head of
      `hide_data_in_image` do. */
  method ExpandBits(full: seq<byte>) returns (bits: seq<bit>)
    ensures bits == PadToTriple(BytesToBits(full))
  {
    bits := [];
    var n := 0;
    while n < |full|
      invariant 0 <= n <= |full|
      invariant bits == BytesToBits(full[..n])
    {
      var b := full[n];
      var i := 0;
      while i < 8
        invariant 0 <= i <= 8
        invariant bits == BytesToBits(full[..n]) + LowBits(b, i)
      {
        assert LowBits(b, i + 1) == LowBits(b, i) + [BitOf(b, i)];
        bits := bits + [(Shr(b, i)) % 2];
        i := i + 1;
      }
      assert full[..n + 1] == full[..n] + [b];
      BytesToBitsAppend(full[..n], [b]);
      assert BytesToBits([b]) == LowBits(b, 8);
      n := n + 1;
    }
    assert full[..n] == full;
    ghost var whole := bits;
    while |bits| % 3 != 0
      invariant |whole| <= |bits| <= |whole| + 2
      invariant bits == whole + seq(|bits| - |whole|, _ => 0)
      invariant |bits| % 3 != 0 ==> |bits| + (3 - |bits| % 3) % 3 == |whole| + (3 - |whole| % 3) % 3
      decreases |whole| + 2 - |bits|
    {
      bits := bits + [0];
    }
  }

  /** The decoded carrier: an H×W×3 grid of channel bytes, as
      `np.array(img)` holds it after `img.convert('RGB')`. */
  class Carrier {
    const pixels: array3<byte>

    constructor (grid: array3<byte>)
      requires grid.Length2 == 3
      ensures pixels == grid && Valid()
    {
      pixels := grid;
    }

    /** Three channels per pixel. */
    predicate Valid()
    {
      pixels.Length2 == 3
    }

    function Height(): nat { pixels.Length0 }

    function Width(): nat { pixels.Length1 }

    /** Channel k of pixel number p in row-major order: `pixels[p // W, p % W, k]`. */
    function PixelChannel(p: nat, k: nat): byte
      requires Valid() && p < Height() * Width() && k < 3
      reads pixels
    {
      RowInGrid(p, Height(), Width());
      pixels[p / Width(), p % Width(), k]
    }

    /** Every channel in scan order: rows top to bottom, pixels left to
        right, then R, G, B. */
    function Channels(): (c: seq<byte>)
      requires Valid()
      reads pixels
      ensures |c| == 3 * (Height() * Width())
    {
      var n := Height() * Width();
      seq(3 * n, t requires 0 <= t < 3 * n reads pixels => PixelChannel(t / 3, t % 3))
    }

    /** The least significant bit of every channel, in scan order: the bit
        stream the extractor reads. */
    function Scan(): (s: seq<bit>)
      requires Valid()
      reads pixels
      ensures |s| == 3 * (Height() * Width())
    {
      Lsbs(Channels())
    }

    /** Channel k of pixel (i, j) is channel 3·(i·W + j) + k of the scan. */
    lemma ChannelAt(i: nat, j: nat, k: nat)
      requires Valid() && i < Height() && j < Width() && k < 3
      ensures 3 * (RowStart(i, Width()) + j) + k < |Channels()|
      ensures Channels()[3 * (RowStart(i, Width()) + j) + k] == pixels[i, j, k]
      ensures Scan()[3 * (RowStart(i, Width()) + j) + k] == pixels[i, j, k] % 2
    {
      RowStartIsProduct(i, Width());
      FlatPixel(i, j, Height(), Width());
    }

    /** Bit t of the scan is the low bit of channel `t % 3` of pixel
        `t // 3`, at row `// W` and column `% W`. */
    lemma ScanAt(t: nat)
      requires Valid() && t < |Scan()|
      ensures Width() > 0 && (t / 3) / Width() < Height() && (t / 3) % Width() < Width()
      ensures Scan()[t] == pixels[(t / 3) / Width(), (t / 3) % Width(), t % 3] % 2
    {
      RowInGrid(t / 3, Height(), Width());
    }

    /** `can_hide_data` for this image. */
    function CanHideData(size: nat): (r: bool)
      ensures r <==> 8 * (size + 4) <= 3 * (Height() * Width())
    {
      CanHide(Width(), Height(), size)
    }

    /** `hide_data_in_image` without the file I/O: prefix the length, check
        the capacity of the prefixed payload (so the room asked for is
        `len(data) + 8` bytes), and write the bits into the channels in
        place, stopping once they are used up. */
    method HideData(data: seq<byte>) returns (ok: bool)
      requires Valid()
      modifies pixels
      ensures ok <==> |data| < Two32 && CanHideData(|data| + 4)
      ensures !ok ==> unchanged(pixels)
      ensures ok ==> Channels() == Embedded(old(Channels()), PayloadBits(data))
      ensures forall i, j, k | 0 <= i < Height() && 0 <= j < Width() && 0 <= k < 3 ::
        pixels[i, j, k] / 2 == old(pixels[i, j, k]) / 2 &&
        (ok && i * Width() + j >= PixelsTouched(|data|) ==> pixels[i, j, k] == old(pixels[i, j, k]))
    {
      if |data| >= Two32 {
        // len(data).to_bytes(4, 'big') raises; the catch-all returns False
        return false;
      }
      var full := Be32(|data|) + data;
      if !CanHideData(|full|) {
        return false;
      }
      var bits := ExpandBits(full);
      assert bits == PayloadBits(data);
      PayloadBitsLength(data);
      WriteBits(bits);
      EmbeddedChannels(bits);
      forall i, j, k | 0 <= i < Height() && 0 <= j < Width() && 0 <= k < 3
        ensures pixels[i, j, k] / 2 == old(pixels[i, j, k]) / 2
        ensures i * Width() + j >= PixelsTouched(|data|) ==> pixels[i, j, k] == old(pixels[i, j, k])
      {
        RowStartIsProduct(i, Width());
      }
      ok := true;
    }

    /** Rewriting every channel by its scan position is, in scan order, the
        embedding of `bits` into the old channels. */
    twostate lemma EmbeddedChannels(bits: seq<bit>)
      requires Valid()
      requires forall i, j, k | 0 <= i < Height() && 0 <= j < Width() && 0 <= k < 3 ::
        pixels[i, j, k] == Rewritten(old(pixels[i, j, k]), bits, 3 * (RowStart(i, Width()) + j) + k, true)
      ensures Channels() == Embedded(old(Channels()), bits)
    {
      forall t | 0 <= t < |Channels()|
        ensures Channels()[t] == Rewritten(old(Channels())[t], bits, t, true)
      {
        ScanPosition(t, Height(), Width());
      }
    }

    /** The embedding loop of `hide_data_in_image`: walk the rows top to
        bottom and write three bits into each pixel until the bits run out. */
    method WriteBits(bits: seq<bit>)
      requires Valid() && |bits| % 3 == 0 && |bits| > 0
      modifies pixels
      ensures forall i, j, k | 0 <= i < Height() && 0 <= j < Width() && 0 <= k < 3 ::
        pixels[i, j, k] == Rewritten(old(pixels[i, j, k]), bits, 3 * (RowStart(i, Width()) + j) + k, true)
    {
      var height, width := Height(), Width();
      var idx := 0;
      var i := 0;
      while i < height
        invariant 0 <= i <= height
        invariant idx == 3 * RowStart(i, width) && idx < |bits|
        invariant forall i', j', k' | 0 <= i' < height && 0 <= j' < width && 0 <= k' < 3 ::
          pixels[i', j', k'] == Rewritten(old(pixels[i', j', k']), bits, 3 * (RowStart(i', width) + j') + k',
                                          3 * (RowStart(i', width) + j') + k' < idx)
      {
        idx := WriteRow(bits, i, idx);
        if idx >= |bits| {
          break;
        }
        i := i + 1;
      }
      forall i', j', k' | 0 <= i' < height && 0 <= j' < width && 0 <= k' < 3
        ensures pixels[i', j', k'] == Rewritten(old(pixels[i', j', k']), bits, 3 * (RowStart(i', width) + j') + k', true)
      {
        if i == height {
          // the walk went through the whole grid
          RowStartMonotone(i', height, width);
        }
      }
    }

    /** One row of the embedding loop: pixels left to right, three bits
        each, stopping at the first pixel once the bits are used up. The
        channels written are those at scan positions `idx0 .. idx`. */
    method WriteRow(bits: seq<bit>, i: nat, idx0: nat) returns (idx: nat)
      requires Valid() && |bits| % 3 == 0 && i < Height()
      requires idx0 == 3 * RowStart(i, Width()) < |bits|
      modifies pixels
      ensures idx0 <= idx <= 3 * (RowStart(i, Width()) + Width())
      ensures idx == 3 * (RowStart(i, Width()) + Width()) || idx >= |bits|
      ensures forall i', j', k' | 0 <= i' < Height() && 0 <= j' < Width() && 0 <= k' < 3 ::
        pixels[i', j', k'] == Rewritten(old(pixels[i', j', k']), bits, 3 * (RowStart(i', Width()) + j') + k',
                                        idx0 <= 3 * (RowStart(i', Width()) + j') + k' < idx)
    {
      var width := Width();
      idx := idx0;
      var j := 0;
      while j < width
        invariant 0 <= j <= width
        invariant idx == 3 * (RowStart(i, width) + j) && idx <= |bits|
        invariant forall i', j', k' | 0 <= i' < Height() && 0 <= j' < width && 0 <= k' < 3 ::
          pixels[i', j', k'] == Rewritten(old(pixels[i', j', k']), bits, 3 * (RowStart(i', width) + j') + k',
                                          idx0 <= 3 * (RowStart(i', width) + j') + k' < idx)
      {
        if idx < |bits| {
          WritePixel(bits, i, j, idx);
          idx := idx + 3;
        } else {
          break;
        }
        j := j + 1;
      }
    }

    /** One pixel of the embedding loop: `min(3, len(bits) - idx)` channels
        get their least significant bit replaced; they are the channels at
        scan positions `idx .. idx + 3`. */
    method WritePixel(bits: seq<bit>, i: nat, j: nat, idx: nat)
      requires Valid() && |bits| % 3 == 0 && i < Height() && j < Width()
      requires idx == 3 * (RowStart(i, Width()) + j) < |bits|
      modifies pixels
      ensures forall i', j', k' | 0 <= i' < Height() && 0 <= j' < Width() && 0 <= k' < 3 ::
        pixels[i', j', k'] == Rewritten(old(pixels[i', j', k']), bits, 3 * (RowStart(i', Width()) + j') + k',
                                        idx <= 3 * (RowStart(i', Width()) + j') + k' < idx + 3)
    {
      var count := Min(3, |bits| - idx);
      assert count == 3;
      var k := 0;
      while k < count
        invariant 0 <= k <= 3
        invariant forall i', j', k' | 0 <= i' < Height() && 0 <= j' < Width() && 0 <= k' < 3 ::
          pixels[i', j', k'] == Rewritten(old(pixels[i', j', k']), bits, 3 * (RowStart(i', Width()) + j') + k',
                                          i' == i && j' == j && k' < k)
      {
        pixels[i, j, k] := SetLsb(pixels[i, j, k], bits[idx + k]);
        k := k + 1;
      }
      forall i', j', k' | 0 <= i' < Height() && 0 <= j' < Width() && 0 <= k' < 3
        ensures pixels[i', j', k'] == Rewritten(old(pixels[i', j', k']), bits, 3 * (RowStart(i', Width()) + j') + k',
                                                idx <= 3 * (RowStart(i', Width()) + j') + k' < idx + 3)
      {
        if RowStart(i', Width()) + j' == RowStart(i, Width()) + j {
          FlatUnique(i, j, i', j', Width());
        }
      }
    }

    /** `extract_data_from_image` without the file I/O: collect channel LSBs
        until the 32 length bits are in, fold the length, collect up to
        `32 + 8·size` bits, and fold whole bytes. An exception inside is
        caught and yields the empty string. */
    method ExtractData() returns (data: seq<byte>)
      requires Valid()
      ensures data == ExtractedFrom(Scan())
    {
      ghost var stream := Scan();
      var extracted := ScanLengthBits();
      HeadPrefix(stream, extracted);
      var size := ReadLength(extracted[..Min(32, |extracted|)]);
      var total := 32 + size * 8;
      var rest := ScanPayloadBits(extracted, total);
      if rest.Err? {
        // the catch-all prints the error and returns b''
        assert |stream| == 0;
        return [];
      }
      data := AssembleBytes(Slice(rest.value, 32, total));
    }

    /** The first scan of `extract_data_from_image`: whole pixels, row by
        row, until at least 32 bits are in (so 33 on a grid that large). */
    method ScanLengthBits() returns (extracted: seq<bit>)
      requires Valid()
      ensures extracted == Scan()[..Min(33, |Scan()|)]
    {
      var height := Height();
      extracted := [];
      var i := 0;
      while i < height
        invariant 0 <= i <= height
        invariant |extracted| == 3 * RowStart(i, Width()) < 32
        invariant |extracted| <= |Scan()| && extracted == Scan()[..|extracted|]
      {
        extracted := ScanHeadRow(extracted, i);
        if |extracted| >= 32 {
          break;
        }
        i := i + 1;
      }
      if i == height {
        RowStartIsProduct(height, Width());
      }
    }

    /** One row of the first scan: whole pixels left to right, stopping
        after the pixel that brings the count to 32 or more (to 33). */
    method ScanHeadRow(extracted: seq<bit>, i: nat) returns (r: seq<bit>)
      requires Valid() && i < Height()
      requires |extracted| == 3 * RowStart(i, Width()) < 32
      requires |extracted| <= |Scan()| && extracted == Scan()[..|extracted|]
      ensures |r| <= |Scan()| && r == Scan()[..|r|]
      ensures |r| >= 32 ==> |r| == 33
      ensures |r| < 32 ==> |r| == 3 * RowStart(i + 1, Width())
    {
      var width := Width();
      r := extracted;
      var j := 0;
      while j < width
        invariant 0 <= j <= width
        invariant |r| == 3 * (RowStart(i, width) + j) < 32
        invariant |r| <= |Scan()| && r == Scan()[..|r|]
      {
        ChannelAt(i, j, 0);
        r := ReadWholePixel(r, i, j);
        if |r| >= 32 {
          return;
        }
        j := j + 1;
      }
    }

    /** The second scan of `extract_data_from_image`: resume at pixel
        `len(extracted_bits) // 3`, row `// W`, column `% W`, and take bits
        until `total` are in or the rows run out. On a grid of width 0 the
        division raises ZeroDivisionError. */
    method ScanPayloadBits(head: seq<bit>, total: nat) returns (r: Result<seq<bit>>)
      requires Valid() && 32 <= total
      requires head == Scan()[..Min(33, |Scan()|)]
      ensures r.Err? <==> Width() == 0
      ensures r.Ok? ==> Slice(r.value, 32, total) == Slice(Scan(), 32, total)
    {
      var height, width := Height(), Width();
      if width == 0 {
        // the head scan found no pixel, so the loop runs and divides by 0
        return Err("integer division or modulo by zero");
      }
      ghost var stream := Scan();
      var extracted := head;
      while |extracted| < total
        invariant |extracted| <= |stream| && extracted == stream[..|extracted|]
        invariant |extracted| < total ==> |extracted| % 3 == 0
        decreases total - |extracted|
      {
        var p := |extracted| / 3;
        var row, col := p / width, p % width;
        ScanIndexInGrid(|extracted|, height, width);
        if row >= height {
          assert extracted == stream;
          break;
        }
        extracted := ReadPixel(extracted, row, col, total);
      }
      SliceOfPrefix(extracted, Scan(), 32, total);
      r := Ok(extracted);
    }

    /** One pixel of the first scan: all three channels, R, G, B. */
    method ReadWholePixel(extracted: seq<bit>, i: nat, j: nat) returns (r: seq<bit>)
      requires Valid() && i < Height() && j < Width()
      requires |extracted| == 3 * (RowStart(i, Width()) + j) < |Scan()|
      requires extracted == Scan()[..|extracted|]
      ensures |r| == |extracted| + 3 && r == Scan()[..|r|]
    {
      r := extracted;
      var k := 0;
      while k < 3
        invariant 0 <= k <= 3
        invariant |r| == |extracted| + k && r == Scan()[..|r|]
      {
        ChannelAt(i, j, k);
        r := r + [pixels[i, j, k] % 2];
        k := k + 1;
      }
    }

    /** One pixel of the second scan: its channels in R, G, B order, each
        taken only while fewer than `total` bits are in. */
    method ReadPixel(extracted: seq<bit>, row: nat, col: nat, total: nat) returns (r: seq<bit>)
      requires Valid() && |extracted| % 3 == 0 && |extracted| < total
      requires |extracted| < |Scan()| && extracted == Scan()[..|extracted|]
      requires Width() > 0 && row == (|extracted| / 3) / Width() && col == (|extracted| / 3) % Width()
      ensures |r| == Min(total, |extracted| + 3) && r == Scan()[..|r|]
    {
      r := extracted;
      var k := 0;
      while k < 3
        invariant 0 <= k <= 3
        invariant |r| == Min(total, |extracted| + k) && r == Scan()[..|r|]
      {
        if |r| < total {
          assert |r| == |extracted| + k && |r| / 3 == |extracted| / 3 && |r| % 3 == k;
          ScanAt(|r|);
          r := r + [pixels[row, col, k] % 2];
        }
        k := k + 1;
      }
    }
  }

  /** The size field of `extract_data_from_image`: four bytes folded from
      the first 32 bits (a missing bit reads as 0), read big-endian. */
  method ReadLength(sizeBits: seq<bit>) returns (size: nat)
    requires |sizeBits| <= 32
    ensures size == BeValue(BitsToBytes(ZeroExtend(sizeBits, 32)))
  {
    ghost var z := ZeroExtend(sizeBits, 32);
    var sizeBytes: seq<byte> := [];
    var b := 0;
    while b < 32
      invariant 0 <= b <= 32 && b % 8 == 0
      invariant sizeBytes == BitsToBytes(z)[..b / 8]
    {
      var byte := FoldSizeByte(sizeBits, b);
      sizeBytes := sizeBytes + [byte];
      b := b + 8;
    }
    assert sizeBytes == BitsToBytes(z);
    size := BeValue(sizeBytes);
  }

  /** The last loop of `extract_data_from_image`: fold every complete group
      of eight bits into a byte, skipping a short tail. */
  method AssembleBytes(bits: seq<bit>) returns (bytes: seq<byte>)
    ensures bytes == BitsToBytes(bits)
  {
    bytes := [];
    var b := 0;
    while b < |bits|
      invariant b % 8 == 0 && b >= 0
      invariant bytes == BitsToBytes(bits)[..Min(b, |bits|) / 8]
    {
      if b + 8 <= |bits| {
        var byte := FoldByte(bits, b);
        bytes := bytes + [byte];
      }
      b := b + 8;
    }
    assert bytes == BitsToBytes(bits)[..|bits| / 8];
  }
}
