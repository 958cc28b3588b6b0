/** Shared vocabulary of the InvisioVault model: bytes and bits, results
    carrying Python's exception text, clamped slicing, big-endian integers,
    decimal text and the grid-index arithmetic the pixel walk relies on. */
module Common {

  /** One 8-bit value (a Python `bytes` element or a numpy uint8 channel). */
  type byte = x: int | 0 <= x < 256

  /** One bit, as `(byte >> i) & 1` or `channel & 1` produces it. */
  type bit = x: int | 0 <= x < 2

  datatype Option<+T> = None | Some(value: T)

  /** A value or the text of the exception the source raises (`str(e)`). */
  datatype Result<+T> = Ok(value: T) | Err(message: string)

  /** 2^32: `int.to_bytes(4, 'big')` raises OverflowError from here on. */
  const Two32: nat := 0x1_0000_0000

  const OverflowMessage: string := "int too big to convert"

  function Min(a: int, b: int): int
  {
    if a <= b then a else b
  }

  function Pow2(k: nat): (r: nat)
    ensures r >= 1
  {
    if k == 0 then 1 else 2 * Pow2(k - 1)
  }

  /** `s.startswith(prefix)` */
  predicate StartsWith<T(==)>(s: seq<T>, prefix: seq<T>)
  {
    |prefix| <= |s| && s[..|prefix|] == prefix
  }

  /** Python's `s[a:b]` for non-negative bounds: both ends are clamped to
      `len(s)`, and the slice is empty when the clamped end is not past the
      clamped start. */
  function Slice<T>(s: seq<T>, a: nat, b: nat): seq<T>
  {
    if b <= a || |s| <= a then [] else if b <= |s| then s[a..b] else s[a..]
  }

  /** A prefix of `s` that reaches `hi`, or is all of `s`, slices like `s`. */
  lemma SliceOfPrefix<T>(a: seq<T>, s: seq<T>, lo: nat, hi: nat)
    requires |a| <= |s| && a == s[..|a|]
    requires hi <= |a| || a == s
    ensures Slice(a, lo, hi) == Slice(s, lo, hi)
  {
  }

  /** `n.to_bytes(4, byteorder='big')` for an `n` that fits. */
  function Be32(n: nat): (r: seq<byte>)
    requires n < Two32
    ensures |r| == 4
  {
    var q1 := n / 256;
    var q2 := q1 / 256;
    [q2 / 256, q2 % 256, q1 % 256, n % 256]
  }

  /** `int.from_bytes(s, byteorder='big')`, for a slice of any length
      (the source applies it to slices that may be shorter than 4). */
  function BeValue(s: seq<byte>): nat
  {
    if |s| == 0 then 0 else BeValue(s[..|s| - 1]) * 256 + s[|s| - 1]
  }

  /** `n.to_bytes(4, 'big')` with its OverflowError as an error result. */
  function ToBytes4(n: nat): (r: Result<seq<byte>>)
    ensures r.Ok? <==> n < Two32
    ensures r.Ok? ==> |r.value| == 4 && BeValue(r.value) == n
    ensures r.Err? ==> r.message == OverflowMessage
  {
    if n < Two32 then BeValueOfBe32(n); Ok(Be32(n)) else Err(OverflowMessage)
  }

  /** Reading back the four big-endian bytes gives the number that was written. */
  lemma BeValueOfBe32(n: nat)
    requires n < Two32
    ensures BeValue(Be32(n)) == n
  {
    var s := Be32(n);
    var q1 := n / 256;
    var q2 := q1 / 256;
    assert s[..1][..0] == [] && s[..2][..1] == s[..1] && s[..3][..2] == s[..2] && s[..4][..3] == s[..3];
    assert BeValue(s[..1]) == q2 / 256;
    assert BeValue(s[..2]) == q2;
    assert BeValue(s[..3]) == q1;
    assert s[..4] == s;
  }

  /** The big-endian value of k bytes is below 2^(8k). */
  lemma BeValueBound(s: seq<byte>)
    ensures BeValue(s) < Pow2(8 * |s|)
  {
    if |s| > 0 {
      var v, p := BeValue(s[..|s| - 1]), Pow2(8 * (|s| - 1));
      BeValueBound(s[..|s| - 1]);
      MulLe(v + 1, p, 256);
      Pow2Add(8 * (|s| - 1), 8);
      assert Pow2(8) == 256;
      assert Pow2(8 * |s|) == p * 256;
    }
  }

  lemma {:induction false} Pow2Add(a: nat, b: nat)
    ensures Pow2(a + b) == Pow2(a) * Pow2(b)
  {
    if b > 0 {
      Pow2Add(a, b - 1);
      assert Pow2(a + b) == 2 * Pow2(a + b - 1);
    }
  }

  /** What `int.from_bytes` reads from at most four bytes, as the count
      and the sizes the extractor reads from slices that may be short, is
      below 2^32. */
  lemma BeValue4Bound(s: seq<byte>)
    requires |s| <= 4
    ensures BeValue(s) < Two32
  {
    var k := 8 * |s|;
    BeValueBound(s);
    Pow2Add(k, 32 - k);
    MulLe(1, Pow2(32 - k), Pow2(k));
    Pow2Add(8, 8);
    Pow2Add(16, 16);
    assert Pow2(8) == 256;
  }

  /** `str(n)` for a non-negative integer: decimal digits, no leading zero. */
  function Dec(n: nat): (r: string)
    ensures |r| >= 1
    decreases n
  {
    if n < 10 then [DigitChar(n)] else Dec(n / 10) + [DigitChar(n % 10)]
  }

  function DigitChar(d: nat): char
    requires d < 10
  {
    ('0' as int + d) as char
  }

  /** Different numbers print differently: the `_<counter>` names the
      extractor tries are pairwise distinct. */
  lemma {:induction false} DecInjective(a: nat, b: nat)
    requires Dec(a) == Dec(b)
    ensures a == b
    decreases a
  {
    if a < 10 && b < 10 {
      assert Dec(a)[0] == Dec(b)[0];
    } else if a >= 10 && b >= 10 {
      var da, db := Dec(a), Dec(b);
      assert da[|da| - 1] == db[|db| - 1];
      assert a % 10 == b % 10;
      assert da[..|da| - 1] == Dec(a / 10);
      assert db[..|db| - 1] == Dec(b / 10);
      DecInjective(a / 10, b / 10);
    }
  }

  /** `"\n".join(lines)` */
  function JoinLines(lines: seq<string>): (r: string)
  {
    if |lines| == 0 then ""
    else if |lines| == 1 then lines[0]
    else JoinLines(lines[..|lines| - 1]) + "\n" + lines[|lines| - 1]
  }

  // Row-major grid arithmetic: pixel (i, j) of a grid W pixels wide is pixel
  // number i * W + j; the extractor inverts that with `// W` and `% W`.

  lemma MulLe(a: nat, b: nat, c: nat)
    requires a <= b
    ensures a * c <= b * c
  {
    assert b * c == a * c + (b - a) * c;
  }

  /** A pixel in an earlier row comes earlier in row-major order. */
  lemma RowBefore(i: nat, j: nat, i2: nat, j2: nat, width: nat)
    requires j < width && i < i2
    ensures i * width + j < i2 * width + j2
  {
    MulLe(i + 1, i2, width);
    assert (i + 1) * width == i * width + width;
  }

  lemma DivModUnique(p: nat, q: nat, r: nat, width: nat)
    requires r < width && p == q * width + r
    ensures p / width == q && p % width == r
  {
    var q', r' := p / width, p % width;
    assert p == q' * width + r';
    if q' < q {
      RowBefore(q', r', q, r, width);
    } else if q < q' {
      RowBefore(q, r, q', r', width);
    }
  }

  /** Row-major number of the first pixel of row i, i·width, built by
      repeated addition so that the embedding loops reason about pixel
      numbers without multiplying two unknowns. */
  function RowStart(i: nat, width: nat): nat
  {
    if i == 0 then 0 else RowStart(i - 1, width) + width
  }

  lemma {:induction false} RowStartIsProduct(i: nat, width: nat)
    ensures RowStart(i, width) == i * width
  {
    if i > 0 {
      RowStartIsProduct(i - 1, width);
      assert i * width == (i - 1) * width + width;
    }
  }

  /** Every pixel of an earlier row is numbered below the start of a later row. */
  lemma {:induction false} RowStartMonotone(i: nat, i2: nat, width: nat)
    requires i < i2
    ensures RowStart(i, width) + width <= RowStart(i2, width)
    decreases i2
  {
    if i + 1 < i2 {
      RowStartMonotone(i, i2 - 1, width);
    }
  }

  /** Two pixels with the same row-major number are the same pixel. */
  lemma FlatUnique(i: nat, j: nat, i2: nat, j2: nat, width: nat)
    requires j < width && j2 < width && RowStart(i, width) + j == RowStart(i2, width) + j2
    ensures i == i2 && j == j2
  {
    if i < i2 {
      RowStartMonotone(i, i2, width);
    } else if i2 < i {
      RowStartMonotone(i2, i, width);
    }
  }

  /** Pixel (i, j) has a row-major number below `height * width`, and
      `// width`, `% width` recover its row and column. */
  lemma FlatPixel(i: nat, j: nat, height: nat, width: nat)
    requires i < height && j < width
    ensures i * width + j < height * width
    ensures (i * width + j) / width == i && (i * width + j) % width == j
  {
    RowBefore(i, j, height, 0, width);
    DivModUnique(i * width + j, i, j, width);
  }

  /** Channel t of a row-major scan with three channels per pixel belongs to
      pixel (row, col) = ((t // 3) // width, (t // 3) % width), channel t % 3. */
  lemma ChannelOfScan(t: nat, height: nat, width: nat)
    requires t < 3 * (height * width)
    ensures width > 0 && (t / 3) / width < height && (t / 3) % width < width
    ensures 3 * (((t / 3) / width) * width + (t / 3) % width) + t % 3 == t
  {
    RowInGrid(t / 3, height, width);
  }

  /** A scan position at a pixel boundary lies inside the grid exactly when
      the row `// 3 // width` of its pixel does. */
  lemma ScanIndexInGrid(e: nat, height: nat, width: nat)
    requires width > 0 && e % 3 == 0
    ensures (e / 3) / width < height <==> e < 3 * (height * width)
  {
    var p := e / 3;
    if p / width < height {
      FlatPixel(p / width, p % width, height, width);
    } else {
      MulLe(height, p / width, width);
    }
  }

  /** A pixel number below `height * width` names a row inside the grid. */
  lemma RowInGrid(p: nat, height: nat, width: nat)
    requires p < height * width
    ensures width > 0 && p / width < height
  {
    var q := p / width;
    if q >= height {
      MulLe(height, q, width);
    }
  }
}
