// The grayscale pass of `grayScale`: once pngjs has decoded an image into an
// RGBA byte buffer, every pixel's red, green and blue channels are replaced by
// one BT.709 luma value, in place, and alpha is left alone.

module Grayscale {

  /** One 8-bit channel of the decoded RGBA buffer (pngjs hands over a Uint8 buffer). */
  type byte = x: int | 0 <= x < 256

  function Min3(a: int, b: int, c: int): int {
    if a <= b && a <= c then a else if b <= c then b else c
  }

  function Max3(a: int, b: int, c: int): int {
    if a >= b && a >= c then a else if b >= c then b else c
  }

  /** The BT.709 weighted sum scaled by 10000: 0.2126 R + 0.7152 G + 0.0722 B. */
  function WeightedSum(r: int, g: int, b: int): int {
    2126 * r + 7152 * g + 722 * b
  }

  /**
    * Math.round(0.2126 R + 0.7152 G + 0.0722 B), computed exactly: the weighted
    * sum rounded to the nearest integer, halves rounded up. The source computes
    * it with IEEE doubles; since the exact value is a multiple of 1/10000, the
    * two can disagree only where the exact value ends in .5.
    */
  function Luma(r: byte, g: byte, b: byte): (v: byte)
    ensures 10000 * v - 5000 <= WeightedSum(r, g, b) < 10000 * v + 5000
  {
    (WeightedSum(r, g, b) + 5000) / 10000
  }

  /**
    * The weights are non-negative and sum to one, so the luma lies between
    * the smallest and the largest channel; in particular it is a byte.
    */
  lemma LumaBetweenChannels(r: byte, g: byte, b: byte)
    ensures Min3(r, g, b) <= Luma(r, g, b) <= Max3(r, g, b)
  {
  }

  /** A gray pixel is its own luma. */
  lemma LumaOfGray(v: byte)
    ensures Luma(v, v, v) == v
  {
    LumaBetweenChannels(v, v, v);
  }

  /**
    * The buffer `s` after its first `k` pixels have been converted: each of
    * their R, G and B bytes holds the luma of that pixel's original R, G, B,
    * and every other byte is as it was.
    */
  function GrayedFirst(s: seq<byte>, k: nat): (r: seq<byte>)
    requires 4 * k <= |s|
    ensures |r| == |s|
  {
    seq(|s|, i requires 0 <= i < |s| => GrayedByte(s, k, i))
  }

  /** Byte `i` of GrayedFirst(s, k); byte i is channel i % 4 of pixel i / 4, channel 3 is alpha. */
  function GrayedByte(s: seq<byte>, k: nat, i: nat): byte
    requires 4 * k <= |s| && i < |s|
  {
    if i < 4 * k && i % 4 != 3
    then Luma(s[i - i % 4], s[i - i % 4 + 1], s[i - i % 4 + 2])
    else s[i]
  }

  /** Byte 4*p + c is channel c of pixel p. */
  lemma ChannelOf(p: nat, c: nat)
    requires c < 4
    ensures (4 * p + c) % 4 == c
  {
  }

  /**
    * Converting pixel k changes its R, G and B bytes to the luma of its
    * original R, G and B, and no other byte.
    */
  lemma GrayedByteStep(s: seq<byte>, k: nat, i: nat)
    requires 4 * (k + 1) <= |s| && i < |s|
    ensures GrayedByte(s, k + 1, i) ==
      if 4 * k <= i < 4 * k + 3 then Luma(s[4 * k], s[4 * k + 1], s[4 * k + 2]) else GrayedByte(s, k, i)
  {
    if 4 * k <= i < 4 * k + 4 {
      ChannelOf(k, i - 4 * k);
    }
  }

  /** The buffer after the whole `width` x `height` image has been converted. */
  function Grayed(s: seq<byte>, width: nat, height: nat): (r: seq<byte>)
    requires 4 * (width * height) <= |s|
    ensures |r| == |s|
  {
    GrayedFirst(s, width * height)
  }

  /** Pixel (x, y) of a `width` x `height` image lies among its first width*height pixels. */
  lemma PixelInImage(width: nat, height: nat, x: nat, y: nat)
    requires x < width && y < height
    ensures width * y + x < width * height
  {
    assert width * y + x < width * y + width == width * (y + 1);
    MulMonotone(width, y + 1, height);
  }

  lemma {:induction false} MulMonotone(a: nat, b: nat, c: nat)
    requires b <= c
    ensures a * b <= a * c
  {
    if b < c {
      MulMonotone(a, b, c - 1);
      assert a * (c - 1) + a == a * c;
    }
  }

  /**
    * What converting the first n pixels does to pixel p < n: its R, G and B
    * bytes all hold the luma of its own original R, G and B, and its alpha
    * byte is unchanged.
    */
  lemma GrayedFirstPixel(s: seq<byte>, n: nat, p: nat)
    requires 4 * n <= |s| && p < n
    ensures var r := GrayedFirst(s, n);
      r[4 * p] == r[4 * p + 1] == r[4 * p + 2] == Luma(s[4 * p], s[4 * p + 1], s[4 * p + 2]) &&
      r[4 * p + 3] == s[4 * p + 3]
  {
    GrayedChannel(s, n, p, 0);
    GrayedChannel(s, n, p, 1);
    GrayedChannel(s, n, p, 2);
    GrayedChannel(s, n, p, 3);
  }

  /** Channel c of a converted pixel p < n: the luma for R, G and B, the original for alpha. */
  lemma GrayedChannel(s: seq<byte>, n: nat, p: nat, c: nat)
    requires 4 * n <= |s| && p < n && c < 4
    ensures GrayedFirst(s, n)[4 * p + c] ==
      if c < 3 then Luma(s[4 * p], s[4 * p + 1], s[4 * p + 2]) else s[4 * p + 3]
  {
    var i := 4 * p + c;
    ChannelOf(p, c);
    assert i - i % 4 == 4 * p && i < 4 * n;
    assert GrayedFirst(s, n)[i] == GrayedByte(s, n, i);
  }

  /**
    * What the pass does to pixel (x, y): its four bytes lie inside the first
    * 4*width*height bytes, its R, G and B bytes all hold the luma of its own
    * original R, G and B, and its alpha byte is unchanged.
    */
  lemma GrayedPixel(s: seq<byte>, width: nat, height: nat, x: nat, y: nat)
    requires 4 * (width * height) <= |s|
    requires x < width && y < height
    ensures var i := 4 * (width * y + x);
      var r := Grayed(s, width, height);
      i + 3 < 4 * (width * height) &&
      r[i] == r[i + 1] == r[i + 2] == Luma(s[i], s[i + 1], s[i + 2]) &&
      r[i + 3] == s[i + 3]
  {
    PixelInImage(width, height, x, y);
    GrayedFirstPixel(s, width * height, width * y + x);
  }

  /** Bytes past the image's 4*width*height are never touched. */
  lemma GrayedBeyondImage(s: seq<byte>, width: nat, height: nat, j: nat)
    requires 4 * (width * height) <= j < |s|
    ensures Grayed(s, width, height)[j] == s[j]
  {
  }

  /** Converting an already converted buffer changes nothing. */
  lemma GrayedFirstIdempotent(s: seq<byte>, n: nat)
    requires 4 * n <= |s|
    ensures GrayedFirst(GrayedFirst(s, n), n) == GrayedFirst(s, n)
  {
    var t := GrayedFirst(s, n);
    forall i | 0 <= i < |s|
      ensures GrayedByte(t, n, i) == t[i]
    {
      if i < 4 * n && i % 4 != 3 {
        var p := i / 4;
        assert i - i % 4 == 4 * p;
        GrayedFirstPixel(s, n, p);
        LumaOfGray(t[4 * p]);
      }
    }
  }

  lemma GrayedIdempotent(s: seq<byte>, width: nat, height: nat)
    requires 4 * (width * height) <= |s|
    ensures Grayed(Grayed(s, width, height), width, height) == Grayed(s, width, height)
  {
    GrayedFirstIdempotent(s, width * height);
  }

  /**
    * The pixels (255, 0, 0), (0, 255, 0), (0, 0, 255) and (10, 20, 30)
    * convert to grays 54, 182, 18 and 19.
    */
  lemma LumaExamples()
    ensures Luma(255, 0, 0) == 54 && Luma(0, 255, 0) == 182
    ensures Luma(0, 0, 255) == 18 && Luma(10, 20, 30) == 19
  {
  }

  /**
    * One step of the loop as an update of the buffer: pixel k still holds its
    * original bytes after k pixels, and converting it writes its luma into
    * its R, G and B bytes.
    */
  lemma GrayedFirstStep(s: seq<byte>, k: nat)
    requires 4 * (k + 1) <= |s|
    ensures var t := GrayedFirst(s, k);
      var g := Luma(s[4 * k], s[4 * k + 1], s[4 * k + 2]);
      t[4 * k] == s[4 * k] && t[4 * k + 1] == s[4 * k + 1] && t[4 * k + 2] == s[4 * k + 2] &&
      GrayedFirst(s, k + 1) == t[4 * k := g][4 * k + 1 := g][4 * k + 2 := g]
  {
    var t := GrayedFirst(s, k);
    var g := Luma(s[4 * k], s[4 * k + 1], s[4 * k + 2]);
    var u := t[4 * k := g][4 * k + 1 := g][4 * k + 2 := g];
    forall i | 0 <= i < |s|
      ensures GrayedFirst(s, k + 1)[i] == u[i]
    {
      GrayedByteStep(s, k, i);
    }
  }

  /**
    * The nested loop of `grayScale`: rows y, then, in GrayscaleRow, columns
    * x, pixel at byte 4*(width*y + x); it reads R, G, B, then writes the luma
    * to all three.
    */
  method GrayscalePass(data: array<byte>, width: nat, height: nat)
    requires 4 * (width * height) <= data.Length
    modifies data
    ensures data[..] == Grayed(old(data[..]), width, height)
  {
    ghost var original := data[..];
    ghost var row := 0;  // width * y: the pixels of the rows above row y
    var y := 0;
    while y < height
      invariant 0 <= y <= height
      invariant row == width * y <= width * height
      invariant data[..] == GrayedFirst(original, row)
    {
      MulMonotone(width, y + 1, height);
      GrayscaleRow(data, width, y, original, row);
      row := row + width;
      y := y + 1;
    }
  }

  /** The inner loop of `grayScale`: the pixels x of row y, left to right. */
  method GrayscaleRow(data: array<byte>, width: nat, y: nat, ghost original: seq<byte>, ghost row: nat)
    requires row == width * y && 4 * (row + width) <= |original|
    requires data[..] == GrayedFirst(original, row)
    modifies data
    ensures data[..] == GrayedFirst(original, row + width)
  {
    var x := 0;
    while x < width
      invariant 0 <= x <= width
      invariant data[..] == GrayedFirst(original, row + x)
    {
      var idx := 4 * (width * y + x);
      ghost var k := row + x;
      assert idx == 4 * k;
      GrayedFirstStep(original, k);
      var gray := Luma(data[idx], data[idx + 1], data[idx + 2]);
      assert gray == Luma(original[4 * k], original[4 * k + 1], original[4 * k + 2]);
      ghost var before: seq<byte> := data[..];
      data[idx] := gray;
      data[idx + 1] := gray;
      data[idx + 2] := gray;
      assert data[..] == before[idx := gray][idx + 1 := gray][idx + 2 := gray];
      assert data[..] == GrayedFirst(original, k + 1);
      x := x + 1;
    }
  }
}
