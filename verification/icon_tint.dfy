/**
  The per-pixel tint of an icon layer: the layer's 32-bit ARGB pixels,
  copied out as bytes (blue, green, red, alpha per pixel, lines `stride`
  bytes long), get each colour byte of every non-transparent pixel replaced
  by the tint channel plus the original scaled by the pixel's alpha and the
  tint's transparency, in integer arithmetic and capped at 255.
 */
module IconTint {
  import opened Arith

  newtype byte = x: int | 0 <= x < 256

  /** A colour with its alpha, red, green and blue channels. */
  datatype Color = Color(a: byte, r: byte, g: byte, b: byte)

  /** The tint value meaning "no tint". */
  const NoTint := Color(255, 0, 0, 0)

  /** The layer bitmaps are 32 bits per pixel. */
  const BytesPerPixel := 4

  /**
    The part of the original byte a tint keeps:
    `pixelAlpha * (255 - tintAlpha) * orig / 65025` with truncating division
    (all operands are non-negative, so truncation and Dafny's division agree).
   */
  function Added(pixelAlpha: byte, tintAlpha: byte, orig: byte): (r: int)
    ensures 0 <= r <= orig as int
    ensures tintAlpha == 255 || orig == 0 ==> r == 0
    ensures pixelAlpha == 255 && tintAlpha == 0 ==> r == orig as int
  {
    AddedBounds(pixelAlpha as int, tintAlpha as int, orig as int);
    pixelAlpha as int * (255 - tintAlpha as int) * orig as int / 65025
  }

  lemma AddedBounds(pixelAlpha: int, tintAlpha: int, orig: int)
    requires 0 <= pixelAlpha < 256 && 0 <= tintAlpha < 256 && 0 <= orig < 256
    ensures var r := pixelAlpha * (255 - tintAlpha) * orig / 65025;
            && 0 <= r <= orig
            && (tintAlpha == 255 || orig == 0 ==> r == 0)
            && (pixelAlpha == 255 && tintAlpha == 0 ==> r == orig)
  {
    var w := pixelAlpha * (255 - tintAlpha);
    MulNonNegative(pixelAlpha, 255 - tintAlpha);
    MulNonNegative(255 - pixelAlpha, 255 - tintAlpha);
    MulNonNegative(255, tintAlpha);
    assert w <= 65025;
    var p := w * orig;
    MulNonNegative(w, orig);
    MulNonNegative(65025 - w, orig);
    assert p <= 65025 * orig;
    var q := p / 65025;
    assert p == q * 65025 + p % 65025;
    if q > orig {
      MulNonNegative(q - orig - 1, 65025);
    }
    if q < 0 {
      MulNonNegative(-q - 1, 65025);
    }
  }

  /**
    One tinted colour byte: the tint channel plus the kept part of the
    original, capped at 255. It never falls below the tint channel, never
    exceeds the tint channel plus the original, is the tint channel exactly
    for an opaque tint or a zero original, and for an opaque pixel under a
    fully transparent tint is the capped sum of tint and original.
   */
  function TintChannel(tint: byte, tintAlpha: byte, pixelAlpha: byte, orig: byte): (v: byte)
    ensures tint <= v
    ensures v as int <= tint as int + orig as int
    ensures tintAlpha == 255 || orig == 0 ==> v == tint
    ensures pixelAlpha == 255 && tintAlpha == 0 ==>
              v as int == if tint as int + orig as int < 255 then tint as int + orig as int else 255
  {
    var sum := tint as int + Added(pixelAlpha, tintAlpha, orig);
    if sum < 255 then sum as byte else 255
  }

  /** The tint channel written at byte `j` of a pixel: blue, green, red. */
  function ChannelOf(tint: Color, j: int): byte
    requires 0 <= j < 3
  {
    if j == 0 then tint.b else if j == 1 then tint.g else tint.r
  }

  /**
    A locked bitmap copied out as bytes: `|lines|` lines of `stride` bytes
    each (line `y` is bytes `y * stride` up to `(y + 1) * stride` of the
    flat copy), each wide enough for `width` pixels.
   */
  predicate WellShaped(lines: seq<seq<byte>>, stride: int, width: int)
  {
    && 0 <= width && width * BytesPerPixel <= stride
    && forall y :: 0 <= y < |lines| ==> |lines[y]| == stride
  }

  /**
    The value the tint leaves at byte `x` of a line: a blue, green or red
    byte of one of the first `width` pixels whose alpha byte is positive is
    tinted from its original value; every other byte keeps its value.
   */
  function Expected(line: seq<byte>, width: int, tint: Color, x: int): byte
    requires 0 <= width && width * BytesPerPixel <= |line| && 0 <= x < |line|
  {
    var j := x % BytesPerPixel;
    if x < width * BytesPerPixel && j < 3 && line[x - j + 3] > 0 then
      TintChannel(ChannelOf(tint, j), tint.a, line[x - j + 3], line[x])
    else line[x]
  }

  /**
    The tint loop: for every line and every pixel among the first `width`
    of it, a pixel whose alpha byte is positive has its blue, green and red
    bytes tinted from their original values.
   */
  method TintPixels(pixels: seq<seq<byte>>, stride: int, width: int, tint: Color) returns (out: seq<seq<byte>>)
    requires WellShaped(pixels, stride, width)
    ensures |out| == |pixels| && WellShaped(out, stride, width)
    ensures forall y, x :: 0 <= y < |pixels| && 0 <= x < stride ==> out[y][x] == Expected(pixels[y], width, tint, x)
  {
    out := pixels;
    var y := 0;
    while y < |pixels|
      invariant 0 <= y <= |pixels| && |out| == |pixels| && WellShaped(out, stride, width)
      invariant forall r, x :: 0 <= r < y && 0 <= x < stride ==> out[r][x] == Expected(pixels[r], width, tint, x)
      invariant forall r :: y <= r < |pixels| ==> out[r] == pixels[r]
    {
      var line := TintLine(out[y], width, tint);
      out := out[y := line];
      y := y + 1;
    }
  }

  /**
    One line of the tint loop: the pixels at byte offsets `0, 4, 8, ...`
    below `width * 4` are visited in order, reading each pixel's alpha byte
    and rewriting its three colour bytes when that alpha is positive.
   */
  method TintLine(line: seq<byte>, width: int, tint: Color) returns (out: seq<byte>)
    requires 0 <= width && width * BytesPerPixel <= |line|
    ensures |out| == |line|
    ensures forall i :: 0 <= i < |line| ==> out[i] == Expected(line, width, tint, i)
  {
    out := line;
    var widthInBytes := width * BytesPerPixel;
    var x := 0;
    while x < widthInBytes
      invariant 0 <= x <= widthInBytes && x % BytesPerPixel == 0 && |out| == |line|
      invariant forall i :: 0 <= i < x ==> out[i] == Expected(line, width, tint, i)
      invariant out[x..] == line[x..]
    {
      AlignedStep(x, width);
      LineStep(line, out, width, tint, x);
      out := TintPixel(out, x, tint);
      x := x + BytesPerPixel;
    }
    LineFinished(line, out, width, tint);
  }

  /**
    The body of the pixel loop: when the alpha byte at `x + 3` is positive,
    the blue, green and red bytes at `x`, `x + 1`, `x + 2` are tinted;
    no other byte changes.
   */
  function TintPixel(out: seq<byte>, x: int, tint: Color): (r: seq<byte>)
    requires 0 <= x && x + BytesPerPixel <= |out|
    ensures |r| == |out|
    ensures forall i :: 0 <= i < |out| && !(x <= i < x + 3) ==> r[i] == out[i]
    ensures out[x + 3] > 0 ==>
              && r[x] == TintChannel(tint.b, tint.a, out[x + 3], out[x])
              && r[x + 1] == TintChannel(tint.g, tint.a, out[x + 3], out[x + 1])
              && r[x + 2] == TintChannel(tint.r, tint.a, out[x + 3], out[x + 2])
    ensures out[x + 3] == 0 ==> r == out
  {
    var pixelA := out[x + 3];
    if pixelA > 0 then
      out[x := TintChannel(tint.b, tint.a, pixelA, out[x])]
         [x + 1 := TintChannel(tint.g, tint.a, pixelA, out[x + 1])]
         [x + 2 := TintChannel(tint.r, tint.a, pixelA, out[x + 2])]
    else out
  }

  /** Bytes past the first `width` pixels of a line keep their value. */
  lemma PaddingUntouched(line: seq<byte>, width: int, tint: Color, i: int)
    requires 0 <= width && width * BytesPerPixel <= i < |line|
    ensures Expected(line, width, tint, i) == line[i]
  {
  }

  /** Once every pixel is done, the whole line is: the padding is left as it was. */
  lemma LineFinished(line: seq<byte>, out: seq<byte>, width: int, tint: Color)
    requires 0 <= width && width * BytesPerPixel <= |line| && |out| == |line|
    requires forall i :: 0 <= i < width * BytesPerPixel ==> out[i] == Expected(line, width, tint, i)
    requires out[width * BytesPerPixel..] == line[width * BytesPerPixel..]
    ensures forall i :: 0 <= i < |line| ==> out[i] == Expected(line, width, tint, i)
  {
    var w := width * BytesPerPixel;
    forall i | w <= i < |line|
      ensures out[i] == Expected(line, width, tint, i)
    {
      assert out[i] == out[w..][i - w];
      PaddingUntouched(line, width, tint, i);
    }
  }

  /** A pixel-aligned offset below the pixel bytes of a line leaves room for a whole pixel. */
  lemma AlignedStep(x: int, width: int)
    requires 0 <= x < width * BytesPerPixel && x % BytesPerPixel == 0
    ensures x + BytesPerPixel <= width * BytesPerPixel
    ensures (x + BytesPerPixel) % BytesPerPixel == 0
  {
    var k := x / BytesPerPixel;
    assert x == BytesPerPixel * k;
  }

  /** One turn of the pixel loop extends the finished prefix of the line by one pixel. */
  lemma LineStep(line: seq<byte>, out: seq<byte>, width: int, tint: Color, x: int)
    requires 0 <= width && width * BytesPerPixel <= |line| && |out| == |line|
    requires 0 <= x && x + BytesPerPixel <= width * BytesPerPixel && x % BytesPerPixel == 0
    requires forall i :: 0 <= i < x ==> out[i] == Expected(line, width, tint, i)
    requires out[x..] == line[x..]
    ensures var next := TintPixel(out, x, tint);
            && |next| == |line|
            && (forall i :: 0 <= i < x + BytesPerPixel ==> next[i] == Expected(line, width, tint, i))
            && next[x + BytesPerPixel..] == line[x + BytesPerPixel..]
  {
    var next := TintPixel(out, x, tint);
    PixelDone(line, width, tint, x);
    assert out[x] == out[x..][0] && out[x + 1] == out[x..][1] && out[x + 2] == out[x..][2] && out[x + 3] == out[x..][3];
    assert out[x] == line[x] && out[x + 1] == line[x + 1] && out[x + 2] == line[x + 2] && out[x + 3] == line[x + 3];
    assert next[x + BytesPerPixel..] == out[x + BytesPerPixel..];
    assert out[x + BytesPerPixel..] == out[x..][BytesPerPixel..];
    assert line[x + BytesPerPixel..] == line[x..][BytesPerPixel..];
    forall i | 0 <= i < x + BytesPerPixel
      ensures next[i] == Expected(line, width, tint, i)
    {
      if i < x {
        assert next[i] == out[i];
      } else if i == x + 3 {
        assert next[i] == out[i];
      }
    }
  }

  /** What `Expected` says about the four bytes of the pixel at byte `x` of a line. */
  lemma PixelDone(line: seq<byte>, width: int, tint: Color, x: int)
    requires 0 <= width && width * BytesPerPixel <= |line|
    requires 0 <= x && x + BytesPerPixel <= width * BytesPerPixel && x % BytesPerPixel == 0
    ensures Expected(line, width, tint, x + 3) == line[x + 3]
    ensures line[x + 3] > 0 ==>
              && Expected(line, width, tint, x) == TintChannel(tint.b, tint.a, line[x + 3], line[x])
              && Expected(line, width, tint, x + 1) == TintChannel(tint.g, tint.a, line[x + 3], line[x + 1])
              && Expected(line, width, tint, x + 2) == TintChannel(tint.r, tint.a, line[x + 3], line[x + 2])
    ensures line[x + 3] == 0 ==>
              && Expected(line, width, tint, x) == line[x]
              && Expected(line, width, tint, x + 1) == line[x + 1]
              && Expected(line, width, tint, x + 2) == line[x + 2]
  {
    assert (x + 1) % BytesPerPixel == 1 && (x + 2) % BytesPerPixel == 2 && (x + 3) % BytesPerPixel == 3;
  }

  /**
    `GetIcon`'s tint step: a layer whose tint is not `NoTint` is tinted,
    any other layer is left as it is.
   */
  method ApplyTint(pixels: seq<seq<byte>>, stride: int, width: int, tint: Color) returns (out: seq<seq<byte>>)
    requires WellShaped(pixels, stride, width)
    ensures |out| == |pixels| && WellShaped(out, stride, width)
    ensures tint == NoTint ==> out == pixels
    ensures tint != NoTint ==>
              forall y, x :: 0 <= y < |pixels| && 0 <= x < stride ==> out[y][x] == Expected(pixels[y], width, tint, x)
  {
    if tint != NoTint {
      out := TintPixels(pixels, stride, width, tint);
    } else {
      out := pixels;
    }
  }

  /**
    What the tint never touches: alpha bytes, bytes past the first `width`
    pixels of a line, and pixels whose alpha is zero. A tinted byte is at
    least its tint channel, and under an opaque tint it is exactly the tint
    channel.
   */
  lemma TintFrame(line: seq<byte>, width: int, tint: Color, x: int)
    requires 0 <= width && width * BytesPerPixel <= |line| && 0 <= x < |line|
    ensures var v := Expected(line, width, tint, x);
            var j := x % BytesPerPixel;
            && (j == 3 ==> v == line[x])
            && (x >= width * BytesPerPixel ==> v == line[x])
            && (x < width * BytesPerPixel && j < 3 ==>
                  && (line[x - j + 3] == 0 ==> v == line[x])
                  && (line[x - j + 3] > 0 ==> ChannelOf(tint, j) <= v)
                  && (line[x - j + 3] > 0 && tint.a == 255 ==> v == ChannelOf(tint, j)))
  {
  }

  /**
    The guard matters: tinting with the no-tint colour itself would set
    every colour byte of every visible pixel to zero.
   */
  lemma NoTintWouldBlacken(line: seq<byte>, width: int, x: int)
    requires 0 <= width && width * BytesPerPixel <= |line| && 0 <= x < width * BytesPerPixel
    requires x % BytesPerPixel < 3 && line[x - x % BytesPerPixel + 3] > 0
    ensures Expected(line, width, NoTint, x) == 0
  {
  }
}
