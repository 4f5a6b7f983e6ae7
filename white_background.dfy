// removeWhiteBackground: draw an image onto a canvas of its own size, read
// the canvas pixels back, clear the alpha of every white pixel in place, and
// hand the pixels back. The canvas calls are modelled as buffer in, buffer
// out; the per-pixel rule is PixelMask.Strip.

module WhiteBackground {
  import opened PixelMask

  /** Threshold used when the caller gives none. */
  const DefaultThreshold: int := 240

  /**
   * A decoded image: width by height pixels, four bytes each, row by row.
   * It stands both for the loaded image element and for the processed
   * image handed back to the caller (whose encoding is not modelled).
   */
  datatype Image = Image(width: nat, height: nat, pixels: seq<Byte>)
  {
    ghost predicate Valid()
    {
      |pixels| == Channels * (width * height)
    }
  }

  /**
   * The pixel data a 2D canvas returns from getImageData: its dimensions
   * and a mutable byte buffer holding four bytes per pixel.
   */
  class ImageData {
    const width: nat
    const height: nat
    const data: array<Byte>

    ghost predicate Valid()
    {
      data.Length == Channels * (width * height)
    }

    /**
     * A canvas sized to the image, with the image drawn at (0, 0), read
     * back whole: the buffer holds exactly the image's pixels.
     */
    constructor FromImage(img: Image)
      requires img.Valid()
      ensures Valid() && fresh(data)
      ensures width == img.width && height == img.height
      ensures data[..] == img.pixels
    {
      width := img.width;
      height := img.height;
      data := new Byte[|img.pixels|](k requires 0 <= k < |img.pixels| => img.pixels[k]);
    }
  }

  /**
   * The pixel loop: visit the buffer four bytes at a time and set the alpha
   * byte of each pixel whose red, green and blue all exceed the threshold
   * to 0. Every other byte is left alone.
   */
  method StripWhite(data: array<Byte>, threshold: int)
    requires data.Length % Channels == 0
    modifies data
    ensures data[..] == Strip(old(data[..]), threshold)
  {
    ghost var before := data[..];
    var i := 0;
    while i < data.Length
      invariant 0 <= i <= data.Length && i % Channels == 0
      invariant forall k :: 0 <= k < i ==> data[k] == MaskedByte(before, threshold, k)
      invariant forall k :: i <= k < data.Length ==> data[k] == before[k]
      decreases data.Length - i
    {
      PixelInside(before, i / Channels);
      var r := data[i];
      var g := data[i + 1];
      var b := data[i + 2];
      if r as int > threshold && g as int > threshold && b as int > threshold {
        data[i + 3] := 0;
      }
      assert (i + 3) / Channels == i / Channels;
      i := i + Channels;
    }
    forall k | 0 <= k < data.Length
      ensures data[k] == Strip(before, threshold)[k]
    {
      StripAt(before, threshold, k);
    }
  }

  /**
   * removeWhiteBackground: the processed image has the input's dimensions,
   * and its pixels are the input's pixels with every white pixel made
   * transparent.
   */
  method RemoveWhiteBackground(img: Image, threshold: int := DefaultThreshold) returns (out: Image)
    requires img.Valid()
    ensures out.Valid()
    ensures out.width == img.width && out.height == img.height
    ensures out.pixels == Strip(img.pixels, threshold)
  {
    var imageData := new ImageData.FromImage(img);
    StripWhite(imageData.data, threshold);
    out := Image(imageData.width, imageData.height, imageData.data[..]);
  }
}
