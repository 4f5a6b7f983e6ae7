// The per-pixel rule of the white-background stripper, stated on values.
//
// A canvas pixel buffer is a flat sequence of bytes, four per pixel, in the
// order red, green, blue, alpha: pixel p occupies indices 4p .. 4p+3.
// A pixel is "white" for a threshold t when its red, green and blue bytes
// all exceed t strictly; the pass sets the alpha byte of every white pixel
// to 0 and leaves every other byte as it was.

module PixelMask {

  /** One element of a canvas pixel buffer (a Uint8ClampedArray element). */
  newtype Byte = x: int | 0 <= x < 256

  /** Bytes per pixel: red, green, blue, alpha. */
  const Channels: nat := 4

  /** Offset of the alpha byte within a pixel. */
  const AlphaOffset: nat := 3

  /** The whiteness predicate: all three colour channels strictly above t. */
  predicate IsWhite(r: Byte, g: Byte, b: Byte, t: int)
  {
    r as int > t && g as int > t && b as int > t
  }

  /** Whiteness of pixel p of buffer s. */
  predicate PixelIsWhite(s: seq<Byte>, p: nat, t: int)
    requires Channels * p + 2 < |s|
  {
    IsWhite(s[Channels * p], s[Channels * p + 1], s[Channels * p + 2], t)
  }

  /** A well-formed buffer holds a whole number of pixels. */
  predicate WholePixels(s: seq<Byte>)
  {
    |s| % Channels == 0
  }

  /**
   * The pass, pixel by pixel from the front: the first pixel's colour
   * bytes are copied, its alpha is cleared when it is white, and the rest
   * of the buffer is processed in the same way.
   */
  function Strip(s: seq<Byte>, t: int): (r: seq<Byte>)
    requires WholePixels(s)
    ensures |r| == |s|
    ensures WholePixels(r)
    decreases |s|
  {
    if |s| == 0 then []
    else
      [s[0], s[1], s[2], if IsWhite(s[0], s[1], s[2], t) then 0 else s[3]]
      + Strip(s[Channels..], t)
  }

  /**
   * Reference definition, byte by byte: the value byte k of the buffer
   * holds after the pass.
   */
  function MaskedByte(s: seq<Byte>, t: int, k: nat): Byte
    requires WholePixels(s) && k < |s|
  {
    if k % Channels == AlphaOffset && PixelIsWhite(s, k / Channels, t) then 0 else s[k]
  }

  /** The recursive pass and the byte-by-byte reference agree everywhere. */
  lemma {:induction false} StripAt(s: seq<Byte>, t: int, k: nat)
    requires WholePixels(s) && k < |s|
    ensures Strip(s, t)[k] == MaskedByte(s, t, k)
    decreases |s|
  {
    if k >= Channels {
      var rest := s[Channels..];
      StripAt(rest, t, k - Channels);
      assert (k - Channels) % Channels == k % Channels;
      assert (k - Channels) / Channels == k / Channels - 1;
      var p := k / Channels;
      assert rest[Channels * (p - 1)] == s[Channels * p];
      assert rest[Channels * (p - 1) + 1] == s[Channels * p + 1];
      assert rest[Channels * (p - 1) + 2] == s[Channels * p + 2];
    }
  }

  /** Strip(s, t) is the buffer whose every byte is the reference value. */
  lemma {:induction false} StripIsMasked(s: seq<Byte>, t: int)
    requires WholePixels(s)
    ensures forall k :: 0 <= k < |s| ==> Strip(s, t)[k] == MaskedByte(s, t, k)
  {
    forall k | 0 <= k < |s|
      ensures Strip(s, t)[k] == MaskedByte(s, t, k)
    {
      StripAt(s, t, k);
    }
  }

  /** A white pixel comes out with alpha 0 and its colour bytes unchanged. */
  lemma WhitePixelCleared(s: seq<Byte>, t: int, p: nat)
    requires WholePixels(s) && Channels * p < |s|
    requires PixelIsWhite(s, p, t)
    ensures Strip(s, t)[Channels * p + AlphaOffset] == 0
    ensures Strip(s, t)[Channels * p .. Channels * p + AlphaOffset]
         == s[Channels * p .. Channels * p + AlphaOffset]
  {
    PixelAt(s, t, p);
    var i := Channels * p;
    assert Strip(s, t)[i .. i + AlphaOffset] == Strip(s, t)[i .. i + Channels][..AlphaOffset];
    assert Strip(s, t)[i + AlphaOffset] == Strip(s, t)[i .. i + Channels][AlphaOffset];
  }

  /** A pixel that is not white comes out byte for byte as it went in. */
  lemma OtherPixelKept(s: seq<Byte>, t: int, p: nat)
    requires WholePixels(s) && Channels * p < |s|
    requires !PixelIsWhite(s, p, t)
    ensures Strip(s, t)[Channels * p .. Channels * p + Channels]
         == s[Channels * p .. Channels * p + Channels]
  {
    PixelAt(s, t, p);
  }

  /** A pixel that starts inside a whole-pixel buffer ends inside it. */
  lemma PixelInside(s: seq<Byte>, p: nat)
    requires WholePixels(s) && Channels * p < |s|
    ensures Channels * p + AlphaOffset < |s|
  {
    var q := |s| / Channels;
    assert |s| == Channels * q;
  }

  /** The four bytes of pixel p after the pass. */
  lemma PixelAt(s: seq<Byte>, t: int, p: nat)
    requires WholePixels(s) && Channels * p < |s|
    ensures Channels * p + AlphaOffset < |s|
    ensures Strip(s, t)[Channels * p .. Channels * p + Channels]
         == s[Channels * p .. Channels * p + AlphaOffset]
            + [if PixelIsWhite(s, p, t) then 0 else s[Channels * p + AlphaOffset]]
  {
    PixelInside(s, p);
    var i := Channels * p;
    var out := Strip(s, t);
    StripAt(s, t, i);
    StripAt(s, t, i + 1);
    StripAt(s, t, i + 2);
    StripAt(s, t, i + 3);
    assert i % Channels == 0 && i / Channels == p;
    assert (i + 3) % Channels == AlphaOffset && (i + 3) / Channels == p;
    assert out[i .. i + Channels] == [out[i], out[i + 1], out[i + 2], out[i + 3]];
    assert s[i .. i + AlphaOffset] == [s[i], s[i + 1], s[i + 2]];
  }

  /**
   * The only bytes the pass ever changes are alpha bytes of white pixels;
   * in particular no red, green or blue byte ever changes.
   */
  lemma OnlyWhiteAlphaChanges(s: seq<Byte>, t: int, k: nat)
    requires WholePixels(s) && k < |s|
    ensures Strip(s, t)[k] != s[k] ==> k % Channels == AlphaOffset && PixelIsWhite(s, k / Channels, t)
    ensures k % Channels != AlphaOffset ==> Strip(s, t)[k] == s[k]
  {
    StripAt(s, t, k);
  }

  /** The pass never changes whether a pixel is white, for any threshold. */
  lemma WhitenessKept(s: seq<Byte>, t: int, u: int, p: nat)
    requires WholePixels(s) && Channels * p < |s|
    ensures PixelIsWhite(Strip(s, t), p, u) <==> PixelIsWhite(s, p, u)
  {
    OnlyWhiteAlphaChanges(s, t, Channels * p);
    OnlyWhiteAlphaChanges(s, t, Channels * p + 1);
    OnlyWhiteAlphaChanges(s, t, Channels * p + 2);
  }

  /**
   * Two passes with thresholds t and u do what one pass with the smaller
   * threshold does: a pixel white for the larger threshold is white for the
   * smaller one, and a cleared alpha stays cleared.
   */
  lemma {:induction false} StripTwice(s: seq<Byte>, t: int, u: int)
    requires WholePixels(s)
    ensures Strip(Strip(s, t), u) == Strip(s, if t <= u then t else u)
  {
    var m := if t <= u then t else u;
    var once := Strip(s, t);
    forall k | 0 <= k < |s|
      ensures Strip(once, u)[k] == Strip(s, m)[k]
    {
      StripAt(once, u, k);
      StripAt(s, t, k);
      StripAt(s, m, k);
      if k % Channels == AlphaOffset {
        WhitenessKept(s, t, u, k / Channels);
      }
    }
  }

  /** Running the pass twice with the same threshold equals running it once. */
  lemma {:induction false} StripIdempotent(s: seq<Byte>, t: int)
    requires WholePixels(s)
    ensures Strip(Strip(s, t), t) == Strip(s, t)
  {
    StripTwice(s, t, t);
  }

  /** The comparison is strict: a pixel whose r, g and b equal t is kept. */
  lemma BoundaryPixelKept(s: seq<Byte>, t: int, p: nat)
    requires WholePixels(s) && Channels * p < |s|
    requires s[Channels * p] as int == t && s[Channels * p + 1] as int == t
    requires s[Channels * p + 2] as int == t
    ensures Strip(s, t)[Channels * p .. Channels * p + Channels]
         == s[Channels * p .. Channels * p + Channels]
  {
    OtherPixelKept(s, t, p);
  }

  /** With a threshold of 255 or more no byte value exceeds it: nothing changes. */
  lemma {:induction false} HighThresholdIdentity(s: seq<Byte>, t: int)
    requires WholePixels(s) && t >= 255
    ensures Strip(s, t) == s
  {
    StripIsMasked(s, t);
  }

  /**
   * With a threshold of 0 or more, a pixel with a zero colour channel
   * (pure black, say) is never made transparent.
   */
  lemma ZeroChannelKept(s: seq<Byte>, t: int, p: nat)
    requires WholePixels(s) && Channels * p < |s| && t >= 0
    requires s[Channels * p] == 0 || s[Channels * p + 1] == 0 || s[Channels * p + 2] == 0
    ensures Strip(s, t)[Channels * p .. Channels * p + Channels]
         == s[Channels * p .. Channels * p + Channels]
  {
    OtherPixelKept(s, t, p);
  }

  /** A negative threshold makes every pixel transparent. */
  lemma NegativeThresholdClearsAll(s: seq<Byte>, t: int)
    requires WholePixels(s) && t < 0
    ensures forall p :: 0 <= p < |s| / Channels ==> Strip(s, t)[Channels * p + AlphaOffset] == 0
  {
    forall p | 0 <= p < |s| / Channels
      ensures Strip(s, t)[Channels * p + AlphaOffset] == 0
    {
      WhitePixelCleared(s, t, p);
    }
  }

  /** A 2x1 buffer: an opaque white pixel and an opaque dark pixel, threshold 240. */
  lemma TwoPixelExample()
    ensures Strip([255, 255, 255, 255, 10, 20, 30, 255], 240)
         == [255, 255, 255, 0, 10, 20, 30, 255]
  {
    var s: seq<Byte> := [255, 255, 255, 255, 10, 20, 30, 255];
    assert s[Channels..] == [10, 20, 30, 255];
    assert s[Channels..][Channels..] == [];
  }
}
