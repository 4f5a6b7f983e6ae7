# White-background removal, modelled in Dafny

The repository is a marketing website whose only algorithm is
`removeWhiteBackground` in `src/utils/removeWhiteBackground.js`. It draws an
image onto a canvas of the same size and reads back the RGBA pixel buffer:
four bytes per pixel, in the order red, green, blue, alpha. One loop then
walks the buffer four bytes at a time. When a pixel's red, green and blue
bytes all exceed the threshold (default 240), the loop sets that pixel's
alpha byte to 0. Nothing else is written. The buffer is put back on the
canvas and returned as an encoded image.

The project has two modules:

- `PixelMask` (`pixel_mask.dfy`) holds the rule on values. `Byte` is one
  element of the canvas buffer (0..255). `IsWhite` is the whiteness test.
  `Strip` is the pass defined pixel by pixel, and `MaskedByte` defines the
  same pass byte by byte. The lemmas connect the two definitions and prove
  the per-pixel outcome, idempotence and the threshold edge cases.
- `WhiteBackground` (`white_background.dfy`) holds the imperative part.
  `StripWhite` is the source's strided loop, run in place on an
  `array<Byte>` and proved equal to `Strip`. `ImageData` stands for what
  `getImageData` returns. `RemoveWhiteBackground` chains canvas sizing, the
  read-back, the loop and the hand-back.

The comparison at line 28 is strict (`>`), so with threshold 0 a pixel with
any zero colour channel, such as pure black, stays opaque (`ZeroChannelKept`).
A negative threshold clears every alpha (`NegativeThresholdClearsAll`).

## Model

| member | source | states |
|---|---|---|
| `PixelMask.Strip` | src/utils/removeWhiteBackground.js:22-32 | the pass keeps the buffer length, so the buffer still holds a whole number of pixels |
| `PixelMask.StripAt` | src/utils/removeWhiteBackground.js:22-31 | every byte after the pass is 0 if it is the alpha byte of a white pixel, and otherwise its old value |
| `PixelMask.StripIsMasked` | src/utils/removeWhiteBackground.js:22-31 | the same byte-by-byte statement, for all bytes at once |
| `PixelMask.PixelAt` | src/utils/removeWhiteBackground.js:23-31 | pixel p after the pass is its old red, green and blue followed by alpha 0 if it is white, or its old alpha if it is not |
| `PixelMask.WhitePixelCleared` | src/utils/removeWhiteBackground.js:28-31 | a pixel whose r, g and b all exceed the threshold gets alpha 0 and keeps its r, g and b |
| `PixelMask.OtherPixelKept` | src/utils/removeWhiteBackground.js:28 | a pixel with at least one of r, g, b at or below the threshold keeps all four bytes |
| `PixelMask.OnlyWhiteAlphaChanges` | src/utils/removeWhiteBackground.js:23-30 | a byte that changes is the alpha byte of a white pixel, and no red, green or blue byte ever changes |
| `PixelMask.WhitenessKept` | src/utils/removeWhiteBackground.js:23-28 | after the pass every pixel is white for any threshold exactly when it was white before |
| `PixelMask.StripTwice` | src/utils/removeWhiteBackground.js:22-31 | a pass with threshold t followed by one with threshold u equals one pass with the smaller of the two |
| `PixelMask.StripIdempotent` | src/utils/removeWhiteBackground.js:22-31 | two passes with the same threshold give the same buffer as one |
| `PixelMask.BoundaryPixelKept` | src/utils/removeWhiteBackground.js:28 | the comparison is strict: a pixel with r = g = b = threshold is not made transparent |
| `PixelMask.HighThresholdIdentity` | src/utils/removeWhiteBackground.js:28 | with threshold 255 or more the pass leaves every buffer unchanged |
| `PixelMask.ZeroChannelKept` | src/utils/removeWhiteBackground.js:28 | with threshold 0 or more a pixel with a zero colour channel keeps all four bytes |
| `PixelMask.NegativeThresholdClearsAll` | src/utils/removeWhiteBackground.js:28 | with a negative threshold every pixel's alpha becomes 0 |
| `PixelMask.TwoPixelExample` | src/utils/removeWhiteBackground.js:22-32 | for the 2x1 buffer (255,255,255,255),(10,20,30,255) and threshold 240, the first alpha becomes 0 and the second pixel is unchanged |
| `WhiteBackground.ImageData.FromImage` | src/utils/removeWhiteBackground.js:8-19 | the canvas is sized to the image and the buffer read back holds exactly the image's pixels |
| `WhiteBackground.StripWhite` | src/utils/removeWhiteBackground.js:22-32 | the in-place loop, stepping by 4, leaves the buffer equal to `Strip` of its old contents |
| `WhiteBackground.RemoveWhiteBackground` | src/utils/removeWhiteBackground.js:7-39 | the output has the input's width and height, and its pixels are `Strip` of the input's pixels at the given threshold, 240 by default |

## Left out

- Canvas primitives (`createElement`, `getContext`, `drawImage`, `getImageData`, `putImageData`) are browser code that is not visible here. They are modelled only as a copy of the image's pixels into a fresh buffer and back out.
- `toDataURL('image/png')`: PNG encoding, and any premultiplied-alpha change in the canvas round trip, are not modelled. The output is the pixel buffer itself, so idempotence is proved only for the buffer pass.
- `WhiteBackground.RemoveWhiteBackground`: the exceptions that `drawImage` and `getImageData` can throw (src/utils/removeWhiteBackground.js:15-18) are not modelled. These are an IndexSizeError for a zero width or height and a SecurityError for a cross-origin-tainted canvas; `processImage` turns them into a rejection. The model returns an image for every well-formed input, including an empty one. It also identifies `img.width`/`img.height` (:11-12) with the natural size `drawImage` paints at (:15); the two agree for the fresh `new Image()` that `processImage` creates.
- `processImage` (src/utils/removeWhiteBackground.js:47-64) is left out. It is asynchronous `Image` loading with `onload`/`onerror` callbacks and a cross-origin setting, which is I/O rather than logic.
- The threshold is modelled as an integer. JavaScript accepts any number; a fractional threshold behaves like its floor against integer bytes, and that case is not modelled.
- A buffer whose length is not a multiple of 4 is excluded by `StripWhite`'s precondition, because a canvas buffer always holds width × height × 4 bytes.
- The React components (`Navbar.jsx`, `LandingPage.jsx`, `AboutSection.jsx`, `ContactPage.jsx`) and `main.jsx` are UI, animation and routing with no algorithm. This includes the navigation bar's fallback to the original logo when processing fails.
