# Screen capture normalisation and display classifiers

A Dafny model of the pure logic of a poker-analysis desktop app:

- **Capture pipeline** (`src-tauri/src/screenshot.rs`). `capture_screen` takes
  the first enumerated display and captures a frame `(width, height, bytes)`.
  The buffer does not describe its own layout, so a first-match-wins cascade
  over its length decides what it is: RGBA when the length is `w*h*4`, RGB
  (widened to RGBA with opaque alpha) when it is `w*h*3`, otherwise whatever
  the `image` crate's auto-detecting decoder makes of it. An image wider or
  taller than 2000 pixels goes to the resampler. The alpha channel is dropped,
  the image is JPEG-encoded, and the bytes are turned into padded base64
  (the alphabet of RFC 4648 section 4). `capture_region` decodes that text,
  crops the image and encodes it again.
- **Display classifiers** (`src/App.tsx`). The confidence colour ladder, the
  recommendation colour chosen by the first matching keyword in the
  lower-cased action, and the `data:image/jpeg;base64,` source of the
  preview image.

Files: `Wrappers.dfy` (Option/Result), `BoundedInts.dfy` (bytes as 8-bit
bit-vectors, `u32`, `i32` and `u32` wrap-around), `Base64.dfy`, `Pixels.dfy` (byte transforms),
`Screenshot.dfy` (the pipeline) and `AppView.dfy` (the front end).

The operating system and the `image` crate are function-typed fields of
`Screenshot.Platform`: display enumeration and capture, the decoder
(`load_from_memory`), the resampler, the crop and the JPEG encoder. The
model therefore says nothing about what those do to pixels; it fixes
everything the pipeline decides around them. Every image they exchange is a
`Screenshot.Image`, a `DynamicImage` whose container holds at least its
`width * height` pixels, as every `ImageBuffer` of the `image` crate does.

Behaviour of the code that the model follows as written:

- The BGRA fallback (`screenshot.rs:67`) repeats the RGBA length test inside
  the `else` of that same test (`:34`), so it never runs: every buffer that
  neither length test accepts and the decoder rejects ends in the
  unsupported-format error. `Screenshot.Classify` never returns `Bgra8`.
- The `u32` size products at `:31-32` wrap around (release build). A wrapped
  size can equal the buffer length; `ImageBuffer::from_raw` then finds the
  buffer smaller than `w*h*4` and the `ok_or` error at `:38` or `:52` is
  returned. `ImageBuffer::from_raw` is modelled as "succeeds exactly when the
  container holds at least `width * height * channels` bytes".
- Zero dimensions are not refused up front: `w*h == 0` with an empty buffer
  is taken as an empty RGBA image.
- `capture_region` checks no bounds; a negative `x` or `y` reaches the crop as
  its `u32` bit pattern.
- `chunks_exact` ignores a trailing partial pixel, and so do the byte
  transforms.

## Model

| member | source | states |
|---|---|---|
| `Screenshot.FirstScreen` | src-tauri/src/screenshot.rs:10-12 | an empty display list fails with the no-screens error; otherwise the first enumerated display is used |
| `Screenshot.CaptureFirstScreen` | src-tauri/src/screenshot.rs:10-17 | a failed enumeration, an empty list and a failed capture each end in their own error; otherwise the frame of the first display is returned |
| `Screenshot.Classify` | src-tauri/src/screenshot.rs:30-87 | the RGBA length test wins whenever it holds, the RGB test only when the RGBA test fails; when both fail the decoder's image is adopted exactly when the decoder succeeds, and a decoder failure always ends as unrecognised; the BGRA hypothesis is never chosen |
| `Screenshot.Normalize` | src-tauri/src/screenshot.rs:30-87 | an RGBA-sized buffer is adopted byte for byte with the reported dimensions (refused exactly when `w*h*4` overflows `u32`); an RGB-sized one becomes `w*h*4` bytes with every triple kept and alpha 255; otherwise the decoder's image is adopted with its own dimensions; a decoder failure always gives the unsupported-format error with length, width and height, never an image |
| `Screenshot.RgbCaptureReachesEncoderIntact` | src-tauri/src/screenshot.rs:41-97 | for an RGB frame of at most 2000x2000 pixels the RGB buffer handed to the JPEG encoder is exactly the captured bytes with the captured dimensions |
| `Screenshot.Constrain` | src-tauri/src/screenshot.rs:90-94 | an image with both edges at most 2000 passes unchanged; a larger one is the resampler's output |
| `Screenshot.ConstrainIdempotent` | src-tauri/src/screenshot.rs:90-94 | when the resampler, whenever it is called, returns an image that fits 2000x2000, constraining again changes nothing |
| `Screenshot.ToRgb8` | src-tauri/src/screenshot.rs:97 | dimensions are kept and the result holds exactly `w*h` packed RGB pixels, even from a longer container; each RGBA pixel keeps bytes 0..2 and loses its alpha; RGB pixels are copied, so an RGB image with an exact container is unchanged |
| `Screenshot.CaptureJpeg` | src-tauri/src/screenshot.rs:30-105 | a normalisation error (the `from_raw` refusals and the unsupported-format error) is passed through unchanged; otherwise the constrained, alpha-free image goes to the encoder, whose refusal gives the JPEG error and whose bytes are the result; no other error can arise |
| `Screenshot.CaptureScreen` | src-tauri/src/screenshot.rs:6-113 | every capture error is passed through, both those of enumeration and capture and those of normalisation and JPEG encoding; a successful result decodes as base64 to exactly the JPEG bytes and has four characters per started three bytes |
| `Screenshot.CaptureRegion` | src-tauri/src/screenshot.rs:116-145 | a capture failure is passed through; the base64 decode of the capture's own text never fails; an undecodable image gives the decode error and an encoder refusal the JPEG error; a result decodes as base64 to exactly the JPEG of the decoded capture cropped at the offsets reinterpreted as `u32` (a negative offset becomes its bit pattern) with the requested size, alpha dropped; and it succeeds whenever the decoder and the encoder do |
| `Pixels.ExpandRgb` | src-tauri/src/screenshot.rs:44-50 | output is four bytes per whole input triple; a trailing partial triple is ignored |
| `Pixels.ExpandRgbPixel` | src-tauri/src/screenshot.rs:45-50 | output pixel `k` is input triple `k` followed by alpha 255 |
| `Pixels.ExpandRgbPixels` | src-tauri/src/screenshot.rs:45-50 | every whole input triple reappears, in order, followed by alpha 255 |
| `Pixels.SwapRedBlue` | src-tauri/src/screenshot.rs:69-75 | length is kept up to whole pixels; a trailing partial pixel is ignored |
| `Pixels.SwapRedBluePixel` | src-tauri/src/screenshot.rs:70-75 | bytes 0 and 2 of output pixel `k` are bytes 2 and 0 of input pixel `k`; bytes 1 and 3 stay |
| `Pixels.SwapRedBlueInvolution` | src-tauri/src/screenshot.rs:69-75 | swapping twice restores every whole pixel |
| `Pixels.DropAlpha` | src-tauri/src/screenshot.rs:97 | output is three bytes per whole input pixel |
| `Pixels.DropAlphaPixel` | src-tauri/src/screenshot.rs:97 | output triple `k` is bytes 0..2 of input pixel `k` |
| `Pixels.DropAlphaPixels` | src-tauri/src/screenshot.rs:97 | every whole input pixel keeps its colour bytes, in order, and loses its alpha |
| `Pixels.DropAlphaPrefix` | src-tauri/src/screenshot.rs:97 | flattening the first `n` pixels of a container gives `3n` bytes: the colour bytes of exactly those pixels |
| `Pixels.DropAlphaExpandRgb` | src-tauri/src/screenshot.rs:44-50 | dropping the alpha that the RGB widening added gives back every whole RGB pixel |
| `Base64.Encode` | src-tauri/src/screenshot.rs:108 | the text has length `4 * ceil(n / 3)` and uses only the alphabet and `=` |
| `Base64.Decode` | src-tauri/src/screenshot.rs:123 | a text whose length is not a multiple of four is refused |
| `Base64.DecodeEncode` | src-tauri/src/screenshot.rs:123 | decoding the encoding of any byte sequence returns exactly those bytes |
| `Base64.EncodeDecode` | src-tauri/src/screenshot.rs:123 | every text the decoder accepts is the encoding of what it returns, so decoding is canonical |
| `Base64.DecodeAcceptsOnlyAlphabet` | src-tauri/src/screenshot.rs:123 | an accepted text consists only of alphabet characters and `=` |
| `BoundedInts.WrapU32` | src-tauri/src/screenshot.rs:31-32 | a product below 2^32 is kept; a larger one is reduced by a multiple of 2^32 and never grows |
| `BoundedInts.I32AsU32` | src-tauri/src/screenshot.rs:127 | a non-negative offset is kept; a negative one becomes itself plus 2^32 |
| `AppView.ConfidenceColor` | src/App.tsx:44-48 | green exactly from 0.8 up, yellow exactly on [0.6, 0.8), red exactly below 0.6 |
| `AppView.ConfidenceColorMonotone` | src/App.tsx:44-48 | a higher confidence never shows a lower colour on the ladder |
| `AppView.ToLower` | src/App.tsx:51 | each character is lower-cased on its own; no upper-case ASCII letter remains |
| `AppView.ToLowerIdempotent` | src/App.tsx:51 | lower-casing twice equals lower-casing once |
| `AppView.Contains` | src/App.tsx:52-55 | the search answers true exactly when the keyword occurs at some position |
| `AppView.RecommendationColor` | src/App.tsx:50-57 | red exactly when "fold" occurs; blue exactly for "call" without "fold"; green for "raise" or "bet" without the earlier two; purple for "all-in" with none of the others; gray when no keyword occurs |
| `AppView.RecommendationColorIgnoresCase` | src/App.tsx:51 | an action and its lower-cased form get the same class |
| `AppView.SameLowerSameColor` | src/App.tsx:51 | two actions with the same lower-cased form get the same class |
| `AppView.PreviewSource` | src/App.tsx:23 | the source is the JPEG data-URI prefix followed by exactly the payload |
| `AppView.PreviewPayload` | src/App.tsx:23 | a recovered payload, prefixed again, gives back the source it came from; no payload is found exactly when the text is no JPEG data-URI source at all |
| `AppView.PreviewPayloadRoundTrip` | src/App.tsx:23 | stripping the prefix from a preview source recovers the payload |

## Left out

- Display enumeration and capture (`screenshot.rs:10`, `:17`): operating-system I/O, taken as `Platform.screens` and `Platform.capture`.
- JPEG encoding and image decoding (`:58`, `:104`, `:124`, `:137`): a lossy codec whose code is not part of this model; `Platform.decode` and `Platform.jpeg` are uninterpreted, and no pixel-level round trip through them is claimed.
- `DynamicImage` variants other than RGBA8 and RGB8 (grey, 16-bit, float) that the decoder could return.
- Screenshot.Constrain: does not state the resampler's output dimensions (Lanczos3, aspect ratio, longer edge 2000), because that arithmetic is floating point inside the `image` crate.
- Screenshot.CaptureRegion: does not state what the crop returns; `crop_imm`'s clamping of the rectangle is internal to the `image` crate.
- Base64.Decode: the error variants are coarse (length, bad symbol, non-zero trailing bits) and carry no offset; the `base64` crate reports the offending offset and byte.
- A debug build panics on `u32` overflow at `screenshot.rs:31-32`; the model follows the wrapping of a release build.
- All logging, including the floating-point bytes-per-pixel ratio at `screenshot.rs:25`, and the `async` wrappers.
- The text of the error messages: errors are the `Screenshot.CaptureError` variants, each commented with the message it stands for.
- `src-tauri/src/poker_analyzer.rs`, `src-tauri/src/lib.rs` and `vite.config.ts` (HTTP client, prompt text, JSON parsing, command plumbing, build configuration) are not part of this model.
- React state and rendering in `App.tsx`, and the percentage formatting `(confidence * 100).toFixed(0)`.
- AppView.ConfidenceColor: confidence is a `real` standing for the shortest decimal that reads back as the JavaScript number (the text the JSON carries), not the number's exact binary value; under that reading the comparisons with 0.8 and 0.6 agree with `App.tsx:45-46` on every finite number (the double nearest 0.6 lies just below 3/5 but reads as `0.6`, which is yellow in both). A NaN, which every comparison rejects and so shows red, is not modelled.
- AppView.ToLower: lower-cases ASCII letters only; JavaScript's `toLowerCase` follows full Unicode case mapping.
