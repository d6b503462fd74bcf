# Video background remover: the per-frame mask and composite step

This project models the core of a video background-removal service. A
segmentation network gives a foreground probability for every pixel of a
frame. The service binarises that map and then builds the output image in
one of two ways:

- **realtime**: keep the frame's pixels under the mask and make every other
  pixel zero;
- **file**: keep the frame's pixels under the mask and fill every other pixel
  with a solid colour. The colour comes from a hex code such as `#RRGGBB`,
  or is white when no code is given.

The model covers `hex_to_rgb` and `remove_background` in
`app/background_removal.py`. The network and the two `cv2.resize` calls are
abstracted away. The caller passes `prob`, which is channel 0 of the network's
prediction after it has been resized back to the frame's size (line 41).
Probabilities are Dafny `real`s, so the comparison with 0.5 is exact.

Modules:

- `Results` (results.dfy): `Option`, `Result`, and the two exceptions the code
  can raise. `ValueError` comes from `int(..., 16)`. `ResizeError` comes from
  `cv2.resize` on a frame with no pixels.
- `Bytes` (bytes.dfy): `uint8` channel values and their arithmetic. This
  covers bitwise AND, complement, the clipping add of `cv2.add`, numpy's
  wrap-around multiply, and the unsafe cast.
- `Arrays` (arrays.dfy): images as `seq<seq<Pixel>>`, plus the whole-array
  numpy and OpenCV operations that the step chains together. Each operation
  returns a new array with the same shape as its inputs.
- `HexColor` (hex_color.dfy): `hex_to_rgb`. Each slice is read by a model of
  Python's `int(field, 16)` on ASCII text. That model accepts surrounding
  whitespace, an optional sign and one or more hex digits, and returns `None`
  wherever Python raises.
- `BackgroundRemoval` (background_removal.dfy): the binary mask, the two
  masked layers, the solid composite, the colour choice and
  `remove_background` itself.

Where the service's intended design and its code differ, the model follows
the code:

- A malformed colour code such as `"zzz"` does not fall back to white. It
  raises `ValueError` (`HexToRgbRejects`). Only `None` or `""` gives white.
- There is no transparent (alpha) mode in `remove_background`.
- There is no duration limit on uploaded videos.
- An empty frame fails inside `cv2.resize`. That is `ResizeError` here, and it
  is raised before the colour is parsed.

## Model

| member | source | states |
|---|---|---|
| `HexColor.StripHashes` | app/background_removal.py:14 | `lstrip('#')`: the result is no longer than the input and does not start with `#` |
| `HexColor.StripHashesSplits` | app/background_removal.py:14 | the input is a run of `#` followed by the result, so `lstrip` removes those and nothing else |
| `HexColor.Field` | app/background_removal.py:15 | the slice `[i:i+2]` has at most two characters; it is the pair at `i` when the code is long enough, the last character alone when only one is left, and empty past the end |
| `HexColor.HexToRgbIgnoresHashes` | app/background_removal.py:14 | any number of leading `#` characters leaves the result unchanged |
| `HexColor.HexToRgbIgnoresTail` | app/background_removal.py:15 | once at least six characters remain after stripping, anything appended after them is ignored |
| `HexColor.ParseHexInt` | app/background_removal.py:15 | `int('', 16)` raises: an empty slice, which is what a short code leaves, never parses |
| `HexColor.TwoDigitField` | app/background_removal.py:15 | a slice of two hex digits is read as 16·first + second |
| `HexColor.OneDigitField` | app/background_removal.py:15 | a one-character slice, which is the last one of a five-character code, is read as a single digit |
| `HexColor.SignedField` | app/background_removal.py:15 | `int` accepts a `+` or `-` before the digit, and `-` negates it |
| `HexColor.SpacedField` | app/background_removal.py:15 | `int` skips C-locale whitespace (tab, LF, VT, FF, CR, space) in front of the digit |
| `HexColor.FieldRange` | app/background_removal.py:15 | a slice that parses has a value in -15..255 |
| `HexColor.HexToRgbRange` | app/background_removal.py:15 | every component that `hex_to_rgb` returns lies in -15..255 |
| `HexColor.HexToRgbWellFormed` | app/background_removal.py:14-15 | six hex digits after the `#`s give `Ok` of the three pair values 16·d(c₂ᵢ)+d(c₂ᵢ₊₁), each in 0..255 |
| `HexColor.PairField` | app/background_removal.py:15 | each of the slices at offsets 0, 2 and 4 of a well-formed code is read as its pair of digits |
| `HexColor.HexToRgbTooShort` | app/background_removal.py:15 | fewer than five characters after stripping is `ValueError`, because the last slice is empty |
| `HexColor.HexToRgbRed` | app/background_removal.py:12-15 | `"#FF0000"` gives (255, 0, 0) |
| `HexColor.HexToRgbGreen` | app/background_removal.py:12-15 | `"00FF00"` gives (0, 255, 0) |
| `HexColor.HexToRgbWhite` | app/background_removal.py:12-15 | `"#FFFFFF"` gives (255, 255, 255) |
| `HexColor.HexToRgbRejects` | app/background_removal.py:15 | `"zzz"`, `"#"` and `"zzzzzz"` raise `ValueError`; there is no white fallback |
| `HexColor.HexToRgbRejectsSeparator` | app/background_removal.py:15 | a code starting with the ASCII separator 0x1C raises `ValueError`, since `int` does not skip it |
| `HexColor.HexToRgbShort` | app/background_removal.py:15 | `"12345"` is accepted and gives (0x12, 0x34, 5) |
| `HexColor.HexToRgbSignsAndSpaces` | app/background_removal.py:15 | `" f+1-2"` is accepted and gives (15, 1, -2) |
| `Bytes.Wrap` | app/background_removal.py:53 | the unsafe cast to uint8 keeps the value modulo 256, and keeps it unchanged when it is already in 0..255 |
| `Bytes.BitAnd` | app/background_removal.py:48 | AND is at most either operand, `x & x == x`, and AND with 0 is 0 |
| `Arrays.Greater` | app/background_removal.py:44 | `mask[:, :, 0] > 0.5` keeps the shape of the map |
| `Arrays.AsUint8` | app/background_removal.py:44 | `.astype(np.uint8)` keeps the shape |
| `Arrays.Multiply` | app/background_removal.py:44 | `* 255` keeps the shape |
| `Arrays.BitwiseAnd` | app/background_removal.py:48 | `cv2.bitwise_and` with a mask keeps the shape of its inputs |
| `Arrays.BitwiseNot` | app/background_removal.py:57 | `cv2.bitwise_not` keeps the shape |
| `Arrays.Full` | app/background_removal.py:53 | `np.full((h, w, 3), …)` is h × w |
| `Arrays.Add` | app/background_removal.py:60 | `cv2.add` keeps the shape |
| `BackgroundRemoval.BinaryMask` | app/background_removal.py:44 | the mask has the map's shape, holds only 0 and 255, and is 255 exactly where the probability is strictly greater than 0.5 |
| `BackgroundRemoval.TieIsBackground` | app/background_removal.py:44 | a map that is exactly 0.5 everywhere gives an all-background mask |
| `BackgroundRemoval.MaskedFrame` | app/background_removal.py:48 | `bitwise_and(frame, frame, mask)` keeps the frame's pixel where the mask is set and is black elsewhere, with the frame's shape |
| `BackgroundRemoval.MaskedFill` | app/background_removal.py:53-57 | the fill layer is h × w, holds the colour where the mask is not 255, and is black where it is 255 |
| `BackgroundRemoval.NoClipping` | app/background_removal.py:56-60 | with a 0/255 mask, at every pixel one of `fg_mask` and `bg_mask` is black, so no channel sum exceeds 255 and `cv2.add` never clips |
| `BackgroundRemoval.CompositeSolid` | app/background_removal.py:53-60 | the file branch's image has the frame's shape; with a 0/255 mask it is the frame's pixel under the mask and the fill colour elsewhere |
| `BackgroundRemoval.BackgroundRgb` | app/background_removal.py:52 | the colour choice fails only with `hex_to_rgb`'s `ValueError` on a non-empty string; a tuple it returns has components in -15..255 |
| `BackgroundRemoval.FillPixel` | app/background_removal.py:53 | `np.full` stores an in-range colour tuple unchanged, in the tuple's order |
| `BackgroundRemoval.DefaultColorIsWhite` | app/background_removal.py:17-53 | absent, empty and the default `"#FFFFFF"` all give a white fill |
| `BackgroundRemoval.RemoveBackground` | app/background_removal.py:17-61 | an empty frame is `ResizeError`; in the file branch a bad colour is `ValueError`; otherwise the result has the frame's shape and at each pixel is the frame's pixel if p > 0.5, else black in the realtime branch or the fill colour in the file branch |
| `BackgroundRemoval.RealtimeIgnoresColor` | app/background_removal.py:47-52 | the realtime branch returns before the colour is parsed, so its result does not depend on the colour |
| `BackgroundRemoval.RealtimeAllBackground` | app/background_removal.py:47-49 | a frame that is background everywhere comes out all black in the realtime branch |
| `BackgroundRemoval.AllForegroundKeepsFrame` | app/background_removal.py:44-60 | a frame that is foreground everywhere comes out unchanged in both branches |
| `BackgroundRemoval.MaskedFrameIdempotent` | app/background_removal.py:48 | masking the masked frame again with the same mask changes nothing |
| `BackgroundRemoval.CompositeSolidIdempotent` | app/background_removal.py:56-60 | compositing the file branch's image again with the same 0/255 mask and colour returns the same image |
| `BackgroundRemoval.RemoveBackgroundIdempotent` | app/background_removal.py:44-61 | running `remove_background` again on its own output, with the same map, branch and colour, returns that output |

## Left out

- Model loading and inference (app/background_removal.py:7-10, 38) are calls into TensorFlow. The network's output is the input `prob`.
- The `cv2.resize` interpolation and the `/255.0` scaling (lines 34-35, 41) are floating-point library numerics. `prob` is already at frame resolution, and a `requires` ties its shape to the frame's. The one outcome of the resize that is modelled is its failure on an empty frame.
- Python's `int` also accepts non-ASCII whitespace and Unicode decimal digits, which it converts before parsing. The model reads ASCII text only. Underscores and a `0x` prefix are never valid in a slice of at most two characters, so the model leaves them out.
- `background_color` values that are neither `None` nor a string are not modelled.
- Channel order: OpenCV frames are BGR, but `hex_to_rgb` returns an RGB tuple that goes straight into the array. The model keeps channels in array order (`c0`, `c1`, `c2`) and makes no claim about the visible colour.
- The unsafe cast in `np.full` is modelled as keeping the low 8 bits. This only matters for a negative component such as `"-f"`, which wraps to 241. This reading follows how numpy casts a tuple fill value.
- Frames other than H × W × 3 uint8 arrays, such as grayscale or 4-channel frames, are not modelled.
- Transparent or 4-channel output does not exist in `remove_background`. `app/main.py:60` passes an unknown `transparent=` argument, so that call raises `TypeError` before any processing.
- The rest of app/main.py is not part of this model: the Flask route and upload, `cv2.VideoCapture` reading, PNG writes, the ffmpeg call, and the cleanup thread that uses wall-clock file ages.
- BackgroundRemoval.CompositeSolid: the per-pixel result is stated only for 0/255 masks, which is the only kind `BinaryMask` produces. With other mask values the two layers overlap and `cv2.add` clips.
