# Thermal-look image filter: the exact core

`termal.py` turns one photo into a fake monochrome thermal-camera frame.
It masks vegetation by an HSV threshold and keeps the other pixels. It greys,
enhances and inverts them. Then it forces the vegetation to black, bends the
frame with a barrel distortion, and zooms into the centre. This project models
the parts of that pipeline that work on whole bytes and integers:

- `Raster` (raster.dfy): uint8 samples (`Byte`) and images as rows of
  pixels. It holds the two bitwise operations the script uses on uint8 data
  (`cv2.bitwise_not` is `255 - v`, `cv2.bitwise_and` is AND on 8 bits). It
  also views a 2-D `array2<Byte>` buffer as an image.
- `Vegetation` (vegetation.dfy): the `cv2.inRange` box test with the lower
  corner (40, 40, 40) and the upper corner (80, 255, 255). It also holds the
  masked `cv2.bitwise_and(image, image, mask=bitwise_not(mask))` that blanks
  the green pixels.
- `Thermal` (thermal.dfy): the inversion and the blackout
  `thermal_bw[mask > 0] = 0`. The blackout is a value (`Blackout`) and also an
  in-place nested loop over the buffer (`BlackoutInPlace`). The module holds
  the whole of `simulate_bw_thermal` too: a specification function
  (`ThermalFrame`) and a method (`SimulateBwThermal`) that allocates the
  inverted frame and blacks it out in place. A failed decode gives `None`.
- `Zoom` (zoom.dfy): the crop window of `zoom_and_crop`, the slice, and the
  shape of the resized result. The zoom factor is the rational `num / den`,
  so `int(w / zoom)` becomes `(w * den) / num`. All values are positive, so
  Python's truncation and Dafny's floor agree.

Inputs the script gets from OpenCV code that is not shown are parameters
of the model:
- `toHsv`: the per-pixel BGR-to-HSV conversion.
- `toGray`: the per-pixel BGR-to-grey conversion.
- `enhance`: CLAHE, gamma correction and min-max normalisation together.
  The model assumes only that it keeps the image's shape.
- `sample`: the interpolation kernel of the resize.

The main result is `Thermal.ThermalFrameSpec`. Whatever those parameters do,
the returned frame is 0 at every pixel whose HSV value lies in the green box.

Three behaviours of the code shape the model:
- On a failed decode the code prints a warning and returns `None`; it raises
  no error. The model returns `None`.
- The code does not reject a zoom below 1 or a crop window under one pixel. The
  model takes zoom >= 1 and a window of at least 1x1 as preconditions. It does
  not model what the code does outside them.
- The code has no special case for a uniform grey image in normalisation. That
  step is part of the opaque `enhance`.

## Model

| member | source | states |
|---|---|---|
| Raster.NotIsBitwise | termal.py:43 | Not, defined as 255 - v, agrees with flipping all eight bits on every 8-bit word, which is what bitwise_not does |
| Raster.NotGrid | termal.py:43 | bitwise_not keeps the image's shape and maps every sample v to the byte 255 - v |
| Raster.NotAntitone | termal.py:43 | inversion reverses the order of samples |
| Raster.NotSwapsExtremes | termal.py:43 | inversion maps 0 to 255 and 255 to 0 |
| Raster.NotInvolutive | termal.py:43 | inverting a sample twice gives it back |
| Raster.NotGridInvolutive | termal.py:43 | inverting an image twice gives the image back |
| Raster.AndSelf | termal.py:26 | a byte and-ed with itself is unchanged, so bitwise_and(image, image) copies the image |
| Raster.NewBuffer | termal.py:43 | allocates a fresh h-by-w buffer holding the given h-by-w image (at its call site, the inverted frame) |
| Vegetation.InRange | termal.py:20 | inRange gives 0 or 255 for a pixel, and never 255 for an empty box |
| Vegetation.GreenMask | termal.py:17-20 | the mask has the HSV image's shape, every entry is 0 or 255, and it is 255 exactly when 40 <= H <= 80, 40 <= S <= 255 and 40 <= V <= 255 |
| Vegetation.NonGreen | termal.py:26 | the non-green copy has the image's shape; a pixel with mask 255 becomes (0,0,0) and any other pixel is copied unchanged |
| Thermal.Blackout | termal.py:48 | after the blackout the shape is kept, every position with mask > 0 is 0 and every position with mask 0 is unchanged |
| Thermal.BlackoutIdempotent | termal.py:48 | blacking out a second time with the same mask changes nothing |
| Thermal.BlackoutInPlace | termal.py:48 | the in-place update leaves the buffer holding exactly the blacked-out image of its old contents |
| Thermal.ThermalFrame | termal.py:4-50 | the result of simulate_bw_thermal exists exactly when the image was decoded, and then has the image's shape |
| Thermal.ThermalFrameSpec | termal.py:4-50 | the decoded frame is 0 at every green pixel, whatever the grey and enhancement stages produce |
| Thermal.ThermalFrameUnmasked | termal.py:26-48 | at a pixel outside the green box the frame is 255 minus the enhanced grey value |
| Thermal.SimulateBwThermal | termal.py:4-50 | returns None exactly when decoding failed; otherwise a fresh buffer holding the frame that ThermalFrameSpec describes |
| Zoom.CropSize | termal.py:71-72 | int(n / zoom) for zoom num/den is the largest m with m * num <= n * den |
| Zoom.CropSizeAtMost | termal.py:71-72 | for zoom >= 1 the crop size int(n / zoom) is at most n |
| Zoom.CropSizeUnit | termal.py:71-72 | for zoom 1 the crop size is n |
| Zoom.CropWindow | termal.py:70-74 | the window has the crop size, lies inside the frame (0 <= start, start + size <= extent), and is centred: its far margin equals its near margin or is one larger |
| Zoom.CropWindowUnit | termal.py:70-74 | with zoom 1 the window is the whole frame |
| Zoom.Crop | termal.py:75 | the slice has exactly height rows of width pixels, each the frame pixel offset by the window's start |
| Zoom.CropWhole | termal.py:75 | slicing the whole frame gives the frame back |
| Zoom.Resize | termal.py:76 | the resize result has h rows of w pixels |
| Zoom.ZoomAndCrop | termal.py:69-77 | the zoomed frame always has the input's h rows of w pixels |
| Zoom.ZoomAndCropSpec | termal.py:69-77 | the region handed to the resize has CropSize(h) rows of CropSize(w) pixels, each the frame pixel offset by the centred start |
| Zoom.ZoomUnit | termal.py:69-77 | with zoom 1 the resize is applied to the whole, uncropped frame |

## Left out

- Reading and writing files and the top-level script (termal.py:5, 82-93). Decoding is an input: the decoded image or `None`.
- The warning printed on a failed decode (termal.py:8). It is console output only; the model keeps the `None` result.
- The default `zoom_factor=1.0` (termal.py:69). Dafny has no default arguments; the caller passes the factor, and Zoom.ZoomUnit covers zoom 1.
- The colour conversions BGR-to-HSV and BGR-to-grey (termal.py:14, 29). They run inside OpenCV with fixed-point coefficients that are not shown, so they are per-pixel parameter functions.
- CLAHE, gamma correction and `cv2.normalize` (termal.py:32-40). They are library numerics in floating point, so they are one opaque shape-preserving function. The uniform-image case of normalisation lives inside it.
- `barrel_distortion` (termal.py:52-67). It is floating-point radial remapping with bilinear interpolation and border replication.
- The bicubic interpolation of `cv2.resize` (termal.py:76). Only the output shape is fixed; each output pixel comes from an opaque `sample` function.
- Zoom.ZoomAndCrop: a zoom below 1 and a window under 1x1 are excluded by preconditions. For a zoom below 1 the code slices from a negative start, which Python reads from the end of the array. For a window under 1x1 `cv2.resize` fails; the code has no guard.
- Zoom.CropSize: the zoom is a rational number. Where `w / zoom_factor` rounds in floating point to just below a whole number, the code's `int()` may differ by one from the exact quotient.
- `cv2.bitwise_and` writes zeros where the operation mask is 0 because the output array is freshly allocated. The model takes this as given.
