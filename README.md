# Video background removal: a verified model of the core

This project models, in Dafny, the computational core of a video
background-removal app and of the remote-control client that sends it
videos. The app is an Android program in Kotlin. The client is a React Native
program in JavaScript.

- **Video processing** (`VideoProcessor.kt`). The decode → segment → render →
  encode loop (`processFrames`) is modelled as an event machine. Its inputs are
  the answers of the extractor, decoder and encoder; its output is the trace of
  actions the loop takes. That trace is proved equal to `LoopActions`, a
  reference definition built pass by pass from the answers. The model also covers:
  - choosing the video track;
  - reading the Y, U and V planes of a `YUV_420_888` image through their row
    and pixel strides (`extractYUVPlanes`);
  - packing those planes into NV21 (`imageToBitmap`, `yuv420ToNv21`);
  - converting an ARGB frame to BT.601 NV12 for the encoder (`encodeBitmap`);
  - turning a float confidence mask into a grey bitmap
    (`createMaskBitmapFromFloat`);
  - the max/min filters `dilate` and `erode` over a (2r+1)×(2r+1) window, r = kernelSize / 2, and their composition
    `morphologyClose`.
- **Person segmentation** (`PersonSegmenter.kt`). This covers:
  - the guard that keeps the timestamps handed to the MediaPipe segmenter
    strictly increasing;
  - the exponential moving average (EMA) that smooths successive masks;
  - the segmenter's life cycle (initialize, setEmaAlpha, resetState, close).
- **All-objects segmentation** (`SegmentationProcessor.kt`). This covers:
  - the input normalisation and the tensor buffer sizes;
  - the per-pixel argmax over DeepLab class scores;
  - the foreground mask (any class other than background, 0) and the class
    histogram;
  - the interpreter life cycle.
- **Remote client** (`api.js`). This covers:
  - IP address validation;
  - the upload progress percentage;
  - the default file fields;
  - classification of a failed request into its user-facing message;
  - the results of `testConnection` and `uploadVideo`.

Code that changes things in place is imperative Dafny:
- the plane extraction, NV21/NV12 packing and morphology loops are methods over
  `array`s;
- the two segmenters are classes whose methods update their fields.

Each such method is proved against a specification function (`Plane`, `Nv21`,
`Nv12`, `Filtered`, `Winners`, `ForegroundMask`, …), and the properties the
program relies on are proved about those functions as lemmas. Pure code (the
client, the EMA arithmetic, the colour formulas) is modelled as functions.

Modelling conventions:
- Pixels are ARGB integers in 0 .. 2^32-1 (`Pixels.Argb`).
- Bytes are the `uint8` newtype.
- Kotlin's `shr 8` on an `Int` is an arithmetic shift, i.e. division by 256 rounded toward negative infinity; Dafny's `/` by a positive divisor rounds the same way, so `/ 256` models it for negative sums too.
- Float mask values and scores are `real`.
- Answers from the codecs, the segmentation models and the HTTP library are
  parameters of the model.

Modules: `Common` (Option, integer helpers), `Pixels`, `YuvPlanes`, `RgbToYuv`,
`Morphology`, `MaskBitmap`, `FrameLoop`, `SegmentationTypes`,
`PersonSegmentation`, `AllObjectsSegmentation`, `RemoteApi`.

## Model

| member | source | states |
|---|---|---|
| Pixels.Red | VideoBackgroundRemoval-main/app/src/main/java/com/example/videobackgroundremoval/video/VideoProcessor.kt:512 | the red channel `(p shr 16) and 0xFF` is a byte value 0 .. 255 |
| Pixels.Green | VideoBackgroundRemoval-main/app/src/main/java/com/example/videobackgroundremoval/video/VideoProcessor.kt:513 | the green channel is a byte value 0 .. 255 |
| Pixels.Blue | VideoBackgroundRemoval-main/app/src/main/java/com/example/videobackgroundremoval/video/VideoProcessor.kt:514 | the blue channel is a byte value 0 .. 255 |
| Pixels.GrayChannels | VideoBackgroundRemoval-main/app/src/main/java/com/example/videobackgroundremoval/video/VideoProcessor.kt:640-643 | an opaque grey pixel built from v has red, green and blue all equal to v and alpha 0xFF |
| YuvPlanes.FitsAt | VideoBackgroundRemoval-main/app/src/main/java/com/example/videobackgroundremoval/video/VideoProcessor.kt:741-745 | when the last sample of a strided plane is inside the buffer, every sample (r, c) is |
| YuvPlanes.RowSamplesAt | VideoBackgroundRemoval-main/app/src/main/java/com/example/videobackgroundremoval/video/VideoProcessor.kt:741-745 | column c of a strided row is the buffer byte at row*rowStride + c*pixelStride |
| YuvPlanes.PlaneAt | VideoBackgroundRemoval-main/app/src/main/java/com/example/videobackgroundremoval/video/VideoProcessor.kt:738-745 | entry r*cols + c of the extracted plane is the buffer byte at r*rowStride + c*pixelStride, and that offset is in range |
| YuvPlanes.PlaneLastRow | VideoBackgroundRemoval-main/app/src/main/java/com/example/videobackgroundremoval/video/VideoProcessor.kt:741-745 | the same for a sample in the plane's last row |
| YuvPlanes.PlaneEarlierRows | VideoBackgroundRemoval-main/app/src/main/java/com/example/videobackgroundremoval/video/VideoProcessor.kt:741-745 | removing the last row leaves the entries of the earlier rows unchanged |
| YuvPlanes.PlaneEntries | VideoBackgroundRemoval-main/app/src/main/java/com/example/videobackgroundremoval/video/VideoProcessor.kt:738-765 | every (row, col) of an extracted plane holds the strided buffer sample at that position |
| YuvPlanes.ContiguousPlane | VideoBackgroundRemoval-main/app/src/main/java/com/example/videobackgroundremoval/video/VideoProcessor.kt:437-441 | with row stride = width and pixel stride 1, the strided plane is just the first height*width bytes of the buffer (the bulk copy is the same as the loop) |
| YuvPlanes.ContiguousRow | VideoBackgroundRemoval-main/app/src/main/java/com/example/videobackgroundremoval/video/VideoProcessor.kt:447-448 | a row read with pixel stride 1 is the contiguous slice starting at row*rowStride |
| YuvPlanes.InterleaveAt | VideoBackgroundRemoval-main/app/src/main/java/com/example/videobackgroundremoval/video/VideoProcessor.kt:380-385 | position 2k of an interleaving is the first sequence's k-th value and position 2k+1 the second's |
| YuvPlanes.Zeros | VideoBackgroundRemoval-main/app/src/main/java/com/example/videobackgroundremoval/video/VideoProcessor.kt:357 | a new byte array of n entries is all zeros |
| YuvPlanes.Nv21Size | VideoBackgroundRemoval-main/app/src/main/java/com/example/videobackgroundremoval/video/VideoProcessor.kt:357 | the NV21 buffer `ySize + ySize/2` is large enough for the Y plane plus 2*(h/2)*(w/2) chroma bytes |
| YuvPlanes.Nv21Layout | VideoBackgroundRemoval-main/app/src/main/java/com/example/videobackgroundremoval/video/VideoProcessor.kt:357-386 | the NV21 array has the Y plane first, then V,U pairs (V at even, U at odd offsets), then zeros to the end |
| YuvPlanes.CopyRow | VideoBackgroundRemoval-main/app/src/main/java/com/example/videobackgroundremoval/video/VideoProcessor.kt:741-745 | copies one strided row into the destination; fails exactly when its last sample lies outside the buffer; nothing else changes |
| YuvPlanes.CopyPlane | VideoBackgroundRemoval-main/app/src/main/java/com/example/videobackgroundremoval/video/VideoProcessor.kt:738-745 | copies a whole strided plane; succeeds exactly when it fits the buffer, and then the destination slice is `Plane`; nothing else changes |
| YuvPlanes.ExtractPlane | VideoBackgroundRemoval-main/app/src/main/java/com/example/videobackgroundremoval/video/VideoProcessor.kt:738-765 | a new array of rows*cols bytes; succeeds exactly when the plane fits, and then holds `Plane` |
| YuvPlanes.ExtractYuvPlanes | VideoBackgroundRemoval-main/app/src/main/java/com/example/videobackgroundremoval/video/VideoProcessor.kt:717-768 | extractYUVPlanes: succeeds exactly when all three planes fit their buffers (an index past a buffer's end throws); then Y is the width×height plane and U and V the (w/2)×(h/2) planes read with the chroma strides |
| YuvPlanes.ChromaRowInterleaves | VideoBackgroundRemoval-main/app/src/main/java/com/example/videobackgroundremoval/video/VideoProcessor.kt:463-471 | one chroma row written V,U,V,U… is the interleaving of the V row with the U row |
| YuvPlanes.CopyChromaRow | VideoBackgroundRemoval-main/app/src/main/java/com/example/videobackgroundremoval/video/VideoProcessor.kt:463-471 | writes one row of V,U pairs; fails exactly when a sample lies outside either buffer; nothing else changes |
| YuvPlanes.InterleaveAppend | VideoBackgroundRemoval-main/app/src/main/java/com/example/videobackgroundremoval/video/VideoProcessor.kt:463-471 | interleaving distributes over concatenation, so row-by-row interleaving is plane interleaving |
| YuvPlanes.ChromaPairsInterleave | VideoBackgroundRemoval-main/app/src/main/java/com/example/videobackgroundremoval/video/VideoProcessor.kt:380-386 | the chroma part written row by row is the interleaving of the whole V plane with the whole U plane |
| YuvPlanes.CopyChromaPairs | VideoBackgroundRemoval-main/app/src/main/java/com/example/videobackgroundremoval/video/VideoProcessor.kt:380-386 | writes all V,U pairs; succeeds exactly when both chroma planes fit; nothing outside the written range changes |
| YuvPlanes.PackNv21 | VideoBackgroundRemoval-main/app/src/main/java/com/example/videobackgroundremoval/video/VideoProcessor.kt:343-386 | imageToBitmap's byte packing: the result has NV21 size and, when every plane fits, equals `Nv21(Y, V, U)` |
| YuvPlanes.AssembleNv21 | VideoBackgroundRemoval-main/app/src/main/java/com/example/videobackgroundremoval/video/VideoProcessor.kt:357-386 | a Y prefix, then interleaved chroma, then untouched zeros is exactly the NV21 layout |
| YuvPlanes.CopyLumaRows | VideoBackgroundRemoval-main/app/src/main/java/com/example/videobackgroundremoval/video/VideoProcessor.kt:437-451 | either copy path puts the Y plane (read with stride yRowStride, pixel stride 1) in the first height*width bytes, and succeeds exactly when every row fits |
| YuvPlanes.CopyLumaWhole | VideoBackgroundRemoval-main/app/src/main/java/com/example/videobackgroundremoval/video/VideoProcessor.kt:437-441 | the bulk copy when rowStride == width: the first height*width bytes become the Y plane |
| YuvPlanes.CopyLumaByRow | VideoBackgroundRemoval-main/app/src/main/java/com/example/videobackgroundremoval/video/VideoProcessor.kt:445-450 | the row-by-row copy: the first height*width bytes become the Y plane |
| YuvPlanes.CopyLumaRow | VideoBackgroundRemoval-main/app/src/main/java/com/example/videobackgroundremoval/video/VideoProcessor.kt:447-449 | one row of width bytes from offset row*rowStride lands at pos; nothing else changes |
| YuvPlanes.Yuv420ToNv21 | VideoBackgroundRemoval-main/app/src/main/java/com/example/videobackgroundremoval/video/VideoProcessor.kt:401-478 | yuv420ToNv21: the result has NV21 size and, when the planes fit, equals `Nv21` of the Y plane (pixel stride 1) and the V and U planes |
| RgbToYuv.Luma | VideoBackgroundRemoval-main/app/src/main/java/com/example/videobackgroundremoval/video/VideoProcessor.kt:517 | BT.601 luma of any pixel is in the studio range 16 .. 235 |
| RgbToYuv.ChromaU | VideoBackgroundRemoval-main/app/src/main/java/com/example/videobackgroundremoval/video/VideoProcessor.kt:531 | the U value of any pixel is in 16 .. 240 |
| RgbToYuv.ChromaV | VideoBackgroundRemoval-main/app/src/main/java/com/example/videobackgroundremoval/video/VideoProcessor.kt:532 | the V value of any pixel is in 16 .. 240 |
| RgbToYuv.BlackLuma | VideoBackgroundRemoval-main/app/src/main/java/com/example/videobackgroundremoval/video/VideoProcessor.kt:517 | opaque black has luma 16 |
| RgbToYuv.WhiteLuma | VideoBackgroundRemoval-main/app/src/main/java/com/example/videobackgroundremoval/video/VideoProcessor.kt:517-532 | opaque white has luma 235 and neutral chroma 128, 128 |
| RgbToYuv.LumaPlane | VideoBackgroundRemoval-main/app/src/main/java/com/example/videobackgroundremoval/video/VideoProcessor.kt:509-520 | the luma plane has one entry per pixel, each the pixel's luma |
| RgbToYuv.EvenCeil | VideoBackgroundRemoval-main/app/src/main/java/com/example/videobackgroundremoval/video/VideoProcessor.kt:524 | `x in 0 until width step 2` visits EvenCeil(width) / 2 columns: EvenCeil(width) is even, at most one more than width, and equal to width when width is even |
| RgbToYuv.UvPairs | VideoBackgroundRemoval-main/app/src/main/java/com/example/videobackgroundremoval/video/VideoProcessor.kt:524-536 | one chroma row has EvenCeil(width) bytes |
| RgbToYuv.UvPairsAt | VideoBackgroundRemoval-main/app/src/main/java/com/example/videobackgroundremoval/video/VideoProcessor.kt:524-536 | for an even column x, row byte x is U and x+1 is V of pixel x (U before V: NV12) |
| RgbToYuv.ImageRow | VideoBackgroundRemoval-main/app/src/main/java/com/example/videobackgroundremoval/video/VideoProcessor.kt:511 | row y of the image is width pixels starting at y*width |
| RgbToYuv.ChromaLengthSites | VideoBackgroundRemoval-main/app/src/main/java/com/example/videobackgroundremoval/video/VideoProcessor.kt:523-537 | the chroma bytes written are EvenCeil(width) per visited row, times the number of rows visited by `step 2` |
| RgbToYuv.UvRows | VideoBackgroundRemoval-main/app/src/main/java/com/example/videobackgroundremoval/video/VideoProcessor.kt:523-537 | the chroma written from row `from` on has the length `ChromaLength` counts |
| RgbToYuv.RowsLeftStep | VideoBackgroundRemoval-main/app/src/main/java/com/example/videobackgroundremoval/video/VideoProcessor.kt:523 | stepping y by 2 visits one row fewer |
| RgbToYuv.Nv12 | VideoBackgroundRemoval-main/app/src/main/java/com/example/videobackgroundremoval/video/VideoProcessor.kt:506-537 | the NV12 bytes an image produces have `Nv12Length` bytes: the luma plane, then the chroma rows |
| RgbToYuv.UvPairsRange | VideoBackgroundRemoval-main/app/src/main/java/com/example/videobackgroundremoval/video/VideoProcessor.kt:531-532 | every chroma byte of a row is in 16 .. 240 |
| RgbToYuv.UvRowsRange | VideoBackgroundRemoval-main/app/src/main/java/com/example/videobackgroundremoval/video/VideoProcessor.kt:523-537 | every chroma byte of the frame is in 16 .. 240 |
| RgbToYuv.Nv12Range | VideoBackgroundRemoval-main/app/src/main/java/com/example/videobackgroundremoval/video/VideoProcessor.kt:509-537 | the luma bytes of an NV12 frame are in 16 .. 235 and its chroma bytes in 16 .. 240 |
| RgbToYuv.WriteLuma | VideoBackgroundRemoval-main/app/src/main/java/com/example/videobackgroundremoval/video/VideoProcessor.kt:509-520 | the luma loop writes `LumaPlane(pixels)` into the first height*width bytes and nothing else |
| RgbToYuv.WriteLumaRow | VideoBackgroundRemoval-main/app/src/main/java/com/example/videobackgroundremoval/video/VideoProcessor.kt:510-519 | one row of the luma loop writes each pixel's luma at its own index |
| RgbToYuv.WriteUvRow | VideoBackgroundRemoval-main/app/src/main/java/com/example/videobackgroundremoval/video/VideoProcessor.kt:524-536 | one row of the chroma loop appends `UvPairs(row)`; it fails exactly when that would run past the array's end |
| RgbToYuv.UvPairsFromSamples | VideoBackgroundRemoval-main/app/src/main/java/com/example/videobackgroundremoval/video/VideoProcessor.kt:524-536 | a byte row with U then V of every even pixel is exactly `UvPairs` |
| RgbToYuv.WriteChroma | VideoBackgroundRemoval-main/app/src/main/java/com/example/videobackgroundremoval/video/VideoProcessor.kt:523-537 | the chroma loop writes all chroma rows after the luma plane; it completes exactly when the array holds `Nv12Length` bytes; luma is kept |
| RgbToYuv.WriteImageUvRow | VideoBackgroundRemoval-main/app/src/main/java/com/example/videobackgroundremoval/video/VideoProcessor.kt:523-536 | one pass of the `step 2` loop appends one chroma row or reports the overflow of the whole frame |
| RgbToYuv.WriteNv12 | VideoBackgroundRemoval-main/app/src/main/java/com/example/videobackgroundremoval/video/VideoProcessor.kt:506-537 | both loops fill the first `Nv12Length` bytes with `Nv12(pixels)`, and succeed exactly when the array is that long |
| RgbToYuv.AllocatedSize | VideoBackgroundRemoval-main/app/src/main/java/com/example/videobackgroundremoval/video/VideoProcessor.kt:499-502 | the buffer encodeBitmap allocates, `ySize + ySize/2`, holds at least the luma plane |
| RgbToYuv.EncodeBitmapAsWritten | VideoBackgroundRemoval-main/app/src/main/java/com/example/videobackgroundremoval/video/VideoProcessor.kt:483-550 | encodeBitmap as written: no input buffer → nothing; when NV12 needs more than `ySize + ySize/2` bytes the write throws; otherwise the encoder gets the whole NV12 frame, or the put throws when the codec buffer is smaller |
| RgbToYuv.EncodeBitmap | VideoBackgroundRemoval-main/app/src/main/java/com/example/videobackgroundremoval/video/VideoProcessor.kt:483-550 | encodeBitmap with a buffer of the NV12 size: queues the complete NV12 frame with offset 0, size `Nv12Length` and the given timestamp, or throws when the codec buffer is too small |
| RgbToYuv.EvenSizeFits | VideoBackgroundRemoval-main/app/src/main/java/com/example/videobackgroundremoval/video/VideoProcessor.kt:499-502 | for even width and height the allocated buffer is exactly the NV12 size |
| RgbToYuv.OddSizeOverflows | VideoBackgroundRemoval-main/app/src/main/java/com/example/videobackgroundremoval/video/VideoProcessor.kt:499-502 | for any non-empty frame with an odd width or height the loops need more bytes than are allocated |
| RgbToYuv.AllocatedFitsExactly | VideoBackgroundRemoval-main/app/src/main/java/com/example/videobackgroundremoval/video/VideoProcessor.kt:499-537 | whenever the frame fits the allocated buffer, it fills it exactly |
| RgbToYuv.OnePixelFrameOverflows | VideoBackgroundRemoval-main/app/src/main/java/com/example/videobackgroundremoval/video/VideoProcessor.kt:499-537 | a 1×1 frame gets a 1-byte buffer but needs 3 bytes |
| Morphology.Start | VideoBackgroundRemoval-main/app/src/main/java/com/example/videobackgroundremoval/video/VideoProcessor.kt:674 | the accumulator starts at a byte value (0 for dilation, 255 for erosion) |
| Morphology.Combine | VideoBackgroundRemoval-main/app/src/main/java/com/example/videobackgroundremoval/video/VideoProcessor.kt:681 | `coerceAtLeast`/`coerceAtMost`: the result is the larger (dilation) or smaller (erosion) of the two and is one of them |
| Morphology.NeighbourIndex | VideoBackgroundRemoval-main/app/src/main/java/com/example/videobackgroundremoval/video/VideoProcessor.kt:678-680 | the neighbour's coordinates are clamped into the image, so its index is in range |
| Morphology.Sample | VideoBackgroundRemoval-main/app/src/main/java/com/example/videobackgroundremoval/video/VideoProcessor.kt:678-680 | the red channel of the clamped neighbour is a byte value |
| Morphology.KernelRow | VideoBackgroundRemoval-main/app/src/main/java/com/example/videobackgroundremoval/video/VideoProcessor.kt:677-682 | scanning one kernel row keeps a byte value |
| Morphology.Kernel | VideoBackgroundRemoval-main/app/src/main/java/com/example/videobackgroundremoval/video/VideoProcessor.kt:676-683 | scanning the kernel keeps a byte value |
| Morphology.WindowValue | VideoBackgroundRemoval-main/app/src/main/java/com/example/videobackgroundremoval/video/VideoProcessor.kt:672-685 | the window value of a pixel is a byte value |
| Morphology.Filtered | VideoBackgroundRemoval-main/app/src/main/java/com/example/videobackgroundremoval/video/VideoProcessor.kt:668-688 | the filtered image has one pixel per input pixel |
| Morphology.FilteredAt | VideoBackgroundRemoval-main/app/src/main/java/com/example/videobackgroundremoval/video/VideoProcessor.kt:684 | output pixel (y, x) is the opaque grey of the window's value |
| Morphology.FilteredRow | VideoBackgroundRemoval-main/app/src/main/java/com/example/videobackgroundremoval/video/VideoProcessor.kt:673-685 | every pixel of output row y is the opaque grey of its window's value |
| Morphology.KernelRowExtremum | VideoBackgroundRemoval-main/app/src/main/java/com/example/videobackgroundremoval/video/VideoProcessor.kt:677-682 | the scan of a kernel row is at least (dilation) or at most (erosion) every sample seen and the start, and equals one of them |
| Morphology.KernelExtremum | VideoBackgroundRemoval-main/app/src/main/java/com/example/videobackgroundremoval/video/VideoProcessor.kt:676-683 | the same over the rows scanned so far |
| Morphology.WindowExtremum | VideoBackgroundRemoval-main/app/src/main/java/com/example/videobackgroundremoval/video/VideoProcessor.kt:668-710 | dilation gives the maximum and erosion the minimum of the clamped (2r+1)×(2r+1) window, attained by some neighbour; a negative radius leaves the start value |
| Morphology.ClampCloser | VideoBackgroundRemoval-main/app/src/main/java/com/example/videobackgroundremoval/video/VideoProcessor.kt:679-680 | clamping a coordinate into the image moves it no further from an in-image point |
| Morphology.DilationExtensive | VideoBackgroundRemoval-main/app/src/main/java/com/example/videobackgroundremoval/video/VideoProcessor.kt:668-688 | dilation never darkens a pixel |
| Morphology.ErosionAntiExtensive | VideoBackgroundRemoval-main/app/src/main/java/com/example/videobackgroundremoval/video/VideoProcessor.kt:690-710 | erosion never brightens a pixel |
| Morphology.DilatedNeighbourBound | VideoBackgroundRemoval-main/app/src/main/java/com/example/videobackgroundremoval/video/VideoProcessor.kt:668-688 | every neighbour in the window of a dilated image is at least as bright as the original pixel |
| Morphology.ClosingExtensive | VideoBackgroundRemoval-main/app/src/main/java/com/example/videobackgroundremoval/video/VideoProcessor.kt:653-666 | morphological closing (dilate, then erode with the same kernel) never darkens a pixel: it only fills holes |
| Morphology.WindowScan | VideoBackgroundRemoval-main/app/src/main/java/com/example/videobackgroundremoval/video/VideoProcessor.kt:676-683 | the nested ky/kx loops compute `WindowValue` |
| Morphology.RowScan | VideoBackgroundRemoval-main/app/src/main/java/com/example/videobackgroundremoval/video/VideoProcessor.kt:677-682 | the inner kx loop computes `KernelRow` |
| Morphology.FilterRow | VideoBackgroundRemoval-main/app/src/main/java/com/example/videobackgroundremoval/video/VideoProcessor.kt:673-685 | one row of the output loop writes the target row and nothing else |
| Morphology.Filter | VideoBackgroundRemoval-main/app/src/main/java/com/example/videobackgroundremoval/video/VideoProcessor.kt:668-710 | a fresh array of one pixel per input pixel holding `Filtered` with radius kernelSize / 2 (truncated) |
| Morphology.Dilate | VideoBackgroundRemoval-main/app/src/main/java/com/example/videobackgroundremoval/video/VideoProcessor.kt:668-688 | a fresh array holding the dilation `Filtered(Dilation, …)` with radius kernelSize / 2 |
| Morphology.Erode | VideoBackgroundRemoval-main/app/src/main/java/com/example/videobackgroundremoval/video/VideoProcessor.kt:690-710 | a fresh array holding the erosion `Filtered(Erosion, …)` with radius kernelSize / 2 |
| Morphology.MorphologyClose | VideoBackgroundRemoval-main/app/src/main/java/com/example/videobackgroundremoval/video/VideoProcessor.kt:653-666 | a fresh array holding the erosion of the dilation with the same radius |
| MaskBitmap.TruncateToInt | VideoBackgroundRemoval-main/app/src/main/java/com/example/videobackgroundremoval/video/VideoProcessor.kt:636 | `toInt()` truncates toward zero |
| MaskBitmap.GradientLevel | VideoBackgroundRemoval-main/app/src/main/java/com/example/videobackgroundremoval/video/VideoProcessor.kt:636 | the gradient level is `floor(value*255)` clamped into 0 .. 255: 0 at or below 0, 255 at or above 1 |
| MaskBitmap.ThresholdLevel | VideoBackgroundRemoval-main/app/src/main/java/com/example/videobackgroundremoval/video/VideoProcessor.kt:641 | the binary level is 255 exactly when the confidence is at least 0.5, otherwise 0 |
| MaskBitmap.GradientMonotone | VideoBackgroundRemoval-main/app/src/main/java/com/example/videobackgroundremoval/video/VideoProcessor.kt:636 | a higher confidence never gives a darker gradient pixel |
| MaskBitmap.TruncateMonotone | VideoBackgroundRemoval-main/app/src/main/java/com/example/videobackgroundremoval/video/VideoProcessor.kt:636 | truncation is monotone |
| MaskBitmap.ModesAgreeOnBinaryMask | VideoBackgroundRemoval-main/app/src/main/java/com/example/videobackgroundremoval/video/VideoProcessor.kt:634-643 | on a 0/1 mask the gradient and binary modes give the same pixels |
| MaskBitmap.Level | VideoBackgroundRemoval-main/app/src/main/java/com/example/videobackgroundremoval/video/VideoProcessor.kt:634-643 | the chosen mode's level is a byte value |
| MaskBitmap.MaskPixels | VideoBackgroundRemoval-main/app/src/main/java/com/example/videobackgroundremoval/video/VideoProcessor.kt:629-647 | fails exactly when the mask has fewer than width*height values (the index throws) or the width or height is 0 (`createBitmap` throws); otherwise one opaque grey pixel per position, of that position's level |
| MaskBitmap.MaskPixelsGrey | VideoBackgroundRemoval-main/app/src/main/java/com/example/videobackgroundremoval/video/VideoProcessor.kt:637-643 | each mask pixel has equal red, green and blue, equal to its level, and alpha 0xFF |
| FrameLoop.SelectVideoTrack | VideoBackgroundRemoval-main/app/src/main/java/com/example/videobackgroundremoval/video/VideoProcessor.kt:597-606 | the index of the first track whose MIME type starts with "video/", or -1 when no track does |
| FrameLoop.CountFrames | VideoBackgroundRemoval-main/app/src/main/java/com/example/videobackgroundremoval/video/VideoProcessor.kt:225-294 | a pass counts a frame exactly when the decoded buffer has data and an image, so at most one frame is counted per pass |
| FrameLoop.Extend | VideoBackgroundRemoval-main/app/src/main/java/com/example/videobackgroundremoval/video/VideoProcessor.kt:198-334 | an action allowed in the current state keeps the trace invariants: muxer started before any write, only non-empty samples written, no input after end of stream, a single start |
| FrameLoop.MuxerPart | VideoBackgroundRemoval-main/app/src/main/java/com/example/videobackgroundremoval/video/VideoProcessor.kt:311-333 | the muxer's part of a trace: its starts and writes, in order, and nothing else |
| FrameLoop.MuxerPartAppend | VideoBackgroundRemoval-main/app/src/main/java/com/example/videobackgroundremoval/video/VideoProcessor.kt:311-333 | the muxer's part of a concatenation is the concatenation of the parts |
| FrameLoop.NonMuxerAppend | VideoBackgroundRemoval-main/app/src/main/java/com/example/videobackgroundremoval/video/VideoProcessor.kt:200-308 | appending decoder and encoder-input actions leaves the muxer's part unchanged |
| FrameLoop.NextStarted | VideoBackgroundRemoval-main/app/src/main/java/com/example/videobackgroundremoval/video/VideoProcessor.kt:312-316 | once started the muxer's track never changes; it is started exactly when it was or the encoder reports a format change |
| FrameLoop.MuxerStep | VideoBackgroundRemoval-main/app/src/main/java/com/example/videobackgroundremoval/video/VideoProcessor.kt:311-333 | one encoder answer makes the muxer start or write exactly when it is a format change or a non-empty buffer and does not misuse the muxer |
| FrameLoop.StartedTrack | VideoBackgroundRemoval-main/app/src/main/java/com/example/videobackgroundremoval/video/VideoProcessor.kt:311-316 | after a run of passes the muxer is started exactly when some pass reported a format change |
| FrameLoop.HaltsAt | VideoBackgroundRemoval-main/app/src/main/java/com/example/videobackgroundremoval/video/VideoProcessor.kt:198-334 | the loop halts within a run of passes exactly when some pass ends the stream or throws, given the passes before it |
| FrameLoop.FeedDecoder | VideoBackgroundRemoval-main/app/src/main/java/com/example/videobackgroundremoval/video/VideoProcessor.kt:200-219 | once input is done nothing is queued; with a free slot, a negative sample size appends end of stream and ends input, any other size appends the sample and then the progress report; without a slot nothing happens; in every case the trace grows by exactly `FeedActions` |
| FrameLoop.HandleDecoded | VideoBackgroundRemoval-main/app/src/main/java/com/example/videobackgroundremoval/video/VideoProcessor.kt:222-308 | a frame is counted exactly when the decoded buffer has data and an image, also when its processing throws; it is rendered only when that work succeeds; the end-of-stream flag then appends the encoder's end-of-input signal and ends input; in every case the trace grows by exactly `DecodeActions` |
| FrameLoop.DrainEncoder | VideoBackgroundRemoval-main/app/src/main/java/com/example/videobackgroundremoval/video/VideoProcessor.kt:311-333 | a format change appends the start of the muxer on the added track; a non-empty encoded buffer appends a write to the started track, an empty one nothing; a second start or a write before start faults, appends nothing and leaves the muxer state as it was; the end-of-stream flag ends the loop; in every case the trace grows by exactly `MuxerStep` |
| FrameLoop.LoopPass | VideoBackgroundRemoval-main/app/src/main/java/com/example/videobackgroundremoval/video/VideoProcessor.kt:198-334 | one pass keeps the trace invariants and appends exactly `PassActions`: the decoder's input part, then its output part, then the muxer step (empty when the pass throws); input is closed afterwards exactly as `InputDoneAfterPass` says; it counts a frame exactly when the decoded buffer holds an image, throws exactly when the encoder's answer misuses the muxer, otherwise ends the loop exactly on an end-of-stream buffer; the muxer state moves as `NextStarted` says |
| FrameLoop.ProcessFrames | VideoBackgroundRemoval-main/app/src/main/java/com/example/videobackgroundremoval/video/VideoProcessor.kt:179-337 | over the environment's answers the whole trace is `LoopActions` of the passes made, the throwing pass's decoder part included; it never writes before `start`, writes no empty sample, feeds no input after end of stream and starts once; `frameCount` counts the decoded frames of the passes made; no pass before the last ends the loop; the loop throws exactly when the last pass misuses the muxer and ends exactly when the last pass is an end-of-stream buffer that does not; the muxer's starts and writes are exactly those `MuxerActions` derives from the passes made (without the throwing one) |
| FrameLoop.FeedActions | VideoBackgroundRemoval-main/app/src/main/java/com/example/videobackgroundremoval/video/VideoProcessor.kt:200-219 | the decoder-input actions of one pass: none once input is done or without a free slot; at most two; end of stream is queued exactly when input is open and the extractor returned a negative size |
| FrameLoop.DecodeActions | VideoBackgroundRemoval-main/app/src/main/java/com/example/videobackgroundremoval/video/VideoProcessor.kt:222-308 | the decoder-output actions of one pass: none without a decoded buffer; at most two; the first is a render of that buffer's time exactly when the buffer has data and an image and the frame work succeeded; the encoder's end-of-input signal is among them exactly when the buffer is flagged end-of-stream |
| FrameLoop.InputDoneAfterPass | VideoBackgroundRemoval-main/app/src/main/java/com/example/videobackgroundremoval/video/VideoProcessor.kt:200-306 | once the input side is closed it stays closed |
| FrameLoop.PassClosesInput | VideoBackgroundRemoval-main/app/src/main/java/com/example/videobackgroundremoval/video/VideoProcessor.kt:200-306 | a pass closes the input side exactly when it queues end of stream to the decoder or signals end of input to the encoder |
| FrameLoop.PassActions | VideoBackgroundRemoval-main/app/src/main/java/com/example/videobackgroundremoval/video/VideoProcessor.kt:198-334 | one pass appends at most five actions, and a pass that misuses the muxer appends only its decoder part |
| FrameLoop.PassMuxerPart | VideoBackgroundRemoval-main/app/src/main/java/com/example/videobackgroundremoval/video/VideoProcessor.kt:311-333 | the muxer's part of one pass is exactly its muxer step |
| FrameLoop.InputDoneAt | VideoBackgroundRemoval-main/app/src/main/java/com/example/videobackgroundremoval/video/VideoProcessor.kt:200-306 | after a run of passes the input side is closed exactly when some pass read a negative sample size or decoded an end-of-stream buffer |
| FrameLoop.LoopMuxerPart | VideoBackgroundRemoval-main/app/src/main/java/com/example/videobackgroundremoval/video/VideoProcessor.kt:198-334 | the muxer's part of everything a run of passes does is exactly the `MuxerActions` of those passes |
| FrameLoop.DecoderSide | VideoBackgroundRemoval-main/app/src/main/java/com/example/videobackgroundremoval/video/VideoProcessor.kt:200-308 | feeding the decoder and then handling its output keeps the trace invariants, appends exactly `FeedActions` then `DecodeActions`, counts a frame exactly when the decoded buffer holds an image and closes input as `InputDoneAfterPass` says |
| FrameLoop.RunPasses | VideoBackgroundRemoval-main/app/src/main/java/com/example/videobackgroundremoval/video/VideoProcessor.kt:198-334 | the `while (!outputDone)` loop over the answers: it stops at an end-of-stream buffer, a throwing pass or the end of the polls; the trace is `LoopActions` of the passes made and keeps the trace invariants; no pass before the last ends the loop, and a run that is not stopped has no halting pass at all |
| SegmentationTypes.CountAbove | VideoBackgroundRemoval-main/app/src/main/java/com/example/videobackgroundremoval/ml/PersonSegmenter.kt:147 | the number of mask values above the threshold: 0 exactly when none is above it, the mask length exactly when all are |
| SegmentationTypes.ZeroMask | VideoBackgroundRemoval-main/app/src/main/java/com/example/videobackgroundremoval/ml/PersonSegmenter.kt:114 | `FloatArray(n)` is n zeros |
| PersonSegmentation.SafeTimestamp | VideoBackgroundRemoval-main/app/src/main/java/com/example/videobackgroundremoval/ml/PersonSegmenter.kt:78-83 | the timestamp passed on is after the last one and not before the request; it is the request or the last one plus 1 |
| PersonSegmentation.SafeTimestamps | VideoBackgroundRemoval-main/app/src/main/java/com/example/videobackgroundremoval/ml/PersonSegmenter.kt:78-83 | one timestamp per call of a run |
| PersonSegmentation.SafeTimestampsIncrease | VideoBackgroundRemoval-main/app/src/main/java/com/example/videobackgroundremoval/ml/PersonSegmenter.kt:78-83 | whatever timestamps are requested, the segmenter sees a strictly increasing sequence after the last one |
| PersonSegmentation.ClampUnit | VideoBackgroundRemoval-main/app/src/main/java/com/example/videobackgroundremoval/ml/PersonSegmenter.kt:174 | `coerceIn(0, 1)`: the weight is kept when in range, else clamped to the nearer bound |
| PersonSegmentation.EmaBetween | VideoBackgroundRemoval-main/app/src/main/java/com/example/videobackgroundremoval/ml/PersonSegmenter.kt:138-140 | with a weight in 0 .. 1 the smoothed value lies between the current and the previous value |
| PersonSegmentation.EmaExample | VideoBackgroundRemoval-main/app/src/main/java/com/example/videobackgroundremoval/ml/PersonSegmenter.kt:138-140 | weight 0.3 blends 0.8 over 0.2 into 0.38 |
| PersonSegmentation.Ema | VideoBackgroundRemoval-main/app/src/main/java/com/example/videobackgroundremoval/ml/PersonSegmenter.kt:138-140 | weight 0 keeps the previous value, weight 1 takes the current one, equal values stay; the step from the previous value is the weight times the difference |
| PersonSegmentation.Blend | VideoBackgroundRemoval-main/app/src/main/java/com/example/videobackgroundremoval/ml/PersonSegmenter.kt:138-140 | the blended mask has n entries, each the EMA of the current and previous entries |
| PersonSegmentation.BlendInUnitRange | VideoBackgroundRemoval-main/app/src/main/java/com/example/videobackgroundremoval/ml/PersonSegmenter.kt:133-141 | blending two masks in 0 .. 1 gives a mask in 0 .. 1 |
| PersonSegmentation.PersonSegmenter.constructor | VideoBackgroundRemoval-main/app/src/main/java/com/example/videobackgroundremoval/ml/PersonSegmenter.kt:20-29 | no segmenter, output 256×256, no previous mask, weight 0.3, last timestamp 0 |
| PersonSegmentation.PersonSegmenter.Initialize | VideoBackgroundRemoval-main/app/src/main/java/com/example/videobackgroundremoval/ml/PersonSegmenter.kt:39-66 | the segmenter is open exactly when creation succeeded; a failure is rethrown; nothing else changes |
| PersonSegmentation.PersonSegmenter.SegmentPerson | VideoBackgroundRemoval-main/app/src/main/java/com/example/videobackgroundremoval/ml/PersonSegmenter.kt:74-165 | the timestamp guard always advances; with no segmenter or no mask: an all-zero mask of the current size, labelled as an error, state untouched; otherwise the output size becomes the mask's; the mask is kept as is or EMA-blended with the previous one when one exists and the weight is below 0.99; the result becomes the previous mask; the person count is the number of values above 0.5; values stay in 0 .. 1 |
| PersonSegmentation.PersonSegmenter.SetEmaAlpha | VideoBackgroundRemoval-main/app/src/main/java/com/example/videobackgroundremoval/ml/PersonSegmenter.kt:173-176 | the weight becomes the argument clamped into 0 .. 1; nothing else changes |
| PersonSegmentation.PersonSegmenter.ResetState | VideoBackgroundRemoval-main/app/src/main/java/com/example/videobackgroundremoval/ml/PersonSegmenter.kt:181-185 | the previous mask and last timestamp are cleared, so the next call is not blended |
| PersonSegmentation.PersonSegmenter.Close | VideoBackgroundRemoval-main/app/src/main/java/com/example/videobackgroundremoval/ml/PersonSegmenter.kt:190-195 | the segmenter and previous mask are released; the rest is kept |
| AllObjectsSegmentation.Winner | VideoBackgroundRemoval-main/app/src/main/java/com/example/videobackgroundremoval/ml/SegmentationProcessor.kt:168-180 | argmax starting from `-Float.MAX_VALUE`: the chosen class is 0 or a valid class index |
| AllObjectsSegmentation.WinnerIsFirstMaximum | VideoBackgroundRemoval-main/app/src/main/java/com/example/videobackgroundremoval/ml/SegmentationProcessor.kt:168-180 | the chosen class holds the maximum score and is the first class that does (strict `>`); when every score is at most `-Float.MAX_VALUE` it is class 0 |
| AllObjectsSegmentation.ForegroundIff | VideoBackgroundRemoval-main/app/src/main/java/com/example/videobackgroundremoval/ml/SegmentationProcessor.kt:170-186 | a pixel is foreground exactly when some later class beats class 0 strictly (and beats `-Float.MAX_VALUE`) |
| AllObjectsSegmentation.SingleClassIsBackground | VideoBackgroundRemoval-main/app/src/main/java/com/example/videobackgroundremoval/ml/SegmentationProcessor.kt:94 | a model with one output class marks every pixel as background |
| AllObjectsSegmentation.Winners | VideoBackgroundRemoval-main/app/src/main/java/com/example/videobackgroundremoval/ml/SegmentationProcessor.kt:168-187 | one chosen class per output pixel |
| AllObjectsSegmentation.WinnersBelow | VideoBackgroundRemoval-main/app/src/main/java/com/example/videobackgroundremoval/ml/SegmentationProcessor.kt:168-180 | every chosen class is below the class count (or 0 when there are no classes) |
| AllObjectsSegmentation.ForegroundMask | VideoBackgroundRemoval-main/app/src/main/java/com/example/videobackgroundremoval/ml/SegmentationProcessor.kt:186 | the mask is 1.0 exactly where the class is not background and 0.0 exactly where it is |
| AllObjectsSegmentation.ForegroundCount | VideoBackgroundRemoval-main/app/src/main/java/com/example/videobackgroundremoval/ml/SegmentationProcessor.kt:186-191 | the person-pixel count is the number of pixels whose class is not 0 |
| AllObjectsSegmentation.HistogramTotal | VideoBackgroundRemoval-main/app/src/main/java/com/example/videobackgroundremoval/ml/SegmentationProcessor.kt:166-182 | the class histogram's counts add up to the number of output pixels |
| AllObjectsSegmentation.CountsSumToPixels | VideoBackgroundRemoval-main/app/src/main/java/com/example/videobackgroundremoval/ml/SegmentationProcessor.kt:182 | a histogram of classes below k has counts summing to the number of pixels |
| AllObjectsSegmentation.SumMatches | VideoBackgroundRemoval-main/app/src/main/java/com/example/videobackgroundremoval/ml/SegmentationProcessor.kt:182 | the histogram's counts below k equal the number of pixels whose class is below k |
| AllObjectsSegmentation.MultiplicitiesSum | VideoBackgroundRemoval-main/app/src/main/java/com/example/videobackgroundremoval/ml/SegmentationProcessor.kt:182 | when all classes are below k every pixel is counted below k |
| AllObjectsSegmentation.NoPixelsNoCounts | VideoBackgroundRemoval-main/app/src/main/java/com/example/videobackgroundremoval/ml/SegmentationProcessor.kt:166 | no pixels give no counts |
| AllObjectsSegmentation.MultiplicityAddOne | VideoBackgroundRemoval-main/app/src/main/java/com/example/videobackgroundremoval/ml/SegmentationProcessor.kt:182 | one more pixel adds one to the count of classes below k exactly when its class is below k |
| AllObjectsSegmentation.Normalized | VideoBackgroundRemoval-main/app/src/main/java/com/example/videobackgroundremoval/ml/SegmentationProcessor.kt:141-143 | channel / 255 is in 0 .. 1 |
| AllObjectsSegmentation.InputBufferBytes | VideoBackgroundRemoval-main/app/src/main/java/com/example/videobackgroundremoval/ml/SegmentationProcessor.kt:126 | `4 * h * w * 3` bytes hold exactly three floats per input pixel |
| AllObjectsSegmentation.OutputBufferBytes | VideoBackgroundRemoval-main/app/src/main/java/com/example/videobackgroundremoval/ml/SegmentationProcessor.kt:154 | `4 * h * w * classes` bytes hold exactly one float per class per output pixel |
| AllObjectsSegmentation.SegmentationProcessor.constructor | VideoBackgroundRemoval-main/app/src/main/java/com/example/videobackgroundremoval/ml/SegmentationProcessor.kt:38-46 | no interpreter, no GPU delegate, person mode, all dimensions 0 |
| AllObjectsSegmentation.SegmentationProcessor.Initialize | VideoBackgroundRemoval-main/app/src/main/java/com/example/videobackgroundremoval/ml/SegmentationProcessor.kt:56-105 | throws exactly when loading the model, creating the GPU delegate (when supported) or the interpreter fails, or a shape has fewer than 3 entries; the delegate and interpreter are open when created; each dimension is set exactly when every step before it succeeded, else kept; classes are the 4th output dimension or 1 |
| AllObjectsSegmentation.SegmentationProcessor.SetMode | VideoBackgroundRemoval-main/app/src/main/java/com/example/videobackgroundremoval/ml/SegmentationProcessor.kt:46 | the public `mode` property takes the new value; nothing else changes |
| AllObjectsSegmentation.SegmentationProcessor.SegmentBitmap | VideoBackgroundRemoval-main/app/src/main/java/com/example/videobackgroundremoval/ml/SegmentationProcessor.kt:122-213 | the input is every pixel's R, G, B / 255 filling the input buffer; the mask is the foreground of the per-pixel argmax (of zeros when there is no interpreter); the histogram counts those classes; the person count is the non-background pixels |
| AllObjectsSegmentation.SegmentationProcessor.Close | VideoBackgroundRemoval-main/app/src/main/java/com/example/videobackgroundremoval/ml/SegmentationProcessor.kt:218-224 | the interpreter and GPU delegate are released; shapes and mode are kept |
| AllObjectsSegmentation.NormalizeInput | VideoBackgroundRemoval-main/app/src/main/java/com/example/videobackgroundremoval/ml/SegmentationProcessor.kt:137-147 | three floats per pixel, red, green, blue / 255, all in 0 .. 1 |
| AllObjectsSegmentation.ArgMaxClass | VideoBackgroundRemoval-main/app/src/main/java/com/example/videobackgroundremoval/ml/SegmentationProcessor.kt:170-180 | the class loop computes `Winner` of the pixel's scores |
| AllObjectsSegmentation.ClassifyPixels | VideoBackgroundRemoval-main/app/src/main/java/com/example/videobackgroundremoval/ml/SegmentationProcessor.kt:165-187 | the pixel loop produces `ForegroundMask(Winners)` and a histogram of `Winners` |
| AllObjectsSegmentation.ClassifyPixel | VideoBackgroundRemoval-main/app/src/main/java/com/example/videobackgroundremoval/ml/SegmentationProcessor.kt:168-187 | one pass extends the mask and the histogram by one pixel's class |
| AllObjectsSegmentation.HistogramStep | VideoBackgroundRemoval-main/app/src/main/java/com/example/videobackgroundremoval/ml/SegmentationProcessor.kt:182 | `counts[c] = (counts[c] ?: 0) + 1` keeps the map a histogram of the classes seen |
| AllObjectsSegmentation.ForegroundMaskStep | VideoBackgroundRemoval-main/app/src/main/java/com/example/videobackgroundremoval/ml/SegmentationProcessor.kt:186 | one more pixel appends its 0/1 mask value |
| AllObjectsSegmentation.WinnersStep | VideoBackgroundRemoval-main/app/src/main/java/com/example/videobackgroundremoval/ml/SegmentationProcessor.kt:168-180 | the classes of i+1 pixels are those of i pixels plus the next pixel's |
| RemoteApi.DigitChar | video-remote-app/src/utils/api.js:103 | digit characters and their values correspond |
| RemoteApi.ParseDecimal | video-remote-app/src/utils/api.js:103 | `parseInt(·, 10)` of n digits is a value below 10^n |
| RemoteApi.FormatDecimal | video-remote-app/src/utils/api.js:103 | decimal digits without a leading zero |
| RemoteApi.ParseFormat | video-remote-app/src/utils/api.js:103 | `parseInt(·, 10)` reads back the decimal form of any number |
| RemoteApi.FormatByteLength | video-remote-app/src/utils/api.js:95 | every octet value 0 .. 255 has at most three digits, as the pattern allows |
| RemoteApi.FormatInjective | video-remote-app/src/utils/api.js:103 | distinct numbers have distinct decimal forms |
| RemoteApi.Split | video-remote-app/src/utils/api.js:101 | `split('.')` gives at least one part, none containing a dot |
| RemoteApi.JoinSplit | video-remote-app/src/utils/api.js:101 | joining the parts of a split with the separator restores the string |
| RemoteApi.SplitJoin | video-remote-app/src/utils/api.js:101 | splitting a join of dot-free parts restores the parts |
| RemoteApi.PatternMeaning | video-remote-app/src/utils/api.js:95-99 | the pattern matches exactly the strings that are four groups of 1 to 3 ASCII digits joined by dots |
| RemoteApi.MatchesIpPattern | video-remote-app/src/utils/api.js:95-99 | a string the pattern accepts has 7 to 15 characters |
| RemoteApi.JoinFourLength | video-remote-app/src/utils/api.js:95 | four pieces joined by dots take their lengths plus three |
| RemoteApi.ValidateIp | video-remote-app/src/utils/api.js:94-106 | an accepted address matches the pattern (so has 7 to 15 characters); one the pattern rejects is never accepted |
| RemoteApi.ValidMeansFourOctets | video-remote-app/src/utils/api.js:94-106 | an accepted address splits into exactly four digit groups, each read as a number 0 .. 255 |
| RemoteApi.DottedQuadAccepted | video-remote-app/src/utils/api.js:94-106 | every address a.b.c.d with octets 0 .. 255 written in decimal is accepted |
| RemoteApi.GroupsAcceptedIff | video-remote-app/src/utils/api.js:94-106 | four digit groups joined by dots match the pattern, and are accepted exactly when each group's value is at most 255 |
| RemoteApi.LeadingZerosAccepted | video-remote-app/src/utils/api.js:101-105 | leading zeros are accepted ("010.0.0.1"), since parseInt base 10 ignores them |
| RemoteApi.ValidateExampleAccepted | video-remote-app/src/utils/api.js:94-106 | "192.168.1.100" is accepted |
| RemoteApi.ValidateExampleRejected | video-remote-app/src/utils/api.js:101-105 | "256.1.1.1" matches the pattern but is rejected by the range check |
| RemoteApi.PatternRejects | video-remote-app/src/utils/api.js:95-99 | three groups, five groups and a four-digit group are rejected by the pattern |
| RemoteApi.ProgressPercent | video-remote-app/src/utils/api.js:54-56 | `Math.round(loaded*100/total)`: the nearest integer, halves rounded up |
| RemoteApi.ProgressBounds | video-remote-app/src/utils/api.js:54-56 | progress is 0 .. 100, 0 at the start and 100 at the end |
| RemoteApi.ProgressMonotone | video-remote-app/src/utils/api.js:54-56 | more bytes sent never lowers the percentage |
| RemoteApi.OnUploadProgress | video-remote-app/src/utils/api.js:52-60 | a percentage is reported exactly when there is a callback and a non-zero total, and it is `ProgressPercent` |
| RemoteApi.ReportedProgress | video-remote-app/src/utils/api.js:52-60 | at most one report per progress event, none without a callback |
| RemoteApi.ReportedProgressMonotone | video-remote-app/src/utils/api.js:52-60 | over an upload whose loaded bytes grow, the reported percentages are in 0 .. 100, never decrease, and the last is that of the last event |
| RemoteApi.ReportedBelowLast | video-remote-app/src/utils/api.js:52-60 | no report exceeds the percentage of the largest loaded count |
| RemoteApi.Classify | video-remote-app/src/utils/api.js:72-80 | a timeout code wins; otherwise a response means a server error with its status; otherwise a sent request means unreachable; otherwise the generic failure |
| RemoteApi.FailureMessageInjective | video-remote-app/src/utils/api.js:72-80 | different failures give different messages |
| RemoteApi.FailureMessage | video-remote-app/src/utils/api.js:72-80 | exactly the server error's message has the marker character at index 4; it is the prefix followed by the status in decimal |
| RemoteApi.ErrorMessage | video-remote-app/src/utils/api.js:72-80 | the timeout message for `ECONNABORTED`; else the server-error prefix and status when a response came; else the unreachable message when the request was sent; else the generic message |
| RemoteApi.ServerStatusRecoverable | video-remote-app/src/utils/api.js:76-77 | the server-error message is the prefix followed by the status in decimal, which reads back as the status |
| RemoteApi.OrDefault | video-remote-app/src/utils/api.js:38-39 | `value || fallback`: the value when present and non-empty, else the fallback |
| RemoteApi.FileToUpload | video-remote-app/src/utils/api.js:36-40 | the uri is kept; type and name are the file's when non-empty, else 'video/mp4' and 'video.mp4'; neither is empty |
| RemoteApi.FileToUploadIdempotent | video-remote-app/src/utils/api.js:36-40 | filling in defaults twice is the same as once |
| RemoteApi.TestConnection | video-remote-app/src/utils/api.js:11-22 | connected exactly when the health check answered with status 'ok'; any failure is false |
| RemoteApi.UploadVideo | video-remote-app/src/utils/api.js:31-87 | success with the server's data exactly when the upload went through; otherwise failure with the classified message |

## Left out

- The MediaCodec decoder and encoder, MediaExtractor and MediaMuxer are not modelled. What they answer in each pass of `processFrames` is the `Poll` input, and what the loop does is the `Action` trace. `processVideo`'s set-up (configuring codecs, rotation, the output format, `createOutputFormat`) and its teardown are left out.
- FrameLoop.ProcessFrames: runs over a finite sequence of polls and ends with `OutOfPolls` when they run out, where the real loop keeps polling forever.
- FrameLoop.ProcessFrames: the per-frame work (plane extraction, segmentation, rendering) is a single `frameOk` flag. Its pieces are modelled separately.
- FrameLoop.FeedDecoder: reports progress as the pair (sample time, total duration). The float division `time / totalDuration` is not modelled.
- The JPEG round trip at the end of `imageToBitmap` (`YuvImage.compressToJpeg`, `BitmapFactory.decodeByteArray`) is lossy image coding and is left out. `PackNv21` models the NV21 bytes it compresses.
- `imageToBitmapForSegmentation`, `resizeMask`, `applyWhiteBackgroundSimple` and `BackgroundReplacementRenderer` are outside the modelled core.
- Bitmap scaling (`createScaledBitmap`) and `getPixels` are left out. Pixels arrive as the `pixels` sequence, already at the model's input size.
- The segmentation models (MediaPipe `segmentForVideo`, TFLite `Interpreter.run`) are inputs. Model loading, the GPU compatibility check and the creation of the delegate and the interpreter become the `modelLoaded`, `useGpu`, `delegateCreated`, `interpreterCreated` and shape parameters of `SegmentationProcessor.Initialize`; whether MediaPipe created its segmenter is the `created` parameter of `PersonSegmenter.Initialize`.
- Float arithmetic is modelled with exact reals. Single-precision rounding, NaN and infinities are left out. `-Float.MAX_VALUE` is a constant.
- Kotlin `Int` overflow (for instance `width * height` beyond 2^31) and the 64-bit wrap of timestamps are not modelled, because integers are unbounded.
- The `debugInfo` text, timings, percentages, the top-5 category ranking and all `Log` calls are left out. Diagnostics keep only the counts they report.
- The HTTP transport (axios, URLs, `FormData`, headers) is left out. The port 3000 and the health check's and upload's timeouts (5000 ms, 300000 ms) are transport settings and are not modelled; a timeout reaches the model as the `ECONNABORTED` code. What each request ended with is the `HealthOutcome` or `UploadOutcome` input. `console.error` is left out.
- RemoteApi.MatchesIpPattern: the regular expression is modelled by its meaning (four dot-separated groups of 1 to 3 ASCII digits) rather than by a regex engine.
- The 10×10 colour probe at the start of `segmentPerson` only feeds diagnostics and is left out. It would throw for a bitmap smaller than 10×10.
- Coroutines and dispatchers (`withContext`) are left out. Every operation is sequential.
- Bytes written to a `ByteArray` are the `uint8` values that `toByte()` stores. Signedness is not modelled, because every value written is in 0 .. 255.

## Findings

| source | as written | input that shows it | evidently intended | confidence | as-written member | corrected member |
|---|---|---|---|---|---|---|
| VideoBackgroundRemoval-main/app/src/main/java/com/example/videobackgroundremoval/video/VideoProcessor.kt:499-537 | encodeBitmap allocates `ySize + ySize/2` bytes. Its chroma loop (`step 2` over rows and columns) writes EvenCeil(width) bytes for each of ceil(height/2) rows. So any non-empty frame with an odd width or height writes past the array's end and throws `ArrayIndexOutOfBoundsException` | a 1×1 bitmap: 1 byte allocated, 3 bytes written | a buffer of exactly the bytes the loops write, which equals `ySize + ySize/2` for even dimensions | not executed | RgbToYuv.EncodeBitmapAsWritten (with RgbToYuv.OddSizeOverflows, RgbToYuv.OnePixelFrameOverflows) | RgbToYuv.EncodeBitmap (with RgbToYuv.EvenSizeFits, RgbToYuv.AllocatedFitsExactly) |
