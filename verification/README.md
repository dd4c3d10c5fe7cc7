# Pixel marshalling of the webcam style-transfer app

The app (`nn_js_ws/src/index.js`) grabs a webcam frame from a canvas. It
runs a body-segmentation network and a style-transfer network on the frame.
Then it paints the styled colours over every pixel the segmentation mask
does not mark as the person. The file holds three hand-written loops over
flat pixel buffers, and these loops are what this project models. Only the
compositing loop runs in the live per-frame path
(`laptopSegmentationalStyleTransfer`, which hands its tensors to
TensorFlow.js). The two conversion loops are called only from the
`styleTransfer` method (lines 150-162), which nothing invokes:

- **`imageDataToTensor`** turns the interleaved RGBA bytes of an ImageData
  (4 bytes per pixel, row-major) into the planar float data of a
  `[1, 3, height, width]` tensor. The red, green and blue planes are each
  `height * width` values, and alpha is dropped.
- **`tensorToImageData`** walks back the other way. It reads the three
  planes of `h * w` values and writes red, green, blue and an opaque alpha
  `0xFF` per pixel into a fresh `Uint8ClampedArray` of `4 * width * height`
  bytes.
- **The compositing loop** of `laptopSegmentationalStyleTransfer` updates
  the frame in place. Every pixel whose mask value is not 1 takes its red,
  green and blue from the interleaved 3-channel style buffer. Its alpha and
  every masked pixel stay as they are.

The project has four modules:

- `bytes.dfy` (module `Bytes`) models the `Uint8ClampedArray`. Its elements
  are bytes, and a store clamps the value into 0..255. A store at or past
  the end does nothing.
- `layout.dfy` (module `Layout`) holds the two layouts as functions over
  pixels:
  - `Pixels` reads the pixels of an RGBA buffer.
  - `Planes` splits pixels into planar data, and `Unplanes` joins planar
    data back into pixels.
  - `Interleave` gives the values written into an RGBA buffer.

  Its lemmas give these functions' meaning index by index, and prove the
  two round trips and that alpha is ignored.
- `marshal.dfy` (module `Marshal`) has the two conversion loops as methods
  over arrays. They keep the source's nested `y`/`x` loops and its running
  cursors, and each is proved equal to the layout functions.
- `compositing.dfy` (module `Compositing`) has the compositing loop as an
  in-place method on the frame's bytes. It is proved equal to a pixel-by-pixel
  definition.

## Model

| member | source | states |
|---|---|---|
| Bytes.Clamp | nn_js_ws/src/index.js:198 | a value stored into the Uint8ClampedArray is kept as is when it is in 0..255, becomes 0 below and 255 above |
| Bytes.Put | nn_js_ws/src/index.js:210-213 | the buffer after one element store keeps its length (PutAt gives its contents) |
| Bytes.Filled | nn_js_ws/src/index.js:198 | the zero-filled array after storing a sequence of values keeps its allocated size (StoredAll and ImageDataAt give its contents) |
| Bytes.Store | nn_js_ws/src/index.js:210-213 | an element store changes only the byte at its index, to the clamped value, and a store past the end changes nothing |
| Bytes.PutAt | nn_js_ws/src/index.js:210-213 | after a store, the byte at the stored index is the clamped value and every other byte is unchanged |
| Bytes.Stored | nn_js_ws/src/index.js:198-214 | the array part way through the loop of stores keeps its allocated size (StoredAt gives its contents) |
| Bytes.StoredAt | nn_js_ws/src/index.js:198-215 | after the first `d` stores into the zero-filled array, byte `i` holds value `i` clamped if `i < d` and is still 0 otherwise |
| Bytes.StoredAll | nn_js_ws/src/index.js:198-215 | storing the values in order, one at a time, leaves the array holding every value that fits, clamped, with zeros past the last value |
| Bytes.FilledBytes | nn_js_ws/src/index.js:198 | values that are already bytes are stored unchanged |
| Layout.Pixels | nn_js_ws/src/index.js:179-184 | an RGBA buffer of `4n` bytes has `n` pixels |
| Layout.Planes | nn_js_ws/src/index.js:167 | the planar layout of `n` pixels has `3n` values (PlanesAt and TensorAt give its contents) |
| Layout.Unplanes | nn_js_ws/src/index.js:203-205 | planes of `n` values each make `n` pixels |
| Layout.Interleave | nn_js_ws/src/index.js:208-214 | `n` pixels are written as `4n` values (InterleaveAt gives their contents) |
| Layout.TensorAt | nn_js_ws/src/index.js:172-189 | for pixel `k`, the tensor holds source byte `4k` at `k`, `4k+1` at `height*width + k` and `4k+2` at `2*height*width + k`, with values unchanged |
| Layout.TensorFromImageData | nn_js_ws/src/index.js:179-190 | conversely, any data of `3n` values that holds those bytes at those places is the planar layout of the image |
| Layout.TensorIgnoresAlpha | nn_js_ws/src/index.js:181-184 | two images that differ only in alpha bytes give the same tensor |
| Layout.InterleaveAt | nn_js_ws/src/index.js:208-214 | pixel `k` is written at values `4k..4k+3` as its red, green, blue and then 0xFF |
| Layout.ImageDataAt | nn_js_ws/src/index.js:198-213 | byte `4k+c` of the image is value `c*n + k` of the tensor clamped for c = 0, 1, 2, and byte `4k+3` is 255, for every tensor pixel that fits in the array |
| Layout.PixelsOfInterleave | nn_js_ws/src/index.js:181-184 | reading the pixels of the values written for some pixels gives those pixels back |
| Layout.InterleaveOfPixels | nn_js_ws/src/index.js:210-213 | writing out the pixels of an opaque RGBA buffer gives the buffer back |
| Layout.InterleaveBytes | nn_js_ws/src/index.js:210-213 | byte-valued planes produce only byte values, so the clamp does not change them |
| Layout.PlanesOfUnplanes | nn_js_ws/src/index.js:203-205 | joining three planes of `n` values into pixels and splitting them again gives the planes back |
| Layout.UnplanesOfPlanes | nn_js_ws/src/index.js:173-175 | splitting pixels into planes and joining the planes again gives the pixels back |
| Layout.RoundTripPlanar | nn_js_ws/src/index.js:179-189 | planes of byte values, converted to an image of the same pixel count and back, come back unchanged |
| Layout.RoundTripInterleaved | nn_js_ws/src/index.js:208-214 | an opaque image converted to planes and back comes back unchanged |
| Marshal.TensorPrefix | nn_js_ws/src/index.js:167-189 | the output data part way through the loop keeps its `3*height*width` values (TensorPrefixStep and TensorPrefixDone relate it to the loop and to the planar layout) |
| Marshal.TensorPrefixDone | nn_js_ws/src/index.js:179-190 | once every pixel has been copied, the output is the planar layout of the source |
| Marshal.ImageDataToTensor | nn_js_ws/src/index.js:164-194 | returns fresh data of exactly `1*3*height*width` values with dims `[1, 3, height, width]`, holding the planar layout of the source pixels with alpha dropped |
| Marshal.PixelValues | nn_js_ws/src/index.js:203-213 | the three running tensor cursors read exactly the red, green and blue of the pixel that the destination cursor writes, followed by 0xFF |
| Marshal.StoredPixel | nn_js_ws/src/index.js:210-213 | the four stores of one pixel extend the stored prefix by four values |
| Marshal.StorePixel | nn_js_ws/src/index.js:210-213 | the four element stores of one pixel, with alpha forced to 0xFF |
| Marshal.TensorToImageData | nn_js_ws/src/index.js:196-215 | returns a fresh array of `4*width*height` bytes holding the tensor's pixels interleaved with opaque alpha, each value clamped; stores past the end are dropped, and bytes past the tensor's pixels stay 0 |
| Compositing.Composited | nn_js_ws/src/index.js:121-126 | the composited frame has the frame's length (CompositedAt gives its contents) |
| Compositing.IsBackground | nn_js_ws/src/index.js:122 | the test `arrMask[i] !== 1`: a pixel inside the mask is background exactly when its mask value is not 1, and a read past the end of the mask (undefined) always counts as background |
| Compositing.StyleValue | nn_js_ws/src/index.js:123-125 | a style read inside the buffer gives the style value, and a read past its end (undefined) is stored as byte 0 |
| Compositing.CompositedPrefix | nn_js_ws/src/index.js:121-126 | the frame after the loop's first `i` iterations keeps the frame's length (CompositedPrefixAt and CompositedPastPixels give its contents) |
| Compositing.CompositedAt | nn_js_ws/src/index.js:121-126 | after compositing, the alpha byte and every byte of a pixel with mask value 1 are unchanged; the red, green and blue of any other pixel `p` are style values `3p`, `3p+1`, `3p+2` clamped |
| Compositing.CompositedIdempotent | nn_js_ws/src/index.js:121-126 | compositing the composited frame again with the same mask and style changes nothing |
| Compositing.CompositedPrefixAt | nn_js_ws/src/index.js:121-126 | after the first `i` iterations, only the red, green and blue bytes of background pixels below `i` hold style values, and every other byte is the frame's |
| Compositing.CompositedPastPixels | nn_js_ws/src/index.js:121 | iterations at or past the pixel count, which read an undefined mask value, store only past the end of the buffer and change nothing |
| Compositing.CompositedPrefixDone | nn_js_ws/src/index.js:121-126 | running the loop to the byte length, four times the pixel count, leaves the frame composited pixel by pixel |
| Compositing.Composite | nn_js_ws/src/index.js:121-126 | the in-place loop leaves the frame's bytes exactly as compositing pixel by pixel defines them, and changes nothing outside the buffer |

## Left out

- The browser and UI around the loops are not modelled: the React component, JSX rendering, DOM lookups, webcam capture, the canvas `drawImage`/`getImageData`/`putImageData` calls and `requestAnimationFrame`.
- Everything run by TensorFlow.js is not modelled: model loading, `predict`, `resizeBilinear`, the normalisation arithmetic, thresholding at 0.8 and the `dispose` calls. The mask and the style buffer are parameters of `Compositing.Composite`.
- The bilinear `resizeImageData` calls (lines 169 and 220) are a foreign library working in floating point. `Marshal.ImageDataToTensor` takes the already-resized bytes, and `Marshal.TensorToImageData` returns the array before the final resize.
- Marshal.TensorToImageData: the `new ImageData(arr, width, height)` wrapper at line 218 is not modelled. It throws when the array is empty (`width * height == 0`), while the model returns the empty array.
- The onnxjs `Tensor` object is modelled as its data array plus its `dims`. The constructor (line 192) and `tensor.values().next()` (line 197) are not modelled.
- The `styleTransfer` method (lines 150-162) is dead code and is not modelled. It uses fields that are never assigned.
- Marshal.TensorToImageData: tensor values are integers here, while the source's are float32. The store into the `Uint8ClampedArray` also rounds fractions half to even and stores NaN as 0, and this rounding is not modelled. The method requires the data to hold at least `3*h*w` values, as a tensor of those dims does.
- Marshal.ImageDataToTensor: the Float32Array output is modelled as integers. This is exact here, because the inputs are bytes and `norm` is 1.0.
- Compositing.Composite: the style buffer is a Float32Array of bilinearly resized network output, and its values are generally fractional. The model takes style values as integers. The round-half-to-even of each store into the frame's Uint8ClampedArray, and the NaN-to-0 store, are not modelled; only the clamp is.
- Compositing.CompositedAt: states the pixel values for integer style values only, for the same reason; a fractional style value would be rounded half to even before the clamp.
- Compositing.Composite requires the mask to have one value per pixel and the style buffer three per pixel. In the source, both are resized to the canvas's height and width before the loop.
- Marshal.StorePixel groups the four element stores of one pixel into one call. It makes the same stores in the same order.
