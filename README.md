# BodyPix capture: mask construction and component state

This project models the self-contained logic of the `BodyPix` React component in
`src/components/BodyPix.js`. That component captures one webcam frame, has the BodyPix
model segment the person in it, and composites a background mask over the frame. Two
pieces are modelled and proved:

- **Mask construction** (module `SegmentationMask`, `mask.dfy`). `visualizeSegmentation`
  turns the segmentation's label array into an RGBA byte buffer at the segmentation's own
  width and height. The buffer starts zeroed and has `4 * w * h` bytes. Each label is then
  written in index order:
  - a truthy (person) label writes 0 into the alpha byte only;
  - a falsy (background) label writes 255 into all four bytes.

  `BuildMask` runs that loop in place on an `array<int>`, one `WritePixel` per label. It is
  proved to produce `MaskBuffer`, a specification function that concatenates the pixels.
  That function is linked by lemmas to `MaskByte`, a reference definition of each byte. The
  per-pixel properties follow from those lemmas.
- **Component state** (module `BodyPixState`, `state.dfy`, and class
  `BodyPixComponent.BodyPix`, `component.dfy`). The state hooks `processedImage`, `flipped`,
  `cameraOn`, `captureInProgress` and `disableButtons` are modelled with the handlers that
  change them: `capture`, `toggleFlip`, `toggleCamera` and `clearImages`.
  - Each transition is a function on a `UiState` value.
  - The class holds the hooks as fields. Its methods assign them in the order the source
    calls the setters, and each method is proved to produce its transition.
  - `capture` is split before its `try` block (line 33). `BeginCapture` is the guard plus
    the two flag setters. `SettleCapture` is the `try`/`catch`/`finally` part. This makes the
    in-flight state reachable, so the re-entry guard is not dead code in the model.

The work inside `capture`'s `try` block is an input; the component does not compute it. It is
given as a flag that says whether `webcamRef.current` is set, plus an `Outcome`:
- `Rendered(composite)`: a composite was produced;
- `MissingCanvas`: no canvas or no 2D context, so `visualizeSegmentation` returns
  `undefined`;
- `Thrown`: a step in the `try` block threw and the `catch` block logged it.

Labels are `int`s, and "truthy" means non-zero, exactly as the source tests
`segmentation.data[i]`: pixels are classified by the truthiness of their label. The `0.32`
at line 154 is only passed to `segmentPerson` and plays no part in the mask. The
missing-canvas path stores `undefined` over any earlier image (`TryResult`, `Capture`).

## Model

| member | source | states |
|---|---|---|
| `SegmentationMask.WritePixel` | src/components/BodyPix.js:188-195 | one loop iteration: a truthy label sets only byte `4i+3` to 0 and keeps the colour bytes; a falsy label sets bytes `4i..4i+3` to 255; no byte outside the pixel changes |
| `SegmentationMask.BuildMask` | src/components/BodyPix.js:186-196 | the freshly allocated, zero-initialised buffer of `4*w*h` bytes, after the loop over all labels, equals `MaskBuffer(data, w, h)` |
| `SegmentationMask.Pixels` | src/components/BodyPix.js:187-196 | the bytes written for `n` labels are exactly `4*n` long, four per label |
| `SegmentationMask.MaskBufferAt` | src/components/BodyPix.js:186-196 | the mask has length `4*w*h`, and byte `k` is 255 exactly when `k/4` indexes a falsy label, 0 otherwise (agreement with `MaskByte`) |
| `SegmentationMask.PixelOfMask` | src/components/BodyPix.js:186-196 | the four bytes of pixel `i` are the pixel of label `i` when there is one, and `[0,0,0,0]` past the end of the labels |
| `SegmentationMask.MaskBufferIsByteRaster` | src/components/BodyPix.js:186 | the buffer length is exactly `4*w*h`, and every byte lies in 0..255 |
| `SegmentationMask.TruthyPixelIsTransparent` | src/components/BodyPix.js:186-189 | a truthy label gives the pixel `(0,0,0,0)`: alpha written 0, colour bytes still 0 from initialisation |
| `SegmentationMask.FalsyPixelIsOpaqueWhite` | src/components/BodyPix.js:190-195 | a falsy label gives the pixel `(255,255,255,255)` |
| `SegmentationMask.UnlabelledPixelIsZero` | src/components/BodyPix.js:186-187 | a pixel with index at or past `data.length` is never written and stays `(0,0,0,0)` |
| `SegmentationMask.AlphaMarksBackground` | src/components/BodyPix.js:188-195 | for a labelled pixel, alpha is 255 if and only if the label is falsy, and alpha is 0 if and only if it is truthy |
| `SegmentationMask.IterationWritesOnlyItsPixel` | src/components/BodyPix.js:187-196 | processing one more label changes only bytes `4n..4n+3`, which become that label's pixel; every other byte of the mask is unchanged |
| `SegmentationMask.AllPersonMaskIsTransparent` | src/components/BodyPix.js:186-196 | a segmentation whose labels are all truthy gives an all-zero, fully transparent mask |
| `BodyPixState.ToggleFlip` | src/components/BodyPix.js:213-215 | `flipped` is negated and no other field changes |
| `BodyPixState.ToggleCamera` | src/components/BodyPix.js:217-219 | `cameraOn` is negated and no other field changes |
| `BodyPixState.ClearImages` | src/components/BodyPix.js:221-223 | `processedImage` becomes `null`, so nothing is displayed, and no other field changes |
| `BodyPixState.BeginCapture` | src/components/BodyPix.js:30-32 | if a capture is already in progress, nothing changes; otherwise both `captureInProgress` and `disableButtons` are raised and nothing else changes |
| `BodyPixState.TryResult` | src/components/BodyPix.js:34-43 | with no webcam, or when a step throws, `processedImage` keeps its prior value. With a webcam it becomes the rendered composite (line 40), or `undefined` on the missing-canvas path (lines 171-180). So it changes only when the webcam is present and nothing threw, and a displayed new value is exactly the rendered composite |
| `BodyPixState.SettleCapture` | src/components/BodyPix.js:33-47 | `processedImage` is what the `try` block leaves (`TryResult`). On every path out of that block, the `finally` block leaves both flags lowered. `flipped` and `cameraOn` are untouched |
| `BodyPixState.Capture` | src/components/BodyPix.js:29-49 | a capture in progress makes the call a no-op. Otherwise the call ends with both flags false. `processedImage` is unchanged if the webcam is absent or a step threw. It becomes `undefined` (not displayed) on the missing-canvas path, and the rendered composite on success. `flipped` and `cameraOn` never change |
| `BodyPixState.CameraOffCaptureKeepsImage` | src/components/BodyPix.js:34 | with the camera off the `Webcam` element is not mounted (line 228), so `webcamRef.current` is null and a capture leaves `processedImage` unchanged |
| `BodyPixState.ToggleFlipTwice` | src/components/BodyPix.js:213-215 | toggling the mirror twice restores the state |
| `BodyPixState.ToggleCameraTwice` | src/components/BodyPix.js:217-219 | toggling the camera twice restores the state |
| `BodyPixState.ClearImagesTwice` | src/components/BodyPix.js:221-223 | clearing twice is the same as clearing once |
| `BodyPixState.OperationsKeepConsistent` | src/components/BodyPix.js:29-49 | every operation keeps `disableButtons == captureInProgress` |
| `BodyPixState.OverlappingCapturesYieldOneResult` | src/components/BodyPix.js:29-49 | a second capture issued while the first is suspended after its guard is a no-op |
| `BodyPixComponent.BodyPix.constructor` | src/components/BodyPix.js:12-16 | the initial hook values: `null`, not flipped, camera on, no capture in progress, buttons enabled |
| `BodyPixComponent.BodyPix.ToggleFlip` | src/components/BodyPix.js:213-215 | the new field values are `BodyPixState.ToggleFlip` of the old ones |
| `BodyPixComponent.BodyPix.ToggleCamera` | src/components/BodyPix.js:217-219 | the new field values are `BodyPixState.ToggleCamera` of the old ones |
| `BodyPixComponent.BodyPix.ClearImages` | src/components/BodyPix.js:221-223 | the new field values are `BodyPixState.ClearImages` of the old ones |
| `BodyPixComponent.BodyPix.BeginCapture` | src/components/BodyPix.js:30-32 | `entered` reports whether the guard passed; the new field values are `BodyPixState.BeginCapture` of the old ones |
| `BodyPixComponent.BodyPix.SettleCapture` | src/components/BodyPix.js:33-47 | the `try`/`catch`/`finally` assignments give `BodyPixState.SettleCapture` of the old field values |
| `BodyPixComponent.BodyPix.Capture` | src/components/BodyPix.js:29-49 | guard, then settle, giving `BodyPixState.Capture` of the old field values |

## Left out

- Model loading and inference (`bodyPix.load`, `segmentPerson`, lines 137-162) and TensorFlow backend selection (lines 120-135) are foreign library calls. The segmentation's labels, width and height are inputs to `BuildMask`.
- Canvas compositing (`putImageData`, the `overlay` composite operation, `drawImage`, `toDataURL`, lines 197-205) is done by the browser in floating point. Its result enters the model only as the `Rendered` composite.
- The display size `containerWidth / 3` and the aspect-ratio height (lines 181-184) are floating-point values fed to the canvas. `containerWidth` and the resize listener (lines 17-27) are left out with them.
- `flipImage` (lines 277-286) is a canvas transform. `flipped` is modelled as a flag only.
- The webcam component, the JSX rendering and the buttons' `disabled` attribute (lines 225-274) are UI. The model's toggles are not blocked while a capture is in flight, because the handlers themselves do not check.
- The commented-out streaming loop (lines 52-117) is dead code. `src/components/SelfieSegmentation.js` and `src/pages/index.js` are not part of this model: the first delegates mask building and drawing to library calls, and the second only selects a component.
- Out-of-range writes that a `Uint8ClampedArray` would drop silently are not modelled. `BuildMask` requires `|data| <= w * h`, which a BodyPix segmentation satisfies with equality.
- A capture whose image never loads: `visualizeSegmentation` and `removeBackground` wait on `onload` only. If that event never fires, the capture never settles and the flags stay raised. The model shows this as a `BeginCapture` with no `SettleCapture` after it.
- React applies `setState` asynchronously. The model treats each setter as an immediate, sequential write. In the source, the guard at line 30 reads a render-time snapshot of `captureInProgress`, so two clicks inside one render could both pass it. The model does not capture that race.
- BodyPixState.Capture: takes `webcamPresent` as its own input rather than deriving it from `cameraOn`. `webcamRef.current` is set by React when the `Webcam` element (line 228) mounts, which the model does not represent. `CameraOffCaptureKeepsImage` states the consequence for the camera-off case.
