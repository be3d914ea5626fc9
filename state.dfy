/**
 The capture and display state of the BodyPix component: which composited image is on
 show, whether results are mirrored, whether the webcam is on, and the two flags that
 keep a capture from starting while another is in flight.

 The transitions are functions on a `UiState` value; the `BodyPix` class in module
 `BodyPixComponent` applies them to its fields one assignment at a time, as the
 component's state setters do.
 */
module BodyPixState {

  /** An image element, identified by its `src` (a data URL or the webcam screenshot). */
  datatype Image = Image(src: string)

  /** What a successful `visualizeSegmentation` returns: the untouched frame and the composite. */
  datatype Composite = Composite(originalImage: Image, processedImage: Image)

  /**
   The `processedImage` state. It starts as `null`, becomes `undefined` when
   `visualizeSegmentation` finds no canvas or no 2D context, and holds a composite otherwise.
   */
  datatype ProcessedImage = Null | Undefined | Images(composite: Composite) {
    /** JavaScript truthiness, which decides whether the two result images are rendered. */
    predicate Displayed() {
      Images?
    }
  }

  /**
   How the work inside `capture`'s `try` block ends once the webcam is present: the
   composite is produced, the canvas or its context is missing (so `undefined` comes back),
   or a step of the block throws.
   */
  datatype Outcome = Rendered(composite: Composite) | MissingCanvas | Thrown

  /** The five state variables of the component that the modelled operations touch. */
  datatype UiState = UiState(
    processedImage: ProcessedImage,
    flipped: bool,
    cameraOn: bool,
    captureInProgress: bool,
    disableButtons: bool)

  /** The initial values of the component's state hooks. */
  const INITIAL: UiState := UiState(Null, false, true, false, false)

  /** The buttons are disabled exactly while a capture is in progress. */
  predicate Consistent(s: UiState) {
    s.disableButtons == s.captureInProgress
  }

  /** No capture is in flight. */
  predicate Idle(s: UiState) {
    !s.captureInProgress && !s.disableButtons
  }

  /** Mirrors the result images: only `flipped` changes, and it is negated. */
  function ToggleFlip(s: UiState): (t: UiState)
    ensures t.flipped != s.flipped
    ensures t.(flipped := s.flipped) == s
  {
    s.(flipped := !s.flipped)
  }

  /** Switches the webcam on or off: only `cameraOn` changes, and it is negated. */
  function ToggleCamera(s: UiState): (t: UiState)
    ensures t.cameraOn != s.cameraOn
    ensures t.(cameraOn := s.cameraOn) == s
  {
    s.(cameraOn := !s.cameraOn)
  }

  /** Clears the images: `processedImage` becomes `null`, nothing else changes. */
  function ClearImages(s: UiState): (t: UiState)
    ensures !t.processedImage.Displayed() && t.processedImage == Null
    ensures t.(processedImage := s.processedImage) == s
  {
    s.(processedImage := Null)
  }

  /**
   Entry to `capture`: when no capture is in progress, both flags are raised; otherwise
   the call does nothing.
   */
  function BeginCapture(s: UiState): (t: UiState)
    ensures s.captureInProgress ==> t == s
    ensures !s.captureInProgress ==> t.captureInProgress && t.disableButtons
    ensures t.processedImage == s.processedImage
    ensures t.flipped == s.flipped && t.cameraOn == s.cameraOn
  {
    if s.captureInProgress then s
    else s.(captureInProgress := true, disableButtons := true)
  }

  /**
   The value the `try` block leaves in `processedImage`: with a webcam, a produced
   composite or the `undefined` of the missing-canvas path replaces it; a throw or an
   absent webcam leaves the prior value.
   */
  function TryResult(prior: ProcessedImage, webcamPresent: bool, outcome: Outcome): (r: ProcessedImage)
    ensures r != prior ==> webcamPresent && !outcome.Thrown?
    ensures r.Displayed() && r != prior ==> outcome == Rendered(r.composite)
    ensures !webcamPresent || outcome.Thrown? ==> r == prior
    ensures webcamPresent && outcome.MissingCanvas? ==> r == Undefined
    ensures webcamPresent && outcome.Rendered? ==> r == Images(outcome.composite)
  {
    if !webcamPresent then prior
    else match outcome
      case Rendered(c) => Images(c)
      case MissingCanvas => Undefined
      case Thrown => prior
  }

  /**
   The rest of `capture` after entry: the `try` block, then the `finally` block that
   lowers both flags on every path.
   */
  function SettleCapture(s: UiState, webcamPresent: bool, outcome: Outcome): (t: UiState)
    ensures Idle(t)
    ensures t.processedImage == TryResult(s.processedImage, webcamPresent, outcome)
    ensures t.flipped == s.flipped && t.cameraOn == s.cameraOn
  {
    s.(processedImage := TryResult(s.processedImage, webcamPresent, outcome),
       captureInProgress := false, disableButtons := false)
  }

  /** A whole `capture` call run to completion: the guard, the `try` block, the `finally` block. */
  function Capture(s: UiState, webcamPresent: bool, outcome: Outcome): (t: UiState)
    ensures s.captureInProgress ==> t == s
    ensures !s.captureInProgress ==> Idle(t)
    ensures t.flipped == s.flipped && t.cameraOn == s.cameraOn
    ensures !webcamPresent || outcome.Thrown? ==> t.processedImage == s.processedImage
    ensures !s.captureInProgress && webcamPresent && outcome.MissingCanvas? ==>
      t.processedImage == Undefined && !t.processedImage.Displayed()
    ensures !s.captureInProgress && webcamPresent && outcome.Rendered? ==>
      t.processedImage == Images(outcome.composite)
  {
    if s.captureInProgress then s
    else SettleCapture(BeginCapture(s), webcamPresent, outcome)
  }

  /**
   The `Webcam` element that sets `webcamRef.current` is mounted only while `cameraOn`
   holds, so with the camera off the webcam is absent and a capture leaves the image alone.
   */
  lemma CameraOffCaptureKeepsImage(s: UiState, outcome: Outcome)
    requires !s.cameraOn
    ensures Capture(s, s.cameraOn, outcome).processedImage == s.processedImage
  {
  }

  /** Toggling the mirror twice restores the state. */
  lemma ToggleFlipTwice(s: UiState)
    ensures ToggleFlip(ToggleFlip(s)) == s
  {
  }

  /** Toggling the camera twice restores the state. */
  lemma ToggleCameraTwice(s: UiState)
    ensures ToggleCamera(ToggleCamera(s)) == s
  {
  }

  /** Clearing is idempotent. */
  lemma ClearImagesTwice(s: UiState)
    ensures ClearImages(ClearImages(s)) == ClearImages(s)
  {
  }

  /** Every operation keeps the buttons disabled exactly while a capture is in progress. */
  lemma OperationsKeepConsistent(s: UiState, webcamPresent: bool, outcome: Outcome)
    requires Consistent(s)
    ensures Consistent(ToggleFlip(s)) && Consistent(ToggleCamera(s)) && Consistent(ClearImages(s))
    ensures Consistent(BeginCapture(s)) && Consistent(SettleCapture(s, webcamPresent, outcome))
    ensures Consistent(Capture(s, webcamPresent, outcome))
  {
  }

  /**
   A second capture requested while the first is suspended in its `try` block is ignored.
   The second clause only restates, for the record, that the first capture's settling is
   `Capture` itself once its guard has passed.
   */
  lemma OverlappingCapturesYieldOneResult(
    s: UiState, webcamPresent: bool, outcome: Outcome, webcamPresent': bool, outcome': Outcome)
    requires !s.captureInProgress
    ensures Capture(BeginCapture(s), webcamPresent', outcome') == BeginCapture(s)
    ensures SettleCapture(BeginCapture(s), webcamPresent, outcome) == Capture(s, webcamPresent, outcome)
  {
  }
}
