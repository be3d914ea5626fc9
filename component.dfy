/**
 The BodyPix React component as an object: its state hooks are fields, and each event
 handler is a method that assigns them in the order the source calls its setters. Each
 method is proved to produce the transition `BodyPixState` defines for it.
 */
module BodyPixComponent {
  import S = BodyPixState

  /** The component, with its state hooks as fields. */
  class BodyPix {
    var processedImage: S.ProcessedImage
    var flipped: bool
    var cameraOn: bool
    var captureInProgress: bool
    var disableButtons: bool

    /** The fields as one value. */
    function State(): S.UiState
      reads this
    {
      S.UiState(processedImage, flipped, cameraOn, captureInProgress, disableButtons)
    }

    constructor ()
      ensures State() == S.INITIAL && S.Idle(State())
    {
      processedImage := S.Null;
      flipped := false;
      cameraOn := true;
      captureInProgress := false;
      disableButtons := false;
    }

    method ToggleFlip()
      modifies this
      ensures State() == S.ToggleFlip(old(State()))
    {
      flipped := !flipped;
    }

    method ToggleCamera()
      modifies this
      ensures State() == S.ToggleCamera(old(State()))
    {
      cameraOn := !cameraOn;
    }

    method ClearImages()
      modifies this
      ensures State() == S.ClearImages(old(State()))
    {
      processedImage := S.Null;
    }

    /** The guard and the two flag setters at the head of `capture`; `entered` says the guard passed. */
    method BeginCapture() returns (entered: bool)
      modifies this
      ensures entered == !old(captureInProgress)
      ensures State() == S.BeginCapture(old(State()))
    {
      entered := !captureInProgress;
      if entered {
        captureInProgress := true;
        disableButtons := true;
      }
    }

    /**
     The `try`, `catch` and `finally` blocks of a capture that has passed the guard. The
     `requires` only records that it runs after `BeginCapture` returned `entered`.
     */
    method SettleCapture(webcamPresent: bool, outcome: S.Outcome)
      requires captureInProgress
      modifies this
      ensures State() == S.SettleCapture(old(State()), webcamPresent, outcome)
    {
      if webcamPresent {
        match outcome {
          case Rendered(c) =>
            processedImage := S.Images(c);
          case MissingCanvas =>
            processedImage := S.Undefined;
          case Thrown =>
        }
      }
      captureInProgress := false;
      disableButtons := false;
    }

    /** A whole `capture` call. */
    method Capture(webcamPresent: bool, outcome: S.Outcome)
      modifies this
      ensures State() == S.Capture(old(State()), webcamPresent, outcome)
    {
      var entered := BeginCapture();
      if entered {
        SettleCapture(webcamPresent, outcome);
      }
    }
  }
}
