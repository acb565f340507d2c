/**
 * Whole sessions of the editing flow against replies fixed in advance, with their end states proved.
 */
module Scenarios {
  import opened Wrappers
  import opened Types
  import opened GeminiService
  import opened App
  import JsText

  const Upload: string := "data:image/png;base64,iVBORw0KGgo="
  const RetroFilter: string := "Add a retro filter"

  /** A session with an image selected and a prompt entered. */
  method ReadySession() returns (s: Session)
    ensures fresh(s) && s.Valid() && s.inFlight == 0 && s.CanGenerate()
    ensures s.originalImage == Some(Upload) && s.mimeType == "image/png" && s.prompt == RetroFilter
  {
    s := new Session();
    s.ImageSelect(Upload, "image/png");
    s.SetPrompt(RetroFilter);
    assert !JsText.IsTrimmable(RetroFilter[0]);
    CanGenerateIff(s);
  }

  /** The model replies with one image part: SUCCESS with an image and no text. */
  method OnlyImageReply() returns (s: Session)
    ensures s.status == SUCCESS && s.error == None
    ensures s.result == Some(GeneratedImageResult(Some(PngDataUrlPrefix + "R0lG"), None))
  {
    s := ReadySession();
    var image := Part(Some(InlineData("R0lG", "image/jpeg")), None);
    var reply := req => Success(Response([Candidate([image])]));
    assert Interpretation([image]) == Success(GeneratedImageResult(Some(PngDataUrlPrefix + "R0lG"), None)) by {
      ImageUrlOfLast([image], 0);
      TextOfNone([image]);
    }
    s.Generate(reply);
  }

  /** The model replies with one text part: SUCCESS with text and no image, not an error. */
  method OnlyTextReply() returns (s: Session)
    ensures s.status == SUCCESS && s.error == None
    ensures s.result == Some(GeneratedImageResult(None, Some("I cannot edit faces.")))
  {
    s := ReadySession();
    var text := Part(None, Some("I cannot edit faces."));
    var reply := req => Success(Response([Candidate([text])]));
    assert Interpretation([text]) == Success(GeneratedImageResult(None, Some("I cannot edit faces."))) by {
      ImageUrlOfNone([text]);
      TextOfLast([text], 0);
    }
    s.Generate(reply);
  }

  /** No candidates at all: ERROR with the empty-result message. */
  method EmptyReply() returns (s: Session)
    ensures s.status == ERROR && s.result == None
    ensures s.error == Some(NoOutputMessage)
  {
    s := ReadySession();
    s.Generate(req => Success(Response([])));
  }

  /** Without an image, generating is a silent no-op. */
  method GenerateWithoutImage() returns (s: Session)
    ensures s.status == IDLE && s.originalImage == None && s.result == None && s.error == None
    ensures s.prompt == RetroFilter
  {
    s := new Session();
    s.SetPrompt(RetroFilter);
    s.Generate(req => Success(Response([])));
  }

  /**
   * A transport fault shows its own message; a message-less fault shows the fallback;
   * a later attempt with the same inputs succeeds independently.
   */
  method FaultThenRetry() returns (s: Session, shown: string, fallback: string)
    ensures shown == "Failed to fetch" && fallback == FallbackErrorMessage
    ensures s.status == SUCCESS && s.error == None
    ensures s.result == Some(GeneratedImageResult(Some(PngDataUrlPrefix + "R0lG"), Some("Here it is.")))
  {
    s := ReadySession();
    s.Generate(req => Failure(Error("Failed to fetch")));
    shown := s.error.value;
    s.Generate(req => Failure(Error("")));
    fallback := s.error.value;
    var both := [Part(None, Some("Here it is.")), Part(Some(InlineData("R0lG", "image/png")), None)];
    assert Interpretation(both) == Success(GeneratedImageResult(Some(PngDataUrlPrefix + "R0lG"), Some("Here it is."))) by {
      ImageUrlOfLast(both, 1);
      TextOfLast(both, 0);
    }
    s.Generate(req => Success(Response([Candidate(both)])));
  }

  /**
   * Generating again after Reset All while the first call is pending goes through, as
   * `handleGenerate` does: the second call runs and its failure is shown.
   */
  method GenerateWhilePending() returns (s: Session)
    ensures s.status == ERROR && s.error == Some("Failed to fetch") && s.inFlight == 1
  {
    s := ReadySession();
    var first := s.BeginGenerate();
    s.Clear();
    s.ImageSelect(Upload, "image/png");
    s.SetPrompt(RetroFilter);
    CanGenerateIff(s);
    s.Generate(req => Failure(Error("Failed to fetch")));
  }

  /**
   * Two generations in flight, as the code allows: Reset All stays enabled while a call is
   * pending, so the user clears, selects again and generates again. If the second call fails
   * and then the first succeeds, the screen shows SUCCESS beside an error message.
   */
  method DoubleSubmit() returns (s: Session)
    ensures s.status == SUCCESS && s.error.Some? && !s.Consistent()
  {
    s := ReadySession();
    var first := s.BeginGenerate();
    s.Clear();
    s.ImageSelect(Upload, "image/png");
    s.SetPrompt(RetroFilter);
    CanGenerateIff(s);
    var second := s.BeginGenerate();
    assert s.inFlight == 2;
    s.CompleteFailure(Error("Failed to fetch"));
    s.CompleteSuccess(GeneratedImageResult(Some(PngDataUrlPrefix + "R0lG"), None));
  }

  /** The same clicks with the single-flight rule: the second start is ignored and the state stays consistent. */
  method DoubleSubmitSingleFlight() returns (s: Session, second: bool)
    ensures !second && s.Valid() && s.status == IDLE && s.inFlight == 1
  {
    s := ReadySession();
    var first := s.BeginGenerateSingleFlight();
    s.Clear();
    s.ImageSelect(Upload, "image/png");
    s.SetPrompt(RetroFilter);
    second := s.BeginGenerateSingleFlight();
  }
}
