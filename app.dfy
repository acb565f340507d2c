/**
 * The editing session of App.tsx: six state cells and the handlers that set them.
 *
 * `handleGenerate` is asynchronous; here it is split at its one suspension point into
 * BeginGenerate (the guard and the three updates before the call), and CompleteSuccess /
 * CompleteFailure (the updates after it). Generate runs the three back to back, as the
 * handler does when nothing else happens while the call is pending.
 */
module App {
  import opened Wrappers
  import opened Types
  import JsText
  import GeminiService

  const FallbackErrorMessage: string := "Something went wrong while generating the image."

  /** The message the failure branch shows: the error's own, or the fallback when it is empty. */
  function ErrorText(err: Error): (msg: string)
    ensures msg != ""
    ensures err.message != "" ==> msg == err.message
    ensures err.message == "" ==> msg == FallbackErrorMessage
  {
    if err.message != "" then err.message else FallbackErrorMessage
  }

  class Session {
    var status: AppStatus
    var originalImage: Option<string>
    var mimeType: string
    var prompt: string
    var result: Option<GeneratedImageResult>
    var error: Option<string>
    /** Not in the source: how many started generations have not yet completed. */
    var inFlight: nat

    /** What the screen relies on: the status tag agrees with the error and result cells. */
    predicate Consistent()
      reads this
    {
      && (status == ERROR <==> error.Some?)
      && (error.Some? ==> error.value != "")
      && (status == SUCCESS ==> result.Some?)
      && (status == IDLE || status == PROCESSING ==> result.None?)
    }

    /** Consistent, with at most one generation pending, which has not been overtaken by a result. */
    predicate Valid()
      reads this
    {
      && Consistent()
      && inFlight <= 1
      && (inFlight == 1 ==> status == IDLE || status == PROCESSING)
    }

    /** The guard of line 42: an image that is neither null nor empty, and a prompt that is not blank. */
    predicate CanGenerate()
      reads this
    {
      originalImage.Some? && originalImage.value != "" && JsText.Trim(prompt) != ""
    }

    /** The `useState` initial values of lines 17-22. */
    constructor ()
      ensures status == IDLE && originalImage == None && mimeType == ""
      ensures prompt == "" && result == None && error == None
      ensures inFlight == 0 && Valid()
    {
      status := IDLE;
      originalImage := None;
      mimeType := "";
      prompt := "";
      result := None;
      error := None;
      inFlight := 0;
    }

    /** `handleImageSelect`: a new image and its type, a fresh IDLE screen, the prompt kept. */
    method ImageSelect(base64: string, mediaType: string)
      modifies this
      ensures originalImage == Some(base64) && mimeType == mediaType
      ensures result == None && error == None && status == IDLE
      ensures prompt == old(prompt) && inFlight == old(inFlight)
      ensures old(Valid()) ==> Valid()
    {
      originalImage := Some(base64);
      mimeType := mediaType;
      result := None;
      error := None;
      status := IDLE;
    }

    /** `handleClear`: every cell back to its initial value, from any state. */
    method Clear()
      modifies this
      ensures status == IDLE && originalImage == None && mimeType == ""
      ensures prompt == "" && result == None && error == None
      ensures inFlight == old(inFlight)
      ensures old(Valid()) ==> Valid()
    {
      originalImage := None;
      mimeType := "";
      prompt := "";
      result := None;
      error := None;
      status := IDLE;
    }

    /** `setPrompt`, from the text area or a preset button: only the prompt changes. */
    method SetPrompt(text: string)
      modifies this
      ensures prompt == text
      ensures status == old(status) && originalImage == old(originalImage) && mimeType == old(mimeType)
      ensures result == old(result) && error == old(error) && inFlight == old(inFlight)
      ensures old(Valid()) ==> Valid()
    {
      prompt := text;
    }

    /**
     * Lines 42-46 as written: a silent return when the guard fails; otherwise PROCESSING
     * with the error and result cleared, and one more call in flight. Nothing here looks
     * at calls already pending.
     */
    method BeginGenerate() returns (started: bool)
      modifies this
      ensures started == old(CanGenerate())
      ensures !started ==> unchanged(this)
      ensures started ==> status == PROCESSING && error == None && result == None
      ensures started ==> inFlight == old(inFlight) + 1
      ensures originalImage == old(originalImage) && mimeType == old(mimeType) && prompt == old(prompt)
      ensures old(Consistent()) ==> Consistent()
      ensures old(Valid()) && old(inFlight) == 0 ==> Valid()
    {
      if !CanGenerate() {
        return false;
      }
      status := PROCESSING;
      error := None;
      result := None;
      inFlight := inFlight + 1;
      started := true;
    }

    /**
     * BeginGenerate with the single-flight rule the controls are meant to enforce: while a
     * call is pending a second start is ignored.
     */
    method BeginGenerateSingleFlight() returns (started: bool)
      modifies this
      ensures started == (old(CanGenerate()) && old(inFlight) == 0)
      ensures !started ==> unchanged(this)
      ensures started ==> status == PROCESSING && error == None && result == None && inFlight == 1
      ensures originalImage == old(originalImage) && mimeType == old(mimeType) && prompt == old(prompt)
      ensures old(Valid()) ==> Valid()
    {
      if inFlight > 0 {
        return false;
      }
      started := BeginGenerate();
    }

    /** Lines 50-51: the reply becomes the result and the status SUCCESS. */
    method CompleteSuccess(response: GeneratedImageResult)
      requires inFlight > 0
      modifies this
      ensures result == Some(response) && status == SUCCESS && inFlight == old(inFlight) - 1
      ensures originalImage == old(originalImage) && mimeType == old(mimeType) && prompt == old(prompt)
      ensures error == old(error)
      ensures old(Valid()) ==> Valid()
    {
      result := Some(response);
      status := SUCCESS;
      inFlight := inFlight - 1;
    }

    /** Lines 53-54: the error text (never empty) is shown and the status is ERROR. */
    method CompleteFailure(err: Error)
      requires inFlight > 0
      modifies this
      ensures error == Some(ErrorText(err)) && status == ERROR && inFlight == old(inFlight) - 1
      ensures originalImage == old(originalImage) && mimeType == old(mimeType) && prompt == old(prompt)
      ensures result == old(result)
      ensures old(Valid()) ==> Valid()
    {
      error := Some(ErrorText(err));
      status := ERROR;
      inFlight := inFlight - 1;
    }

    /**
     * `handleGenerate` run to completion with nothing in between: the model's reply is the
     * value of `generateContent` on the request built from the current cells. Like the
     * handler, it does not look at calls already pending.
     */
    method Generate(generateContent: GeminiService.Request -> Result<GeminiService.Response, Error>)
      modifies this
      ensures inFlight == old(inFlight)
      ensures !old(CanGenerate()) ==> unchanged(this)
      ensures originalImage == old(originalImage) && mimeType == old(mimeType) && prompt == old(prompt)
      ensures old(CanGenerate()) ==> Consistent()
      ensures old(CanGenerate()) ==>
        match GeminiService.EditOutcome(old(originalImage).value, old(mimeType), old(prompt), generateContent)
        case Success(r) => status == SUCCESS && result == Some(r) && error == None
        case Failure(e) => status == ERROR && error == Some(ErrorText(e)) && result == None
      ensures old(Consistent()) ==> Consistent()
      ensures old(Valid()) && old(inFlight) == 0 ==> Valid()
    {
      var started := BeginGenerate();
      if started {
        var outcome := GeminiService.EditImageWithGemini(originalImage.value, mimeType, prompt, generateContent);
        match outcome
        case Success(r) =>
          CompleteSuccess(r);
        case Failure(e) =>
          CompleteFailure(e);
      }
    }
  }

  /** The generate guard in plain terms: an image is present and the prompt is not all white space. */
  lemma CanGenerateIff(s: Session)
    ensures s.CanGenerate() <==>
      s.originalImage.Some? && s.originalImage.value != "" && !JsText.IsBlank(s.prompt)
  {
    JsText.TrimEmptyIffBlank(s.prompt);
  }
}
