/**
 * The edit request around the Gemini call (services/geminiService.ts): strip the
 * data-URL framing from the image, build the two-part request, and read the
 * first candidate's parts into an image URL and a text reply.
 *
 * The SDK call is not modelled; its reply (or the error it throws) is the value of
 * a function parameter applied to the request that would be sent.
 */
module GeminiService {
  import opened Wrappers
  import opened Types

  // ---------------------------------------------------------------------------
  // Data-URL framing (the `data:` URL syntax of RFC 2397, section 3)
  // ---------------------------------------------------------------------------

  /** The image subtypes whose framing is removed, in the order the pattern lists them. */
  const AcceptedSubtypes: seq<string> := ["png", "jpeg", "jpg", "webp"]

  /** `data:image/<subtype>;base64,` */
  function DataUrlPrefix(subtype: string): string {
    "data:image/" + subtype + ";base64,"
  }

  /** `s` opens, at position 0, with the framing for the accepted `subtype`. */
  predicate FramedWith(s: string, subtype: string) {
    subtype in AcceptedSubtypes && DataUrlPrefix(subtype) <= s
  }

  /** `s` opens with the framing of some accepted subtype. */
  ghost predicate IsFramed(s: string) {
    exists t :: FramedWith(s, t)
  }

  /** Which alternative of the anchored pattern matches `s`, if any. */
  function MatchedSubtype(s: string): (m: Option<string>)
    ensures m.Some? ==> FramedWith(s, m.value)
    ensures m.None? <==> !IsFramed(s)
  {
    if DataUrlPrefix("png") <= s then assert FramedWith(s, "png"); Some("png")
    else if DataUrlPrefix("jpeg") <= s then assert FramedWith(s, "jpeg"); Some("jpeg")
    else if DataUrlPrefix("jpg") <= s then assert FramedWith(s, "jpg"); Some("jpg")
    else if DataUrlPrefix("webp") <= s then assert FramedWith(s, "webp"); Some("webp")
    else None
  }

  /** No string opens with the framing of two different accepted subtypes. */
  lemma FramingIsUnique(s: string, t1: string, t2: string)
    requires FramedWith(s, t1) && FramedWith(s, t2)
    ensures t1 == t2
  {
    var p1, p2 := DataUrlPrefix(t1), DataUrlPrefix(t2);
    assert p1 == s[..|p1|] && p2 == s[..|p2|];
    assert s[11] == p1[11] == p2[11];
    assert s[13] == p1[13] == p2[13];
  }

  /** The anchored replace of line 20: remove the one leading framing, if there is one. */
  function StripFraming(base64Image: string): (clean: string)
    ensures clean == base64Image || exists t :: FramedWith(base64Image, t) && base64Image == DataUrlPrefix(t) + clean
    ensures !IsFramed(base64Image) ==> clean == base64Image
    ensures |clean| <= |base64Image|
  {
    match MatchedSubtype(base64Image)
    case Some(t) =>
      assert base64Image == DataUrlPrefix(t) + base64Image[|DataUrlPrefix(t)|..];
      base64Image[|DataUrlPrefix(t)|..]
    case None => base64Image
  }

  /** A framed input loses exactly its own framing and nothing more. */
  lemma StripFramingRemovesThatPrefix(s: string, t: string)
    requires FramedWith(s, t)
    ensures s == DataUrlPrefix(t) + StripFraming(s)
  {
    var m := MatchedSubtype(s);
    FramingIsUnique(s, t, m.value);
  }

  /** The characters of standard base64 text, padding included. */
  predicate IsBase64Char(c: char) {
    ('A' <= c <= 'Z') || ('a' <= c <= 'z') || ('0' <= c <= '9') || c == '+' || c == '/' || c == '='
  }

  predicate IsBase64Text(s: string) {
    forall i :: 0 <= i < |s| ==> IsBase64Char(s[i])
  }

  /** Where the parts of a framing sit: the header, the subtype, then `;`. */
  lemma DataUrlPrefixLayout(u: string)
    ensures |DataUrlPrefix(u)| == |u| + 19
    ensures DataUrlPrefix(u)[0] == 'd' && DataUrlPrefix(u)[4] == ':'
    ensures forall i :: 0 <= i < |u| ==> DataUrlPrefix(u)[11 + i] == u[i]
    ensures DataUrlPrefix(u)[11 + |u|] == ';'
    ensures forall i :: 1 <= i <= 10 ==> DataUrlPrefix(u)[i] != 'd'
  {
  }

  /** One mismatching position is enough to rule a framing out. */
  lemma NotFramedAt(s: string, u: string, k: nat)
    requires k < |DataUrlPrefix(u)|
    requires k < |s| ==> s[k] != DataUrlPrefix(u)[k]
    ensures !FramedWith(s, u)
  {
  }

  /** No accepted subtype contains `;`. */
  lemma AcceptedSubtypesHaveNoSemicolon(u: string)
    requires u in AcceptedSubtypes
    ensures ';' !in u && |u| >= 3
  {
  }

  /** Base64 text has no `:`, so it never opens with a framing. */
  lemma Base64TextIsUnframed(p: string)
    requires IsBase64Text(p)
    ensures !IsFramed(p)
  {
    forall t | t in AcceptedSubtypes ensures !FramedWith(p, t) {
      DataUrlPrefixLayout(t);
      NotFramedAt(p, t, 4);
    }
  }

  /**
   * A data URL of an accepted subtype over a base64 payload strips to the payload,
   * and stripping it again changes nothing.
   */
  lemma StripFramingOfDataUrl(t: string, payload: string)
    requires t in AcceptedSubtypes && IsBase64Text(payload)
    ensures StripFraming(DataUrlPrefix(t) + payload) == payload
    ensures StripFraming(StripFraming(DataUrlPrefix(t) + payload)) == payload
  {
    var s := DataUrlPrefix(t) + payload;
    assert FramedWith(s, t);
    StripFramingRemovesThatPrefix(s, t);
    Base64TextIsUnframed(payload);
  }

  /**
   * Stripping is not idempotent in general: it removes one framing, so a doubly
   * framed string needs two passes.
   */
  lemma StripFramingRemovesOnlyOne()
    ensures var s := DataUrlPrefix("png") + DataUrlPrefix("png") + "QQ==";
            StripFraming(s) == DataUrlPrefix("png") + "QQ==" &&
            StripFraming(StripFraming(s)) == "QQ=="
  {
    var inner := DataUrlPrefix("png") + "QQ==";
    var s := DataUrlPrefix("png") + inner;
    assert FramedWith(s, "png");
    StripFramingRemovesThatPrefix(s, "png");
    assert FramedWith(inner, "png");
    StripFramingRemovesThatPrefix(inner, "png");
  }

  /**
   * A data URL whose subtype is not accepted (`gif`, `svg+xml`, ...) is left as it is,
   * whatever follows its header.
   */
  lemma StripFramingKeepsOtherSubtypes(t: string, rest: string)
    requires t !in AcceptedSubtypes && ';' !in t
    ensures StripFraming(DataUrlPrefix(t) + rest) == DataUrlPrefix(t) + rest
  {
    var s := DataUrlPrefix(t) + rest;
    DataUrlPrefixLayout(t);
    forall u | u in AcceptedSubtypes ensures !FramedWith(s, u) {
      DataUrlPrefixLayout(u);
      AcceptedSubtypesHaveNoSemicolon(u);
      if |u| < |t| {
        assert s[11 + |u|] == t[|u|];
        NotFramedAt(s, u, 11 + |u|);
      } else if |u| > |t| {
        assert s[11 + |t|] == ';';
        NotFramedAt(s, u, 11 + |t|);
      } else {
        assert t != u;
        var i :| 0 <= i < |t| && t[i] != u[i];
        assert s[11 + i] == t[i];
        NotFramedAt(s, u, 11 + i);
      }
    }
  }

  /** A data URL without the `;base64` marker is left as it is. */
  lemma StripFramingNeedsBase64Marker(t: string, rest: string)
    requires t in AcceptedSubtypes
    ensures StripFraming("data:image/" + t + "," + rest) == "data:image/" + t + "," + rest
  {
    var s := "data:image/" + t + "," + rest;
    assert forall i :: 0 <= i < |t| ==> s[11 + i] == t[i];
    assert s[11 + |t|] == ',';
    forall u | u in AcceptedSubtypes ensures !FramedWith(s, u) {
      DataUrlPrefixLayout(u);
      AcceptedSubtypesHaveNoSemicolon(u);
      if |u| < |t| {
        NotFramedAt(s, u, 11 + |u|);
      } else if |u| > |t| {
        NotFramedAt(s, u, 11 + |t|);
      } else if t == u {
        NotFramedAt(s, u, 11 + |t|);
      } else {
        var i :| 0 <= i < |t| && t[i] != u[i];
        NotFramedAt(s, u, 11 + i);
      }
    }
  }

  /** Framing that appears after a non-empty base64 head is not at position 0 and stays. */
  lemma StripFramingOnlyAtStart(head: string, t: string, rest: string)
    requires head != [] && IsBase64Text(head)
    ensures StripFraming(head + DataUrlPrefix(t) + rest) == head + DataUrlPrefix(t) + rest
  {
    var s := head + DataUrlPrefix(t) + rest;
    DataUrlPrefixLayout(t);
    forall u | u in AcceptedSubtypes ensures !FramedWith(s, u) {
      DataUrlPrefixLayout(u);
      if |head| <= 4 {
        assert s[|head|] == 'd';
        NotFramedAt(s, u, |head|);
      } else {
        assert s[4] == head[4];
        NotFramedAt(s, u, 4);
      }
    }
  }

  // ---------------------------------------------------------------------------
  // The request (lines 22-36)
  // ---------------------------------------------------------------------------

  const ModelName: string := "gemini-2.5-flash-image"

  datatype InlineData = InlineData(data: string, mimeType: string)

  /** One content part; the SDK leaves either field absent. */
  datatype Part = Part(inlineData: Option<InlineData>, text: Option<string>)

  datatype Request = Request(model: string, parts: seq<Part>)

  /** The request `editImageWithGemini` hands to `generateContent`. */
  function BuildRequest(base64Image: string, mimeType: string, prompt: string): (req: Request)
    ensures req.model == ModelName && |req.parts| == 2
    ensures req.parts[0].inlineData.Some? && req.parts[0].text.None?
    ensures req.parts[1].inlineData.None? && req.parts[1].text == Some(prompt)
    ensures req.parts[0].inlineData.value.mimeType == mimeType
    ensures var data := req.parts[0].inlineData.value.data;
            !IsFramed(base64Image) ==> data == base64Image
    ensures var data := req.parts[0].inlineData.value.data;
            forall t :: FramedWith(base64Image, t) ==> base64Image == DataUrlPrefix(t) + data
  {
    var data := StripFraming(base64Image);
    forall t | FramedWith(base64Image, t) ensures base64Image == DataUrlPrefix(t) + data {
      StripFramingRemovesThatPrefix(base64Image, t);
    }
    Request(ModelName, [Part(Some(InlineData(data, mimeType)), None), Part(None, Some(prompt))])
  }

  /** For an upload read as a data URL, the image part carries exactly the base64 payload. */
  lemma RequestCarriesPayload(t: string, payload: string, mimeType: string, prompt: string)
    requires t in AcceptedSubtypes && IsBase64Text(payload)
    ensures var req := BuildRequest(DataUrlPrefix(t) + payload, mimeType, prompt);
            req.parts[0].inlineData == Some(InlineData(payload, mimeType)) && !IsFramed(payload)
  {
    StripFramingOfDataUrl(t, payload);
    Base64TextIsUnframed(payload);
  }

  // ---------------------------------------------------------------------------
  // The response (lines 40-62)
  // ---------------------------------------------------------------------------

  datatype Candidate = Candidate(parts: seq<Part>)

  /** A reply; an absent candidate list is the empty one. */
  datatype Response = Response(candidates: seq<Candidate>)

  const NoOutputMessage: string := "No image or text was returned from the model."

  /** The framing every returned image gets, whatever its own mime type. */
  const PngDataUrlPrefix: string := DataUrlPrefix("png")

  /** `part.inlineData` is truthy. */
  predicate IsImagePart(part: Part) {
    part.inlineData.Some?
  }

  /** The loop takes `part.text`: no inline data, and a non-empty (truthy) text. */
  predicate IsTextPart(part: Part) {
    part.inlineData.None? && part.text.Some? && part.text.value != ""
  }

  /** `imageUrl` after the loop has visited `parts`. */
  function ImageUrlOf(parts: seq<Part>): Option<string>
    decreases |parts|
  {
    if parts == [] then None
    else
      var last := parts[|parts| - 1];
      if IsImagePart(last) then Some(PngDataUrlPrefix + last.inlineData.value.data)
      else ImageUrlOf(parts[..|parts| - 1])
  }

  /** `textOutput` after the loop has visited `parts`. */
  function TextOf(parts: seq<Part>): Option<string>
    decreases |parts|
  {
    if parts == [] then None
    else
      var last := parts[|parts| - 1];
      if IsTextPart(last) then last.text
      else TextOf(parts[..|parts| - 1])
  }

  /** There is no image URL exactly when no part carries inline data. */
  lemma {:induction false} ImageUrlOfNone(parts: seq<Part>)
    ensures ImageUrlOf(parts).None? <==> forall i :: 0 <= i < |parts| ==> !IsImagePart(parts[i])
    decreases |parts|
  {
    if parts != [] {
      var init := parts[..|parts| - 1];
      ImageUrlOfNone(init);
      assert forall i :: 0 <= i < |init| ==> init[i] == parts[i];
    }
  }

  /** The image URL is that of the last part carrying inline data, re-framed as PNG. */
  lemma {:induction false} ImageUrlOfLast(parts: seq<Part>, k: nat)
    requires k < |parts| && IsImagePart(parts[k])
    requires forall j :: k < j < |parts| ==> !IsImagePart(parts[j])
    ensures ImageUrlOf(parts) == Some(PngDataUrlPrefix + parts[k].inlineData.value.data)
    decreases |parts|
  {
    if k < |parts| - 1 {
      var init := parts[..|parts| - 1];
      assert init[k] == parts[k];
      ImageUrlOfLast(init, k);
    }
  }

  /** There is no text exactly when no part counts as text. */
  lemma {:induction false} TextOfNone(parts: seq<Part>)
    ensures TextOf(parts).None? <==> forall i :: 0 <= i < |parts| ==> !IsTextPart(parts[i])
    ensures TextOf(parts).Some? ==> TextOf(parts).value != ""
    decreases |parts|
  {
    if parts != [] {
      var init := parts[..|parts| - 1];
      TextOfNone(init);
      assert forall i :: 0 <= i < |init| ==> init[i] == parts[i];
    }
  }

  /**
   * The text is that of the last part without inline data whose text is non-empty;
   * image parts and empty texts after it change nothing.
   */
  lemma {:induction false} TextOfLast(parts: seq<Part>, k: nat)
    requires k < |parts| && IsTextPart(parts[k])
    requires forall j :: k < j < |parts| ==> !IsTextPart(parts[j])
    ensures TextOf(parts) == parts[k].text && TextOf(parts).value != ""
    decreases |parts|
  {
    if k < |parts| - 1 {
      var init := parts[..|parts| - 1];
      assert init[k] == parts[k];
      TextOfLast(init, k);
    }
  }

  /** The parts of the first candidate, or none when there is no candidate. */
  function FirstCandidateParts(response: Response): seq<Part> {
    if |response.candidates| > 0 then response.candidates[0].parts else []
  }

  /** The outcome once the loop has visited `parts`: the result, or the empty-result error. */
  function Interpretation(parts: seq<Part>): (r: Result<GeneratedImageResult, Error>)
    ensures r.Failure? <==> forall i :: 0 <= i < |parts| ==> !IsImagePart(parts[i]) && !IsTextPart(parts[i])
    ensures r.Failure? ==> r.error == Error(NoOutputMessage)
    ensures r.Success? ==> r.value.imageUrl.Some? || r.value.text.Some?
    ensures r.Success? ==> r.value.text.Some? ==> r.value.text.value != ""
  {
    ImageUrlOfNone(parts);
    TextOfNone(parts);
    var imageUrl, textOutput := ImageUrlOf(parts), TextOf(parts);
    if imageUrl.None? && textOutput.None? then Failure(Error(NoOutputMessage))
    else Success(GeneratedImageResult(imageUrl, textOutput))
  }

  /** Only the first candidate is read: later candidates never change the outcome. */
  lemma LaterCandidatesIgnored(first: Candidate, later1: seq<Candidate>, later2: seq<Candidate>)
    ensures Interpretation(FirstCandidateParts(Response([first] + later1)))
         == Interpretation(FirstCandidateParts(Response([first] + later2)))
    ensures Interpretation(FirstCandidateParts(Response([]))) == Failure(Error(NoOutputMessage))
  {
  }

  /** Lines 40-62: walk the first candidate's parts, then throw if nothing was found. */
  method InterpretResponse(response: Response) returns (r: Result<GeneratedImageResult, Error>)
    ensures r == Interpretation(FirstCandidateParts(response))
  {
    var imageUrl: Option<string> := None;
    var textOutput: Option<string> := None;
    if |response.candidates| > 0 {
      var parts := response.candidates[0].parts;
      var i := 0;
      while i < |parts|
        invariant 0 <= i <= |parts|
        invariant imageUrl == ImageUrlOf(parts[..i])
        invariant textOutput == TextOf(parts[..i])
      {
        var part := parts[i];
        assert parts[..i + 1][..i] == parts[..i];
        if part.inlineData.Some? {
          var base64Data := part.inlineData.value.data;
          imageUrl := Some(PngDataUrlPrefix + base64Data);
        } else if part.text.Some? && part.text.value != "" {
          textOutput := part.text;
        }
        i := i + 1;
      }
      assert parts[..i] == parts;
    }
    if imageUrl.None? && textOutput.None? {
      return Failure(Error(NoOutputMessage));
    }
    return Success(GeneratedImageResult(imageUrl, textOutput));
  }

  /** What `editImageWithGemini` settles to, for a given reply of the model. */
  function EditOutcome(base64Image: string, mimeType: string, prompt: string,
                       generateContent: Request -> Result<Response, Error>): Result<GeneratedImageResult, Error>
  {
    match generateContent(BuildRequest(base64Image, mimeType, prompt))
    case Failure(e) => Failure(e)
    case Success(response) => Interpretation(FirstCandidateParts(response))
  }

  /**
   * `editImageWithGemini`: sends one request built from the caller's arguments; an error
   * thrown by the call is rethrown unchanged; otherwise the reply is interpreted.
   */
  method EditImageWithGemini(base64Image: string, mimeType: string, prompt: string,
                             generateContent: Request -> Result<Response, Error>)
    returns (r: Result<GeneratedImageResult, Error>)
    ensures r == EditOutcome(base64Image, mimeType, prompt, generateContent)
    ensures var reply := generateContent(BuildRequest(base64Image, mimeType, prompt));
            reply.Failure? ==> r == Failure(reply.error)
    ensures r.Success? ==> r.value.imageUrl.Some? || r.value.text.Some?
    ensures r.Success? && r.value.imageUrl.Some? ==> PngDataUrlPrefix <= r.value.imageUrl.value
  {
    var cleanBase64 := StripFraming(base64Image);
    var request := Request(ModelName, [Part(Some(InlineData(cleanBase64, mimeType)), None), Part(None, Some(prompt))]);
    assert request == BuildRequest(base64Image, mimeType, prompt);
    var reply := generateContent(request);
    match reply
    case Failure(e) =>
      r := Failure(e);
    case Success(response) =>
      r := InterpretResponse(response);
      ImageUrlFramedAsPng(FirstCandidateParts(response));
  }

  /** Every image URL the loop produces carries the PNG framing. */
  lemma {:induction false} ImageUrlFramedAsPng(parts: seq<Part>)
    ensures ImageUrlOf(parts).Some? ==> PngDataUrlPrefix <= ImageUrlOf(parts).value
    decreases |parts|
  {
    if parts != [] && !IsImagePart(parts[|parts| - 1]) {
      ImageUrlFramedAsPng(parts[..|parts| - 1]);
    }
  }
}
