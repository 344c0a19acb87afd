/** `generateSceneImage` of services/geminiService.ts: the key check, the
    request it sends, how it reads an image out of the response, and how it
    re-wraps every failure. The client library and the network are replaced
    by the `Reply` the call gets back. */
module GeminiService {
  import opened Types

  const ModelName := "gemini-2.5-flash-image"
  const MissingKeyMessage := "API key is missing. Please provide a valid API key."
  const NoImageMessage := "이미지 데이터가 응답에 없습니다."
  const DefaultFailureMessage := "이미지 생성에 실패했습니다."
  const FallbackMimeType := "image/png"
  const CriticalInstruction := "CRITICAL INSTRUCTION: " +
    "The main character in this generated image MUST visually match the provided reference image EXACTLY. " +
    "Maintain the same facial features, hair style, hair color, body type, and clothing style. " +
    "This is the same person."

  // ---------------------------------------------------------------------
  // The request.

  datatype RequestPart = InlinePart(data: string, mimeType: string) | TextPart(text: string)

  /** `generateContent({ model, contents: { parts } })` */
  datatype Request = Request(model: string, parts: seq<RequestPart>)

  /** The fixed text of the prompt template, around its four holes. */
  const PromptHead := "\n      You are an expert storyboard artist. Generate a cinematic illustration for the following scene description: \""
  const PromptAfterScene := "\".\n\n      "
  const PromptAfterReference := "\n\n      Character Details:\n      Name: "
  const PromptAfterName := "\n      Description: "
  const PromptTail := "\n\n      Art Style Requirements:\n      - High quality digital art suitable for a storyboard.\n      - Cinematic lighting and composition.\n      - Consistent character design (most important).\n      - No text overlays or speech bubbles.\n      \n      Return ONLY the generated image.\n    "

  /** The reference sentence is chosen by `character.imageBase64` alone. */
  function ReferenceSlot(character: CharacterProfile): string
  {
    if Truthy(character.imageBase64) then CriticalInstruction else ""
  }

  /** A template literal with four holes `h1` … `h4` between the fixed
      texts `t0` … `t4`. */
  function Fill(t0: string, h1: string, t1: string, h2: string, t2: string,
                h3: string, t3: string, h4: string, t4: string): string
  {
    t0 + (h1 + (t1 + (h2 + (t2 + (h3 + (t3 + (h4 + t4)))))))
  }

  /** The template literal `prompt`. */
  function Prompt(sceneText: string, character: CharacterProfile): string
  {
    Fill(PromptHead, sceneText, PromptAfterScene, ReferenceSlot(character),
         PromptAfterReference, character.name, PromptAfterName, character.description, PromptTail)
  }

  /** `t` occurs in `s` at offset `k`. */
  predicate OccursAt(s: string, k: nat, t: string)
  {
    k + |t| <= |s| && s[k..k + |t|] == t
  }

  function SceneOffset(): nat { |PromptHead| }

  function ReferenceOffset(sceneText: string): nat
  {
    |PromptHead| + |sceneText| + |PromptAfterScene|
  }

  function NameOffset(sceneText: string, character: CharacterProfile): nat
  {
    ReferenceOffset(sceneText) + |ReferenceSlot(character)| + |PromptAfterReference|
  }

  function DescriptionOffset(sceneText: string, character: CharacterProfile): nat
  {
    NameOffset(sceneText, character) + |character.name| + |PromptAfterName|
  }

  lemma OccursAtFront(t: string, b: string)
    ensures OccursAt(t + b, 0, t)
  {
    assert (t + b)[0..|t|] == t;
  }

  lemma OccursAfter(a: string, s: string, k: nat, t: string)
    requires OccursAt(s, k, t)
    ensures OccursAt(a + s, |a| + k, t)
  {
    assert (a + s)[|a| + k..|a| + k + |t|] == s[k..k + |t|];
  }

  /** A hole behind one, two, three or four earlier pieces of a template. */
  lemma Hole1(t0: string, h: string, rest: string)
    ensures OccursAt(t0 + (h + rest), |t0|, h)
  {
    OccursAtFront(h, rest);
    OccursAfter(t0, h + rest, 0, h);
  }

  lemma Hole2(t0: string, h1: string, t1: string, h: string, rest: string)
    ensures OccursAt(t0 + (h1 + (t1 + (h + rest))), |t0| + |h1| + |t1|, h)
  {
    Hole1(t1, h, rest);
    OccursAfter(h1, t1 + (h + rest), |t1|, h);
    OccursAfter(t0, h1 + (t1 + (h + rest)), |h1| + |t1|, h);
  }

  lemma Hole3(t0: string, h1: string, t1: string, h2: string, t2: string, h: string, rest: string)
    ensures OccursAt(t0 + (h1 + (t1 + (h2 + (t2 + (h + rest))))),
                     |t0| + |h1| + |t1| + |h2| + |t2|, h)
  {
    Hole2(t1, h2, t2, h, rest);
    OccursAfter(h1, t1 + (h2 + (t2 + (h + rest))), |t1| + |h2| + |t2|, h);
    OccursAfter(t0, h1 + (t1 + (h2 + (t2 + (h + rest)))), |h1| + |t1| + |h2| + |t2|, h);
  }

  lemma Hole4(t0: string, h1: string, t1: string, h2: string, t2: string, h3: string, t3: string,
              h: string, rest: string)
    ensures OccursAt(t0 + (h1 + (t1 + (h2 + (t2 + (h3 + (t3 + (h + rest))))))),
                     |t0| + |h1| + |t1| + |h2| + |t2| + |h3| + |t3|, h)
  {
    Hole3(t1, h2, t2, h3, t3, h, rest);
    OccursAfter(h1, t1 + (h2 + (t2 + (h3 + (t3 + (h + rest))))), |t1| + |h2| + |t2| + |h3| + |t3|, h);
    OccursAfter(t0, h1 + (t1 + (h2 + (t2 + (h3 + (t3 + (h + rest)))))),
                |h1| + |t1| + |h2| + |t2| + |h3| + |t3|, h);
  }

  /** Each hole of a filled template sits right after the texts and holes
      before it. */
  lemma FillHoles(t0: string, h1: string, t1: string, h2: string, t2: string,
                  h3: string, t3: string, h4: string, t4: string)
    ensures var p := Fill(t0, h1, t1, h2, t2, h3, t3, h4, t4);
            OccursAt(p, |t0|, h1) &&
            OccursAt(p, |t0| + |h1| + |t1|, h2) &&
            OccursAt(p, |t0| + |h1| + |t1| + |h2| + |t2|, h3) &&
            OccursAt(p, |t0| + |h1| + |t1| + |h2| + |t2| + |h3| + |t3|, h4)
  {
    Hole1(t0, h1, t1 + (h2 + (t2 + (h3 + (t3 + (h4 + t4))))));
    Hole2(t0, h1, t1, h2, t2 + (h3 + (t3 + (h4 + t4))));
    Hole3(t0, h1, t1, h2, t2, h3, t3 + (h4 + t4));
    Hole4(t0, h1, t1, h2, t2, h3, t3, h4, t4);
  }

  /** The prompt quotes the scene text, and the reference slot follows. */
  lemma PromptQuotesScene(sceneText: string, character: CharacterProfile)
    ensures OccursAt(Prompt(sceneText, character), SceneOffset(), sceneText)
    ensures OccursAt(Prompt(sceneText, character), ReferenceOffset(sceneText), ReferenceSlot(character))
  {
    FillHoles(PromptHead, sceneText, PromptAfterScene, ReferenceSlot(character),
              PromptAfterReference, character.name, PromptAfterName, character.description, PromptTail);
  }

  /** The prompt carries the character's name and description, each at its
      place in the template. */
  lemma PromptNamesCharacter(sceneText: string, character: CharacterProfile)
    ensures OccursAt(Prompt(sceneText, character), NameOffset(sceneText, character), character.name)
    ensures OccursAt(Prompt(sceneText, character), DescriptionOffset(sceneText, character), character.description)
  {
    FillHoles(PromptHead, sceneText, PromptAfterScene, ReferenceSlot(character),
              PromptAfterReference, character.name, PromptAfterName, character.description, PromptTail);
  }

  lemma OccursFirst(s: string, k: nat, t: string)
    requires OccursAt(s, k, t) && t != []
    ensures s[k] == t[0]
  {
    assert s[k..k + |t|][0] == s[k];
  }

  /** When the second hole is empty, the text after it starts right at its
      place. */
  lemma FillEmptySecond(t0: string, h1: string, t1: string, t2: string,
                        h3: string, t3: string, h4: string, t4: string)
    ensures OccursAt(Fill(t0, h1, t1, "", t2, h3, t3, h4, t4), |t0| + |h1| + |t1|, t2)
  {
    var rest := h3 + (t3 + (h4 + t4));
    assert "" + (t2 + rest) == t2 + rest;
    Hole2(t0, h1, t1, t2, rest);
  }

  /** Without an image the slot is empty, and the text after it starts with
      a newline where the instruction would start with `C`. */
  lemma EmptySlot(sceneText: string, character: CharacterProfile)
    requires !Truthy(character.imageBase64)
    ensures !OccursAt(Prompt(sceneText, character), ReferenceOffset(sceneText), CriticalInstruction)
  {
    var k := ReferenceOffset(sceneText);
    var p := Prompt(sceneText, character);
    FillEmptySecond(PromptHead, sceneText, PromptAfterScene,
                    PromptAfterReference, character.name, PromptAfterName, character.description, PromptTail);
    OccursFirst(p, k, PromptAfterReference);
    assert PromptAfterReference[0] == '\n';
    assert CriticalInstruction[0] == 'C';
    if OccursAt(p, k, CriticalInstruction) {
      OccursFirst(p, k, CriticalInstruction);
    }
  }

  /** The reference-match instruction stands in its slot exactly when
      `imageBase64` is non-empty; `mimeType` plays no part, so the sentence
      can be there with no image part in the request. */
  lemma PromptReference(sceneText: string, character: CharacterProfile, mimeType: Option<string>)
    ensures OccursAt(Prompt(sceneText, character), ReferenceOffset(sceneText), CriticalInstruction)
            <==> Truthy(character.imageBase64)
    ensures Prompt(sceneText, character.(mimeType := mimeType)) == Prompt(sceneText, character)
  {
    if Truthy(character.imageBase64) {
      PromptQuotesScene(sceneText, character);
    } else {
      EmptySlot(sceneText, character);
    }
  }

  /** The parts the request carries: the reference image first when both
      `imageBase64` and `mimeType` are non-empty, and the prompt always
      last. */
  function RequestParts(sceneText: string, character: CharacterProfile): (r: seq<RequestPart>)
    ensures |r| == if Truthy(character.imageBase64) && Truthy(character.mimeType) then 2 else 1
    ensures r[|r| - 1] == TextPart(Prompt(sceneText, character))
    ensures r[0].InlinePart? <==> Truthy(character.imageBase64) && Truthy(character.mimeType)
    ensures r[0].InlinePart? ==>
              r[0] == InlinePart(character.imageBase64.value, character.mimeType.value)
  {
    (if Truthy(character.imageBase64) && Truthy(character.mimeType)
     then [InlinePart(character.imageBase64.value, character.mimeType.value)]
     else [])
    + [TextPart(Prompt(sceneText, character))]
  }

  // ---------------------------------------------------------------------
  // The response.

  /** `part.inlineData`: the SDK declares both fields optional. */
  datatype InlineData = InlineData(data: Option<string>, mimeType: Option<string>)

  /** A part of the reply; its other fields (`text`, …) are never read. */
  datatype ResponsePart = ResponsePart(inlineData: Option<InlineData>)

  /** `candidate.content.parts` */
  datatype Candidate = Candidate(parts: seq<ResponsePart>)

  datatype Response = Response(candidates: Option<seq<Candidate>>)

  /** What the awaited `generateContent` call gives back: a response, or a
      rejection whose error has `message` (the empty string when it has
      none). */
  datatype Reply = Responded(response: Response) | Rejected(message: string)

  /** How a template literal renders an optional string: a missing value
      becomes `undefined`. */
  function Rendered(o: Option<string>): string
  {
    match o
    case Some(v) => v
    case None => "undefined"
  }

  /** `data:${mimeType || 'image/png'};base64,${data}` */
  function DataUrl(d: InlineData): string
  {
    var mime := if Truthy(d.mimeType) then d.mimeType.value else FallbackMimeType;
    "data:" + mime + ";base64," + Rendered(d.data)
  }

  /** The index of the first part that has inline data, or `|parts|`. */
  function FirstInline(parts: seq<ResponsePart>): (k: nat)
    ensures k <= |parts|
    ensures forall j :: 0 <= j < k ==> parts[j].inlineData.None?
    ensures k < |parts| ==> parts[k].inlineData.Some?
  {
    if parts == [] || parts[0].inlineData.Some? then 0 else 1 + FirstInline(parts[1..])
  }

  /** The parts the scan looks at: those of the first candidate, if any. */
  function ScannedParts(response: Response): seq<ResponsePart>
  {
    match response.candidates
    case Some(cs) => if |cs| > 0 then cs[0].parts else []
    case None => []
  }

  /** The image URL the response yields, if it has one. */
  function ImageOf(response: Response): Option<string>
  {
    var parts := ScannedParts(response);
    var k := FirstInline(parts);
    if k < |parts| then Some(DataUrl(parts[k].inlineData.value)) else None
  }

  /** Only the first candidate is examined: dropping or changing the others
      changes nothing. */
  lemma OnlyFirstCandidate(c: Candidate, others: seq<Candidate>, others': seq<Candidate>)
    ensures ImageOf(Response(Some([c] + others))) == ImageOf(Response(Some([c] + others')))
  {
  }

  /** The image comes from the first part with inline data: what precedes
      it has none, and what follows it is never read. */
  lemma FirstInlinePartWins(before: seq<ResponsePart>, d: InlineData,
                            after: seq<ResponsePart>, others: seq<Candidate>)
    requires forall j :: 0 <= j < |before| ==> before[j].inlineData.None?
    ensures ImageOf(Response(Some([Candidate(before + [ResponsePart(Some(d))] + after)] + others)))
            == Some(DataUrl(d))
  {
    var parts := before + [ResponsePart(Some(d))] + after;
    assert forall j :: 0 <= j < |before| ==> parts[j] == before[j];
    assert parts[|before|].inlineData.Some?;
  }

  /** The `for … of` scan over the first candidate's parts, returning at the
      first part with inline data. */
  method ExtractImage(response: Response) returns (image: Option<string>)
    ensures image == ImageOf(response)
  {
    image := None;
    var candidates := response.candidates;
    if candidates.Some? && |candidates.value| > 0 {
      var parts := candidates.value[0].parts;
      var i := 0;
      while i < |parts|
        invariant 0 <= i <= |parts|
        invariant forall j :: 0 <= j < i ==> parts[j].inlineData.None?
      {
        if parts[i].inlineData.Some? {
          image := Some(DataUrl(parts[i].inlineData.value));
          return;
        }
        i := i + 1;
      }
    }
  }

  // ---------------------------------------------------------------------
  // The whole call.

  /** `throw new Error(error.message || "이미지 생성에 실패했습니다.")` */
  function Rewrap(message: string): (r: string)
    ensures r != []
    ensures message != [] ==> r == message
    ensures message == [] ==> r == DefaultFailureMessage
  {
    if message == "" then DefaultFailureMessage else message
  }

  /** What the call resolves to, given the reply the client gets. */
  function GenerationResult(sceneText: string, character: CharacterProfile, apiKey: string,
                            reply: Reply): Result<string>
  {
    if apiKey == "" then Err(MissingKeyMessage)
    else match reply
      case Rejected(message) => Err(Rewrap(message))
      case Responded(response) =>
        match ImageOf(response)
        case Some(url) => Ok(url)
        case None => Err(Rewrap(NoImageMessage))
  }

  /** `generateSceneImage(sceneText, character, apiKey)`: `request` is the
      one request it sends, if it gets that far. */
  method GenerateSceneImage(sceneText: string, character: CharacterProfile, apiKey: string,
                            reply: Reply)
    returns (result: Result<string>, request: Option<Request>)
    ensures request == if apiKey == "" then None
                       else Some(Request(ModelName, RequestParts(sceneText, character)))
    ensures result == GenerationResult(sceneText, character, apiKey, reply)
  {
    if apiKey == "" {
      return Err(MissingKeyMessage), None;
    }
    var parts: seq<RequestPart> := [];
    if Truthy(character.imageBase64) && Truthy(character.mimeType) {
      parts := parts + [InlinePart(character.imageBase64.value, character.mimeType.value)];
    }
    var prompt := Prompt(sceneText, character);
    parts := parts + [TextPart(prompt)];
    assert parts == RequestParts(sceneText, character);
    request := Some(Request(ModelName, parts));
    match reply
    case Rejected(message) =>
      result := Err(Rewrap(message));
    case Responded(response) =>
      var image := ExtractImage(response);
      if image.Some? {
        result := Ok(image.value);
      } else {
        result := Err(Rewrap(NoImageMessage));
      }
  }

  /** Every failure carries a non-empty message; a missing key fails before
      any request; a response without an image gives the Korean "no image
      data" message. */
  lemma GenerationFailures(sceneText: string, character: CharacterProfile, apiKey: string,
                           reply: Reply)
    ensures GenerationResult(sceneText, character, apiKey, reply).Err? ==>
              GenerationResult(sceneText, character, apiKey, reply).message != ""
    ensures apiKey == "" ==> GenerationResult(sceneText, character, apiKey, reply) == Err(MissingKeyMessage)
    ensures apiKey != "" && reply.Responded? && ImageOf(reply.response).None? ==>
              GenerationResult(sceneText, character, apiKey, reply) == Err(NoImageMessage)
    ensures apiKey != "" && reply.Rejected? && reply.message != "" ==>
              GenerationResult(sceneText, character, apiKey, reply) == Err(reply.message)
    ensures apiKey != "" && reply.Rejected? && reply.message == "" ==>
              GenerationResult(sceneText, character, apiKey, reply) == Err(DefaultFailureMessage)
  {
  }

  /** A response without candidates, or whose first candidate has no part
      with inline data, yields no image. */
  lemma NoImageWithoutInlineData(response: Response)
    requires forall p :: p in ScannedParts(response) ==> p.inlineData.None?
    ensures ImageOf(response) == None
  {
    var parts := ScannedParts(response);
    assert forall j :: 0 <= j < |parts| ==> parts[j].inlineData.None?;
  }
}
