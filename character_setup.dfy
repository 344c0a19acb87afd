/** The profile updates of components/CharacterSetup.tsx. Each one is a
    record spread `prev => ({ ...prev, … })`; the file reading itself is
    left to the browser, and only the string it delivers is modelled. */
module CharacterSetup {
  import opened Types
  import opened JsStrings
  import opened GeminiService

  /** The URL `FileReader.readAsDataURL` delivers for a file of type
      `mimeType` whose bytes encode to `payload`. */
  function ReadAsDataUrl(mimeType: string, payload: string): string
  {
    "data:" + mimeType + ";base64," + payload
  }

  /** `base64String.split(',')[1]`: the second piece, or `undefined` when
      there is no comma. */
  function Base64Payload(dataUrl: string): (r: Option<string>)
    ensures r.None? <==> ',' !in dataUrl
  {
    var pieces := Split(dataUrl, ',');
    JoinSplit(dataUrl, ',');
    if |pieces| > 1 then
      assert dataUrl[|pieces[0]|] == ',';
      Some(pieces[1])
    else
      None
  }

  /** The upload callback: the payload of what the reader delivered, and the
      file's type. */
  function Upload(prev: CharacterProfile, readerResult: string, fileType: string): (r: CharacterProfile)
    ensures r.name == prev.name && r.description == prev.description
    ensures r.imageBase64 == Base64Payload(readerResult) && r.mimeType == Some(fileType)
  {
    prev.(imageBase64 := Base64Payload(readerResult), mimeType := Some(fileType))
  }

  /** `handleRemoveImage` */
  function RemoveImage(prev: CharacterProfile): (r: CharacterProfile)
    ensures r.name == prev.name && r.description == prev.description
    ensures r.imageBase64 == None && r.mimeType == None
  {
    prev.(imageBase64 := None, mimeType := None)
  }

  /** The name input's `onChange`. */
  function EditName(prev: CharacterProfile, value: string): (r: CharacterProfile)
    ensures r == CharacterProfile(value, prev.description, prev.imageBase64, prev.mimeType)
  {
    prev.(name := value)
  }

  /** The description input's `onChange`. */
  function EditDescription(prev: CharacterProfile, value: string): (r: CharacterProfile)
    ensures r == CharacterProfile(prev.name, value, prev.imageBase64, prev.mimeType)
  {
    prev.(description := value)
  }

  /** One user action on the form. */
  datatype Edit =
    | Uploaded(readerResult: string, fileType: string)
    | Removed
    | NameTyped(value: string)
    | DescriptionTyped(value: string)

  function Step(prev: CharacterProfile, e: Edit): CharacterProfile
  {
    match e
    case Uploaded(readerResult, fileType) => Upload(prev, readerResult, fileType)
    case Removed => RemoveImage(prev)
    case NameTyped(v) => EditName(prev, v)
    case DescriptionTyped(v) => EditDescription(prev, v)
  }

  /** The profile after a sequence of actions, in order. */
  function ApplyEdits(prev: CharacterProfile, edits: seq<Edit>): CharacterProfile
    decreases |edits|
  {
    if edits == [] then prev else ApplyEdits(Step(prev, edits[0]), edits[1..])
  }

  /** The two image fields are set and cleared together. */
  predicate ImagePaired(c: CharacterProfile)
  {
    c.imageBase64.None? <==> c.mimeType.None?
  }

  /** Every upload delivered a data URL, which always has a comma. */
  predicate UploadsAreDataUrls(edits: seq<Edit>)
  {
    forall i :: 0 <= i < |edits| && edits[i].Uploaded? ==> ',' in edits[i].readerResult
  }

  /** Starting from a paired profile, and with every reader result a
      data URL, the image fields stay paired after any sequence of actions. */
  lemma {:induction false} EditsKeepImagePaired(prev: CharacterProfile, edits: seq<Edit>)
    requires ImagePaired(prev) && UploadsAreDataUrls(edits)
    ensures ImagePaired(ApplyEdits(prev, edits))
    decreases |edits|
  {
    if edits != [] {
      var next := Step(prev, edits[0]);
      assert ImagePaired(next);
      assert UploadsAreDataUrls(edits[1..]) by {
        forall i | 0 <= i < |edits[1..]| && edits[1..][i].Uploaded?
          ensures ',' in edits[1..][i].readerResult
        {
          assert edits[1..][i] == edits[i + 1];
        }
      }
      EditsKeepImagePaired(next, edits[1..]);
    }
  }

  /** In particular from the profile the app starts with. */
  lemma InitialProfileStaysPaired(edits: seq<Edit>)
    requires UploadsAreDataUrls(edits)
    ensures ImagePaired(ApplyEdits(InitialCharacter(), edits))
  {
    EditsKeepImagePaired(InitialCharacter(), edits);
  }

  /** A reader result without a comma leaves `imageBase64` undefined next to
      a set `mimeType`: the pairing rests on the reader's format. */
  lemma UploadWithoutComma(prev: CharacterProfile, readerResult: string, fileType: string)
    requires ',' !in readerResult
    ensures !ImagePaired(Upload(prev, readerResult, fileType))
  {
  }

  /** The payload extraction gives back the encoded bytes when neither the
      type nor the payload has a comma. */
  lemma PayloadRoundTrip(mimeType: string, payload: string)
    requires ',' !in mimeType && ',' !in payload
    ensures Base64Payload(ReadAsDataUrl(mimeType, payload)) == Some(payload)
  {
    var head := "data:" + mimeType + ";base64";
    assert ',' !in head by {
      forall i | 0 <= i < |head| ensures head[i] != ',' {
        if 5 <= i < 5 + |mimeType| {
          assert head[i] == mimeType[i - 5];
        }
      }
    }
    assert Join([head, payload], ',') == ReadAsDataUrl(mimeType, payload);
    SplitJoin([head, payload], ',');
  }

  /** The data URL the generator builds from an image part has the format
      the reader delivers, so the same extraction reads its payload back;
      a part without data yields the payload `undefined`. */
  lemma GeneratedUrlPayload(d: InlineData)
    requires d.data.Some? ==> ',' !in d.data.value
    requires d.mimeType.Some? ==> ',' !in d.mimeType.value
    ensures Truthy(d.mimeType) ==> DataUrl(d) == ReadAsDataUrl(d.mimeType.value, Rendered(d.data))
    ensures !Truthy(d.mimeType) ==> DataUrl(d) == ReadAsDataUrl("image/png", Rendered(d.data))
    ensures d.data.Some? ==> Base64Payload(DataUrl(d)) == Some(d.data.value)
    ensures d.data.None? ==> Base64Payload(DataUrl(d)) == Some("undefined")
  {
    var mime := if Truthy(d.mimeType) then d.mimeType.value else FallbackMimeType;
    assert ',' !in FallbackMimeType;
    assert ',' !in "undefined";
    PayloadRoundTrip(mime, Rendered(d.data));
  }

  /** A comma in the type shifts the pieces: the extraction then returns
      part of the type instead. */
  lemma PayloadWithCommaInType()
    ensures Base64Payload(ReadAsDataUrl("a,b", "QUJD")) == Some("b;base64")
  {
    var pieces := ["data:a", "b;base64", "QUJD"];
    assert Join(pieces[2..], ',') == "QUJD";
    assert Join(pieces[1..], ',') == "b;base64,QUJD";
    assert Join(pieces, ',') == ReadAsDataUrl("a,b", "QUJD");
    SplitJoin(pieces, ',');
  }

  /** Name and description edits never touch the image, and an image change
      never touches the name or description, so the two kinds commute. */
  lemma EditsCommute(prev: CharacterProfile, text: string, readerResult: string, fileType: string)
    ensures EditName(Upload(prev, readerResult, fileType), text) ==
            Upload(EditName(prev, text), readerResult, fileType)
    ensures EditName(RemoveImage(prev), text) == RemoveImage(EditName(prev, text))
    ensures EditDescription(Upload(prev, readerResult, fileType), text) ==
            Upload(EditDescription(prev, text), readerResult, fileType)
    ensures EditDescription(RemoveImage(prev), text) == RemoveImage(EditDescription(prev, text))
  {
  }
}
