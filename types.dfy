/** The records of types.ts, plus the two small wrappers the model uses for
    JavaScript's optional values and thrown errors. */
module Types {

  /** A JavaScript value that may be absent (`undefined` or `null`). */
  datatype Option<+T> = None | Some(value: T)

  /** The outcome of an asynchronous call that either resolves to a value or
      rejects with an `Error` carrying `message`. */
  datatype Result<+T> = Ok(value: T) | Err(message: string)

  /** `Scene.status`. */
  datatype SceneStatus = Pending | Generating | Completed | Error

  /** `Scene`: `imageUrl` and `errorMsg` are optional properties. */
  datatype Scene = Scene(
    id: string,
    originalText: string,
    imageUrl: Option<string>,
    status: SceneStatus,
    errorMsg: Option<string>)

  /** `CharacterProfile`: the two image fields are `string | null`. */
  datatype CharacterProfile = CharacterProfile(
    name: string,
    description: string,
    imageBase64: Option<string>,
    mimeType: Option<string>)

  /** The `GenerationStatus` enum. */
  datatype GenerationStatus = Idle | Processing | GenerationCompleted

  /** JavaScript truthiness of an optional string: present and non-empty. */
  predicate Truthy(s: Option<string>)
  {
    s.Some? && s.value != ""
  }

  /** The profile App.tsx starts from: empty strings and no image. */
  function InitialCharacter(): CharacterProfile
  {
    CharacterProfile("", "", None, None)
  }
}
