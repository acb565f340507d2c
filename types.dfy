/** The value types shared by the service and the application state (types.ts). */
module Types {
  import opened Wrappers

  /** The four phases of the editing session. */
  datatype AppStatus = IDLE | PROCESSING | SUCCESS | ERROR

  /** What one successful edit returns: an image URL, a text reply, or both. */
  datatype GeneratedImageResult = GeneratedImageResult(imageUrl: Option<string>, text: Option<string>)

  /**
   * A thrown JavaScript error, reduced to the one property the application reads.
   * The empty message stands for a missing or empty `message`; both are falsy.
   */
  datatype Error = Error(message: string)
}
