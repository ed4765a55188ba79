/**
 * The records exchanged with the document store and returned to clients
 * (WhiteBoard/Models/ImageData.cs), and the exceptions the core raises or passes on.
 */
module Models {
  import opened Wrappers

  newtype byte = x: int | 0 <= x < 256

  /** A `DateTimeOffset`; the core only copies it, so it stays uninterpreted. */
  datatype Timestamp = Timestamp(utcTicks: int, offsetMinutes: int)

  /** `ImageData`: every reference-typed or nullable property is an `Option`. */
  datatype ImageData = ImageData(
    id: Option<string>,
    userName: Option<string>,
    category: Option<string>,
    imageName: Option<string>,
    imageBytes: Option<seq<byte>>,
    description: Option<string>,
    createdOnDate: Option<Timestamp>)

  /** `ImageList`: a catalogue label and the images under it. */
  datatype ImageList = ImageList(category: string, images: seq<ImageData>)

  /** The exceptions that end a request. */
  datatype Error =
    | StoreFailure(message: string)    // any failure reported by the blob or the document store
    | ArgumentOutOfRange(text: string) // `Substring(0, -1)` on a file name without a '.'
    | NullReference                    // a request body that deserialises to null
    | ArgumentNull                     // `new MemoryStream(null)` for a record without bytes

  /** How C# string interpolation renders a string that may be null. */
  function Render(s: Option<string>): string
  {
    s.GetOr("")
  }
}
