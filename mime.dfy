/**
 * `guess_mime_type`: the extension table of the host library is a parameter,
 * and the fallback applies whenever it yields nothing (or an empty string).
 */
module Mime {
  import opened Wrappers

  const OctetStream := "application/octet-stream"

  function GuessMimeType(guess: string -> Option<string>, filePath: string): (mime: string)
    ensures mime != ""
    ensures guess(filePath).Some? && guess(filePath).value != "" ==> mime == guess(filePath).value
    ensures guess(filePath) == None || guess(filePath) == Some("") ==> mime == OctetStream
  {
    match guess(filePath)
    case Some(m) => if m != "" then m else OctetStream
    case None => OctetStream
  }
}
