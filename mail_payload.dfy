/** The shape of a message as the mail provider's "get message" call returns it:
    a payload part with headers, an optional body and optional sub-parts. */
module MailPayload {
  import opened Js

  /** One `{ name, value }` header of a part. */
  datatype Header = Header(name: Option<string>, value: Option<string>)

  /** One MIME part. `data` stands for `part.body?.data` (absent when either the body
      or its data is absent); `parts` is the optional array of sub-parts; a part
      without headers carries the empty sequence. */
  datatype Part = Part(
    mimeType: Option<string>,
    headers: seq<Header>,
    data: Option<string>,
    parts: Option<seq<Part>>)

  /** The base64 -> UTF-8 decoding of body data, `Buffer.from(d, 'base64').toString('utf-8')`.
      Every operation takes it as a parameter and every property holds for all of them. */
  type Decoder = string -> string

  const PlainText := "text/plain"
  const Html := "text/html"

  /** `part.mimeType === t`. */
  predicate HasType(p: Part, t: string) {
    p.mimeType == Some(t)
  }

  /** `part.body?.data` is truthy. */
  predicate HasData(p: Part) {
    Truthy(p.data)
  }

  /** The decoding of a part's body data. */
  function DecodedData(p: Part, decode: Decoder): string
    requires HasData(p)
  {
    decode(p.data.value)
  }
}
