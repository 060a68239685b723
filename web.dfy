/** The WHATWG URL parser is a foreign collaborator: the model takes it as a
    parameter (`UrlParser`) that either rejects a string (the constructor
    `new URL(s)` throws) or yields the parsed protocol and hostname. */
module Web {
  import opened Common
  import opened Text

  datatype ParsedUrl = ParsedUrl(protocol: string, hostname: string)

  /** `new URL(s)`: `None` when the constructor throws. */
  type UrlParser = string -> Option<ParsedUrl>

  /** `isValidUrl`: the string parses and its protocol is exactly `http:` or
      `https:`. */
  predicate IsValidUrl(parse: UrlParser, s: string): (b: bool)
    ensures b ==> parse(s).Some? && StartsWith(parse(s).value.protocol, "http")
    ensures parse(s).Some? && parse(s).value.protocol in {"http:", "https:"} ==> b
  {
    match parse(s)
    case None => false
    case Some(u) => u.protocol == "http:" || u.protocol == "https:"
  }
}
