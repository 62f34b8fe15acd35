/**
 * The WHATWG URL parser, as the scraper uses it through `new URL(...)`.
 * Its internals (host parsing, IPv4 number forms, percent-encoding,
 * path resolution) are not modelled: the parser is a pair of functions the
 * caller supplies.
 */
module Urls {
  import opened Wrappers

  /** The fields of a parsed URL the scraper reads. */
  datatype ParsedUrl = ParsedUrl(protocol: string, hostname: string, href: string)

  /** `parse(s)` is `new URL(s)`, `None` when the constructor throws;
      `resolve(ref, base)` is `new URL(ref, base).href`, `None` when it
      throws. */
  datatype UrlParser = UrlParser(
    parse: string -> Option<ParsedUrl>,
    resolve: (string, string) -> Option<string>)
}
