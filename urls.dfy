/**
 * The WHATWG URL operations the harvester calls, kept uninterpreted:
 * `new URL(u, base).href` (which throws on malformed input), `.origin`
 * and `.pathname`.
 */
module Urls {
  import opened Wrappers

  datatype UrlApi = UrlApi(
    /** `resolveUrl(u, base)`: the absolute `href`, or `None` where `new URL` throws. */
    resolve: (string, string) -> Option<string>,
    /** `new URL(h).origin` of an already resolved URL. */
    origin: string -> string,
    /** `new URL(h).pathname` of an already resolved URL. */
    pathname: string -> string)

  /** JavaScript truthiness of `resolveUrl`'s result: not `null` and not the empty string. */
  predicate Truthy(r: Option<string>) {
    r.Some? && r.value != ""
  }
}
