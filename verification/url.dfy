/**
 * A URI already split by net/url: scheme, host, the percent-decoded path and the decoded
 * query. Parsing and escaping themselves are left to the library.
 */
module Url {

  datatype Uri = Uri(scheme: string, host: string, path: string, query: map<string, seq<string>>)

  /** url.Values.Get: the first value of a key, or "" when the key is absent. */
  function Get(query: map<string, seq<string>>, key: string): (v: string)
    ensures key in query && |query[key]| > 0 ==> v == query[key][0]
    ensures key !in query ==> v == ""
  {
    if key in query && |query[key]| > 0 then query[key][0] else ""
  }
}
