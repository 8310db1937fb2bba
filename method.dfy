/**
 * The request method. The method module of the server is not part of this model; it is
 * taken to be the closed enumeration of the eight methods of section 9.3 of RFC 9110 and
 * PATCH (RFC 5789), with a parse that accepts exactly their upper-case names.
 */
module Methods {
  import opened Wrappers

  datatype Method = GET | DELETE | POST | PUT | HEAD | CONNECT | OPTIONS | TRACE | PATCH

  /** The method's token as it appears on the request line. */
  function Name(m: Method): (r: string)
    ensures |r| >= 3
    ensures forall i :: 0 <= i < |r| ==> 'A' <= r[i] <= 'Z'
  {
    match m
    case GET => "GET"
    case DELETE => "DELETE"
    case POST => "POST"
    case PUT => "PUT"
    case HEAD => "HEAD"
    case CONNECT => "CONNECT"
    case OPTIONS => "OPTIONS"
    case TRACE => "TRACE"
    case PATCH => "PATCH"
  }

  /** Distinct methods have distinct names. */
  lemma NameInjective(m: Method, n: Method)
    requires Name(m) == Name(n)
    ensures m == n
  {
  }

  /** `str::parse::<Method>`: the method whose name is exactly `s`, or `MethodError`. */
  function Parse(s: string): (r: Option<Method>)
    ensures r.Some? ==> Name(r.value) == s
    ensures r.None? <==> forall m: Method :: Name(m) != s
  {
    match s
    case "GET" => Some(GET)
    case "DELETE" => Some(DELETE)
    case "POST" => Some(POST)
    case "PUT" => Some(PUT)
    case "HEAD" => Some(HEAD)
    case "CONNECT" => Some(CONNECT)
    case "OPTIONS" => Some(OPTIONS)
    case "TRACE" => Some(TRACE)
    case "PATCH" => Some(PATCH)
    case _ => None
  }

  /** Parsing a method's own name gives that method back. */
  lemma ParseName(m: Method)
    ensures Parse(Name(m)) == Some(m)
  {
  }
}
