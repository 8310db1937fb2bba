/**
 * The status codes of src/http/status_code.rs: a closed set of variants, each with its numeric
 * code (the enum discriminant) and its reason phrase (section 15 of RFC 9110).
 */
module StatusCodes {
  import opened Wrappers
  import Text

  datatype StatusCode =
    | Ok | Created | NoContent
    | BadRequest | Unauthorized | Forbidden | NotFound | MethodNotAllowed | NotAcceptable
    | InternalServerError | NotImplemented | BadGateway | ServiceUnavailable

  /** The discriminant, `*self as u16`. */
  function Code(s: StatusCode): (r: nat)
    ensures 200 <= r < 600
  {
    match s
    case Ok => 200
    case Created => 201
    case NoContent => 204
    case BadRequest => 400
    case Unauthorized => 401
    case Forbidden => 403
    case NotFound => 404
    case MethodNotAllowed => 405
    case NotAcceptable => 406
    case InternalServerError => 500
    case NotImplemented => 501
    case BadGateway => 502
    case ServiceUnavailable => 503
  }

  /** `reason_phrase`. */
  function ReasonPhrase(s: StatusCode): (r: string)
    ensures |r| > 0
  {
    match s
    case Ok => "OK"
    case Created => "Created"
    case NoContent => "No Content"
    case BadRequest => "Bad Request"
    case Unauthorized => "Unauthorized"
    case Forbidden => "Forbidden"
    case NotFound => "Not Found"
    case MethodNotAllowed => "Method Not Allowed"
    case NotAcceptable => "Not Acceptable"
    case InternalServerError => "Internal Server Error"
    case NotImplemented => "Not Implemented"
    case BadGateway => "Bad Gateway"
    case ServiceUnavailable => "Service Unavailable"
  }

  /** The variant with a given code, if there is one: the inverse of Code. */
  function FromCode(code: nat): (r: Option<StatusCode>)
    ensures r.Some? ==> Code(r.value) == code
    ensures r.None? <==> forall s: StatusCode :: Code(s) != code
  {
    if code == 200 then Some(StatusCode.Ok)
    else if code == 201 then Some(Created)
    else if code == 204 then Some(NoContent)
    else if code == 400 then Some(BadRequest)
    else if code == 401 then Some(Unauthorized)
    else if code == 403 then Some(Forbidden)
    else if code == 404 then Some(NotFound)
    else if code == 405 then Some(MethodNotAllowed)
    else if code == 406 then Some(NotAcceptable)
    else if code == 500 then Some(InternalServerError)
    else if code == 501 then Some(NotImplemented)
    else if code == 502 then Some(BadGateway)
    else if code == 503 then Some(ServiceUnavailable)
    else None
  }

  /** Looking up a variant's own code gives the variant back. */
  lemma FromCodeCode(s: StatusCode)
    ensures FromCode(Code(s)) == Some(s)
  {
  }

  /** Distinct variants have distinct codes. */
  lemma CodeInjective(s: StatusCode, t: StatusCode)
    requires Code(s) == Code(t)
    ensures s == t
  {
    FromCodeCode(s);
    FromCodeCode(t);
  }

  /** `Display`: the code in decimal. */
  function Display(s: StatusCode): (r: string)
    ensures |r| == 3 && Text.IsDigits(r)
    ensures Text.DecimalValue(r) == Code(s)
  {
    var r := Text.NatToDecimal(Code(s));
    Text.DecimalLength(Code(s));
    r
  }

  /** Reason phrases of the common codes. */
  lemma ReasonPhrases()
    ensures ReasonPhrase(FromCode(200).value) == "OK"
    ensures ReasonPhrase(FromCode(400).value) == "Bad Request"
    ensures ReasonPhrase(FromCode(404).value) == "Not Found"
    ensures ReasonPhrase(FromCode(503).value) == "Service Unavailable"
  {
  }

  /** The codes the server's fixed answers use, as text. */
  lemma DisplayExamples()
    ensures Display(StatusCode.Ok) == "200" && Display(BadRequest) == "400"
  {
    assert Text.NatToDecimal(2) == "2" && Text.NatToDecimal(4) == "4";
    assert Text.NatToDecimal(20) == "20" && Text.NatToDecimal(40) == "40";
  }
}
