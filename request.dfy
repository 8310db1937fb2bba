/**
 * The request-line parser of src/http/request.rs: a request buffer is decoded as UTF-8, its
 * first three words (method, target, protocol) are cut at a space or a carriage return,
 * the protocol is checked, then the method is parsed and the target split at its first `?`.
 */
module Requests {
  import opened Wrappers
  import Text
  import Utf8
  import Methods
  import QueryStrings

  datatype ParseError = InvalidRequest | InvalidEncoding | InvalidProtocol | InvalidMethod | UnsupportedVersion

  /** `ParseError::message`. */
  function Message(e: ParseError): (r: string)
    ensures |r| > 0
  {
    match e
    case InvalidRequest => "Invalid Request"
    case InvalidEncoding => "Invalid Encoding"
    case InvalidProtocol => "Invalid Protocol"
    case InvalidMethod => "Invalid Method"
    case UnsupportedVersion => "HTTP Version Not Supported"
  }

  /** Every error has its own message. */
  lemma MessageInjective(e: ParseError, f: ParseError)
    requires Message(e) == Message(f)
    ensures e == f
  {
  }

  /** A parsed request: the path, the decoded query string if the target had a `?`, and the method. */
  datatype Request = Request(path: string, queryString: Option<QueryStrings.QueryString>, requestMethod: Methods.Method)

  /** The characters that end a word of the request line. */
  predicate IsBreak(c: char)
  {
    c == ' ' || c == '\r'
  }

  /** A word holds neither a space nor a carriage return. */
  predicate BreakFree(w: string)
  {
    forall j :: 0 <= j < |w| ==> !IsBreak(w[j])
  }

  /** The number of word-ending characters in `s`. */
  function Breaks(s: string): nat
  {
    if |s| == 0 then 0 else (if IsBreak(s[0]) then 1 else 0) + Breaks(s[1..])
  }

  /**
   * `parse_next_word`: the trimmed text before the first space or carriage return, and the
   * text after that character; nothing when there is no such character.
   */
  function ParseNextWord(request: string): (r: Option<(string, string)>)
    ensures r.None? <==> BreakFree(request)
    ensures r.Some? ==>
      var i := |request| - |r.value.1| - 1;
      && 0 <= i < |request| && IsBreak(request[i])
      && BreakFree(request[..i])
      && r.value.0 == Text.Trim(request[..i])
      && r.value.1 == request[i + 1..]
    ensures r.Some? ==> BreakFree(r.value.0)
  {
    match Text.FindFirst(request, IsBreak)
    case None => None
    case Some(index) =>
      TrimBreakFree(request[..index]);
      Some((Text.Trim(request[..index]), request[index + 1..]))
  }

  /** Trimming text without breaks leaves a word without breaks. */
  lemma TrimBreakFree(s: string)
    requires BreakFree(s)
    ensures BreakFree(Text.Trim(s))
  {
    var r := Text.Trim(s);
    var i := Text.LeadingWhitespace(s);
    assert r == s[i..i + |r|];
    assert forall j :: 0 <= j < |r| ==> r[j] == s[i + j];
  }

  /** A word followed by a break is cut off there, whatever comes after. */
  lemma ParseNextWordAt(w: string, c: char, rest: string)
    requires BreakFree(w)
    requires IsBreak(c)
    ensures ParseNextWord(w + [c] + rest) == Some((Text.Trim(w), rest))
  {
    var s := w + [c] + rest;
    Text.FindFirstAt(w, c, rest, IsBreak);
    assert s[..|w|] == w && s[|w| + 1..] == rest;
  }

  /** Cutting off a word consumes exactly one break. */
  lemma ParseNextWordBreaks(request: string)
    requires ParseNextWord(request).Some?
    ensures Breaks(ParseNextWord(request).value.1) == Breaks(request) - 1
  {
    var rest := ParseNextWord(request).value.1;
    var i := |request| - |rest| - 1;
    assert request == request[..i] + ([request[i]] + rest);
    BreaksAppend(request[..i], [request[i]] + rest);
    BreaksAppend([request[i]], rest);
    assert [request[i]][1..] == [];
    assert Breaks([request[i]]) == 1;
    NoBreaks(request[..i]);
  }

  lemma {:induction false} BreaksAppend(s: string, t: string)
    ensures Breaks(s + t) == Breaks(s) + Breaks(t)
    decreases |s|
  {
    if |s| > 0 {
      assert (s + t)[1..] == s[1..] + t;
      BreaksAppend(s[1..], t);
    } else {
      assert s + t == t;
    }
  }

  lemma {:induction false} NoBreaks(s: string)
    requires BreakFree(s)
    ensures Breaks(s) == 0
    decreases |s|
  {
    if |s| > 0 {
      NoBreaks(s[1..]);
    }
  }

  /** Text with no break at all. */
  lemma {:induction false} BreaksNone(s: string)
    requires Breaks(s) == 0
    ensures BreakFree(s)
    decreases |s|
  {
    if |s| > 0 {
      BreaksNone(s[1..]);
      assert forall j :: 1 <= j < |s| ==> s[j] == s[1..][j - 1];
    }
  }

  /**
   * `validate_protocol`: the token is split at its first `/`; `HTTP/1.1` passes, any other
   * token whose part before the slash is `HTTP` is an unsupported version, and everything else
   * (including a token without a slash) is an invalid protocol.
   */
  function ValidateProtocol(protocol: string): (r: Outcome<ParseError>)
    ensures r.Pass? <==> protocol == "HTTP/1.1"
    ensures r == Fail(UnsupportedVersion) <==> Text.StartsWith(protocol, "HTTP/") && protocol != "HTTP/1.1"
    ensures r.Pass? || r == Fail(UnsupportedVersion) || r == Fail(InvalidProtocol)
  {
    SplitAtSlash(protocol);
    match Text.SplitOnce(protocol, '/')
    case Some((version, number)) =>
      if version == "HTTP" && number == "1.1" then Pass
      else if number == "1.1" then Fail(InvalidProtocol)
      else if version == "HTTP" then Fail(UnsupportedVersion)
      else Fail(InvalidProtocol)
    case None => Fail(InvalidProtocol)
  }

  /** A token is split at the slash after `HTTP` exactly when it starts with `HTTP/`. */
  lemma SplitAtSlash(protocol: string)
    ensures Text.StartsWith(protocol, "HTTP/") ==> Text.SplitOnce(protocol, '/') == Some(("HTTP", protocol[5..]))
    ensures Text.SplitOnce(protocol, '/').Some? && Text.SplitOnce(protocol, '/').value.0 == "HTTP" ==>
      Text.StartsWith(protocol, "HTTP/")
  {
    if Text.StartsWith(protocol, "HTTP/") {
      assert protocol == "HTTP" + "/" + protocol[5..];
      Text.SplitOnceAt("HTTP", '/', protocol[5..]);
    }
    match Text.SplitOnce(protocol, '/')
    case Some((version, number)) =>
      if version == "HTTP" {
        assert protocol[..5] == "HTTP/";
      }
    case None =>
  }

  /**
   * The target split at its first `?`: the path before it and the query string decoded from
   * everything after it; the whole target and no query string when there is no `?`.
   */
  function SplitTarget(rawPath: string): (r: (string, Option<QueryStrings.QueryString>))
    ensures '?' !in r.0
    ensures r.1.None? <==> '?' !in rawPath
    ensures r.1.None? ==> r.0 == rawPath
    ensures r.1.Some? ==>
      && Text.StartsWith(rawPath, r.0 + "?")
      && r.1.value == QueryStrings.Parse(rawPath[|r.0| + 1..])
  {
    match Text.IndexOf(rawPath, '?')
    case Some(index) =>
      assert rawPath[..index + 1] == rawPath[..index] + "?";
      (rawPath[..index], Some(QueryStrings.Parse(rawPath[index + 1..])))
    case None => (rawPath, None)
  }

  /** A target with a `?` after a `?`-free path splits there. */
  lemma SplitTargetAt(path: string, query: string)
    requires '?' !in path
    ensures SplitTarget(path + "?" + query) == (path, Some(QueryStrings.Parse(query)))
  {
    Text.IndexOfAt(path, '?', query);
    var t := path + "?" + query;
    assert t[..|path|] == path && t[|path| + 1..] == query;
  }

  /** The first three words of a line (method, target, protocol), if it holds that many breaks. */
  function FirstThreeWords(request: string): (r: Option<(string, string, string)>)
    ensures r.Some? ==> BreakFree(r.value.0) && BreakFree(r.value.1) && BreakFree(r.value.2)
  {
    match ParseNextWord(request)
    case None => None
    case Some((methodWord, afterMethod)) =>
      match ParseNextWord(afterMethod)
      case None => None
      case Some((rawPath, afterPath)) =>
        match ParseNextWord(afterPath)
        case None => None
        case Some((protocol, _)) => Some((methodWord, rawPath, protocol))
  }

  /** A line has three words exactly when it holds at least three breaks. */
  lemma FirstThreeWordsIffBreaks(request: string)
    ensures FirstThreeWords(request).None? <==> Breaks(request) < 3
  {
    if ParseNextWord(request).None? {
      NoBreaks(request);
    } else {
      var rest := ParseNextWord(request).value.1;
      ParseNextWordBreaks(request);
      if ParseNextWord(rest).None? {
        NoBreaks(rest);
      } else {
        var rest2 := ParseNextWord(rest).value.1;
        ParseNextWordBreaks(rest);
        if ParseNextWord(rest2).None? {
          NoBreaks(rest2);
        } else {
          ParseNextWordBreaks(rest2);
        }
      }
    }
  }

  /** What `parse_request_line` does with the three words: protocol first, then method, then target. */
  function ParseWords(methodWord: string, rawPath: string, protocol: string)
    : (r: Result<(Methods.Method, string, Option<QueryStrings.QueryString>), ParseError>)
    ensures r.Err? ==> r.error == InvalidProtocol || r.error == UnsupportedVersion || r.error == InvalidMethod
    ensures r.Err? && protocol == "HTTP/1.1" ==> r.error == InvalidMethod
  {
    match ValidateProtocol(protocol)
    case Fail(e) => Err(e)
    case Pass =>
      match Methods.Parse(methodWord)
      case None => Err(InvalidMethod)
      case Some(m) =>
        var (path, queryString) := SplitTarget(rawPath);
        Ok((m, path, queryString))
  }

  /** `parse_request_line`: a missing word is an invalid request; the three words are then parsed. */
  function ParseRequestLine(request: string): (r: Result<(Methods.Method, string, Option<QueryStrings.QueryString>), ParseError>)
    ensures r.Err? ==> r.error != InvalidEncoding
    ensures r == Err(InvalidRequest) <==> FirstThreeWords(request).None?
  {
    match FirstThreeWords(request)
    case None => Err(InvalidRequest)
    case Some((methodWord, rawPath, protocol)) => ParseWords(methodWord, rawPath, protocol)
  }

  /** A line is rejected as an invalid request exactly when it holds fewer than three breaks, so fewer than three words. */
  lemma InvalidRequestIffFewBreaks(request: string)
    ensures ParseRequestLine(request) == Err(InvalidRequest) <==> Breaks(request) < 3
  {
    FirstThreeWordsIffBreaks(request);
  }

  /** A complete line with no trailing break, such as `GET /x HTTP/1.1`, is an invalid request. */
  lemma NoTrailingBreak(m: string, p: string, pr: string)
    requires BreakFree(m) && BreakFree(p) && BreakFree(pr)
    ensures ParseRequestLine(m + " " + p + " " + pr) == Err(InvalidRequest)
  {
    var s := m + " " + p + " " + pr;
    NoBreaks(m);
    NoBreaks(p);
    NoBreaks(pr);
    BreaksAppend(m + " " + p + " ", pr);
    BreaksAppend(m + " " + p, " ");
    BreaksAppend(m + " ", p);
    BreaksAppend(m, " ");
    assert Breaks(" ") == 1 by { assert " "[1..] == []; }
    InvalidRequestIffFewBreaks(s);
  }

  /** A request line made of three words, each followed by a break, and the text after them. */
  function Line(m: string, c1: char, p: string, c2: char, pr: string, c3: char, rest: string): string
  {
    m + [c1] + (p + [c2] + (pr + [c3] + rest))
  }

  /** The three words of a line built from break-free words and breaks. */
  lemma Words(m: string, c1: char, p: string, c2: char, pr: string, c3: char, rest: string)
    requires BreakFree(m) && BreakFree(p) && BreakFree(pr)
    requires IsBreak(c1) && IsBreak(c2) && IsBreak(c3)
    ensures FirstThreeWords(Line(m, c1, p, c2, pr, c3, rest)) == Some((Text.Trim(m), Text.Trim(p), Text.Trim(pr)))
  {
    ParseNextWordAt(m, c1, p + [c2] + (pr + [c3] + rest));
    ParseNextWordAt(p, c2, pr + [c3] + rest);
    ParseNextWordAt(pr, c3, rest);
  }

  /** The protocol is checked first: a bad protocol is reported whatever the method word is. */
  lemma ProtocolCheckedFirst(m: string, c1: char, p: string, c2: char, pr: string, c3: char, rest: string)
    requires BreakFree(m) && BreakFree(p) && BreakFree(pr)
    requires IsBreak(c1) && IsBreak(c2) && IsBreak(c3)
    requires Text.Trim(pr) != "HTTP/1.1"
    ensures ParseRequestLine(Line(m, c1, p, c2, pr, c3, rest)) == Err(ValidateProtocol(Text.Trim(pr)).error)
  {
    Words(m, c1, p, c2, pr, c3, rest);
  }

  /** With a valid protocol, a method word that names no method is an invalid method. */
  lemma UnknownMethod(m: string, c1: char, p: string, c2: char, c3: char, rest: string)
    requires BreakFree(m) && BreakFree(p)
    requires IsBreak(c1) && IsBreak(c2) && IsBreak(c3)
    requires forall meth: Methods.Method :: Methods.Name(meth) != Text.Trim(m)
    ensures ParseRequestLine(Line(m, c1, p, c2, "HTTP/1.1", c3, rest)) == Err(InvalidMethod)
  {
    ProtocolWordSolid();
    Words(m, c1, p, c2, "HTTP/1.1", c3, rest);
  }

  /** `Request::try_from`: the buffer must be UTF-8; then its request line is parsed. */
  function TryFrom(buf: seq<Utf8.byte>): (r: Result<Request, ParseError>)
    ensures r == Err(InvalidEncoding) <==> !Utf8.IsValid(buf)
  {
    match Utf8.Decode(buf)
    case None => Err(InvalidEncoding)
    case Some(requestStr) => ToRequest(ParseRequestLine(requestStr))
  }

  /** The `Ok(Self { path, query_string, method })` of `try_from`, errors passed on. */
  function ToRequest(parsed: Result<(Methods.Method, string, Option<QueryStrings.QueryString>), ParseError>)
    : (r: Result<Request, ParseError>)
    ensures r.Err? <==> parsed.Err?
    ensures r.Err? ==> r.error == parsed.error
    ensures r.Ok? ==> r.value == Request(parsed.value.1, parsed.value.2, parsed.value.0)
  {
    match parsed
    case Err(e) => Err(e)
    case Ok((m, path, queryString)) => Ok(Request(path, queryString, m))
  }

  /** On the encoding of a text, `try_from` is the request-line parser on that text. */
  lemma TryFromEncoded(s: string)
    ensures TryFrom(Utf8.Encode(s)) == ToRequest(ParseRequestLine(s))
  {
    Utf8.DecodeEncode(s);
  }

  /** Text without whitespace: a word `trim` leaves alone and that holds no break. */
  predicate Solid(s: string)
  {
    forall i :: 0 <= i < |s| ==> !Text.IsWhitespace(s[i])
  }

  lemma SolidNoBreaks(s: string)
    requires Solid(s)
    ensures BreakFree(s) && Text.Trim(s) == s
  {
    Text.TrimNoWhitespace(s);
  }

  /** `HTTP/1.1` is a single word. */
  lemma ProtocolWordSolid()
    ensures BreakFree("HTTP/1.1") && Text.Trim("HTTP/1.1") == "HTTP/1.1"
  {
    assert Solid("HTTP/1.1");
    SolidNoBreaks("HTTP/1.1");
  }

  /** The words of a well-formed line: a method name, a target, `HTTP/1.1`. */
  lemma ParseWordsOk(m: Methods.Method, target: string)
    ensures ParseWords(Methods.Name(m), target, "HTTP/1.1") == Ok((m, SplitTarget(target).0, SplitTarget(target).1))
  {
    Methods.ParseName(m);
  }

  /** A well-formed line of solid words parses to its method and split target, whatever follows it. */
  lemma ParseWellFormedLine(m: Methods.Method, target: string, rest: string)
    requires Solid(target)
    ensures ParseRequestLine(Line(Methods.Name(m), ' ', target, ' ', "HTTP/1.1", '\r', rest))
      == Ok((m, SplitTarget(target).0, SplitTarget(target).1))
  {
    assert Solid(Methods.Name(m));
    SolidNoBreaks(Methods.Name(m));
    SolidNoBreaks(target);
    ProtocolWordSolid();
    Words(Methods.Name(m), ' ', target, ' ', "HTTP/1.1", '\r', rest);
    ParseWordsOk(m, target);
  }

  /**
   * Round trip: the encoding of `m p?q HTTP/1.1` followed by a carriage return and anything at
   * all parses to method `m`, path `p` and the query string decoded from `q`.
   */
  lemma RoundTripWithQuery(m: Methods.Method, p: string, q: string, rest: string)
    requires Solid(p) && Solid(q) && '?' !in p
    ensures TryFrom(Utf8.Encode(Line(Methods.Name(m), ' ', p + "?" + q, ' ', "HTTP/1.1", '\r', rest)))
      == Ok(Request(p, Some(QueryStrings.Parse(q)), m))
  {
    var target := p + "?" + q;
    assert Solid(target);
    ParseWellFormedLine(m, target, rest);
    SplitTargetAt(p, q);
    TryFromEncoded(Line(Methods.Name(m), ' ', target, ' ', "HTTP/1.1", '\r', rest));
  }

  /** Round trip without a query: a `?`-free target is the path and there is no query string. */
  lemma RoundTripWithoutQuery(m: Methods.Method, p: string, rest: string)
    requires Solid(p) && '?' !in p
    ensures TryFrom(Utf8.Encode(Line(Methods.Name(m), ' ', p, ' ', "HTTP/1.1", '\r', rest))) == Ok(Request(p, None, m))
  {
    ParseWellFormedLine(m, p, rest);
    TryFromEncoded(Line(Methods.Name(m), ' ', p, ' ', "HTTP/1.1", '\r', rest));
  }

  /** The protocol gate on typical tokens. */
  lemma ProtocolExamples()
    ensures ValidateProtocol("HTTP/1.1") == Pass
    ensures ValidateProtocol("HTTP/1.0") == Fail(UnsupportedVersion)
    ensures ValidateProtocol("HTTP/1.1/x") == Fail(UnsupportedVersion)
    ensures ValidateProtocol("FTP/1.1") == Fail(InvalidProtocol)
    ensures ValidateProtocol("HTTP") == Fail(InvalidProtocol)
  {
    assert Text.StartsWith("HTTP/1.0", "HTTP/");
    assert Text.StartsWith("HTTP/1.1/x", "HTTP/");
    assert "FTP/1.1"[..5][0] != "HTTP/"[0];
  }

  /** `FOO / HTTP/1.1` followed by a line end: an unknown method with a valid protocol. */
  lemma UnknownMethodExample()
    ensures ParseRequestLine(Line("FOO", ' ', "/", ' ', "HTTP/1.1", '\r', "\n")) == Err(InvalidMethod)
  {
    assert Solid("FOO") && Solid("/");
    SolidNoBreaks("FOO");
    SolidNoBreaks("/");
    UnknownMethod("FOO", ' ', "/", ' ', '\r', "\n");
  }

  /** `FOO / FTP/1.1` followed by a line end: both words are bad and the protocol error is reported. */
  lemma BadProtocolAndMethodExample()
    ensures ParseRequestLine(Line("FOO", ' ', "/", ' ', "FTP/1.1", '\r', "\n")) == Err(InvalidProtocol)
  {
    assert Solid("FOO") && Solid("/") && Solid("FTP/1.1");
    SolidNoBreaks("FOO");
    SolidNoBreaks("/");
    SolidNoBreaks("FTP/1.1");
    ProtocolExamples();
    ProtocolCheckedFirst("FOO", ' ', "/", ' ', "FTP/1.1", '\r', "\n");
  }
}
