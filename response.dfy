/**
 * The response object of src/http/response.rs: a status code, an optional body and a header
 * map, filled in place by `set_body` and `add_header` and written out by `send` (and by the
 * `Display` implementation). The MD5 digest of the Etag and the clock of the Date header are
 * parameters; the iteration order of the header map is an unspecified choice, returned as a
 * ghost sequence.
 */
module Responses {
  import opened Wrappers
  import Text
  import Utf8
  import StatusCodes

  const EtagHeader := "Etag"
  const ContentTypeHeader := "Content-Type"
  const ContentLengthHeader := "Content-Length"
  const DateHeader := "Date"
  const CacheControlHeader := "Cache-Control"

  /** The five headers `set_body` writes. */
  const BodyHeaderNames: set<string> :=
    {EtagHeader, ContentTypeHeader, ContentLengthHeader, DateHeader, CacheControlHeader}

  /** The five names are pairwise different. */
  lemma DistinctNames()
    ensures |BodyHeaderNames| == 5
    ensures EtagHeader != DateHeader
  {
    assert EtagHeader[0] != DateHeader[0];
    assert |EtagHeader| == |DateHeader| == 4 && |ContentTypeHeader| == 12;
    assert |ContentLengthHeader| == 14 && |CacheControlHeader| == 13;
  }

  const CacheControl := "public, max-age=0, must-revalidate"

  /** `generate_etag`: the body's digest between double quotes. */
  function Etag(body: string, digest: string -> string): (r: string)
    ensures |r| >= 2 && r[0] == '"' && r[|r| - 1] == '"'
    ensures r[1..|r| - 1] == digest(body)
  {
    "\"" + digest(body) + "\""
  }

  /** `len().to_string()`: the length in bytes of the UTF-8 encoding, in decimal. */
  function ContentLength(body: string): (r: string)
    ensures |r| >= 1 && Text.IsDigits(r)
    ensures Text.DecimalValue(r) == |Utf8.Encode(body)|
  {
    Text.NatToDecimal(|Utf8.Encode(body)|)
  }

  /** The headers `set_body` writes, as one map. */
  function BodyHeaders(body: string, contentType: string, digest: string -> string, date: string): (r: map<string, string>)
    ensures r.Keys == BodyHeaderNames
    ensures r[ContentTypeHeader] == contentType && r[DateHeader] == date
    ensures Text.IsDigits(r[ContentLengthHeader]) && Text.DecimalValue(r[ContentLengthHeader]) == |Utf8.Encode(body)|
    ensures r[EtagHeader] == Etag(body, digest)
    ensures |r[EtagHeader]| >= 2 && r[EtagHeader][1..|r[EtagHeader]| - 1] == digest(body)
    ensures r[CacheControlHeader] == CacheControl
  {
    DistinctNames();
    map[EtagHeader := Etag(body, digest), ContentTypeHeader := contentType,
        ContentLengthHeader := ContentLength(body), DateHeader := date,
        CacheControlHeader := CacheControl]
  }

  /** `order` lists every key of `keys` exactly once: an iteration order of the map. */
  ghost predicate IsOrdering(order: seq<string>, keys: set<string>)
  {
    && (forall i, j :: 0 <= i < j < |order| ==> order[i] != order[j])
    && (forall i :: 0 <= i < |order| ==> order[i] in keys)
    && (forall k :: k in keys ==> k in order)
  }

  /** One `{key}: {value}` line with the given line ending. */
  function HeaderLine(headers: map<string, string>, key: string, eol: string): string
    requires key in headers
  {
    key + ": " + headers[key] + eol
  }

  /** The header lines in the iteration order `order`. */
  function HeaderLines(headers: map<string, string>, order: seq<string>, eol: string): (r: string)
    requires forall i :: 0 <= i < |order| ==> order[i] in headers
    ensures forall k :: k in order ==> Contains(r, HeaderLine(headers, k, eol))
  {
    if order == [] then ""
    else
      var prefix, last := order[..|order| - 1], order[|order| - 1];
      var front := HeaderLines(headers, prefix, eol);
      ContainsLast(front, HeaderLine(headers, last, eol));
      ContainsExtendAll(front, HeaderLine(headers, last, eol));
      assert order == prefix + [last];
      front + HeaderLine(headers, last, eol)
  }

  /**
   * `HTTP/1.1 {code} {reason}` with the given line ending: the three digits of the code sit at
   * columns 9-11, then a space, the reason phrase and the line ending.
   */
  function StatusLine(status: StatusCodes.StatusCode, eol: string): (r: string)
    ensures |r| == 13 + |StatusCodes.ReasonPhrase(status)| + |eol|
    ensures r[..9] == "HTTP/1.1 " && r[12] == ' '
    ensures Text.IsDigits(r[9..12]) && Text.DecimalValue(r[9..12]) == StatusCodes.Code(status)
    ensures r[13..] == StatusCodes.ReasonPhrase(status) + eol
  {
    Columns("HTTP/1.1 ", StatusCodes.Display(status), " ", StatusCodes.ReasonPhrase(status), eol);
    "HTTP/1.1 " + StatusCodes.Display(status) + " " + StatusCodes.ReasonPhrase(status) + eol
  }

  /**
   * What `send` writes: the status line, the header lines, a blank line and the body (if any).
   * It opens with the status line, closes with the blank line and the body, and holds the
   * line of every header in the order.
   */
  function Serialize(status: StatusCodes.StatusCode, headers: map<string, string>, body: Option<string>,
                     order: seq<string>): (r: string)
    requires forall i :: 0 <= i < |order| ==> order[i] in headers
    ensures Text.StartsWith(r, StatusLine(status, "\r\n"))
    ensures Text.EndsWith(r, "\r\n" + (if body.Some? then body.value else ""))
    ensures forall k :: k in order ==> Contains(r, HeaderLine(headers, k, "\r\n"))
  {
    var a, b, d := StatusLine(status, "\r\n"), HeaderLines(headers, order, "\r\n"), if body.Some? then body.value else "";
    ConcatEnds(a, b, "\r\n", d);
    ContainsInnerAll(a, b, "\r\n", d);
    a + b + "\r\n" + d
  }

  /**
   * What the `Display` implementation writes: `\n` line endings, the body only when present.
   * It opens with the status line, holds the line of every header in the order, and closes
   * with CRLF, the body and a newline when there is a body.
   */
  function Render(status: StatusCodes.StatusCode, headers: map<string, string>, body: Option<string>,
                  order: seq<string>): (r: string)
    requires forall i :: 0 <= i < |order| ==> order[i] in headers
    ensures Text.StartsWith(r, StatusLine(status, "\n"))
    ensures body.Some? ==> Text.EndsWith(r, "\r\n" + body.value + "\n")
    ensures forall k :: k in order ==> Contains(r, HeaderLine(headers, k, "\n"))
  {
    var a, b, c := StatusLine(status, "\n"), HeaderLines(headers, order, "\n"), if body.Some? then "\r\n" + body.value + "\n" else "";
    ConcatEnds3(a, b, c);
    ContainsMiddleAll(a, b, c);
    a + b + c
  }

  class Response {
    var statusCode: StatusCodes.StatusCode
    var body: Option<string>
    var headers: map<string, string>

    /** `Response::new`: no body and no headers. */
    constructor (statusCode: StatusCodes.StatusCode)
      ensures this.statusCode == statusCode && body == None && headers == map[]
    {
      this.statusCode := statusCode;
      body := None;
      headers := map[];
    }

    /**
     * `set_body`: stores the body and writes the five body headers, replacing any earlier
     * value of those keys and keeping every other header.
     */
    method SetBody(body: string, contentType: string, digest: string -> string, date: string)
      modifies this
      ensures statusCode == old(statusCode)
      ensures this.body == Some(body)
      ensures headers == old(headers) + BodyHeaders(body, contentType, digest, date)
    {
      ghost var before := headers;
      var etag := Etag(body, digest);
      headers := headers[EtagHeader := etag];
      this.body := Some(body);
      headers := headers[ContentTypeHeader := contentType];
      headers := headers[ContentLengthHeader := ContentLength(this.body.value)];
      headers := headers[DateHeader := date];
      headers := headers[CacheControlHeader := CacheControl];
      SetBodyInserts(before, body, contentType, digest, date);
    }

    /** `add_header`: inserts or replaces one header. */
    method AddHeader(key: string, value: string)
      modifies this
      ensures statusCode == old(statusCode) && body == old(body)
      ensures headers == old(headers)[key := value]
    {
      headers := headers[key := value];
    }

    /** The `for (key, value) in &self.headers` loop: one line per header, in some order. */
    method WriteHeaders(eol: string) returns (lines: string, ghost order: seq<string>)
      ensures IsOrdering(order, headers.Keys)
      ensures lines == HeaderLines(headers, order, eol)
      ensures forall key :: key in headers ==> Contains(lines, HeaderLine(headers, key, eol))
    {
      lines := "";
      order := [];
      var remaining := headers.Keys;
      while remaining != {}
        invariant remaining <= headers.Keys
        invariant IsOrdering(order, headers.Keys - remaining)
        invariant lines == HeaderLines(headers, order, eol)
        decreases |remaining|
      {
        var key :| key in remaining;
        lines := lines + HeaderLine(headers, key, eol);
        assert (order + [key])[..|order|] == order;
        order := order + [key];
        remaining := remaining - {key};
      }
      assert headers.Keys - remaining == headers.Keys;
      assert forall key :: key in headers ==> key in order;
    }

    /** `send`: the text written to the stream. */
    method Send() returns (out: string, ghost order: seq<string>)
      ensures IsOrdering(order, headers.Keys)
      ensures out == Serialize(statusCode, headers, body, order)
      ensures Text.StartsWith(out, StatusLine(statusCode, "\r\n"))
      ensures Text.EndsWith(out, "\r\n" + (if body.Some? then body.value else ""))
      ensures forall key :: key in headers ==> Contains(out, key + ": " + headers[key] + "\r\n")
    {
      out := StatusLine(statusCode, "\r\n");
      var lines;
      lines, order := WriteHeaders("\r\n");
      out := out + lines;
      out := out + "\r\n" + (if body.Some? then body.value else "");
      forall key | key in headers
        ensures Contains(out, key + ": " + headers[key] + "\r\n")
      {
        SerializeHasEveryHeader(statusCode, headers, body, order, key);
      }
    }

    /** The `Display` implementation. */
    method Display() returns (out: string, ghost order: seq<string>)
      ensures IsOrdering(order, headers.Keys)
      ensures out == Render(statusCode, headers, body, order)
    {
      out := StatusLine(statusCode, "\n");
      var lines;
      lines, order := WriteHeaders("\n");
      out := out + lines;
      if body.Some? {
        out := out + ("\r\n" + body.value + "\n");
      }
    }
  }

  /** The five inserts of `set_body`, one after the other, are the union with BodyHeaders. */
  lemma SetBodyInserts(headers: map<string, string>, body: string, contentType: string, digest: string -> string, date: string)
    ensures headers[EtagHeader := Etag(body, digest)][ContentTypeHeader := contentType]
              [ContentLengthHeader := ContentLength(body)][DateHeader := date][CacheControlHeader := CacheControl]
         == headers + BodyHeaders(body, contentType, digest, date)
  {
    DistinctNames();
  }

  /** A second `set_body` replaces every header the first one wrote. */
  lemma SetBodyTwice(headers: map<string, string>,
                     body1: string, contentType1: string, date1: string,
                     body2: string, contentType2: string, date2: string, digest: string -> string)
    ensures headers + BodyHeaders(body1, contentType1, digest, date1) + BodyHeaders(body2, contentType2, digest, date2)
         == headers + BodyHeaders(body2, contentType2, digest, date2)
  {
  }

  /** `set_body` leaves every header outside the five it writes as it was. */
  lemma SetBodyKeepsOthers(headers: map<string, string>, key: string,
                           body: string, contentType: string, digest: string -> string, date: string)
    requires key !in BodyHeaderNames
    ensures var h := headers + BodyHeaders(body, contentType, digest, date);
      (key in h <==> key in headers) && (key in headers ==> h[key] == headers[key])
  {
  }

  /** For a body of ASCII characters the Content-Length is the number of characters. */
  lemma ContentLengthAscii(body: string)
    requires forall i :: 0 <= i < |body| ==> body[i] < '\U{0080}'
    ensures Text.DecimalValue(ContentLength(body)) == |body|
  {
    Utf8.EncodeAscii(body);
  }

  /** `s` occurs in `t` starting at index `j`. */
  predicate ContainsAt(t: string, s: string, j: int)
  {
    0 <= j <= |t| - |s| && t[j..j + |s|] == s
  }

  /** `s` occurs in `t` as a contiguous piece. */
  ghost predicate Contains(t: string, s: string)
  {
    exists j :: ContainsAt(t, s, j)
  }

  lemma ContainsLast(a: string, b: string)
    ensures Contains(a + b, b)
  {
    assert (a + b)[|a|..|a| + |b|] == b;
    assert ContainsAt(a + b, b, |a|);
  }

  lemma ContainsExtend(a: string, b: string, s: string)
    requires Contains(a, s)
    ensures Contains(a + b, s)
  {
    var j :| ContainsAt(a, s, j);
    assert (a + b)[j..j + |s|] == a[j..j + |s|];
    assert ContainsAt(a + b, s, j);
  }

  lemma ContainsExtendAll(a: string, b: string)
    ensures forall s :: Contains(a, s) ==> Contains(a + b, s)
  {
    forall s | Contains(a, s)
      ensures Contains(a + b, s)
    {
      ContainsExtend(a, b, s);
    }
  }

  lemma ContainsInnerAll(a: string, b: string, c: string, d: string)
    ensures forall s :: Contains(b, s) ==> Contains(a + b + c + d, s)
  {
    forall s | Contains(b, s)
      ensures Contains(a + b + c + d, s)
    {
      ContainsInner(a, b, c, d, s);
    }
  }

  lemma ContainsMiddleAll(a: string, b: string, c: string)
    ensures forall s :: Contains(b, s) ==> Contains(a + b + c, s)
  {
    forall s | Contains(b, s)
      ensures Contains(a + b + c, s)
    {
      var j :| ContainsAt(b, s, j);
      assert (a + b + c)[|a| + j..|a| + j + |s|] == b[j..j + |s|];
      assert ContainsAt(a + b + c, s, |a| + j);
    }
  }

  lemma ContainsInner(a: string, b: string, c: string, d: string, s: string)
    requires Contains(b, s)
    ensures Contains(a + b + c + d, s)
  {
    var j :| ContainsAt(b, s, j);
    assert (a + b + c + d)[|a| + j..|a| + j + |s|] == b[j..j + |s|];
    assert ContainsAt(a + b + c + d, s, |a| + j);
  }

  /** Whatever the iteration order, every header is written as a `key: value` line. */
  lemma SerializeHasEveryHeader(status: StatusCodes.StatusCode, headers: map<string, string>, body: Option<string>,
                                order: seq<string>, key: string)
    requires IsOrdering(order, headers.Keys)
    requires key in headers
    ensures Contains(Serialize(status, headers, body, order), key + ": " + headers[key] + "\r\n")
  {
    assert key in order;
  }

  /** A concatenation of four parts starts with the first and ends with the last two. */
  lemma ConcatEnds(a: string, b: string, c: string, d: string)
    ensures Text.StartsWith(a + b + c + d, a) && Text.EndsWith(a + b + c + d, c + d)
  {
    assert (a + b + c + d)[..|a|] == a;
    assert (a + b + c + d)[|a + b|..] == c + d;
  }

  /** A concatenation of three parts starts with the first and ends with the last. */
  lemma ConcatEnds3(a: string, b: string, c: string)
    ensures Text.StartsWith(a + b + c, a) && Text.EndsWith(a + b + c, c)
  {
    assert (a + b + c)[..|a|] == a;
    assert (a + b + c)[|a + b|..] == c;
  }

  /** Where the five parts of a status line sit. */
  lemma Columns(a: string, c: string, sp: string, reason: string, eol: string)
    requires |a| == 9 && |c| == 3 && |sp| == 1
    ensures var r := a + c + sp + reason + eol;
      && |r| == 13 + |reason| + |eol|
      && r[..9] == a && r[9..12] == c && r[12] == sp[0] && r[13..] == reason + eol
  {
    var r := a + c + sp + reason + eol;
    assert r[..9] == a;
    assert r[9..12] == c;
    assert r[13..] == reason + eol;
  }

  /** A response with no headers and no body is the status line followed by a blank line. */
  lemma SerializeBare(status: StatusCodes.StatusCode)
    ensures Serialize(status, map[], None, []) == StatusLine(status, "\r\n") + "\r\n"
  {
  }
}
