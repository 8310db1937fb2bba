/**
 * The connection handling of src/server.rs: read from the socket in chunks of at most 1024
 * bytes until the peer closes or the bytes so far end with an empty line, parse what was read
 * as a request, and write one of two fixed answers. The socket is the sequence of results its
 * reads return; accepting connections and the task per connection are not modelled.
 */
module Server {
  import opened Wrappers
  import Text
  import Utf8
  import StatusCodes
  import Responses
  import Requests
  import Methods

  type byte = Utf8.byte

  /** The size of the temporary read buffer. */
  const ReadSize: nat := 1024

  /** The bytes one `read` into the temporary buffer can deliver. */
  type Chunk = c: seq<byte> | |c| <= ReadSize

  /** What one `read` returns: some bytes (none when the peer has closed) or an error. */
  datatype ReadResult = Bytes(data: Chunk) | ReadError

  /** `b"\r\n\r\n"`: the end of the header section. */
  const HeaderEnd: seq<byte> := [13, 10, 13, 10]

  /** Why the read loop stopped. */
  datatype Ending = Closed | HeaderEnded | Failed

  /** The accumulated buffer, why the loop stopped and how many reads it took. */
  datatype Received = Received(buffer: seq<byte>, ending: Ending, used: nat)

  /** The read loop from read `i` on, with `buffer` gathered so far; running out of reads counts as a close. */
  function Gather(results: seq<ReadResult>, i: nat, buffer: seq<byte>): (r: Received)
    requires i <= |results|
    ensures i <= r.used <= |results|
    ensures Text.StartsWith(r.buffer, buffer)
    decreases |results| - i
  {
    if i == |results| then Received(buffer, Closed, i)
    else match results[i]
      case ReadError => Received(buffer, Failed, i + 1)
      case Bytes(data) =>
        if |data| == 0 then Received(buffer, Closed, i + 1)
        else
          var extended := buffer + data;
          if Text.EndsWith(extended, HeaderEnd) then Received(extended, HeaderEnded, i + 1)
          else
            var r := Gather(results, i + 1, extended);
            assert r.buffer[..|buffer|] == extended[..|buffer|];
            r
  }

  /** The bytes of the first `n` results, one after the other. */
  function Data(results: seq<ReadResult>, n: nat): seq<byte>
    requires n <= |results|
  {
    if n == 0 then []
    else Data(results, n - 1) + (if results[n - 1].Bytes? then results[n - 1].data else [])
  }

  /** The loop of `handle_connection` up to the `match`: what it gathered and why it stopped. */
  method ReadRequest(results: seq<ReadResult>) returns (buffer: seq<byte>, ending: Ending)
    ensures buffer == Gather(results, 0, []).buffer && ending == Gather(results, 0, []).ending
  {
    buffer := [];
    ending := Closed;
    var i := 0;
    while i < |results|
      invariant i <= |results|
      invariant Gather(results, i, buffer) == Gather(results, 0, [])
      decreases |results| - i
    {
      match results[i]
      case ReadError =>
        ending := Failed;
        return;
      case Bytes(data) =>
        if |data| == 0 {
          break;
        }
        buffer := buffer + data;
        if Text.EndsWith(buffer, HeaderEnd) {
          ending := HeaderEnded;
          break;
        }
      i := i + 1;
    }
  }

  /** `handle_request`: the same answer for every request. */
  const OkAnswer := "HTTP/1.1 200 OK\r\n" + "Content-Type: text/plain\r\n" + "\r\n" + "Hello, world!"

  /** `handle_bad_request`: the same answer for every parse error. */
  const BadRequestAnswer := "HTTP/1.1 400 Bad Request\r\n" + "Content-Type: text/plain\r\n" + "\r\n" + "Bad request"

  /** The one header both answers carry, as the response builder writes it. */
  lemma PlainTextHeader()
    ensures "Content-Type: text/plain\r\n"
         == Responses.HeaderLines(map[Responses.ContentTypeHeader := "text/plain"], [Responses.ContentTypeHeader], "\r\n")
  {
    assert [Responses.ContentTypeHeader][..0] == [];
  }

  /** The fixed 200 answer is what the response builder writes for a 200 with a plain-text body. */
  lemma OkAnswerIsResponse()
    ensures OkAnswer == Responses.Serialize(StatusCodes.Ok, map[Responses.ContentTypeHeader := "text/plain"],
                                            Some("Hello, world!"), [Responses.ContentTypeHeader])
  {
    StatusCodes.DisplayExamples();
    PlainTextHeader();
    assert "HTTP/1.1 200 OK\r\n" == Responses.StatusLine(StatusCodes.Ok, "\r\n");
  }

  /** The fixed 400 answer is what the response builder writes for a 400 with a plain-text body. */
  lemma BadRequestAnswerIsResponse()
    ensures BadRequestAnswer == Responses.Serialize(StatusCodes.BadRequest, map[Responses.ContentTypeHeader := "text/plain"],
                                                    Some("Bad request"), [Responses.ContentTypeHeader])
  {
    StatusCodes.DisplayExamples();
    PlainTextHeader();
    assert "HTTP/1.1 400 Bad Request\r\n" == Responses.StatusLine(StatusCodes.BadRequest, "\r\n");
  }

  function HandleRequest(request: Requests.Request): (r: string)
    ensures Text.StartsWith(r, Responses.StatusLine(StatusCodes.Ok, "\r\n"))
  {
    OkAnswerIsResponse();
    OkAnswer
  }

  function HandleBadRequest(e: Requests.ParseError): (r: string)
    ensures Text.StartsWith(r, Responses.StatusLine(StatusCodes.BadRequest, "\r\n"))
  {
    BadRequestAnswerIsResponse();
    BadRequestAnswer
  }

  /** The `match Request::try_from` of `handle_connection`: the answer for a gathered buffer. */
  function Respond(buffer: seq<byte>): (r: string)
    ensures r == OkAnswer <==> Requests.TryFrom(buffer).Ok?
    ensures r == BadRequestAnswer <==> Requests.TryFrom(buffer).Err?
  {
    assert OkAnswer[9] != BadRequestAnswer[9];
    match Requests.TryFrom(buffer)
    case Ok(request) => HandleRequest(request)
    case Err(e) => HandleBadRequest(e)
  }

  /**
   * The buffer handed to the parser: every byte the reads delivered, in order; None
   * exactly when the last read taken failed.
   */
  function Framed(results: seq<ReadResult>): (r: Option<seq<byte>>)
    ensures var used := Gather(results, 0, []).used;
      && (r.None? <==> used > 0 && results[used - 1].ReadError?)
      && (r.Some? ==> r.value == Data(results, used))
  {
    var g := Gather(results, 0, []);
    ReadLoop(results);
    if g.ending == Failed then None else Some(g.buffer)
  }

  /** The bytes `write_all` sends: the answer's UTF-8 encoding, which decodes back to the answer. */
  function Served(results: seq<ReadResult>): (r: Option<seq<byte>>)
    ensures r.None? <==> Framed(results).None?
    ensures r.Some? ==> Utf8.Decode(r.value) == Some(Respond(Framed(results).value))
  {
    match Framed(results)
    case None => None
    case Some(buffer) =>
      Utf8.DecodeEncode(Respond(buffer));
      Some(Utf8.Encode(Respond(buffer)))
  }

  /**
   * `handle_connection`: the bytes written back, or None when a read failed (the error is
   * returned and nothing is written).
   */
  method HandleConnection(results: seq<ReadResult>) returns (written: Option<seq<byte>>)
    ensures written == Served(results)
  {
    var buffer, ending := ReadRequest(results);
    if ending == Failed {
      return None;
    }
    var answer := Respond(buffer);
    written := Some(Utf8.Encode(answer));
  }

  /** Bytes that continue the loop: non-empty data after which the buffer does not end with the empty line. */
  predicate Continues(results: seq<ReadResult>, i: nat)
    requires i < |results|
  {
    results[i].Bytes? && |results[i].data| > 0 && !Text.EndsWith(Data(results, i + 1), HeaderEnd)
  }

  /** One turn of the loop that neither stops nor fails. */
  lemma GatherStep(results: seq<ReadResult>, i: nat, buffer: seq<byte>)
    requires i < |results| && results[i].Bytes? && |results[i].data| > 0
    requires !Text.EndsWith(buffer + results[i].data, HeaderEnd)
    ensures Gather(results, i, buffer) == Gather(results, i + 1, buffer + results[i].data)
  {
  }

  /** What the read loop gathers, described without the loop: the bytes of the reads it took. */
  lemma {:induction false} GatherData(results: seq<ReadResult>, i: nat)
    requires i <= |results|
    ensures Gather(results, i, Data(results, i)).buffer == Data(results, Gather(results, i, Data(results, i)).used)
    decreases |results| - i
  {
    if i < |results| {
      var extended := Data(results, i) + (if results[i].Bytes? then results[i].data else []);
      assert Data(results, i + 1) == extended;
      if Continues(results, i) {
        GatherStep(results, i, Data(results, i));
        GatherData(results, i + 1);
      } else if results[i].ReadError? || |results[i].data| == 0 {
        assert extended == Data(results, i);
      }
    }
  }

  /** A read that does not continue the loop is the last one it takes. */
  lemma GatherStops(results: seq<ReadResult>, i: nat, buffer: seq<byte>)
    requires i < |results|
    requires !(results[i].Bytes? && |results[i].data| > 0 && !Text.EndsWith(buffer + results[i].data, HeaderEnd))
    ensures Gather(results, i, buffer).used == i + 1
  {
  }

  lemma DataStep(results: seq<ReadResult>, i: nat)
    requires i < |results| && results[i].Bytes?
    ensures Data(results, i + 1) == Data(results, i) + results[i].data
  {
  }

  /** Continuing at read `i` is the loop's own test with the bytes gathered before it. */
  lemma ContinuesAt(results: seq<ReadResult>, i: nat)
    requires i < |results|
    ensures Continues(results, i)
        <==> results[i].Bytes? && |results[i].data| > 0 && !Text.EndsWith(Data(results, i) + results[i].data, HeaderEnd)
  {
    if results[i].Bytes? {
      assert Data(results, i + 1) == Data(results, i) + results[i].data;
    }
  }

  /** Every read the loop took but the last continued it. */
  lemma {:induction false} GatherContinues(results: seq<ReadResult>, i: nat)
    requires i <= |results|
    ensures forall k :: i <= k < Gather(results, i, Data(results, i)).used - 1 ==> Continues(results, k)
    decreases |results| - i
  {
    if i < |results| {
      var buffer := Data(results, i);
      if results[i].Bytes? && |results[i].data| > 0 && !Text.EndsWith(buffer + results[i].data, HeaderEnd) {
        GatherStep(results, i, buffer);
        DataStep(results, i);
        GatherContinues(results, i + 1);
        ContinuesAt(results, i);
      } else {
        GatherStops(results, i, buffer);
      }
    }
  }

  /** Unless the reads ran out, the last read the loop took stopped it. */
  lemma {:induction false} GatherStopped(results: seq<ReadResult>, i: nat)
    requires i <= |results|
    ensures var used := Gather(results, i, Data(results, i)).used;
      i < used < |results| ==> !Continues(results, used - 1)
    decreases |results| - i
  {
    if i < |results| {
      var buffer := Data(results, i);
      if results[i].Bytes? && |results[i].data| > 0 && !Text.EndsWith(buffer + results[i].data, HeaderEnd) {
        GatherStep(results, i, buffer);
        DataStep(results, i);
        GatherStopped(results, i + 1);
      } else {
        GatherStops(results, i, buffer);
        ContinuesAt(results, i);
      }
    }
  }

  /** Why the loop stopped is decided by the last read it took. */
  lemma {:induction false} GatherEnding(results: seq<ReadResult>, i: nat, buffer: seq<byte>)
    requires i <= |results|
    ensures var g := Gather(results, i, buffer);
      && (g.ending == Failed <==> g.used > i && results[g.used - 1].ReadError?)
      && (g.ending == HeaderEnded <==> g.used > i && results[g.used - 1].Bytes? && |results[g.used - 1].data| > 0
                                       && Text.EndsWith(g.buffer, HeaderEnd))
    decreases |results| - i
  {
    if i < |results| && results[i].Bytes? && |results[i].data| > 0 && !Text.EndsWith(buffer + results[i].data, HeaderEnd) {
      GatherStep(results, i, buffer);
      GatherEnding(results, i + 1, buffer + results[i].data);
    }
  }

  /**
   * The read loop of `handle_connection` from the start, described without the loop: it
   * gathers the bytes of the reads it takes, every one but the last continued it, unless the
   * reads ran out the last one stopped it, and the last one says why.
   */
  lemma ReadLoop(results: seq<ReadResult>)
    ensures var g := Gather(results, 0, []);
      && g.buffer == Data(results, g.used)
      && (forall k :: 0 <= k < g.used - 1 ==> Continues(results, k))
      && (0 < g.used < |results| ==> !Continues(results, g.used - 1))
      && (g.ending == Failed <==> g.used > 0 && results[g.used - 1].ReadError?)
      && (g.ending == HeaderEnded <==> g.used > 0 && results[g.used - 1].Bytes? && |results[g.used - 1].data| > 0
                                       && Text.EndsWith(g.buffer, HeaderEnd))
  {
    assert Data(results, 0) == [];
    GatherData(results, 0);
    GatherContinues(results, 0);
    GatherStopped(results, 0);
    GatherEnding(results, 0, []);
  }

  /** A peer that closes without sending anything still gets the bad-request answer. */
  lemma EmptyConnection()
    ensures Framed([Bytes([])]) == Some([]) && Framed([]) == Some([])
    ensures Respond([]) == BadRequestAnswer
  {
    assert Utf8.Encode("") == [];
    Requests.TryFromEncoded("");
    Requests.InvalidRequestIffFewBreaks("");
  }

  /** A well-formed GET-style request line, whatever follows it, is answered with the 200 text. */
  lemma WellFormedAnswered(m: Methods.Method, p: string, rest: string)
    requires Requests.Solid(p) && '?' !in p
    ensures Respond(Utf8.Encode(Requests.Line(Methods.Name(m), ' ', p, ' ', "HTTP/1.1", '\r', rest))) == OkAnswer
  {
    Requests.RoundTripWithoutQuery(m, p, rest);
  }

  /** Every parse error, whichever it is, is answered with the same 400 text. */
  lemma ErrorsAnsweredAlike(buffer: seq<byte>)
    requires Requests.TryFrom(buffer).Err?
    ensures Respond(buffer) == BadRequestAnswer
  {
  }

  /** A failing read ends the connection without an answer, whatever was read before. */
  lemma FailedReadNoAnswer(data: Chunk)
    requires |data| > 0 && !Text.EndsWith(data, HeaderEnd)
    ensures Framed([Bytes(data), ReadError]) == None && Served([Bytes(data), ReadError]) == None
  {
    assert [] + data == data;
    GatherStep([Bytes(data), ReadError], 0, []);
  }

  /**
   * The empty line is only looked for at the end of what has been read: one that arrives
   * inside a chunk, with more bytes after it, does not end the loop.
   */
  lemma HeaderEndInsideChunk(a: seq<byte>, b: seq<byte>, rest: seq<ReadResult>)
    requires |a + HeaderEnd + b| <= ReadSize
    requires |b| > 0 && !Text.EndsWith(a + HeaderEnd + b, HeaderEnd)
    ensures Gather([Bytes(a + HeaderEnd + b)] + rest, 0, []) == Gather([Bytes(a + HeaderEnd + b)] + rest, 1, a + HeaderEnd + b)
  {
    assert [] + (a + HeaderEnd + b) == a + HeaderEnd + b;
  }

  /** An empty line split over two reads is found once the second read arrives. */
  lemma HeaderEndAcrossChunks(a: seq<byte>)
    requires |a| + 2 <= ReadSize
    requires !Text.EndsWith(a + [13, 10], HeaderEnd)
    ensures Gather([Bytes(a + [13, 10]), Bytes([13, 10])], 0, []) == Received(a + HeaderEnd, HeaderEnded, 2)
  {
    var first := a + [13, 10];
    assert [] + first == first;
    assert first + [13, 10] == a + HeaderEnd;
    assert (a + HeaderEnd)[|a + HeaderEnd| - 4..] == HeaderEnd;
  }
}
