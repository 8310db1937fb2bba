# A verified model of a small HTTP/1.1 server's text pipeline

This project is a Dafny model of the request and response handling in a small Rust HTTP
server. It covers these parts:

- **Query strings** (`src/http/query_string.rs`). `QueryString::from` splits a query string
  on `&` and splits each piece at its first `=`. It percent-decodes the key and the value,
  repairs invalid UTF-8, and turns `+` into a space. Repeated keys are folded into `Single`
  and `Multiple` values.
- **Request lines** (`src/http/request.rs`). `Request::try_from` checks that the buffer is
  UTF-8. It then takes the first three words of the request line; a word ends at a space or
  a carriage return. The protocol word is checked first, then the method is parsed, and
  finally the target is split at its first `?`. Every failure is one of the five
  `ParseError` variants.
- **Status codes** (`src/http/status_code.rs`). This is the table of thirteen codes with
  their numbers, reason phrases and decimal rendering.
- **Responses** (`src/http/response.rs`). `Response` is a class whose `set_body` and
  `add_header` update its header map and body in place. `send` writes the status line, one
  line per header, a blank line and the body.
- **Connections** (`src/server.rs`). `handle_connection` reads chunks of at most 1024 bytes
  until the peer closes or the bytes so far end with `\r\n\r\n`. It parses the buffer and
  writes one of two fixed answers.

Modules:

- `Wrappers`: `Option`, `Result` and `Outcome`.
- `Text`: the `str` and slice operations the code uses, namely `find`, `split_once`, `split`,
  `trim`, `replace`, `ends_with` and `to_string` of a number. It also defines `StartsWith`,
  which only the contracts use.
- `Utf8`: byte-level UTF-8. It covers `as_bytes`, `str::from_utf8` and
  `String::from_utf8_lossy`.
- `QueryStrings`, `Methods`, `Requests`, `StatusCodes`, `Responses` and `Server`, one per
  source file.

### How the model is built

- **Query-string loop.** `QueryString::from` loops over the pieces and updates a map through
  the entry API. It is modelled as the methods `Absorb`, `AbsorbAll` and `From`. They are
  proved equal to the fold `Absorbed`. The fold is in turn proved equal to an independent
  description of each key: `Collapse` of the values the key occurred with.
- **Decoding.** Percent-decoding follows the `percent_encoding` crate byte by byte. A `%`
  not followed by two hex digits is kept as it is. Lossy UTF-8 decoding replaces each maximal
  invalid subpart with U+FFFD, as Rust does.
- **Request parsing.** The request-line parser is pure, so it is modelled as functions.
  Cutting off a word, validating the protocol, splitting the target and parsing the method
  each have "if and only if" contracts. `ParseWords` is described by lemmas about its
  success (`ParseWordsOk`) and its two error cases (`ProtocolCheckedFirst`,
  `UnknownMethod`). There is also a round trip from a well-formed request line back to the
  `Request`.
- **Response header order.** `send` writes the headers in the iteration order of the
  `HashMap`, which is unspecified. `Response.Send` picks the headers in an arbitrary order
  and returns that order as a ghost sequence. Every property of the output is proved for
  every such order.
- **Connection loop.** The socket is the sequence of results its reads return. The read
  loop `ReadRequest` is proved equal to the function `Gather`. The lemma `ReadLoop`
  describes what `Gather` does without the loop.

### Behaviour worth knowing

In each case below the model does what the code does.

- **Empty second value.** A second occurrence of a key becomes `Multiple([prev, new])`, even
  when `new` is empty. The comment at `src/http/query_string.rs:44` says the update happens
  only when the new value has meaningful data. But the branch under that comment stores
  the same pair as the `else` branch at lines 47-50, so the empty value is kept. Only the
  third and later occurrences of a key drop an empty value (lines 53-55).
- **HTTP/1.0.** The protocol word `HTTP/1.0` gets `UnsupportedVersion`, not
  `InvalidProtocol`, as does every `HTTP/` word other than `HTTP/1.1`
  (`src/http/request.rs:75`).
- **Early close.** When the peer closes before `\r\n\r\n` arrives, the partial buffer is
  still parsed and answered (`src/server.rs:41-43` and `51-63`). An empty buffer gets the
  400 answer.

## Model

| member | source | states |
|---|---|---|
| `QueryStrings.Get` | src/http/query_string.rs:16-18 | a key has a value exactly when it is in the map, and the value is the one stored |
| `QueryStrings.HexValue` | src/http/query_string.rs:32-33 | a digit `0`-`9` denotes 0-9, and `A`-`F` and `a`-`f` alike denote 10-15 |
| `QueryStrings.HexDigit` | src/http/query_string.rs:32-33 | every value below 16 has a hex digit that denotes it |
| `QueryStrings.PercentDecode` | src/http/query_string.rs:32-33 | percent-decoding never lengthens the bytes |
| `QueryStrings.PercentEncodeAll` | src/http/query_string.rs:32-33 | encoding every byte as `%XX` triples the length |
| `QueryStrings.PercentDecodeEncode` | src/http/query_string.rs:32-37 | percent-decoding undoes percent-encoding every byte |
| `QueryStrings.PercentDecodeIdentity` | src/http/query_string.rs:32-37 | bytes without `%` pass through percent-decoding unchanged |
| `QueryStrings.DecodeComponent` | src/http/query_string.rs:32-37 | no `+` survives the decoding of a key or a value |
| `QueryStrings.DecodePlainComponent` | src/http/query_string.rs:32-37 | text without `%` only has each `+` replaced by a space |
| `QueryStrings.DecodeEncodedPlus` | src/http/query_string.rs:32-37 | `%2B` decodes to `+` first and so ends as a space |
| `QueryStrings.DecodeEncodedPlusLower` | src/http/query_string.rs:32-37 | the lower-case escape `%2b` ends as a space as well |
| `QueryStrings.StrayPercentKept` | src/http/query_string.rs:32 | a `%` not followed by two hexadecimal digits is passed through, and decoding goes on after it |
| `QueryStrings.DecodeStrayPercent` | src/http/query_string.rs:32-37 | `%z` and `5%` decode to themselves |
| `QueryStrings.SplitPiece` | src/http/query_string.rs:28-30 | the key is the text before the first `=`, the value is all the rest (further `=` included), and a piece without `=` has the empty value |
| `QueryStrings.DecodeFormPiece` | src/http/query_string.rs:28-37 | a form-encoded `k=v` without `%` decodes to `k` and `v` with every `+` turned into a space, as in `types=Tap+Water` |
| `QueryStrings.DecodePlainPiece` | src/http/query_string.rs:28-37 | `k=v` with plain `k` and `v` decodes to `(k, v)`; `v` may contain `=`, as in `z===9` |
| `QueryStrings.DecodePiece` | src/http/query_string.rs:28-37 | neither the decoded key nor the decoded value holds a `+`, and a piece without `=` has the empty value |
| `QueryStrings.DecodeBareKey` | src/http/query_string.rs:28-30 | a piece without `=` is its key with the empty value |
| `QueryStrings.EmptyQuery` | src/http/query_string.rs:27-30 | the empty query string binds the empty key to `Single("")` |
| `QueryStrings.MergeValue` | src/http/query_string.rs:41-57 | an occupied entry always ends up `Multiple` |
| `QueryStrings.MergeValueKeeps` | src/http/query_string.rs:41-57 | the values stored before are kept in order; a `Single` becomes the pair of its value and the new one, and a `Multiple` gets the new value pushed last, or stays as it is when the new value is empty |
| `QueryStrings.Merge` | src/http/query_string.rs:39-62 | one entry-API step binds exactly the old keys plus the decoded key |
| `QueryStrings.MergeOthers` | src/http/query_string.rs:39-62 | the step changes no other key's value; a new key gets `Single(v)` and a known key becomes `Multiple` |
| `QueryStrings.AbsorbedKeys` | src/http/query_string.rs:27-63 | after the first `n` pieces the keys are exactly their decoded keys |
| `QueryStrings.Parse` | src/http/query_string.rs:23-66 | the fold of `from` over the pieces of `s` binds exactly the pieces' decoded keys |
| `QueryStrings.ParseKeys` | src/http/query_string.rs:23-66 | `from(s)` always binds at least one key, since `split` yields at least one piece |
| `QueryStrings.Absorb` | src/http/query_string.rs:39-62 | one entry-API step: a new key gets `Single(v)`, a `Single(p)` becomes `Multiple([p, v])`, and a `Multiple` grows by `v` only when `v` is not empty |
| `QueryStrings.AbsorbAll` | src/http/query_string.rs:27-63 | the loop over the pieces builds the fold of the entry-API step over them, in order |
| `QueryStrings.From` | src/http/query_string.rs:23-66 | `QueryString::from` builds the map of the specification function `Parse` |
| `QueryStrings.CollapseAppend` | src/http/query_string.rs:39-62 | one more occurrence changes the reference value exactly as the entry-API step does |
| `QueryStrings.AbsorbedCollapse` | src/http/query_string.rs:27-63 | a key is in the map iff it occurred; its value is the first two values it occurred with, followed by every later non-empty one, in order |
| `QueryStrings.OccurrencesExist` | src/http/query_string.rs:27-63 | a key has no occurrences iff no piece decodes to it |
| `QueryStrings.GetParse` | src/http/query_string.rs:16-66 | `get(k)` is none iff no piece's decoded key is `k`; otherwise it is the reference value of `k`'s occurrences |
| `QueryStrings.MultipleHasTwo` | src/http/query_string.rs:42-56 | every `Multiple` value holds at least two values |
| `QueryStrings.DecodePlain` | src/http/query_string.rs:32-37 | text without `%` and `+` decodes to itself |
| `QueryStrings.PiecesOfTwo` | src/http/query_string.rs:27 | `p1&p2` without further `&` splits into exactly `p1` and `p2` |
| `QueryStrings.ParseTwoPlain` | src/http/query_string.rs:23-66 | two plain pieces are absorbed in order |
| `QueryStrings.RepeatedKey` | src/http/query_string.rs:42-51 | `k=v1&k=v2`, as in `z=9&z=10`, gives `Multiple([v1, v2])` |
| `QueryStrings.EmptySecondValueKept` | src/http/query_string.rs:43-50 | `k=v&k=` gives `Multiple([v, ""])`: the empty second value is kept |
| `QueryStrings.DistinctKeys` | src/http/query_string.rs:59-61 | two distinct keys each get `Single` of their own value |
| `Text.FindFirst` | src/http/request.rs:66-67 | the index found holds the first character that satisfies the predicate; none iff no character does |
| `Text.FindFirstAt` | src/http/request.rs:66-67 | a match after a prefix of non-matching characters is found at the prefix's length |
| `Text.IndexOf` | src/http/request.rs:55 | `find('?')`: the first index of the character, none iff it does not occur |
| `Text.IndexOfAt` | src/http/request.rs:55 | the first occurrence after a prefix that lacks the character is found at the prefix's length |
| `Text.SplitOnce` | src/http/request.rs:72 | `split_once`: the text is the part before the first separator, the separator and the rest; none iff the separator does not occur |
| `Text.SplitOnceAt` | src/http/request.rs:72 | `split_once` of `a + c + b` with `c` not in `a` is `(a, b)` |
| `Text.Split` | src/http/query_string.rs:27 | `split('&')` yields at least one piece, and no piece holds the separator |
| `Text.JoinSplit` | src/http/query_string.rs:27 | joining the pieces of a split with the separator gives back the text |
| `Text.SplitJoin` | src/http/query_string.rs:27 | splitting separator-free pieces joined by the separator gives back the pieces |
| `Text.LeadingWhitespace` | src/http/request.rs:68 | the count of leading whitespace characters, maximal |
| `Text.TrailingWhitespace` | src/http/request.rs:68 | the count of trailing whitespace characters, maximal |
| `Text.Trim` | src/http/request.rs:68 | `trim` gives the slice of the text that starts after the leading whitespace, with only whitespace after it; the slice neither starts nor ends with whitespace |
| `Text.TrimSlice` | src/http/request.rs:68 | the slice between the leading and the trailing whitespace has only whitespace around it |
| `Text.TrimEnds` | src/http/request.rs:68 | that slice neither starts nor ends with whitespace |
| `Text.TrailingInSuffix` | src/http/request.rs:68 | the trailing whitespace of a suffix is whitespace at the end of the whole text |
| `Text.TrimUnique` | src/http/request.rs:68 | any slice with only whitespace around it that neither starts nor ends with whitespace is the trimmed text, so the contract of `Trim` fixes its result |
| `Text.TrimNoWhitespace` | src/http/request.rs:68 | `trim` leaves text without whitespace unchanged |
| `Text.Replace` | src/http/query_string.rs:34 | `replace('+', " ")` changes exactly the `+` characters, position by position |
| `Text.Digit` | src/http/response.rs:32 | the digit character of a value below 10 denotes that value |
| `Text.NatToDecimal` | src/http/response.rs:32 | `to_string` of a number gives digits without a leading zero that denote the number |
| `Text.DecimalLength` | src/http/status_code.rs:42 | a three-digit number is rendered in three characters |
| `Utf8.EncodeChar` | src/http/request.rs:34 | a character is encoded as one to four bytes, a lead byte and continuation bytes |
| `Utf8.Encode` | src/http/query_string.rs:32 | `as_bytes` gives one to four bytes per character; `DecodeEncode` makes `Decode` its inverse |
| `Utf8.EncodeAppend` | src/http/request.rs:34 | encoding distributes over concatenation |
| `Utf8.DecodeStep` | src/http/request.rs:34 | one decoding step consumes between one and four bytes |
| `Utf8.Decode` | src/http/request.rs:34 | `from_utf8` gives at most one character per byte; `DecodeEncode` and `EncodeDecode` make it the inverse of `Encode` |
| `Utf8.DecodeLossy` | src/http/query_string.rs:33 | `decode_utf8_lossy` gives one character for every one to four bytes; `LossyAgreesOnValid` makes it agree with `from_utf8` on valid input |
| `Utf8.DecodeStepEncodeChar` | src/http/request.rs:34 | decoding the encoding of a character gives the character back |
| `Utf8.EncodeCharDecodeStep` | src/http/request.rs:34 | a well-formed byte sequence is the encoding of the character decoded from it |
| `Utf8.DecodeStepTwo` | src/http/request.rs:34 | the two-byte encoding of a character decodes back to it, whatever follows |
| `Utf8.DecodeStepThree` | src/http/request.rs:34 | the three-byte encoding of a character decodes back to it, whatever follows |
| `Utf8.DecodeStepFour` | src/http/request.rs:34 | the four-byte encoding of a character decodes back to it, whatever follows |
| `Utf8.EncodeTwo` | src/http/request.rs:34 | a well-formed two-byte sequence is the encoding of the scalar it denotes |
| `Utf8.EncodeThree` | src/http/request.rs:34 | a well-formed three-byte sequence is the encoding of the scalar it denotes |
| `Utf8.EncodeFour` | src/http/request.rs:34 | a well-formed four-byte sequence is the encoding of the scalar it denotes |
| `Utf8.DecodeEncode` | src/http/request.rs:34 | `from_utf8` and the lossy decoding both give back any encoded text |
| `Utf8.EncodeDecode` | src/http/request.rs:34 | valid UTF-8 is the encoding of what it decodes to |
| `Utf8.LossyAgreesOnValid` | src/http/query_string.rs:33 | on valid UTF-8 the lossy decoding agrees with `from_utf8` |
| `Utf8.EncodeAscii` | src/http/response.rs:32 | ASCII text is encoded one byte per character |
| `Utf8.EncodeAsciiByteAbsent` | src/http/query_string.rs:32 | an ASCII character absent from a text is absent from its encoding |
| `Methods.Name` | src/http/request.rs:54 | a method's token is at least three upper-case letters |
| `Methods.NameInjective` | src/http/request.rs:54 | distinct methods have distinct tokens |
| `Methods.Parse` | src/http/request.rs:54 | `parse` returns the method whose token is the word, and fails iff no method has that token |
| `Methods.ParseName` | src/http/request.rs:54 | parsing a method's token gives the method back |
| `Requests.Message` | src/http/request.rs:89-98 | every error has a non-empty message |
| `Requests.MessageInjective` | src/http/request.rs:89-98 | distinct errors have distinct messages |
| `Requests.ParseNextWord` | src/http/request.rs:65-69 | none iff the text holds no space and no CR; otherwise the trimmed text before the first one, which holds no break, and the text after it |
| `Requests.TrimBreakFree` | src/http/request.rs:68 | trimming text without spaces and CRs leaves none |
| `Requests.ParseNextWordAt` | src/http/request.rs:65-69 | a break-free word followed by a break splits into the trimmed word and the rest |
| `Requests.ParseNextWordBreaks` | src/http/request.rs:65-69 | the rest after a word holds one break fewer than the text |
| `Requests.BreaksAppend` | src/http/request.rs:48-50 | the breaks of a concatenation are the breaks of its parts |
| `Requests.NoBreaks` | src/http/request.rs:48-50 | text without space or CR counts no breaks |
| `Requests.BreaksNone` | src/http/request.rs:48-50 | text that counts no breaks holds no space and no CR |
| `Requests.ValidateProtocol` | src/http/request.rs:71-79 | accepts exactly `HTTP/1.1`; `UnsupportedVersion` iff the word starts with `HTTP/` and is not `HTTP/1.1`; otherwise `InvalidProtocol` |
| `Requests.SplitAtSlash` | src/http/request.rs:72-76 | a word starting with `HTTP/` splits at the slash into `HTTP` and the rest, and only such words do |
| `Requests.SplitTarget` | src/http/request.rs:55-60 | the path never holds `?`; no query iff the target holds no `?`, the path then being the whole target; otherwise the query is `from` of the text after the first `?` |
| `Requests.SplitTargetAt` | src/http/request.rs:55-60 | `p?q` with `p` free of `?` splits into `p` and `from(q)` |
| `Requests.FirstThreeWords` | src/http/request.rs:48-50 | the three words found hold no space and no CR |
| `Requests.FirstThreeWordsIffBreaks` | src/http/request.rs:48-50 | the three words are missing iff the line holds fewer than three spaces or CRs |
| `Requests.ParseWords` | src/http/request.rs:52-62 | an error is one of the protocol or method errors, and with the protocol `HTTP/1.1` it is `InvalidMethod` |
| `Requests.ParseRequestLine` | src/http/request.rs:45-63 | never `InvalidEncoding`; `InvalidRequest` exactly when a word is missing |
| `Requests.InvalidRequestIffFewBreaks` | src/http/request.rs:48-50 | `InvalidRequest` iff the line holds fewer than three spaces or CRs |
| `Requests.NoTrailingBreak` | src/http/request.rs:50 | `GET /x HTTP/1.1` without a trailing space or CR is `InvalidRequest` |
| `Requests.Words` | src/http/request.rs:48-50 | three break-free words, each followed by a break, are the three words, trimmed |
| `Requests.ProtocolCheckedFirst` | src/http/request.rs:52-54 | with a protocol other than `HTTP/1.1` the error is the protocol's, whatever the method |
| `Requests.UnknownMethod` | src/http/request.rs:52-54 | an unknown method with protocol `HTTP/1.1` gives `InvalidMethod` |
| `Requests.TryFrom` | src/http/request.rs:30-43 | `InvalidEncoding` iff the buffer is not valid UTF-8 |
| `Requests.ToRequest` | src/http/request.rs:35-41 | errors pass through unchanged; a parsed line becomes the request with its path, query and method |
| `Requests.TryFromEncoded` | src/http/request.rs:33-35 | on encoded text, `try_from` is the line parser on that text |
| `Requests.SolidNoBreaks` | src/http/request.rs:65-69 | a whitespace-free word holds no space or CR and is its own trim |
| `Requests.ProtocolWordSolid` | src/http/request.rs:50 | `HTTP/1.1` holds no space or CR and is its own trim |
| `Requests.ParseWordsOk` | src/http/request.rs:52-62 | a method's token and `HTTP/1.1` give that method and the split target |
| `Requests.ParseWellFormedLine` | src/http/request.rs:45-63 | a well-formed request line parses to its method and split target |
| `Requests.RoundTripWithQuery` | src/http/request.rs:30-63 | `m p?q HTTP/1.1\r…`, encoded, gives method `m`, path `p` and `from(q)`, whatever follows |
| `Requests.RoundTripWithoutQuery` | src/http/request.rs:30-63 | `m p HTTP/1.1\r…`, encoded, gives method `m`, path `p` and no query |
| `Requests.ProtocolExamples` | src/http/request.rs:71-79 | `HTTP/1.1` passes, `HTTP/1.0` and `HTTP/1.1/x` are unsupported, `FTP/1.1` and `HTTP` are invalid |
| `Requests.UnknownMethodExample` | src/http/request.rs:52-54 | `FOO / HTTP/1.1\r\n` gives `InvalidMethod` |
| `Requests.BadProtocolAndMethodExample` | src/http/request.rs:52-54 | `FOO / FTP/1.1\r\n` gives `InvalidProtocol`: the protocol is checked first |
| `StatusCodes.Code` | src/http/status_code.rs:4-18 | every code lies in 200..599 |
| `StatusCodes.ReasonPhrase` | src/http/status_code.rs:21-37 | the reason phrase is never empty |
| `StatusCodes.FromCode` | src/http/status_code.rs:4-18 | the inverse of the numeric projection: the variant found has the given code, and none iff no variant has it |
| `StatusCodes.FromCodeCode` | src/http/status_code.rs:4-18 | looking up a variant's code gives the variant back |
| `StatusCodes.CodeInjective` | src/http/status_code.rs:5-17 | distinct variants have distinct codes |
| `StatusCodes.Display` | src/http/status_code.rs:40-44 | `Display` prints three decimal digits that denote the code |
| `StatusCodes.ReasonPhrases` | src/http/status_code.rs:23-35 | 200 is "OK", 400 "Bad Request", 404 "Not Found", 503 "Service Unavailable" |
| `StatusCodes.DisplayExamples` | src/http/status_code.rs:40-44 | 200 and 400 are printed as "200" and "400" |
| `Responses.DistinctNames` | src/http/response.rs:25-38 | the five body header names are distinct |
| `Responses.Etag` | src/http/response.rs:88-91 | the Etag is the body's digest between double quotes, a function of the body only |
| `Responses.ContentLength` | src/http/response.rs:30-33 | its digits denote the byte length of the body's UTF-8 encoding |
| `Responses.BodyHeaders` | src/http/response.rs:23-40 | exactly the keys Etag, Content-Type, Content-Length, Date and Cache-Control, with the content type, the byte length, the date, the Etag (the digest between double quotes) and `public, max-age=0, must-revalidate` |
| `Responses.StatusLine` | src/http/response.rs:47-52 | the status line is `HTTP/1.1 `, the code's three digits at columns 9-11, a space, the reason phrase and the line ending |
| `Responses.HeaderLines` | src/http/response.rs:53-55 | the header lines hold the `key: value` line of every header in the order |
| `Responses.Serialize` | src/http/response.rs:46-61 | the text `send` writes opens with the status line, closes with the blank line and the body, and holds the line of every header in the order |
| `Responses.Render` | src/http/response.rs:64-80 | the `Display` text opens with the `\n`-ended status line, holds every header's `\n`-ended line, and closes with CRLF, the body and a newline when there is a body |
| `Responses.Response.constructor` | src/http/response.rs:16-22 | the given status, no body, no headers |
| `Responses.Response.SetBody` | src/http/response.rs:23-40 | the body becomes `Some(b)`; the headers become the old headers overwritten by the five body headers; the status is kept |
| `Responses.Response.AddHeader` | src/http/response.rs:42-44 | the header is set to the value, overwriting; nothing else changes |
| `Responses.Response.WriteHeaders` | src/http/response.rs:53-55 | the lines are one `key: value` line per header, in an order listing every header exactly once, so every header has its line |
| `Responses.Response.Send` | src/http/response.rs:46-61 | the text written is the status line, the header lines in such an order, a blank line and the body or nothing; so it opens with the status line, closes with the blank line and the body, and holds a `key: value` line for every header |
| `Responses.Response.Display` | src/http/response.rs:64-80 | the `Display` text: `\n` line endings, and `\r\n` with the body only when there is one |
| `Responses.SetBodyInserts` | src/http/response.rs:24-39 | the five inserts, one after another, equal overwriting with the body headers |
| `Responses.SetBodyTwice` | src/http/response.rs:24-39 | a second `set_body` replaces every header the first one wrote |
| `Responses.SetBodyKeepsOthers` | src/http/response.rs:24-39 | `set_body` keeps every header other than the five, and adds none |
| `Responses.ContentLengthAscii` | src/http/response.rs:30-33 | for an ASCII body the Content-Length is the number of characters |
| `Responses.SerializeHasEveryHeader` | src/http/response.rs:46-61 | whatever the order, every header is written as one `key: value\r\n` line |
| `Responses.SerializeBare` | src/http/response.rs:46-61 | with no headers and no body only the status line and the blank line are written |
| `Server.Gather` | src/server.rs:38-49 | the loop takes reads only forward and never drops bytes already gathered |
| `Server.ReadRequest` | src/server.rs:37-49 | the loop gathers the buffer and stops for the reason that `Gather` gives |
| `Server.GatherStep` | src/server.rs:40-48 | a non-empty read that does not end the buffer with `\r\n\r\n` continues the loop with the bytes appended |
| `Server.GatherStops` | src/server.rs:41-48 | a failed read, an empty read or reaching the empty line is the last read taken |
| `Server.DataStep` | src/server.rs:44 | the gathered bytes grow by each read's bytes |
| `Server.ContinuesAt` | src/server.rs:41-48 | a read continues the loop iff it is non-empty data after which the buffer does not end with `\r\n\r\n` |
| `Server.GatherData` | src/server.rs:37-44 | the buffer is exactly the in-order concatenation of the reads taken |
| `Server.GatherContinues` | src/server.rs:41-48 | every read taken but the last continued the loop |
| `Server.GatherStopped` | src/server.rs:41-48 | unless the reads ran out, the last read taken stopped the loop: no further read is consumed |
| `Server.GatherEnding` | src/server.rs:40-48 | the loop fails iff its last read failed, and reaches the empty line iff its last read was data that made the buffer end with `\r\n\r\n` |
| `Server.ReadLoop` | src/server.rs:37-49 | all of the above, from the start with an empty buffer |
| `Server.PlainTextHeader` | src/server.rs:67-75 | the `Content-Type: text/plain` line is the response builder's line for that header |
| `Server.OkAnswerIsResponse` | src/server.rs:67-70 | the fixed 200 text is what the response builder writes for `200 OK` with that header and the body `Hello, world!` |
| `Server.BadRequestAnswerIsResponse` | src/server.rs:72-75 | the fixed 400 text is what the response builder writes for `400 Bad Request` with that header and the body `Bad request` |
| `Server.HandleRequest` | src/server.rs:67-70 | the answer starts with the status line of 200 from the status-code table |
| `Server.HandleBadRequest` | src/server.rs:72-75 | the answer starts with the status line of 400 from the status-code table |
| `Server.Respond` | src/server.rs:51-60 | exactly the 200 text iff parsing succeeds, and exactly the 400 text iff it fails |
| `Server.Framed` | src/server.rs:37-51 | the buffer handed to the parser is every byte the reads delivered, in order; there is none exactly when the last read taken failed |
| `Server.Served` | src/server.rs:51-63 | bytes are written exactly when a buffer was gathered, and they decode as UTF-8 to the answer for that buffer |
| `Server.HandleConnection` | src/server.rs:36-65 | the bytes written are the UTF-8 encoding of the answer to the gathered buffer; nothing is written when a read failed |
| `Server.EmptyConnection` | src/server.rs:38-60 | a peer that closes at once leaves the empty buffer, which gets the 400 text |
| `Server.WellFormedAnswered` | src/server.rs:51-55 | a well-formed request line gets the 200 text, whatever follows it |
| `Server.ErrorsAnsweredAlike` | src/server.rs:56-59 | every parse error gets the same 400 text |
| `Server.FailedReadNoAnswer` | src/server.rs:40 | a read error after some data ends the connection with nothing written |
| `Server.HeaderEndInsideChunk` | src/server.rs:46 | `\r\n\r\n` inside a chunk with more bytes after it does not stop the loop |
| `Server.HeaderEndAcrossChunks` | src/server.rs:44-48 | `\r\n\r\n` split over two reads is found when the second arrives |

## Left out

- A silent peer: a socket that never returns again is modelled as a finite list of read results. Running out of that list counts as the peer closing, so the model always ends, while the real loop would block.
- I/O:
  - `Server::run`: binding, the accept loop, `tokio::spawn` and `Arc` sharing are I/O and concurrency.
  - The failures of `write_all` and `flush` in `handle_connection`, and the failures of `send`'s `write!` calls (the early returns at `src/http/response.rs:52` and `:54`, and the result of the last write at `:56-60`), are not modelled: every write is taken to succeed. A read failure is modelled: nothing is written.
  - The `println!` logging of the parsed request and of the parse error (`src/server.rs:53`, `:57`) only prints text and is left out.
- `src/main.rs`: it only starts the server.
- Etag and Date:
  - The MD5 digest behind the Etag is a foreign hash. It is a parameter `digest` of `SetBody`, and only the surrounding quotes are modelled.
  - The clock and the `chrono` formatting of the Date header are a parameter `date` of `SetBody`.
- The `super::method` module is not part of this model. `Method` is taken to be the eight methods of section 9.3 of RFC 9110 and PATCH (RFC 5789), and `parse` to accept exactly their upper-case names.
- The `Debug` and `Display` impls of `ParseError` and the `Debug` derives only print text. `Response`'s `Display` is modelled anyway, as `Responses.Response.Display`.
- The accessor methods `path`, `method` and `query_string` of `Request` only return fields. They are the fields of the `Request` datatype.
- Byte and character indices: Rust's `find` and slicing work on byte offsets of UTF-8 text. The model treats the text as a sequence of characters. The two agree here because every separator the code looks for (space, CR, `?`, `/`, `&`, `=`) is ASCII.
