/**
 * The query-string decoder of src/http/query_string.rs: a raw query is split on `&`, each
 * piece at its first `=`, both halves are percent-decoded (lossily, as UTF-8) and then have
 * `+` replaced by a space, and repeated keys are folded into `Single`/`Multiple` values.
 */
module QueryStrings {
  import opened Wrappers
  import Text
  import Utf8

  type byte = Utf8.byte

  /** All values bound to one decoded key. */
  datatype Value = Single(text: string) | Multiple(texts: seq<string>)

  /** The decoded mapping; built once, read-only afterwards. */
  datatype QueryString = QueryString(data: map<string, Value>)

  /** `QueryString::get`: the value stored for `key`, if any. */
  function Get(q: QueryString, key: string): (r: Option<Value>)
    ensures r.Some? <==> key in q.data
    ensures r.Some? ==> r.value == q.data[key]
  {
    if key in q.data then Some(q.data[key]) else None
  }

  // ---------------------------------------------------------------------------------------
  // Percent decoding, as the `percent_encoding` crate does it on bytes

  const Percent: byte := '%' as int

  predicate IsHexDigit(b: byte)
  {
    ('0' as int <= b <= '9' as int) || ('a' as int <= b <= 'f' as int) || ('A' as int <= b <= 'F' as int)
  }

  /** The value a hexadecimal digit denotes; `a`-`f` and `A`-`F` denote 10-15 alike. */
  function HexValue(b: byte): (v: nat)
    requires IsHexDigit(b)
    ensures v < 16
    ensures '0' as int <= b <= '9' as int ==> v == b - '0' as int
    ensures 'A' as int <= b <= 'F' as int ==> v == b - 'A' as int + 10
    ensures 'a' as int <= b <= 'f' as int ==> v == b - 'a' as int + 10
  {
    if b <= '9' as int then b - '0' as int
    else if b <= 'F' as int then b - 'A' as int + 10
    else b - 'a' as int + 10
  }

  /**
   * `percent_decode`: a `%` followed by two hexadecimal digits stands for the byte they
   * denote; any other `%` (too close to the end, or before a non-digit) is kept as it is.
   */
  function PercentDecode(b: seq<byte>): (r: seq<byte>)
    ensures |r| <= |b|
  {
    if |b| == 0 then []
    else if b[0] == Percent && |b| >= 3 && IsHexDigit(b[1]) && IsHexDigit(b[2]) then
      [HexValue(b[1]) * 16 + HexValue(b[2])] + PercentDecode(b[3..])
    else [b[0]] + PercentDecode(b[1..])
  }

  /** An upper-case hexadecimal digit. */
  function HexDigit(v: nat): (d: byte)
    requires v < 16
    ensures IsHexDigit(d) && HexValue(d) == v
  {
    if v < 10 then '0' as int + v else 'A' as int + v - 10
  }

  /** Escapes every byte as `%XY`: the reference encoding the decoder must invert. */
  function PercentEncodeAll(b: seq<byte>): (r: seq<byte>)
    ensures |r| == 3 * |b|
  {
    if |b| == 0 then []
    else [Percent, HexDigit(b[0] / 16), HexDigit(b[0] % 16)] + PercentEncodeAll(b[1..])
  }

  /** Percent decoding inverts percent encoding. */
  lemma {:induction false} PercentDecodeEncode(b: seq<byte>)
    ensures PercentDecode(PercentEncodeAll(b)) == b
    decreases |b|
  {
    if |b| > 0 {
      var e := PercentEncodeAll(b);
      assert e[3..] == PercentEncodeAll(b[1..]);
      PercentDecodeEncode(b[1..]);
      assert [b[0]] + b[1..] == b;
    }
  }

  /** Bytes without `%` pass through the decoder unchanged. */
  lemma {:induction false} PercentDecodeIdentity(b: seq<byte>)
    requires Percent !in b
    ensures PercentDecode(b) == b
    decreases |b|
  {
    if |b| > 0 {
      assert b[0] != Percent;
      assert Percent !in b[1..];
      PercentDecodeIdentity(b[1..]);
      assert [b[0]] + b[1..] == b;
    }
  }

  /**
   * `percent_decode(x.as_bytes()).decode_utf8_lossy().replace('+', " ")`: the decoded form of
   * a key or a value. No `+` survives it.
   */
  function DecodeComponent(x: string): (r: string)
    ensures '+' !in r
  {
    Text.Replace(Utf8.DecodeLossy(PercentDecode(Utf8.Encode(x))), '+', ' ')
  }

  /** Text without `%` only has its `+` signs turned into spaces. */
  lemma DecodePlainComponent(x: string)
    requires '%' !in x
    ensures DecodeComponent(x) == Text.Replace(x, '+', ' ')
  {
    Utf8.EncodeAsciiByteAbsent(x, '%');
    PercentDecodeIdentity(Utf8.Encode(x));
    Utf8.DecodeEncode(x);
  }

  /** An encoded plus sign is decoded to `+` first and so ends as a space too. */
  lemma DecodeEncodedPlus()
    ensures DecodeComponent("%2B") == " "
  {
    var plus := Utf8.Encode("+");
    Utf8.EncodeAscii("+");
    Utf8.DecodeEncode("+");
    var upper := Utf8.Encode("%2B");
    Utf8.EncodeAscii("%2B");
    assert upper == [0x25, 0x32, 0x42];
    assert PercentDecode(upper) == plus by {
      assert PercentDecode(upper) == [0x2B] + PercentDecode([]);
    }
  }

  /** Escapes are case-insensitive: `%2b` ends as a space just like `%2B`. */
  lemma DecodeEncodedPlusLower()
    ensures DecodeComponent("%2b") == " "
  {
    var plus := Utf8.Encode("+");
    Utf8.EncodeAscii("+");
    Utf8.DecodeEncode("+");
    var lower := Utf8.Encode("%2b");
    Utf8.EncodeAscii("%2b");
    assert lower == [0x25, 0x32, 0x62];
    assert PercentDecode(lower) == plus by {
      assert PercentDecode(lower) == [0x2B] + PercentDecode([]);
    }
  }

  /** A `%` that is not followed by two hexadecimal digits is kept as it is. */
  lemma StrayPercentKept(b: seq<byte>)
    requires |b| > 0 && b[0] == Percent
    requires |b| < 3 || !IsHexDigit(b[1]) || !IsHexDigit(b[2])
    ensures PercentDecode(b) == [Percent] + PercentDecode(b[1..])
  {
  }

  /** `%z` and a trailing `%` survive decoding unchanged. */
  lemma DecodeStrayPercent()
    ensures DecodeComponent("%z") == "%z"
    ensures DecodeComponent("5%") == "5%"
  {
    var e := Utf8.Encode("%z");
    Utf8.EncodeAscii("%z");
    assert e == [0x25, 0x7A];
    assert PercentDecode(e) == e by {
      StrayPercentKept(e);
      assert PercentDecode(e[1..]) == [0x7A] + PercentDecode([]);
    }
    Utf8.DecodeEncode("%z");
    var t := Utf8.Encode("5%");
    Utf8.EncodeAscii("5%");
    assert t == [0x35, 0x25];
    assert PercentDecode(t) == t by {
      assert PercentDecode(t) == [0x35] + PercentDecode(t[1..]);
      StrayPercentKept(t[1..]);
    }
    Utf8.DecodeEncode("5%");
  }

  // ---------------------------------------------------------------------------------------
  // Splitting

  /** `sub_str.splitn(2, '=')` with both parts defaulting to "": key before the first `=`, the rest as value. */
  function SplitPiece(piece: string): (kv: (string, string))
    ensures '=' !in kv.0
    ensures '=' in piece ==> piece == kv.0 + "=" + kv.1
    ensures '=' !in piece ==> kv == (piece, "")
  {
    match Text.SplitOnce(piece, '=')
    case None => (piece, "")
    case Some(kv) => kv
  }

  /** The decoded key and value of one `&`-separated piece. */
  function DecodePiece(piece: string): (kv: (string, string))
    ensures '+' !in kv.0 && '+' !in kv.1
    ensures '=' !in piece ==> kv.1 == ""
  {
    var (key, value) := SplitPiece(piece);
    (DecodeComponent(key), DecodeComponent(value))
  }

  /** `s.split('&')`. */
  function Pieces(s: string): seq<string>
  {
    Text.Split(s, '&')
  }

  // ---------------------------------------------------------------------------------------
  // Folding repeated keys

  /** How an occupied entry absorbs a further value (query_string.rs, lines 41-57). */
  function MergeValue(stored: Value, value: string): (r: Value)
    ensures r.Multiple?
  {
    match stored
    case Single(prev) => Multiple([prev, value])
    case Multiple(texts) => if value != "" then Multiple(texts + [value]) else stored
  }

  /** Absorbing a value keeps every value stored before it and appends it last, unless it is empty and dropped. */
  lemma MergeValueKeeps(stored: Value, value: string)
    ensures var r := MergeValue(stored, value);
      && (stored.Single? ==> |r.texts| == 2 && r.texts[0] == stored.text)
      && (stored.Multiple? ==> stored.texts <= r.texts && |r.texts| <= |stored.texts| + 1)
      && (stored.Multiple? ==> r.texts == if value == "" then stored.texts else stored.texts + [value])
      && (stored.Single? || value != "" ==> |r.texts| > 0 && r.texts[|r.texts| - 1] == value)
      && (stored.Multiple? && value == "" ==> r == stored)
  {
  }

  /** One step of `from`'s loop: the entry API on `data`. */
  function Merge(data: map<string, Value>, key: string, value: string): (r: map<string, Value>)
    ensures r.Keys == data.Keys + {key}
  {
    if key in data then data[key := MergeValue(data[key], value)]
    else data[key := Single(value)]
  }

  /** An absorbed piece changes only its own key's entry: a new key becomes `Single`, a known one `Multiple`. */
  lemma MergeOthers(data: map<string, Value>, key: string, value: string)
    ensures forall k :: k in data && k != key ==> Merge(data, key, value)[k] == data[k]
    ensures key !in data ==> Merge(data, key, value)[key] == Single(value)
    ensures key in data ==> Merge(data, key, value)[key].Multiple?
  {
  }

  /**
   * The map `from` holds after absorbing the first `n` pieces in order, each decoded by
   * `decode` into its key and value. The fold does not depend on how pieces are decoded.
   */
  function Absorbed(pieces: seq<string>, n: nat, decode: string -> (string, string)): (r: map<string, Value>)
    requires n <= |pieces|
  {
    if n == 0 then map[]
    else
      var kv := decode(pieces[n - 1]);
      Merge(Absorbed(pieces, n - 1, decode), kv.0, kv.1)
  }

  /** The keys of the map built from the first `n` pieces are exactly their decoded keys. */
  lemma {:induction false} AbsorbedKeys(pieces: seq<string>, n: nat, decode: string -> (string, string))
    requires n <= |pieces|
    ensures Absorbed(pieces, n, decode).Keys == set i | 0 <= i < n :: decode(pieces[i]).0
  {
    if n > 0 {
      AbsorbedKeys(pieces, n - 1, decode);
      var before := set i | 0 <= i < n - 1 :: decode(pieces[i]).0;
      var after := set i | 0 <= i < n :: decode(pieces[i]).0;
      assert after == before + {decode(pieces[n - 1]).0} by {
        forall k | k in after ensures k in before + {decode(pieces[n - 1]).0} {
          var i :| 0 <= i < n && decode(pieces[i]).0 == k;
          if i < n - 1 {
            assert k in before;
          }
        }
      }
    }
  }

  /** The query string that `QueryString::from(s)` builds. */
  function Parse(s: string): (q: QueryString)
    ensures q.data.Keys == set i | 0 <= i < |Pieces(s)| :: DecodePiece(Pieces(s)[i]).0
  {
    var pieces := Pieces(s);
    AbsorbedKeys(pieces, |pieces|, DecodePiece);
    QueryString(Absorbed(pieces, |pieces|, DecodePiece))
  }

  /** The `match data.entry(decoded_key)` of `from`: insert a new entry or update the occupied one in place. */
  method Absorb(data: map<string, Value>, decodedKey: string, decodedValue: string) returns (updated: map<string, Value>)
    ensures updated == Merge(data, decodedKey, decodedValue)
  {
    updated := data;
    if decodedKey in data {
      match data[decodedKey]
      case Single(prev) =>
        // The source tests for an empty new value here, but both branches store the same pair.
        if decodedValue == "" && prev != "" {
          updated := data[decodedKey := Multiple([prev, decodedValue])];
        } else {
          updated := data[decodedKey := Multiple([prev, decodedValue])];
        }
      case Multiple(texts) =>
        if decodedValue != "" {
          updated := data[decodedKey := Multiple(texts + [decodedValue])];
        }
    } else {
      updated := data[decodedKey := Single(decodedValue)];
    }
  }

  /**
   * The loop of `QueryString::from`: decode every piece with `decode` and absorb its pair
   * into the map, in order. `From` passes DecodePiece, the splitting and decoding the loop
   * body performs.
   */
  method AbsorbAll(pieces: seq<string>, decode: string -> (string, string)) returns (data: map<string, Value>)
    ensures data == Absorbed(pieces, |pieces|, decode)
  {
    data := map[];
    var i := 0;
    while i < |pieces|
      invariant 0 <= i <= |pieces|
      invariant data == Absorbed(pieces, i, decode)
    {
      var kv := decode(pieces[i]);
      data := Absorb(data, kv.0, kv.1);
      i := i + 1;
    }
  }

  /** `QueryString::from`: split on `&`, then absorb the decoded pieces. */
  method From(s: string) returns (q: QueryString)
    ensures q == Parse(s)
  {
    var pieces := Pieces(s);
    var data := AbsorbAll(pieces, DecodePiece);
    q := QueryString(data);
  }

  // ---------------------------------------------------------------------------------------
  // The reference description: each key's value as a function of the values it occurred with

  /** The decoded values of the first `n` pieces whose decoded key is `key`, in order of occurrence. */
  function Occurrences(pieces: seq<string>, n: nat, decode: string -> (string, string), key: string): seq<string>
    requires n <= |pieces|
  {
    if n == 0 then []
    else
      var kv := decode(pieces[n - 1]);
      Occurrences(pieces, n - 1, decode, key) + (if kv.0 == key then [kv.1] else [])
  }

  /** The non-empty strings of `vs`, in order. */
  function NonEmpty(vs: seq<string>): seq<string>
  {
    if |vs| == 0 then []
    else NonEmpty(vs[..|vs| - 1]) + (if vs[|vs| - 1] != "" then [vs[|vs| - 1]] else [])
  }

  /**
   * What a key that occurred with values `vs` is bound to: the only value alone; otherwise
   * the first two values, whatever they are, followed by every later value that is not empty.
   */
  function Collapse(vs: seq<string>): Value
    requires |vs| >= 1
  {
    if |vs| == 1 then Single(vs[0]) else Multiple(vs[..2] + NonEmpty(vs[2..]))
  }

  lemma CollapseAppend(vs: seq<string>, v: string)
    requires |vs| >= 1
    ensures Collapse(vs + [v]) == MergeValue(Collapse(vs), v)
  {
    var ws := vs + [v];
    if |vs| >= 2 {
      assert ws[..2] == vs[..2];
      assert ws[2..] == vs[2..] + [v];
      assert (vs[2..] + [v])[..|vs[2..]|] == vs[2..];
    }
  }

  /** The map built from the pieces binds exactly the keys that occurred, each to Collapse of its values. */
  lemma {:induction false} AbsorbedCollapse(pieces: seq<string>, n: nat, decode: string -> (string, string), key: string)
    requires n <= |pieces|
    ensures key in Absorbed(pieces, n, decode) <==> Occurrences(pieces, n, decode, key) != []
    ensures key in Absorbed(pieces, n, decode) ==>
      Absorbed(pieces, n, decode)[key] == Collapse(Occurrences(pieces, n, decode, key))
  {
    if n > 0 {
      var kv := decode(pieces[n - 1]);
      var vs := Occurrences(pieces, n - 1, decode, key);
      var before := Absorbed(pieces, n - 1, decode);
      AbsorbedCollapse(pieces, n - 1, decode, key);
      assert Absorbed(pieces, n, decode) == Merge(before, kv.0, kv.1);
      if kv.0 == key {
        if vs == [] {
          assert vs + [kv.1] == [kv.1];
        } else {
          CollapseAppend(vs, kv.1);
        }
      } else {
        assert vs + [] == vs;
      }
    }
  }

  /** A key occurs exactly when some piece decodes to it. */
  lemma {:induction false} OccurrencesExist(pieces: seq<string>, n: nat, decode: string -> (string, string), key: string)
    requires n <= |pieces|
    ensures Occurrences(pieces, n, decode, key) == [] <==> forall i :: 0 <= i < n ==> decode(pieces[i]).0 != key
  {
    if n > 0 {
      OccurrencesExist(pieces, n - 1, decode, key);
    }
  }

  /**
   * `get(key)` on `from(s)`: nothing for a key no piece decodes to; otherwise the value
   * Collapse gives for the key's values in occurrence order.
   */
  lemma GetParse(s: string, key: string)
    ensures Get(Parse(s), key).None? <==> forall i :: 0 <= i < |Pieces(s)| ==> DecodePiece(Pieces(s)[i]).0 != key
    ensures Get(Parse(s), key).Some? ==>
      var vs := Occurrences(Pieces(s), |Pieces(s)|, DecodePiece, key);
      vs != [] && Get(Parse(s), key).value == Collapse(vs)
  {
    var pieces := Pieces(s);
    AbsorbedCollapse(pieces, |pieces|, DecodePiece, key);
    OccurrencesExist(pieces, |pieces|, DecodePiece, key);
  }

  /** `from(s)` binds exactly the decoded keys of the pieces of `s`, so at least one. */
  lemma ParseKeys(s: string)
    ensures |Parse(s).data| > 0
  {
    var pieces := Pieces(s);
    assert DecodePiece(pieces[0]).0 in Parse(s).data;
  }

  /** Every `Multiple` value of a parsed query string holds at least two strings. */
  lemma MultipleHasTwo(s: string, key: string)
    requires key in Parse(s).data && Parse(s).data[key].Multiple?
    ensures |Parse(s).data[key].texts| >= 2
  {
    var pieces := Pieces(s);
    AbsorbedCollapse(pieces, |pieces|, DecodePiece, key);
  }

  // ---------------------------------------------------------------------------------------
  // Worked examples: queries whose pieces need no decoding

  /** A key or value the decoder leaves alone: no `%`, no `+`. */
  predicate Plain(x: string)
  {
    '%' !in x && '+' !in x
  }

  lemma DecodePlain(x: string)
    requires Plain(x)
    ensures DecodeComponent(x) == x
  {
    DecodePlainComponent(x);
    var r := Text.Replace(x, '+', ' ');
    assert r == x;
  }

  /** An `=`-free plain key and a plain value decode to themselves. */
  lemma DecodePlainPiece(k: string, v: string)
    requires Plain(k) && Plain(v) && '=' !in k
    ensures DecodePiece(k + "=" + v) == (k, v)
  {
    Text.SplitOnceAt(k, '=', v);
    DecodePlain(k);
    DecodePlain(v);
  }

  /** A form-encoded `k=v` without escapes: each `+` of the key and of the value becomes a space. */
  lemma DecodeFormPiece(k: string, v: string)
    requires '%' !in k && '%' !in v && '=' !in k
    ensures DecodePiece(k + "=" + v) == (Text.Replace(k, '+', ' '), Text.Replace(v, '+', ' '))
  {
    Text.SplitOnceAt(k, '=', v);
    DecodePlainComponent(k);
    DecodePlainComponent(v);
  }

  /** A piece without `=` is a key with the empty value. */
  lemma DecodeBareKey(k: string)
    requires Plain(k) && '=' !in k
    ensures DecodePiece(k) == (k, "")
  {
    DecodePlain(k);
    DecodePlain("");
  }

  /** The empty query string is one empty piece: the empty key with the empty value. */
  lemma EmptyQuery()
    ensures Parse("").data == map["" := Single("")]
  {
    assert Text.SplitOnce("", '&').None?;
    assert Pieces("") == [""];
    DecodeBareKey("");
    assert Absorbed([""], 1, DecodePiece) == Merge(map[], "", "");
  }

  lemma PiecesOfTwo(p1: string, p2: string)
    requires '&' !in p1 && '&' !in p2
    ensures Pieces(p1 + "&" + p2) == [p1, p2]
  {
    assert Text.Join([p1, p2], '&') == p1 + "&" + p2;
    Text.SplitJoin([p1, p2], '&');
  }

  /** Two plain `key=value` pieces joined by `&`. */
  lemma ParseTwoPlain(k1: string, v1: string, k2: string, v2: string)
    requires Plain(k1) && Plain(v1) && '=' !in k1 && '&' !in k1 && '&' !in v1
    requires Plain(k2) && Plain(v2) && '=' !in k2 && '&' !in k2 && '&' !in v2
    ensures Parse(k1 + "=" + v1 + "&" + k2 + "=" + v2).data == Merge(Merge(map[], k1, v1), k2, v2)
  {
    var p1, p2 := k1 + "=" + v1, k2 + "=" + v2;
    var s := k1 + "=" + v1 + "&" + k2 + "=" + v2;
    assert s == p1 + "&" + p2;
    PiecesOfTwo(p1, p2);
    var pieces := Pieces(s);
    DecodePlainPiece(k1, v1);
    DecodePlainPiece(k2, v2);
    assert Absorbed(pieces, 1, DecodePiece) == Merge(map[], k1, v1);
    assert Absorbed(pieces, 2, DecodePiece) == Merge(Merge(map[], k1, v1), k2, v2);
  }

  /** `k=v1&k=v2`, as in `z=9&z=10`: a repeated key collects both values in order. */
  lemma RepeatedKey(k: string, v1: string, v2: string)
    requires Plain(k) && '=' !in k && '&' !in k
    requires Plain(v1) && Plain(v2) && '&' !in v1 && '&' !in v2
    ensures Get(Parse(k + "=" + v1 + "&" + k + "=" + v2), k) == Some(Multiple([v1, v2]))
  {
    ParseTwoPlain(k, v1, k, v2);
  }

  /** `k=v&k=`, as in `z=10&z=`: the second value is kept even though it is empty. */
  lemma EmptySecondValueKept(k: string, v: string)
    requires Plain(k) && '=' !in k && '&' !in k
    requires Plain(v) && '&' !in v
    ensures Get(Parse(k + "=" + v + "&" + k + "="), k) == Some(Multiple([v, ""]))
  {
    ParseTwoPlain(k, v, k, "");
    assert k + "=" + v + "&" + k + "=" + "" == k + "=" + v + "&" + k + "=";
  }

  /** Distinct keys are kept apart, each with its own value. */
  lemma DistinctKeys(k1: string, v1: string, k2: string, v2: string)
    requires Plain(k1) && Plain(v1) && '=' !in k1 && '&' !in k1 && '&' !in v1
    requires Plain(k2) && Plain(v2) && '=' !in k2 && '&' !in k2 && '&' !in v2
    requires k1 != k2
    ensures Parse(k1 + "=" + v1 + "&" + k2 + "=" + v2).data == map[k1 := Single(v1), k2 := Single(v2)]
  {
    ParseTwoPlain(k1, v1, k2, v2);
  }
}
