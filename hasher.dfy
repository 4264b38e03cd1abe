/** The backend hashing service's text framing (pkg/hasher/hasher.rs):
    `parse_request` reads the origin from the second line and the body from
    the fourth line of a UTF-8 request, the body's bytes are hashed with
    FNV-1a, and `generate_response` frames the origin and the decimal hash
    as "HTTP/1.1 200 OK\r\n<origin>\r\n\r\n<hash>". The frames borrow the
    look of HTTP/1.1 but follow only this ad-hoc layout. */
module Hasher {
  import opened Bytes
  import Utf8
  import opened TextLines
  import Fnv

  /** The `context` messages of `parse_request`'s error returns. */
  datatype ParseError =
    | NotUtf8            // "unable to parse incoming bytes into string"
    | MissingFirstLine   // "failed to get first line"
    | MissingHost        // "missing host header"
    | MissingEmptyLine   // "missing empty line"
    | MissingBody        // "missing body"

  /** The two `&str`s `parse_request` returns, as their bytes. */
  datatype Request = Request(origin: seq<Byte>, body: seq<Byte>)

  datatype ParseResult = Parsed(request: Request) | Failed(error: ParseError)

  /** `parse_request`: validate UTF-8, split into lines, skip line 1, take
      line 2 as the origin, skip line 3, take line 4 as the body. */
  function ParseRequest(buf: seq<Byte>): (r: ParseResult)
    ensures r == Failed(NotUtf8) <==> !Utf8.Valid(buf)
    ensures r.Parsed? ==> Utf8.Valid(r.request.origin) && Utf8.Valid(r.request.body)
    ensures r.Parsed? ==> NoLineFeed(r.request.origin) && NoLineFeed(r.request.body)
  {
    if !Utf8.Valid(buf) then Failed(NotUtf8)
    else
      var lines := Lines(buf);
      LinesValid(buf);
      LinesHaveNoLineFeed(buf);
      if |lines| < 1 then Failed(MissingFirstLine)
      else if |lines| < 2 then Failed(MissingHost)
      else if |lines| < 3 then Failed(MissingEmptyLine)
      else if |lines| < 4 then Failed(MissingBody)
      else Parsed(Request(lines[1], lines[3]))
  }

  // ---------------------------------------------------------------------
  // Decimal rendering of a u64 (Rust's `Display for u64`, used by `format!`)

  predicate IsDigit(b: Byte)
  {
    0x30 <= b <= 0x39
  }

  predicate AllDigits(s: seq<Byte>)
  {
    forall i :: 0 <= i < |s| ==> IsDigit(s[i])
  }

  function DigitByte(d: nat): (b: Byte)
    requires d < 10
    ensures IsDigit(b) && b as int - 0x30 == d
  {
    (0x30 + d) as Byte
  }

  /** Decimal digits of `n`, most significant first, without leading zeros. */
  function Decimal(n: nat): (r: seq<Byte>)
    ensures |r| >= 1 && AllDigits(r)
    ensures r[0] == 0x30 ==> n == 0
    decreases n
  {
    if n < 10 then [DigitByte(n)] else Decimal(n / 10) + [DigitByte(n % 10)]
  }

  /** The number a string of decimal digits denotes (`str::parse::<u64>`
      without the overflow check). */
  function DecimalValue(s: seq<Byte>): (v: nat)
    requires AllDigits(s)
    ensures (forall i :: 0 <= i < |s| ==> s[i] == 0x30) ==> v == 0
  {
    if s == [] then 0
    else DecimalValue(s[..|s| - 1]) * 10 + (s[|s| - 1] as int - 0x30)
  }

  /** Reading back the rendered digits gives the number. */
  lemma {:induction false} DecimalRoundTrip(n: nat)
    ensures DecimalValue(Decimal(n)) == n
    decreases n
  {
    var r := Decimal(n);
    if n >= 10 {
      DecimalRoundTrip(n / 10);
      assert r[..|r| - 1] == Decimal(n / 10);
    }
  }

  lemma DigitsAreAscii(s: seq<Byte>)
    requires AllDigits(s)
    ensures NoLineFeed(s) && Utf8.Valid(s)
  {
    Utf8.AsciiValid(s);
  }

  // ---------------------------------------------------------------------
  // Responses

  /** "HTTP/1.1 200 OK", the status line without its CRLF. */
  const STATUS: seq<Byte> :=
    [0x48, 0x54, 0x54, 0x50, 0x2F, 0x31, 0x2E, 0x31, 0x20, 0x32, 0x30, 0x30, 0x20, 0x4F, 0x4B]

  /** "GET / HTTP/1.1", the request line the parser's comments expect. */
  const GET_LINE: seq<Byte> :=
    [0x47, 0x45, 0x54, 0x20, 0x2F, 0x20, 0x48, 0x54, 0x54, 0x50, 0x2F, 0x31, 0x2E, 0x31]

  /** "Host: ", the prefix of the second request line. */
  const HOST_PREFIX: seq<Byte> := [0x48, 0x6F, 0x73, 0x74, 0x3A, 0x20]

  /** The byte constants spell the texts they stand for. */
  lemma StatusSpellsText()
    ensures Text(STATUS) == "HTTP/1.1 200 OK"
  {
  }

  lemma GetLineSpellsText()
    ensures Text(GET_LINE) == "GET / HTTP/1.1"
  {
  }

  lemma HostPrefixSpellsText()
    ensures Text(HOST_PREFIX) == "Host: "
  {
  }

  const CRLF: seq<Byte> := [CR, LF]

  /** `generate_response(from, hash)`: `format!("HTTP/1.1 200 OK\r\n{}\r\n\r\n{}", from, hash)`.
      `from` is a `&str`, so valid UTF-8; the resulting `String` is too. */
  function GenerateResponse(from: seq<Byte>, hash: U64): (r: seq<Byte>)
    requires Utf8.Valid(from)
    ensures Utf8.Valid(r)
    ensures |r| > |STATUS| + 2 && r[..|STATUS| + 2] == STATUS + CRLF
    ensures IsDigit(r[|r| - 1])
  {
    ResponseValid(from, hash);
    STATUS + CRLF + from + CRLF + CRLF + Decimal(hash)
  }

  lemma ResponseValid(from: seq<Byte>, hash: U64)
    requires Utf8.Valid(from)
    ensures Utf8.Valid(STATUS + CRLF + from + CRLF + CRLF + Decimal(hash))
  {
    DigitsAreAscii(Decimal(hash));
    CrlfTextValid(STATUS, from, Decimal(hash));
  }

  /** The constant lines are one-line ASCII texts. */
  lemma ConstantsAreLines()
    ensures Utf8.AllAscii(STATUS) && NoLineFeed(STATUS)
    ensures Utf8.AllAscii(GET_LINE) && NoLineFeed(GET_LINE)
    ensures Utf8.AllAscii(HOST_PREFIX) && NoLineFeed(HOST_PREFIX)
  {
  }

  /** An ASCII first line, a valid second line and a valid rest, joined
      with CRLF separators, give a valid text. */
  lemma CrlfTextValid(a: seq<Byte>, b: seq<Byte>, c: seq<Byte>)
    requires Utf8.AllAscii(a) && Utf8.Valid(b) && Utf8.Valid(c)
    ensures Utf8.Valid(a + CRLF + b + CRLF + CRLF + c)
  {
    var tail := CRLF + CRLF + c;
    assert Utf8.Valid(b + tail) by {
      Utf8.AsciiPrefixValid(CRLF + CRLF, c);
      Utf8.AppendValid(b, tail);
    }
    assert Utf8.Valid((a + CRLF) + (b + tail)) by {
      assert Utf8.AllAscii(a + CRLF);
      Utf8.AsciiPrefixValid(a + CRLF, b + tail);
    }
    assert (a + CRLF) + (b + tail) == a + CRLF + b + CRLF + CRLF + c;
  }

  /** One request handled by a backend connection (pkg/hasher/hasher.rs
      lines 59-76): a request that does not parse is dropped (`None`);
      otherwise the reply frames the origin with the FNV-1a hash of the
      body's bytes. */
  function Respond(chunk: seq<Byte>): (reply: Option<seq<Byte>>)
    ensures reply.None? <==> ParseRequest(chunk).Failed?
  {
    match ParseRequest(chunk)
    case Failed(_) => None
    case Parsed(req) => Some(GenerateResponse(req.origin, Fnv.Fnv1a(req.body) as int))
  }

  // ---------------------------------------------------------------------
  // Properties of the framing

  /** Parsing fails exactly on invalid UTF-8 or on fewer than four lines,
      counted as line feeds plus an unterminated last line. */
  lemma ParseFailsIff(buf: seq<Byte>)
    ensures ParseRequest(buf).Failed?
        <==> !Utf8.Valid(buf)
             || CountLineFeeds(buf) + (if buf != [] && buf[|buf| - 1] != LF then 1 else 0) < 4
  {
    LinesCount(buf);
  }

  /** A text whose first three lines end in a line feed, followed by `rest`. */
  function Frame(l1: seq<Byte>, l2: seq<Byte>, l3: seq<Byte>, rest: seq<Byte>): seq<Byte>
  {
    l1 + [LF] + (l2 + [LF] + (l3 + [LF] + rest))
  }

  /** Three list elements put in front of a list, one at a time. */
  lemma ConsThree<T>(x: T, y: T, z: T, tail: seq<T>)
    ensures [x] + ([y] + ([z] + tail)) == [x, y, z] + tail
  {
  }

  /** The lines of the last two framed lines and what follows them. */
  lemma LinesOfTwo(l2: seq<Byte>, l3: seq<Byte>, rest: seq<Byte>)
    requires NoLineFeed(l2) && NoLineFeed(l3)
    ensures Lines(l2 + [LF] + (l3 + [LF] + rest)) == [StripCr(l2)] + ([StripCr(l3)] + Lines(rest))
  {
    LinesCons(l3, rest);
    LinesCons(l2, l3 + [LF] + rest);
  }

  /** The lines of such a text. */
  lemma LinesOfFrame(l1: seq<Byte>, l2: seq<Byte>, l3: seq<Byte>, rest: seq<Byte>)
    requires NoLineFeed(l1) && NoLineFeed(l2) && NoLineFeed(l3)
    ensures Lines(Frame(l1, l2, l3, rest)) == [StripCr(l1), StripCr(l2), StripCr(l3)] + Lines(rest)
  {
    LinesOfTwo(l2, l3, rest);
    LinesCons(l1, l2 + [LF] + (l3 + [LF] + rest));
    ConsThree(StripCr(l1), StripCr(l2), StripCr(l3), Lines(rest));
  }

  /** The shape of any four-line text: the first and third lines are never
      looked at, the second is the origin after dropping one carriage return,
      and the body is the first line of the rest (nothing after it). */
  lemma ParseShape(l1: seq<Byte>, host: seq<Byte>, l3: seq<Byte>, rest: seq<Byte>)
    requires NoLineFeed(l1) && NoLineFeed(host) && NoLineFeed(l3)
    requires Utf8.Valid(Frame(l1, host, l3, rest))
    ensures ParseRequest(Frame(l1, host, l3, rest))
         == if rest == [] then Failed(MissingBody)
            else Parsed(Request(StripCr(host), Lines(rest)[0]))
  {
    LinesOfFrame(l1, host, l3, rest);
    assert Lines(rest) == [] <==> rest == [];
  }

  /** Only the line before the first line feed of the payload becomes the
      body: a body holding a line feed is cut there. */
  lemma BodyTruncatedAtLineFeed(body: seq<Byte>, more: seq<Byte>)
    requires NoLineFeed(body)
    ensures Lines(body + [LF] + more)[0] == StripCr(body)
  {
    LinesCons(body, more);
  }

  /** The first and third lines are never inspected: replacing them changes
      nothing. */
  lemma IgnoresFirstAndThirdLine(l1: seq<Byte>, l3: seq<Byte>, m1: seq<Byte>, m3: seq<Byte>,
                                 host: seq<Byte>, rest: seq<Byte>)
    requires NoLineFeed(l1) && NoLineFeed(l3) && NoLineFeed(m1) && NoLineFeed(m3) && NoLineFeed(host)
    requires Utf8.Valid(Frame(l1, host, l3, rest)) && Utf8.Valid(Frame(m1, host, m3, rest))
    ensures ParseRequest(Frame(l1, host, l3, rest)) == ParseRequest(Frame(m1, host, m3, rest))
  {
    ParseShape(l1, host, l3, rest);
    ParseShape(m1, host, m3, rest);
  }

  /** A CRLF-separated text "a\r\nb\r\n\r\nc" is a frame whose lines end in
      a carriage return. */
  lemma CrlfIsFrame(a: seq<Byte>, b: seq<Byte>, c: seq<Byte>)
    ensures a + CRLF + b + CRLF + CRLF + c == Frame(a + [CR], b + [CR], [CR], c)
  {
  }

  lemma NoLineFeedThenCr(a: seq<Byte>)
    requires NoLineFeed(a)
    ensures NoLineFeed(a + [CR])
  {
    assert forall i :: 0 <= i < |a| ==> (a + [CR])[i] == a[i];
  }

  /** The worked example "a\r\nb\r\n\r\nc" parses to origin "b" and body
      "c", for any line-feed-free line a, line-feed-free line b (a trailing
      carriage return of b is the one CRLF contributes, so b itself is kept
      whole) and any non-empty line-feed-free c. */
  lemma CrlfExample(a: seq<Byte>, b: seq<Byte>, c: seq<Byte>)
    requires NoLineFeed(a) && NoLineFeed(b) && NoLineFeed(c) && c != []
    requires Utf8.Valid(a + CRLF + b + CRLF + CRLF + c)
    ensures ParseRequest(a + CRLF + b + CRLF + CRLF + c) == Parsed(Request(b, c))
  {
    CrlfIsFrame(a, b, c);
    NoLineFeedThenCr(a);
    NoLineFeedThenCr(b);
    ParseShape(a + [CR], b + [CR], [CR], c);
    assert StripCr(b + [CR]) == b;
    LinesLast(c);
  }

  /** Round trip: a response parses back, as a request, to the origin it
      was built from and the decimal hash, provided the origin has no line
      feed. */
  lemma ResponseRoundTrip(from: seq<Byte>, hash: U64)
    requires Utf8.Valid(from) && NoLineFeed(from)
    ensures ParseRequest(GenerateResponse(from, hash)) == Parsed(Request(from, Decimal(hash)))
    ensures DecimalValue(ParseRequest(GenerateResponse(from, hash)).request.body) == hash
  {
    var dec := Decimal(hash);
    DigitsAreAscii(dec);
    ConstantsAreLines();
    ResponseValid(from, hash);
    CrlfExample(STATUS, from, dec);
    DecimalRoundTrip(hash);
  }

  /** The request layout the parser is written for, as its comments describe
      it: "GET / HTTP/1.1", "Host: <origin>", an empty line, the payload. */
  function FramedRequest(origin: seq<Byte>, payload: seq<Byte>): seq<Byte>
  {
    GET_LINE + CRLF + (HOST_PREFIX + origin) + CRLF + CRLF + payload
  }

  lemma FramedRequestValid(origin: seq<Byte>, payload: seq<Byte>)
    requires Utf8.Valid(origin) && Utf8.Valid(payload)
    ensures Utf8.Valid(HOST_PREFIX + origin)
    ensures Utf8.Valid(FramedRequest(origin, payload))
  {
    ConstantsAreLines();
    Utf8.AsciiPrefixValid(HOST_PREFIX, origin);
    CrlfTextValid(GET_LINE, HOST_PREFIX + origin, payload);
  }

  /** A framed request is answered with the `Host: ` line kept verbatim as
      the origin and the FNV-1a hash of exactly the payload bytes, when the
      payload is a single non-empty line. */
  lemma RespondToFramedRequest(origin: seq<Byte>, payload: seq<Byte>)
    requires Utf8.Valid(origin) && NoLineFeed(origin)
    requires Utf8.Valid(payload) && NoLineFeed(payload) && payload != []
    ensures Utf8.Valid(HOST_PREFIX + origin)
    ensures Respond(FramedRequest(origin, payload))
         == Some(GenerateResponse(HOST_PREFIX + origin, Fnv.Fnv1a(payload) as int))
  {
    FramedRequestValid(origin, payload);
    ConstantsAreLines();
    NoLineFeedAppend(HOST_PREFIX, origin);
    CrlfExample(GET_LINE, HOST_PREFIX + origin, payload);
  }
}
