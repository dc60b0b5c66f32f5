/** format_http_respone: the status line, the Content-Type and Content-Length
    headers and the body; and a decoder for exactly that layout. */
module Response {
  import opened Bytes
  import opened Decimal

  const SEMICOLON: byte := 59

  /** The fixed pieces of the response text, byte by byte. */
  const STATUS_PREFIX: seq<byte> := [72, 84, 84, 80, 47, 49, 46, 49, 32]  // "HTTP/1.1 "
  const TYPE_FIELD: seq<byte> := [13, 10, 67, 111, 110, 116, 101, 110, 116, 45, 84, 121, 112, 101, 58]  // "\r\nContent-Type:"
  const LENGTH_FIELD: seq<byte> := [59, 99, 104, 97, 114, 115, 101, 116, 61, 117, 116, 102, 45, 56, 13, 10, 67, 111, 110, 116, 101, 110, 116, 45, 76, 101, 110, 103, 116, 104, 58]  // ";charset=utf-8\r\nContent-Length:"
  const HEADER_END: seq<byte> := [13, 10, 13, 10]  // "\r\n\r\n"

  /** What the caller may pass: C strings for the status and type, and a body
      that is a C string when its length is negative, absent only when that
      length is not positive, and otherwise at least that long. */
  predicate ArgsOk(status: seq<byte>, contentType: seq<byte>, content: Option<seq<byte>>, contentLength: int)
  {
    && NUL !in status && NUL !in contentType
    && contentLength <= INT_MAX
    && (content.None? ==> contentLength <= 0)
    && (content.Some? && contentLength < 0 ==> NUL in content.value && StrLen(content.value) <= INT_MAX)
    && (content.Some? && 0 <= contentLength ==> contentLength <= |content.value|)
  }

  /** The body length actually used: `contentLength`, or strlen(content) (0 for
      a null content) when it is negative. */
  function BodyLength(content: Option<seq<byte>>, contentLength: int): (n: nat)
    requires content.Some? && contentLength < 0 ==> NUL in content.value
    ensures 0 <= contentLength ==> n == contentLength
    ensures contentLength < 0 && content.None? ==> n == 0
    ensures contentLength < 0 && content.Some? ==>
              n < |content.value| && content.value[n] == NUL && NUL !in content.value[..n]
  {
    if contentLength >= 0 then contentLength
    else if content.Some? then StrLen(content.value)
    else 0
  }

  /** The status line and the two headers, up to and including the blank line. */
  function Header(status: seq<byte>, contentType: seq<byte>, n: nat): (h: seq<byte>)
    ensures |h| == 59 + |status| + |contentType| + |Digits(n)|
  {
    STATUS_PREFIX + status + TYPE_FIELD + contentType + LENGTH_FIELD + Digits(n) + HEADER_END
  }

  /** The bytes of a response with the given parts. */
  function Wire(status: seq<byte>, contentType: seq<byte>, n: nat, body: seq<byte>): seq<byte>
  {
    Header(status, contentType, n) + body
  }

  /** format_http_respone: the header followed by the first `n` bytes of the
      content, with `n` the body length. Header, NUL terminator and body fit
      in the `strlen(status) + strlen(content_type) + n + 128` bytes the
      source allocates. */
  function FormatResponse(status: seq<byte>, contentType: seq<byte>, content: Option<seq<byte>>, contentLength: int): (r: seq<byte>)
    requires ArgsOk(status, contentType, content, contentLength)
    ensures var n := BodyLength(content, contentLength);
            |r| + 1 <= |status| + |contentType| + n + 128
  {
    var n := BodyLength(content, contentLength);
    DigitsOfInt(n);
    Wire(status, contentType, n, if content.Some? then content.value[..n] else [])
  }

  /** `*respone_size`: the 59 bytes of fixed header text, the status, the
      type, the digits of the body length, and the body; the response ends
      with the first `n` bytes of the content. */
  lemma ResponseSize(status: seq<byte>, contentType: seq<byte>, content: Option<seq<byte>>, contentLength: int)
    requires ArgsOk(status, contentType, content, contentLength)
    ensures var n := BodyLength(content, contentLength);
            var r := FormatResponse(status, contentType, content, contentLength);
            && |r| == 59 + |status| + |contentType| + |Digits(n)| + n
            && r[|r| - n..] == (if content.Some? then content.value[..n] else [])
  {
    var n := BodyLength(content, contentLength);
    var h := Header(status, contentType, n);
    var body := if content.Some? then content.value[..n] else [];
    assert (h + body)[|h|..] == body;
  }

  /** A response as a client reads it back. */
  datatype Message = Message(status: seq<byte>, contentType: seq<byte>, contentLength: nat, body: seq<byte>)

  function StripPrefix(s: seq<byte>, p: seq<byte>): Option<seq<byte>>
  {
    if p <= s then Some(s[|p|..]) else None
  }

  /** The length of the run of digits `s` starts with. */
  function DigitRun(s: seq<byte>): (k: nat)
    ensures k <= |s| && forall i :: 0 <= i < k ==> IsDigit(s[i])
    ensures k < |s| ==> !IsDigit(s[k])
  {
    if s != [] && IsDigit(s[0]) then 1 + DigitRun(s[1..]) else 0
  }

  /** Decodes the layout format_http_respone produces: the status up to the first
      CR, the content type up to the first ';', a decimal length, and a body of
      exactly that length. */
  function ParseResponse(r: seq<byte>): Option<Message>
  {
    match StripPrefix(r, STATUS_PREFIX)
    case None => None
    case Some(r1) =>
      match IndexOf(r1, CR)
      case None => None
      case Some(i) => ParseType(r1[..i], r1[i..])
  }

  /** The content-type header, once the status is known. */
  function ParseType(status: seq<byte>, s: seq<byte>): Option<Message>
  {
    match StripPrefix(s, TYPE_FIELD)
    case None => None
    case Some(r2) =>
      match IndexOf(r2, SEMICOLON)
      case None => None
      case Some(j) =>
        match StripPrefix(r2[j..], LENGTH_FIELD)
        case None => None
        case Some(r3) => ParseLength(status, r2[..j], r3)
  }

  /** The length digits, the blank line and the body. */
  function ParseLength(status: seq<byte>, contentType: seq<byte>, s: seq<byte>): Option<Message>
  {
    var k := DigitRun(s);
    if k == 0 then None
    else
      match StripPrefix(s[k..], HEADER_END)
      case None => None
      case Some(body) =>
        var n := Value(s[..k]);
        if |body| == n then Some(Message(status, contentType, n, body)) else None
  }

  lemma StripPrefixOf(p: seq<byte>, rest: seq<byte>)
    ensures StripPrefix(p + rest, p) == Some(rest)
  {
    assert p <= p + rest;
  }

  /** The first `b` of `a + c` is the head of `c` when `a` lacks it. */
  lemma IndexAtJoin(a: seq<byte>, c: seq<byte>, b: byte)
    requires b !in a && 0 < |c| && c[0] == b
    ensures IndexOf(a + c, b) == Some(|a|) && (a + c)[..|a|] == a && (a + c)[|a|..] == c
  {
    IndexOfAppend(a, c, b);
  }

  lemma {:induction false} DigitRunOf(d: seq<byte>, rest: seq<byte>)
    requires forall i :: 0 <= i < |d| ==> IsDigit(d[i])
    requires 0 < |rest| && !IsDigit(rest[0])
    ensures DigitRun(d + rest) == |d|
  {
    if d == [] {
      assert d + rest == rest;
    } else {
      assert (d + rest)[1..] == d[1..] + rest;
      DigitRunOf(d[1..], rest);
    }
  }

  lemma ParseLengthOf(status: seq<byte>, contentType: seq<byte>, n: nat, body: seq<byte>)
    requires |body| == n
    ensures ParseLength(status, contentType, Digits(n) + (HEADER_END + body)) == Some(Message(status, contentType, n, body))
  {
    var d := Digits(n);
    var s := d + (HEADER_END + body);
    DigitRunOf(d, HEADER_END + body);
    assert s[..|d|] == d && s[|d|..] == HEADER_END + body;
    StripPrefixOf(HEADER_END, body);
    ValueOfDigits(n);
  }

  lemma ParseTypeOf(status: seq<byte>, contentType: seq<byte>, r3: seq<byte>)
    requires SEMICOLON !in contentType
    ensures ParseType(status, TYPE_FIELD + (contentType + (LENGTH_FIELD + r3))) == ParseLength(status, contentType, r3)
  {
    var r2 := contentType + (LENGTH_FIELD + r3);
    StripPrefixOf(TYPE_FIELD, r2);
    IndexAtJoin(contentType, LENGTH_FIELD + r3, SEMICOLON);
    StripPrefixOf(LENGTH_FIELD, r3);
  }

  lemma ParseStatusOf(status: seq<byte>, r2: seq<byte>)
    requires CR !in status
    ensures ParseResponse(STATUS_PREFIX + (status + (TYPE_FIELD + r2))) == ParseType(status, TYPE_FIELD + r2)
  {
    var r1 := status + (TYPE_FIELD + r2);
    StripPrefixOf(STATUS_PREFIX, r1);
    IndexAtJoin(status, TYPE_FIELD + r2, CR);
  }

  /** The response bytes, grouped from the right. */
  lemma WireShape(status: seq<byte>, contentType: seq<byte>, n: nat, body: seq<byte>)
    ensures Wire(status, contentType, n, body)
              == STATUS_PREFIX + (status + (TYPE_FIELD + (contentType + (LENGTH_FIELD + (Digits(n) + (HEADER_END + body))))))
  {
    var d := Digits(n);
    var a := d + (HEADER_END + body);
    assert d + HEADER_END + body == a;
    var b := contentType + (LENGTH_FIELD + a);
    assert contentType + LENGTH_FIELD + d + HEADER_END + body == b;
    assert STATUS_PREFIX + status + TYPE_FIELD + contentType + LENGTH_FIELD + d + HEADER_END + body
             == STATUS_PREFIX + (status + (TYPE_FIELD + b));
  }

  /** Decoding a response recovers every part of it, provided the status holds
      no CR and the content type no ';'. */
  lemma {:induction false} ParseWire(status: seq<byte>, contentType: seq<byte>, n: nat, body: seq<byte>)
    requires CR !in status && SEMICOLON !in contentType && |body| == n
    ensures ParseResponse(Wire(status, contentType, n, body)) == Some(Message(status, contentType, n, body))
  {
    var r3 := Digits(n) + (HEADER_END + body);
    var r2 := contentType + (LENGTH_FIELD + r3);
    WireShape(status, contentType, n, body);
    ParseStatusOf(status, r2);
    ParseTypeOf(status, contentType, r3);
    ParseLengthOf(status, contentType, n, body);
  }

  /** What a client decodes from a formatted response: the status, the type,
      the body length used and exactly that many bytes of the content. */
  lemma FormatThenParse(status: seq<byte>, contentType: seq<byte>, content: Option<seq<byte>>, contentLength: int)
    requires ArgsOk(status, contentType, content, contentLength)
    requires CR !in status && SEMICOLON !in contentType
    ensures var n := BodyLength(content, contentLength);
            ParseResponse(FormatResponse(status, contentType, content, contentLength))
              == Some(Message(status, contentType, n, if content.Some? then content.value[..n] else []))
  {
    var n := BodyLength(content, contentLength);
    ParseWire(status, contentType, n, if content.Some? then content.value[..n] else []);
  }
}
