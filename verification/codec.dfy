/**
  The binary-protocol codec of the server: which request headers it accepts,
  the fields it reads from them, and the response it writes back
  (`session::do_read_header`, `do_read_body` and `send_response` in memcached.cpp).
 */
module Codec {
  import opened Bytes

  const HeaderLength: nat := 24

  const RequestMagic: Byte := 0x80
  const ResponseMagic: Byte := 0x81

  const OpGet: Byte := 0x00
  const OpSet: Byte := 0x01

  const StatusNoError: Byte := 0x00
  const StatusKeyNotFound: Byte := 0x01

  /** The extras length announced on a response that carries a stored value: its 4 flag bytes. */
  const FlagsLength: nat := 4

  /** The literal body "Not found" of a key-not-found response. */
  const NotFoundBody: seq<Byte> := [0x4E, 0x6F, 0x74, 0x20, 0x66, 0x6F, 0x75, 0x6E, 0x64]

  /**
    A request header is served only with the request magic and a GET or SET
    opcode; in particular a header carrying the response magic is never served.
   */
  predicate Accepts(h: seq<Byte>): (a: bool)
    requires |h| == HeaderLength
    ensures a ==> h[0] == RequestMagic && h[0] != ResponseMagic
    ensures a ==> (h[1] == OpGet) != (h[1] == OpSet)
  {
    h[0] == RequestMagic && (h[1] == OpGet || h[1] == OpSet)
  }

  /** Bytes 2-3: the key length, below 2^16, whose big-endian encoding is those two bytes. */
  function KeyLength(h: seq<Byte>): (n: nat)
    requires |h| == HeaderLength
    ensures n < Two16
    ensures ToBe16(n) == h[2..4]
  {
    Be16(h[2], h[3])
  }

  /** Byte 4: the extras length, which cannot reach 256. */
  function ExtraLength(h: seq<Byte>): (n: nat)
    requires |h| == HeaderLength
    ensures n < 0x100
    ensures h[4..5] == [n]
  {
    h[4]
  }

  /**
    Bytes 8-11: the total body length, read as an unsigned 32-bit value.
    The source computes it in signed `int` arithmetic; see `BodySizeAsWritten`.
   */
  function BodySize(h: seq<Byte>): (n: nat)
    requires |h| == HeaderLength
    ensures n < Two32
    ensures ToBe32(n) == h[8..12]
  {
    LemmaToBe32OfBe32(h[8..12]);
    Be32(h[8..12])
  }

  /**
    The body size as the source computes it: `header_[8] << 24` is evaluated
    in a 32-bit signed `int` (wrapping, as two's-complement targets do), the
    smaller terms are added, and the sum is converted to a 64-bit `size_t`.
   */
  function BodySizeAsWritten(h: seq<Byte>): (n: nat)
    requires |h| == HeaderLength
    ensures n < Two64
  {
    var top := Int32Wrap((h[8] as int) * Two24);
    var sum := top + (h[9] as int) * Two16 + (h[10] as int) * 0x100 + h[11];
    sum % Two64
  }

  /** The 32-bit two's-complement reading of an integer. */
  function Int32Wrap(x: int): (w: int)
    ensures -(Two31 as int) <= w < Two31
    ensures (w - x) % Two32 == 0
  {
    var m := x % Two32;
    if m >= Two31 then m - Two32 else m
  }

  /**
    With a top length byte below 0x80 the source's arithmetic agrees with the
    unsigned reading; from 0x80 up it lands 2^64 - 2^32 above it.
   */
  lemma LemmaBodySizeAsWritten(h: seq<Byte>)
    requires |h| == HeaderLength
    ensures h[8] < 0x80 ==> BodySizeAsWritten(h) == BodySize(h)
    ensures h[8] >= 0x80 ==> BodySizeAsWritten(h) == BodySize(h) + Two64 - Two32
  {
    var p := (h[8] as int) * Two24;
    assert p < Two32;
    assert Int32Wrap(p) == if p >= Two31 then p - Two32 else p;
    assert h[8] >= 0x80 <==> p >= Two31;
  }

  /** A header announcing 2^31 body bytes: the smallest length the source misreads. */
  lemma LemmaBodySizeOverflowWitness()
    ensures var h := [RequestMagic, OpGet, 0, 0, 0, 0, 0, 0, 0x80, 0, 0, 0] + Zeros(12);
      && |h| == HeaderLength
      && Accepts(h)
      && BodySize(h) == Two31
      && BodySizeAsWritten(h) == Two64 - Two31
  {
    var h := [RequestMagic, OpGet, 0, 0, 0, 0, 0, 0, 0x80, 0, 0, 0] + Zeros(12);
    assert h[8..12] == [0x80, 0, 0, 0];
    LemmaBodySizeAsWritten(h);
  }

  /** The response header laid out field by field. */
  function ResponseHeader(status: Byte, extras: Byte, bodyLength: nat): (r: seq<Byte>)
    ensures |r| == HeaderLength
  {
    [ResponseMagic, 0, 0, 0, extras, 0, 0, status] + ToBe32(bodyLength) + Zeros(12)
  }

  /**
    `send_response`: the total body length is captured from the buffer before a
    key-not-found status replaces it with "Not found"; extras are announced
    only for a successful non-empty body; then a zeroed 24-byte header is
    prepended and its magic, extras, status and length bytes are set.
   */
  function EncodeResponse(status: Byte, buffer: seq<Byte>): (r: seq<Byte>)
    ensures |r| >= HeaderLength
    ensures r[0] == ResponseMagic
    ensures r[1] == 0 && r[2] == 0 && r[3] == 0 && r[5] == 0 && r[6] == 0
    ensures r[4] == (if status == StatusNoError && |buffer| > 0 then FlagsLength else 0)
    ensures r[7] == status
    ensures Be32(r[8..12]) == |buffer| % Two32
    ensures forall i :: 12 <= i < HeaderLength ==> r[i] == 0
    ensures r[HeaderLength..] == if status == StatusKeyNotFound then NotFoundBody else buffer
  {
    var bodyLength := |buffer|;
    var extraLength: Byte := if status == StatusNoError && |buffer| > 0 then 4 else 0;
    var body := if status == StatusKeyNotFound then NotFoundBody else buffer;
    var len := ToBe32(bodyLength);
    var b := Zeros(HeaderLength) + body;
    var r := b[0 := ResponseMagic][4 := extraLength][6 := 0][7 := status]
               [8 := len[0]][9 := len[1]][10 := len[2]][11 := len[3]];
    assert r[8..12] == len;
    assert r[HeaderLength..] == body;
    r
  }

  /** The encoded response is the field-by-field header followed by the bytes actually sent. */
  lemma LemmaEncodeResponseLayout(status: Byte, buffer: seq<Byte>)
    ensures var extras: Byte := if status == StatusNoError && |buffer| > 0 then 4 else 0;
            var body := if status == StatusKeyNotFound then NotFoundBody else buffer;
            EncodeResponse(status, buffer) == ResponseHeader(status, extras, |buffer|) + body
  {
    var extras: Byte := if status == StatusNoError && |buffer| > 0 then 4 else 0;
    var body := if status == StatusKeyNotFound then NotFoundBody else buffer;
    var r := EncodeResponse(status, buffer);
    var e := ResponseHeader(status, extras, |buffer|) + body;
    LemmaBe32Injective(r[8..12], ToBe32(|buffer|));
    assert r[8..12] == e[8..12];
    assert forall i :: 8 <= i < 12 ==> r[i] == r[8..12][i - 8];
    assert forall i :: 8 <= i < 12 ==> e[i] == e[8..12][i - 8];
    assert r[..HeaderLength] == e[..HeaderLength];
    assert r == r[..HeaderLength] + r[HeaderLength..];
  }

  /**
    For a successful response the length field counts exactly the bytes after
    the header. A key-not-found response announces its buffer's length (0 on
    every path of the source) although the 9 bytes of "Not found" follow.
   */
  lemma LemmaLengthFieldVersusBody(status: Byte, buffer: seq<Byte>)
    requires |buffer| < Two32
    ensures var r := EncodeResponse(status, buffer);
      && (status != StatusKeyNotFound ==> Be32(r[8..12]) == |r| - HeaderLength)
      && (status == StatusKeyNotFound ==> Be32(r[8..12]) == |buffer| && |r| - HeaderLength == |NotFoundBody|)
  {
  }
}
