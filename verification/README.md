# memcached binary-protocol session, modelled in Dafny

This project models the per-connection logic of a small memcached server
that speaks a subset of the memcached binary protocol (`memcached.cpp`).
A client sends a 24-byte request header followed by a body. The header
carries magic 0x80, opcode GET (0x00) or SET (0x01), the key length
(bytes 2-3), the extras length (byte 4) and the total body length
(bytes 8-11, big-endian). The body holds the extras, then the key, then
for SET the value. The server keeps one process-wide map from key bytes to
stored bytes. Each stored value is the 4 flag bytes followed by the
client's value. Every response is a 24-byte header (magic 0x81, extras
length, status 0 "no error" or 1 "key not found", total body length)
followed by a body.

The socket is replaced by a byte stream and the session by a pure function
`Session.Run(input, store)`. It returns everything written, the final
store, and why the session ended:

- `EndOfStream`: fewer than 24 bytes were left for a header.
- `Rejected`: the header had the wrong magic or an unsupported opcode.
- `Oversized`: bytes 8-11 announced a body of 2^31 bytes or more (see below).
- `ShortBody`: fewer bytes were left than the header announced.
- `UndefinedBody`: the request reaches past its own body (see below).

Modules, leaves first:

- `Wrappers`: `Option`.
- `Bytes`: the byte type and the big-endian 16/32-bit fields, with their round trips.
- `Codec`: header acceptance, the field decoders, and the response encoder `send_response`.
- `ItemStore`: the item cache `g_itemCache`, with `Get` and `Put`.
- `Session`: `do_get`, `do_set`, the dispatch, one request (`Step`) and the session loop (`Run`).
- `Requests`: requests as a client frames them. It also holds a reference semantics
  (`Apply`, `ReplyBytes`, `Serve`) written over whole requests and the map.
  The main theorem, `LemmaRunOnRequests`, proves that the byte-level session
  computes exactly the reference on any stream of well-formed requests:
  one response per request, in order, and the same final store.
- `Scenarios`: concrete conversations: SET then GET, a miss, an overwrite on one connection,
  and dropped headers.

Where the code and the protocol description differ, the model follows the code:

- A key-not-found response announces a total body length of 0, yet the 9
  bytes "Not found" follow it. `send_response` takes the length before it
  substitutes the body (memcached.cpp:155 and 159-160).
- GET decides its status from the size of the looked-up buffer
  (memcached.cpp:126). So a key present with an empty stored value would also
  answer "Not found". Over the wire this cannot arise, because every SET
  stores at least the 4 flag bytes (`Session.Run` keeps `FlagsPrefixed`).
- SET takes its flags from the first 4 body bytes, whatever the extras length
  (memcached.cpp:139). The key still starts after the extras (memcached.cpp:134).
  With the 8-byte extras (flags, then expiration) that standard clients send,
  the expiration is dropped (`Scenarios.LemmaSetWithExpiration`).
- Some requests reach past their own body. This happens when the extras and
  key run past the end of the body, or when a SET body is shorter than 4
  bytes. The source then reads out of bounds, which is undefined behaviour
  (memcached.cpp:116-119, 134-140). The model does not answer a well-defined
  response there: the session stops with `UndefinedBody`.
- The body length is computed in signed `int` arithmetic (memcached.cpp:94).
  When byte 8 is 0x80 or more, the sum overflows to a negative value. That
  value becomes a `size_t` near 2^64, and `buffer_.resize` on line 95 refuses
  it with an exception. Nothing in the session catches the exception, so it
  leaves `io_service.run()` and reaches the handler in `main`
  (memcached.cpp:242-245), and the server ends without a response. The
  model stops the session with `Oversized` there, before any body is read.

## Model

| member | source | states |
|---|---|---|
| Bytes.ToBe32 | memcached.cpp:168-172 | the four shifted and byte-truncated length bytes are the low 32 bits of the length, big-endian: reading them back gives the length modulo 2^32 |
| Bytes.LemmaToBe32OfBe32 | memcached.cpp:94 | a 4-byte big-endian field read as a length and written back is the same 4 bytes |
| Bytes.Be16 | memcached.cpp:118 | the key length `(hi << 8) + lo` is below 2^16, and its high and low bytes are recovered from it by division and remainder by 256 |
| Bytes.Be32 | memcached.cpp:94 | the 4-byte big-endian length is below 2^32, its top byte is the length divided by 2^24, and the length is below 2^31 exactly when that byte is below 0x80 |
| Bytes.ToBe16 | memcached.cpp:118 | a 16-bit key length written as two bytes reads back, as `(hi << 8) + lo`, to the same length |
| Codec.Accepts | memcached.cpp:84 | an accepted header carries the request magic, so never the response magic, and exactly one of the opcodes GET and SET |
| Codec.KeyLength | memcached.cpp:118 | the key length read from bytes 2-3 is below 2^16, and its big-endian encoding is exactly those two bytes |
| Codec.ExtraLength | memcached.cpp:115-116 | the extras length is below 256 and is exactly the value of header byte 4 |
| Codec.BodySize | memcached.cpp:94 | the body size is below 2^32 and bytes 8-11 are exactly its big-endian encoding |
| Codec.BodySizeAsWritten | memcached.cpp:94 | the body size as the source computes it, through a wrapping 32-bit signed int converted to a 64-bit size_t, is always below 2^64 |
| Codec.LemmaBodySizeAsWritten | memcached.cpp:94 | the source's signed-int computation agrees with the unsigned reading when byte 8 is below 0x80, and exceeds it by 2^64 - 2^32 from 0x80 up |
| Codec.LemmaBodySizeOverflowWitness | memcached.cpp:94-95 | an accepted header announcing 2^31 body bytes is read by the source as 2^64 - 2^31 bytes |
| Codec.EncodeResponse | memcached.cpp:153-172 | response layout: magic 0x81 at byte 0, extras length 4 only for a successful non-empty body, status at byte 7, big-endian buffer length at bytes 8-11, zeros elsewhere, and the body actually sent ("Not found" for status 1) after the 24 header bytes |
| Codec.LemmaEncodeResponseLayout | memcached.cpp:155-172 | the encoded response equals the field-by-field response header followed by the body actually sent |
| Codec.LemmaLengthFieldVersusBody | memcached.cpp:155-160 | the length field counts the bytes after the header for every status but 1; for status 1 it holds the old buffer length while 9 bytes follow |
| ItemStore.Get | memcached.cpp:119-123 | a lookup finds a value iff the key is in the map, and then returns that key's bytes |
| ItemStore.Put | memcached.cpp:141 | a put adds the key, maps it to the new value and leaves every other key's value unchanged |
| ItemStore.LemmaGetAfterPut | memcached.cpp:119-141 | a get after a put of the same key returns exactly the put value |
| ItemStore.LemmaGetOtherAfterPut | memcached.cpp:119-141 | a put does not change what a get of any other key returns |
| ItemStore.LemmaPutOverwrites | memcached.cpp:141 | a second put of a key fully replaces the first |
| ItemStore.LemmaPutsCommute | memcached.cpp:141 | puts of distinct keys commute, so each stays retrievable |
| ItemStore.LemmaPutKeepsFlagsPrefixed | memcached.cpp:139-141 | storing a value of at least 4 bytes keeps every stored value flag-prefixed |
| Session.KeyOf | memcached.cpp:115-119 | the key has the header's key length and sits between the extras and the rest of the body |
| Session.DoGet | memcached.cpp:109-127 | GET is undefined iff extras plus key pass the body end; otherwise the store is unchanged, status 0 iff the key holds a non-empty value, a hit answers extras 4 and the stored bytes, a miss answers status 1, length 0 and "Not found" |
| Session.DoSet | memcached.cpp:129-146 | SET is undefined iff extras plus key pass the body end or the body is under 4 bytes; otherwise the key maps to the first 4 body bytes plus everything after the key, other keys keep their values, and the response is the empty status-0 header |
| Session.Dispatch | memcached.cpp:99-105 | opcode 0x00 is handled as GET and opcode 0x01 as SET, whatever the extras length; dispatch never removes keys, keeps stored values flag-prefixed, and answers at least a full header |
| Session.Step | memcached.cpp:75-106 | one request stops at end of stream iff under 24 bytes remain; rejects iff magic or opcode is wrong; stops as oversized iff an accepted header announces 2^31 bytes or more; stops on a short body iff fewer bytes remain than bytes 8-11 announce; stops as undefined iff the body is all there but its dispatch is undefined; otherwise consumes exactly header plus body and answers the dispatch of that body |
| Session.LemmaOversizedWhereSourceOverflows | memcached.cpp:94-95 | an accepted header stops the session as oversized exactly when the source's signed length computation departs from the announced length, and then the size the source asks for is at least 2^64 - 2^31 |
| Session.Run | memcached.cpp:175-183 | the session loop never removes keys, keeps stored values flag-prefixed, and writes nothing iff its first request fails; a failing first request leaves the store as it was and ends the session with that request's stop reason |
| Session.LemmaRejectsExactly | memcached.cpp:84 | a header is refused exactly when its magic is not 0x80 or its opcode is neither 0x00 nor 0x01 |
| Session.LemmaRejectedHeaderWritesNothing | memcached.cpp:84-88 | a rejected header ends the session with no bytes written and the store untouched |
| Session.LemmaOversizedWritesNothing | memcached.cpp:94-95 | an accepted header announcing 2^31 body bytes or more ends the session with no bytes written and the store untouched |
| Session.LemmaShortBodyWritesNothing | memcached.cpp:96-100 | a body shorter than announced ends the session with no bytes written and the store untouched |
| Session.LemmaRunResumes | memcached.cpp:178-182 | after a written response the next header is read from the bytes right behind the request |
| Session.LemmaStepIgnoresUnreadBytes | memcached.cpp:84-136 | header bytes 5-7 and 12-23 never change how a request is answered |
| Requests.RequestHeader | memcached.cpp:84-118 | a client header built from an opcode and three lengths decodes back, through the server's field readers, to the same opcode and lengths |
| Requests.EncodeRequest | memcached.cpp:84-118 | a well-formed request's bytes are accepted, and the server's decoders recover its opcode, key length, extras length and body length, with the body right behind the header |
| Requests.Serve | memcached.cpp:175-183 | the reference answers one response per request, the first being the reply to the first request |
| Requests.LemmaDispatchOnGet | memcached.cpp:109-127 | a well-formed GET answers the stored flags and value on a hit and "Not found" on a miss, as the reference does |
| Requests.LemmaDispatchOnSet | memcached.cpp:129-146 | a well-formed SET stores its 4 flag bytes and value under its key and answers an empty success, as the reference does |
| Requests.LemmaDispatchOnRequest | memcached.cpp:99-105 | dispatching any well-formed request gives the reference reply and store |
| Requests.LemmaStepOnRequest | memcached.cpp:80-146 | the session answers one well-formed request as the reference does and resumes exactly at the next byte |
| Requests.LemmaRunOnRequest | memcached.cpp:175-183 | after a well-formed request the session writes the reference reply and runs on from the following bytes |
| Requests.LemmaRunOnRequests | memcached.cpp:75-183 | on well-formed requests followed by anything, the session writes the reference responses in order, reaches the reference store, and continues on the remaining bytes |
| Requests.LemmaRunOnRequestStream | memcached.cpp:75-183 | a stream of only well-formed requests yields exactly the reference responses and store, then ends at end of stream |
| Scenarios.LemmaSetThenGet | memcached.cpp:109-146 | SET "key"="value" with zero flags then GET "key" answers an empty success and then status 0 with the 4 zero flags and "value" |
| Scenarios.LemmaSetWithExpiration | memcached.cpp:133-141 | with 8 bytes of extras the key is found after all 8 and only the first 4 are stored as flags |
| Scenarios.LemmaGetMissing | memcached.cpp:120-126 | GET "missing" on an empty cache answers status 1 and "Not found", with a length field of 0 and 9 bytes following |
| Scenarios.LemmaOverwriteOnOneConnection | memcached.cpp:129-141 | with two SET/GET pairs on one key over one connection, the second GET returns only the second value |
| Scenarios.LemmaUnknownOpcodeDropped | memcached.cpp:84-88 | a header with opcode 0x02 is dropped with no bytes written |
| Scenarios.LemmaWrongMagicDropped | memcached.cpp:84-88 | a header with the response magic is dropped with no bytes written |
| Scenarios.LemmaZeroMagicDropped | memcached.cpp:84-88 | a header with magic 0x00 is dropped with no bytes written |
| Scenarios.LemmaSetWithoutExtras | memcached.cpp:134-141 | a SET "key"="value" with no extras answers an empty success and stores "keyv" followed by "value": its flags are the first 4 body bytes, which overlap the key |
| Scenarios.LemmaOversizedGetStops | memcached.cpp:94-95 | a GET whose bytes 8-11 are 80 00 00 00 ends the session with no bytes written, whatever follows |
| Scenarios.LemmaKeyPastBodyStops | memcached.cpp:115-119 | a GET whose key reaches past an empty body stops the session as undefined, with no bytes written |

## Left out

- Transport: boost::asio reads, writes, sockets and the callback chain (memcached.cpp:80-81, 96-97, 175-176) become a byte-stream input and a byte-sequence output.
- Write failures: a response write is assumed to succeed. In the source a failed write only ends the session after that response.
- Concurrency: `std::mutex` and `lock_guard` around the map (memcached.cpp:55, 114, 132). Each get or put is one atomic step of a sequential model. Sessions racing on one key are not modelled; `ItemStore.LemmaPutsCommute` states the sequential content of puts to distinct keys.
- `shared_from_this` lifetime management (memcached.cpp:59, 79, 93, 174): it has no behavioural content.
- `server::do_accept` (memcached.cpp:197-224) and `main` (memcached.cpp:226-248): the accept loop, argument parsing and process start-up.
- The unused `flags_` member (memcached.cpp:191).
- The end of the whole server on an oversized header: the model ends only the session that sent it. Other sessions and the listening socket are not modelled.
- An opcode other than GET or SET reaching the dispatch (memcached.cpp:101-104) cannot happen after acceptance, so `Session.Dispatch` requires an accepted header.
- A zero-length body is read as an empty body. The source takes `&buffer_[0]` of an empty vector there (memcached.cpp:96), which is formally undefined.
- Codec.BodySize: decodes bytes 8-11 as an unbounded unsigned value. It does not follow the source's signed overflow, which `Codec.BodySizeAsWritten` models separately (see Findings).
- Requests.LemmaRunOnRequests: covers well-formed requests only, meaning lengths fit their fields, the body is under 2^31 bytes and a SET carries at least 4 extras bytes. Other requests are covered at byte level by `Session.DoGet`, `Session.DoSet` and `Session.Step`.

## Findings

| source | as written | input that shows it | evidently intended | confidence | as-written member | corrected member |
|---|---|---|---|---|---|---|
| memcached.cpp:94 | `header_[8] << 24` is evaluated in signed 32-bit `int`, which overflows (undefined behaviour) once byte 8 is 0x80 or more. On two's-complement targets the negative sum then converts to a 64-bit `size_t` near 2^64, which the buffer resize on line 95 refuses with an exception that ends the server (memcached.cpp:242-245). The session models that as the `Oversized` stop (`Session.LemmaOversizedWhereSourceOverflows`) | a header with bytes 8-11 = 80 00 00 00 announces 2^31 body bytes but is read as 2^64 - 2^31 | the unsigned 32-bit body length `h[8]*2^24 + h[9]*2^16 + h[10]*2^8 + h[11]` | medium, not executed | Codec.BodySizeAsWritten, exhibited by Codec.LemmaBodySizeOverflowWitness | Codec.BodySize |
