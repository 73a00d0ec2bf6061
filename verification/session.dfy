/**
  One connection's request/response loop (`class session` in memcached.cpp)
  over a byte stream instead of a socket: read a 24-byte header, check it,
  read the announced body, run GET or SET against the item store, send the
  response, and start over on the rest of the stream. The first failed read
  or rejected header ends the session.
 */
module Session {
  import opened Bytes
  import opened Wrappers
  import opened Codec
  import opened ItemStore

  /** Why a session ends. */
  datatype Stop =
    | EndOfStream     // fewer than 24 bytes remain: the header read fails
    | Rejected        // the header has the wrong magic or an unsupported opcode
    | Oversized       // bytes 8-11 announce 2^31 bytes or more: the body buffer cannot be allocated
    | ShortBody       // fewer bytes remain than the header announces: the body read fails
    | UndefinedBody   // the key, or the 4 SET flag bytes, reach past the body: undefined in the source

  /** What a dispatched request does: a response and the store after it, or undefined behaviour. */
  datatype Outcome = Reply(response: seq<Byte>, store: Store) | Undefined

  /** The key: `keyLength` bytes starting after the `extraLength` bytes of extras. */
  function KeyOf(h: seq<Byte>, body: seq<Byte>): (k: Key)
    requires |h| == HeaderLength
    requires ExtraLength(h) + KeyLength(h) <= |body|
    ensures |k| == KeyLength(h)
    ensures body == body[..ExtraLength(h)] + k + body[ExtraLength(h) + KeyLength(h)..]
  {
    body[ExtraLength(h)..ExtraLength(h) + KeyLength(h)]
  }

  /**
    `do_get`: look the key up; a hit answers the stored flags and value, a miss
    (or a stored value with no bytes at all) answers "Not found".
   */
  function DoGet(h: seq<Byte>, body: seq<Byte>, store: Store): (o: Outcome)
    requires |h| == HeaderLength
    ensures o.Undefined? <==> ExtraLength(h) + KeyLength(h) > |body|
    ensures o.Reply? ==> o.store == store
    ensures o.Reply? ==>
      var k := body[ExtraLength(h)..ExtraLength(h) + KeyLength(h)];
      && |o.response| >= HeaderLength
      && (o.response[7] == StatusNoError <==> k in store && |store[k]| > 0)
      && (o.response[7] == StatusNoError ==>
            o.response == ResponseHeader(StatusNoError, FlagsLength, |store[k]|) + store[k])
      && (o.response[7] != StatusNoError ==>
            o.response == ResponseHeader(StatusKeyNotFound, 0, 0) + NotFoundBody)
  {
    if ExtraLength(h) + KeyLength(h) > |body| then Undefined
    else
      var buffer := match Get(store, KeyOf(h, body)) case Some(v) => v case None => [];
      var status := if |buffer| > 0 then StatusNoError else StatusKeyNotFound;
      LemmaEncodeResponseLayout(status, buffer);
      Reply(EncodeResponse(status, buffer), store)
  }

  /**
    `do_set`: store the first 4 body bytes followed by everything after the
    key under the key, replacing any previous value, and answer an empty
    success. The flags are read from the start of the body whatever the
    extras length, while the key starts after the extras.
   */
  function DoSet(h: seq<Byte>, body: seq<Byte>, store: Store): (o: Outcome)
    requires |h| == HeaderLength
    ensures o.Undefined? <==> ExtraLength(h) + KeyLength(h) > |body| || |body| < 4
    ensures o.Reply? ==>
      var k := body[ExtraLength(h)..ExtraLength(h) + KeyLength(h)];
      && o.store.Keys == store.Keys + {k}
      && o.store[k] == body[..4] + body[ExtraLength(h) + KeyLength(h)..]
      && (forall k' :: k' in store && k' != k ==> o.store[k'] == store[k'])
      && o.response == ResponseHeader(StatusNoError, 0, 0)
  {
    if ExtraLength(h) + KeyLength(h) > |body| || |body| < 4 then Undefined
    else
      var stored := body[..4] + body[ExtraLength(h) + KeyLength(h)..];
      LemmaEncodeResponseLayout(StatusNoError, []);
      Reply(EncodeResponse(StatusNoError, []), Put(store, KeyOf(h, body), stored))
  }

  /** `do_read_body`'s dispatch on the opcode of an accepted header. */
  function Dispatch(h: seq<Byte>, body: seq<Byte>, store: Store): (o: Outcome)
    requires |h| == HeaderLength && Accepts(h)
    ensures o.Reply? && FlagsPrefixed(store) ==> FlagsPrefixed(o.store)
    ensures o.Reply? ==> store.Keys <= o.store.Keys
    ensures o.Reply? ==> |o.response| >= HeaderLength
    ensures h[1] == OpGet ==> o == DoGet(h, body, store)
    ensures h[1] == OpSet ==> o == DoSet(h, body, store)
  {
    if h[1] == OpGet then DoGet(h, body, store) else DoSet(h, body, store)
  }

  /** The result of one trip round the loop. */
  datatype StepResult =
    | Responded(response: seq<Byte>, store: Store, rest: seq<Byte>)
    | Stopped(reason: Stop)

  /**
    One request: `do_read_header`, `do_read_body`, the dispatch and
    `send_response`, on the front of the input stream. A body length of 2^31
    or more overflows the source's signed length arithmetic into a size near
    2^64, which the body buffer's `resize` refuses with an exception that
    ends the server; the session stops there without a response.
   */
  function Step(input: seq<Byte>, store: Store): (r: StepResult)
    ensures r == Stopped(EndOfStream) <==> |input| < HeaderLength
    ensures r == Stopped(Rejected) <==>
      |input| >= HeaderLength && !Accepts(input[..HeaderLength])
    ensures r == Stopped(Oversized) <==>
      |input| >= HeaderLength && Accepts(input[..HeaderLength])
      && BodySize(input[..HeaderLength]) >= Two31
    ensures r == Stopped(ShortBody) <==>
      && |input| >= HeaderLength && Accepts(input[..HeaderLength])
      && BodySize(input[..HeaderLength]) < Two31
      && |input| - HeaderLength < BodySize(input[..HeaderLength])
    ensures r == Stopped(UndefinedBody) <==>
      && |input| >= HeaderLength && Accepts(input[..HeaderLength])
      && BodySize(input[..HeaderLength]) < Two31
      && |input| - HeaderLength >= BodySize(input[..HeaderLength])
      && Dispatch(input[..HeaderLength],
                  input[HeaderLength..HeaderLength + BodySize(input[..HeaderLength])], store).Undefined?
    ensures r.Responded? ==>
      var h := input[..HeaderLength];
      var n := BodySize(h);
      && |input| >= HeaderLength + n
      && Accepts(h)
      && n < Two31
      && r.rest == input[HeaderLength + n..]
      && Dispatch(h, input[HeaderLength..HeaderLength + n], store) == Reply(r.response, r.store)
  {
    if |input| < HeaderLength then Stopped(EndOfStream)
    else
      var h := input[..HeaderLength];
      if !Accepts(h) then Stopped(Rejected)
      else
        var n := BodySize(h);
        if n >= Two31 then Stopped(Oversized)
        else if |input| - HeaderLength < n then Stopped(ShortBody)
        else
          match Dispatch(h, input[HeaderLength..HeaderLength + n], store)
          case Undefined => Stopped(UndefinedBody)
          case Reply(response, store') => Responded(response, store', input[HeaderLength + n..])
  }

  /**
    A session stops as `Oversized` exactly on the accepted headers whose body
    length the source's signed arithmetic misreads: there its size is the
    announced length plus 2^64 - 2^32.
   */
  lemma LemmaOversizedWhereSourceOverflows(input: seq<Byte>, store: Store)
    requires |input| >= HeaderLength && Accepts(input[..HeaderLength])
    ensures var h := input[..HeaderLength];
      Step(input, store) == Stopped(Oversized) <==> BodySizeAsWritten(h) != BodySize(h)
    ensures var h := input[..HeaderLength];
      Step(input, store) == Stopped(Oversized) ==> BodySizeAsWritten(h) >= Two64 - Two31
  {
    var h := input[..HeaderLength];
    assert h[8..12][0] == h[8];
    LemmaBodySizeAsWritten(h);
  }

  /** Everything a session wrote, the store it leaves behind, and why it ended. */
  datatype Trace = Trace(output: seq<Byte>, store: Store, reason: Stop)

  /**
    The session: responses are written in request order and the loop goes on
    with the rest of the stream until a read fails or a header is rejected.
    Keys are never removed, and values stay flag-prefixed.
   */
  function Run(input: seq<Byte>, store: Store): (t: Trace)
    ensures store.Keys <= t.store.Keys
    ensures FlagsPrefixed(store) ==> FlagsPrefixed(t.store)
    ensures t.output == [] <==> Step(input, store).Stopped?
    ensures Step(input, store).Stopped? ==> t == Trace([], store, Step(input, store).reason)
    ensures t.reason != EndOfStream ==> |input| >= HeaderLength
    decreases |input|
  {
    match Step(input, store)
    case Stopped(reason) => Trace([], store, reason)
    case Responded(response, store', rest) =>
      var t := Run(rest, store');
      Trace(response + t.output, t.store, t.reason)
  }

  /** A rejected header ends the session before any body is read or any byte is written. */
  lemma LemmaRejectedHeaderWritesNothing(input: seq<Byte>, store: Store)
    requires |input| >= HeaderLength && !Accepts(input[..HeaderLength])
    ensures Run(input, store) == Trace([], store, Rejected)
  {
  }

  /**
    A header is refused exactly when its magic is not 0x80 or its opcode is
    neither 0x00 (GET) nor 0x01 (SET), whatever follows it.
   */
  lemma LemmaRejectsExactly(input: seq<Byte>, store: Store)
    requires |input| >= HeaderLength
    ensures Step(input, store) == Stopped(Rejected) <==>
      input[0] != 0x80 || (input[1] != 0x00 && input[1] != 0x01)
  {
    assert input[..HeaderLength][0] == input[0] && input[..HeaderLength][1] == input[1];
  }

  /** A header announcing 2^31 body bytes or more ends the session before any byte is written. */
  lemma LemmaOversizedWritesNothing(input: seq<Byte>, store: Store)
    requires |input| >= HeaderLength && Accepts(input[..HeaderLength])
    requires BodySize(input[..HeaderLength]) >= Two31
    ensures Run(input, store) == Trace([], store, Oversized)
  {
  }

  /** A body shorter than announced ends the session without a response. */
  lemma LemmaShortBodyWritesNothing(input: seq<Byte>, store: Store)
    requires |input| >= HeaderLength && Accepts(input[..HeaderLength])
    requires BodySize(input[..HeaderLength]) < Two31
    requires |input| - HeaderLength < BodySize(input[..HeaderLength])
    ensures Run(input, store) == Trace([], store, ShortBody)
  {
  }

  /** After a written response the next header is read from the bytes right behind the request. */
  lemma LemmaRunResumes(input: seq<Byte>, store: Store)
    requires Step(input, store).Responded?
    ensures var r := Step(input, store);
      var t := Run(r.rest, r.store);
      Run(input, store) == Trace(r.response + t.output, t.store, t.reason)
  {
  }

  /** Header bytes the server never reads: data type, vbucket, opaque and CAS. */
  predicate Unread(i: int)
  {
    i == 5 || i == 6 || i == 7 || 12 <= i < HeaderLength
  }

  /** Two headers that agree on every byte the server reads. */
  predicate SameFields(h: seq<Byte>, h': seq<Byte>)
    requires |h| == HeaderLength && |h'| == HeaderLength
  {
    && h[0] == h'[0] && h[1] == h'[1]
    && KeyLength(h) == KeyLength(h') && ExtraLength(h) == ExtraLength(h')
    && BodySize(h) == BodySize(h')
  }

  /** GET and SET only look at the opcode, key length and extras length of the header. */
  lemma LemmaDispatchReadsFields(h: seq<Byte>, h': seq<Byte>, body: seq<Byte>, store: Store)
    requires |h| == HeaderLength && |h'| == HeaderLength && Accepts(h)
    requires SameFields(h, h')
    ensures Accepts(h') && Dispatch(h, body, store) == Dispatch(h', body, store)
  {
    if h[1] == OpGet {
      assert DoGet(h, body, store) == DoGet(h', body, store);
    } else {
      assert DoSet(h, body, store) == DoSet(h', body, store);
    }
  }

  /**
    Only the magic, opcode, key length, extras length and body length steer a
    request: streams that differ only in the other header bytes are answered
    alike.
   */
  lemma LemmaStepIgnoresUnreadBytes(input: seq<Byte>, input': seq<Byte>, store: Store)
    requires |input| == |input'|
    requires forall i :: 0 <= i < |input| && !Unread(i) ==> input[i] == input'[i]
    ensures Step(input, store) == Step(input', store)
  {
    if |input| >= HeaderLength {
      var h, h' := input[..HeaderLength], input'[..HeaderLength];
      assert SameFields(h, h') by {
        assert h[0] == h'[0] && h[1] == h'[1] && h[2] == h'[2] && h[3] == h'[3] && h[4] == h'[4];
        assert h[8..12] == h'[8..12];
      }
      if Accepts(h) && |input| - HeaderLength >= BodySize(h) {
        var n := BodySize(h);
        var body := input[HeaderLength..HeaderLength + n];
        assert body == input'[HeaderLength..HeaderLength + n];
        assert input[HeaderLength + n..] == input'[HeaderLength + n..];
        LemmaDispatchReadsFields(h, h', body, store);
      }
    }
  }
}
