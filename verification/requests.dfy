/**
  Requests as a client frames them, and what the server is meant to answer.
  `Serve` is a reference reading of the protocol written over whole requests
  and the item store, independent of the byte-level session; the theorem at
  the end shows the session computes exactly it on any stream of well-formed
  requests.
 */
module Requests {
  import opened Bytes
  import opened Codec
  import opened ItemStore
  import opened Session

  /** A client request. For SET the first 4 extras bytes are the flags. */
  datatype Request =
    | GetRequest(extras: seq<Byte>, key: Key)
    | SetRequest(extras: seq<Byte>, key: Key, value: seq<Byte>)

  /** The request body: extras, key, and for SET the value. */
  function Body(req: Request): seq<Byte>
  {
    match req
    case GetRequest(extras, key) => extras + key
    case SetRequest(extras, key, value) => extras + key + value
  }

  /**
    The lengths fit their header fields, the body stays below the 2^31 bytes
    the server can allocate, and a SET carries its 4 flag bytes.
   */
  predicate WellFormed(req: Request)
  {
    && |req.extras| < 0x100
    && |req.key| < Two16
    && |Body(req)| < Two31
    && (req.SetRequest? ==> |req.extras| >= 4)
  }

  /** A request header: magic 0x80, the opcode, the three lengths, zeros elsewhere. */
  function RequestHeader(op: Byte, keyLength: nat, extraLength: nat, bodyLength: nat): (h: seq<Byte>)
    requires keyLength < Two16 && extraLength < 0x100 && bodyLength < Two32
    ensures |h| == HeaderLength
    ensures h[0] == RequestMagic && h[1] == op
    ensures KeyLength(h) == keyLength && ExtraLength(h) == extraLength && BodySize(h) == bodyLength
  {
    var kl := ToBe16(keyLength);
    var bl := ToBe32(bodyLength);
    var front: seq<Byte> := [RequestMagic, op, kl[0], kl[1], extraLength as Byte, 0, 0, 0];
    var h := front + bl + Zeros(12);
    assert h[..8] == front;
    assert h[8..12] == bl;
    h
  }

  /** The request on the wire: its header followed by its body. */
  function EncodeRequest(req: Request): (bytes: seq<Byte>)
    requires WellFormed(req)
    ensures |bytes| == HeaderLength + |Body(req)|
    ensures bytes[HeaderLength..] == Body(req)
    ensures var h := bytes[..HeaderLength];
      && Accepts(h)
      && (h[1] == OpGet <==> req.GetRequest?)
      && KeyLength(h) == |req.key|
      && ExtraLength(h) == |req.extras|
      && BodySize(h) == |Body(req)|
  {
    var op := if req.GetRequest? then OpGet else OpSet;
    var header := RequestHeader(op, |req.key|, |req.extras|, |Body(req)|);
    var bytes := header + Body(req);
    assert bytes[..HeaderLength] == header;
    bytes
  }

  /** The answer the protocol prescribes. */
  datatype Reply = Hit(stored: Value) | Miss | Stored

  /** GET reads the store; SET puts the flags followed by the value. */
  function Apply(req: Request, store: Store): (Reply, Store)
    requires WellFormed(req)
  {
    match req
    case GetRequest(_, key) => (if key in store then Hit(store[key]) else Miss, store)
    case SetRequest(extras, key, value) => (Stored, Put(store, key, extras[..4] + value))
  }

  /**
    A reply on the wire. A miss carries a total body length of 0 ahead of its
    9 bytes of "Not found", as the server frames it.
   */
  function ReplyBytes(reply: Reply): seq<Byte>
  {
    match reply
    case Hit(v) => ResponseHeader(StatusNoError, FlagsLength, |v|) + v
    case Miss => ResponseHeader(StatusKeyNotFound, 0, 0) + NotFoundBody
    case Stored => ResponseHeader(StatusNoError, 0, 0)
  }

  /** All requests encoded back to back. */
  function EncodeAll(reqs: seq<Request>): seq<Byte>
    requires forall i :: 0 <= i < |reqs| ==> WellFormed(reqs[i])
  {
    if reqs == [] then [] else EncodeRequest(reqs[0]) + EncodeAll(reqs[1..])
  }

  /** The responses, one per request in order, and the final store. */
  datatype Served = Served(responses: seq<seq<Byte>>, store: Store)

  function Serve(reqs: seq<Request>, store: Store): (s: Served)
    requires forall i :: 0 <= i < |reqs| ==> WellFormed(reqs[i])
    ensures |s.responses| == |reqs|
    ensures reqs != [] ==> s.responses[0] == ReplyBytes(Apply(reqs[0], store).0)
  {
    if reqs == [] then Served([], store)
    else
      var (reply, store') := Apply(reqs[0], store);
      var rest := Serve(reqs[1..], store');
      Served([ReplyBytes(reply)] + rest.responses, rest.store)
  }

  function Flatten(chunks: seq<seq<Byte>>): seq<Byte>
  {
    if chunks == [] then [] else chunks[0] + Flatten(chunks[1..])
  }

  /** A well-formed GET finds its key after the extras and answers as the reference does. */
  lemma LemmaDispatchOnGet(extras: seq<Byte>, key: Key, store: Store)
    requires WellFormed(GetRequest(extras, key)) && FlagsPrefixed(store)
    ensures var req := GetRequest(extras, key);
      var (reply, store') := Apply(req, store);
      Dispatch(EncodeRequest(req)[..HeaderLength], Body(req), store) == Reply(ReplyBytes(reply), store')
  {
    var req := GetRequest(extras, key);
    var h := EncodeRequest(req)[..HeaderLength];
    var body := Body(req);
    assert body[ExtraLength(h)..ExtraLength(h) + KeyLength(h)] == key;
    var o := DoGet(h, body, store);
    assert Dispatch(h, body, store) == o;
    if key in store {
      assert |store[key]| > 0;
      assert o.response[7] == StatusNoError;
    } else {
      assert o.response[7] != StatusNoError;
    }
  }

  /** A well-formed SET stores its flags and value under its key and answers an empty success. */
  lemma LemmaDispatchOnSet(extras: seq<Byte>, key: Key, value: seq<Byte>, store: Store)
    requires WellFormed(SetRequest(extras, key, value))
    ensures var req := SetRequest(extras, key, value);
      var (reply, store') := Apply(req, store);
      Dispatch(EncodeRequest(req)[..HeaderLength], Body(req), store) == Reply(ReplyBytes(reply), store')
  {
    var req := SetRequest(extras, key, value);
    var h := EncodeRequest(req)[..HeaderLength];
    var body := Body(req);
    var e, kl := ExtraLength(h), KeyLength(h);
    assert body[e..e + kl] == key;
    assert body[..4] == extras[..4];
    assert body[e + kl..] == value;
    var o := DoSet(h, body, store);
    assert Dispatch(h, body, store) == o;
    assert o.store == Put(store, key, extras[..4] + value);
  }

  /** Dispatching the body of a well-formed request gives the reference reply and store. */
  lemma LemmaDispatchOnRequest(req: Request, store: Store)
    requires WellFormed(req) && FlagsPrefixed(store)
    ensures var bytes := EncodeRequest(req);
      var (reply, store') := Apply(req, store);
      Dispatch(bytes[..HeaderLength], Body(req), store) == Reply(ReplyBytes(reply), store')
  {
    match req
    case GetRequest(extras, key) => LemmaDispatchOnGet(extras, key, store);
    case SetRequest(extras, key, value) => LemmaDispatchOnSet(extras, key, value, store);
  }

  /** The session answers one well-formed request as the reference does and resumes right after it. */
  lemma LemmaStepOnRequest(req: Request, store: Store, tail: seq<Byte>)
    requires WellFormed(req) && FlagsPrefixed(store)
    ensures var (reply, store') := Apply(req, store);
      Step(EncodeRequest(req) + tail, store) == Responded(ReplyBytes(reply), store', tail)
  {
    var bytes := EncodeRequest(req);
    var input := bytes + tail;
    var h := input[..HeaderLength];
    assert h == bytes[..HeaderLength];
    var n := BodySize(h);
    assert input[HeaderLength..HeaderLength + n] == Body(req);
    assert input[HeaderLength + n..] == tail;
    LemmaDispatchOnRequest(req, store);
  }

  /** Flag-prefixed stores stay flag-prefixed under the reference semantics. */
  lemma LemmaApplyKeepsFlagsPrefixed(req: Request, store: Store)
    requires WellFormed(req) && FlagsPrefixed(store)
    ensures FlagsPrefixed(Apply(req, store).1)
  {
  }

  /** The session writes the reference reply to a leading well-formed request, then runs on the rest. */
  lemma LemmaRunOnRequest(req: Request, store: Store, rest: seq<Byte>)
    requires WellFormed(req) && FlagsPrefixed(store)
    ensures var (reply, store') := Apply(req, store);
      var t := Run(rest, store');
      Run(EncodeRequest(req) + rest, store) == Trace(ReplyBytes(reply) + t.output, t.store, t.reason)
  {
    LemmaStepOnRequest(req, store, rest);
    LemmaRunResumes(EncodeRequest(req) + rest, store);
  }

  /**
    The session run on the encoded requests followed by `tail` writes the
    reference responses in order, reaches the reference store, and then
    carries on with `tail`.
   */
  ghost predicate RunsAsServed(reqs: seq<Request>, store: Store, tail: seq<Byte>)
    requires forall i :: 0 <= i < |reqs| ==> WellFormed(reqs[i])
  {
    var served := Serve(reqs, store);
    var t := Run(tail, served.store);
    Run(EncodeAll(reqs) + tail, store) == Trace(Flatten(served.responses) + t.output, t.store, t.reason)
  }

  /** Serving a non-empty list answers the first request, then serves the rest from the store it leaves. */
  lemma LemmaServeCons(reqs: seq<Request>, store: Store)
    requires reqs != [] && forall i :: 0 <= i < |reqs| ==> WellFormed(reqs[i])
    ensures var applied := Apply(reqs[0], store);
      var rest := Serve(reqs[1..], applied.1);
      && Serve(reqs, store).store == rest.store
      && Flatten(Serve(reqs, store).responses) == ReplyBytes(applied.0) + Flatten(rest.responses)
  {
    var served := Serve(reqs, store);
    assert served.responses[1..] == Serve(reqs[1..], Apply(reqs[0], store).1).responses;
  }

  lemma LemmaTraceAppend(whole: Trace, r: seq<Byte>, t': Trace, f: seq<Byte>, t: Trace)
    requires whole == Trace(r + t'.output, t'.store, t'.reason)
    requires t' == Trace(f + t.output, t.store, t.reason)
    ensures whole == Trace((r + f) + t.output, t.store, t.reason)
  {
    assert r + (f + t.output) == (r + f) + t.output;
  }

  /** The encoding of a non-empty list is its first request followed by the encoding of the rest. */
  lemma LemmaEncodeAllCons(reqs: seq<Request>)
    requires reqs != [] && forall i :: 0 <= i < |reqs| ==> WellFormed(reqs[i])
    ensures EncodeAll(reqs) == EncodeRequest(reqs[0]) + EncodeAll(reqs[1..])
  {
  }

  lemma LemmaConcatAssoc(a: seq<Byte>, b: seq<Byte>, c: seq<Byte>)
    ensures (a + b) + c == a + (b + c)
  {
  }

  /** The induction base: with no requests in front the session simply runs on the tail. */
  lemma LemmaRunsAsServedNil(store: Store, tail: seq<Byte>)
    ensures RunsAsServed([], store, tail)
  {
    var t := Run(tail, store);
    assert EncodeAll([]) + tail == tail;
    assert Serve([], store) == Served([], store);
    assert Flatten([]) + t.output == t.output;
  }

  /** The induction step: one more request in front keeps the session in step with the reference. */
  lemma LemmaRunsAsServedCons(reqs: seq<Request>, store: Store, tail: seq<Byte>)
    requires reqs != [] && forall i :: 0 <= i < |reqs| ==> WellFormed(reqs[i])
    requires FlagsPrefixed(store)
    requires RunsAsServed(reqs[1..], Apply(reqs[0], store).1, tail)
    ensures RunsAsServed(reqs, store, tail)
  {
    var applied := Apply(reqs[0], store);
    var restBytes := EncodeAll(reqs[1..]) + tail;
    var rest := Serve(reqs[1..], applied.1);
    LemmaServeCons(reqs, store);
    LemmaEncodeAllCons(reqs);
    LemmaConcatAssoc(EncodeRequest(reqs[0]), EncodeAll(reqs[1..]), tail);
    LemmaRunOnRequest(reqs[0], store, restBytes);
    var whole := Run(EncodeAll(reqs) + tail, store);
    var mid := Run(restBytes, applied.1);
    var last := Run(tail, rest.store);
    assert mid == Trace(Flatten(rest.responses) + last.output, last.store, last.reason);
    LemmaTraceAppend(whole, ReplyBytes(applied.0), mid, Flatten(rest.responses), last);
  }

  /**
    On a stream of well-formed requests followed by anything, the session
    writes the reference responses in order, reaches the reference store, and
    then carries on with the remaining bytes.
   */
  lemma {:induction false} LemmaRunOnRequests(reqs: seq<Request>, store: Store, tail: seq<Byte>)
    requires forall i :: 0 <= i < |reqs| ==> WellFormed(reqs[i])
    requires FlagsPrefixed(store)
    ensures RunsAsServed(reqs, store, tail)
    decreases |reqs|
  {
    if reqs == [] {
      LemmaRunsAsServedNil(store, tail);
    } else {
      LemmaApplyKeepsFlagsPrefixed(reqs[0], store);
      LemmaRunOnRequests(reqs[1..], Apply(reqs[0], store).1, tail);
      LemmaRunsAsServedCons(reqs, store, tail);
    }
  }

  /** A stream made only of well-formed requests yields exactly the reference output, then ends. */
  lemma LemmaRunOnRequestStream(reqs: seq<Request>, store: Store)
    requires forall i :: 0 <= i < |reqs| ==> WellFormed(reqs[i])
    requires FlagsPrefixed(store)
    ensures var served := Serve(reqs, store);
      Run(EncodeAll(reqs), store) == Trace(Flatten(served.responses), served.store, EndOfStream)
  {
    LemmaRunOnRequests(reqs, store, []);
    assert EncodeAll(reqs) + [] == EncodeAll(reqs);
    assert Flatten(Serve(reqs, store).responses) + [] == Flatten(Serve(reqs, store).responses);
  }
}
