/**
  Concrete conversations with the server, from an empty cache: the stores
  and reads a client such as the Python `bmemcached` package performs, and
  the headers the server refuses.
 */
module Scenarios {
  import opened Bytes
  import opened Codec
  import opened ItemStore
  import opened Session
  import opened Requests

  const Key: seq<Byte> := [0x6B, 0x65, 0x79]                         // "key"
  const Value: seq<Byte> := [0x76, 0x61, 0x6C, 0x75, 0x65]           // "value"
  const Other: seq<Byte> := [0x6F, 0x74, 0x68, 0x65, 0x72]           // "other"
  const Missing: seq<Byte> := [0x6D, 0x69, 0x73, 0x73, 0x69, 0x6E, 0x67]  // "missing"
  const NoFlags: seq<Byte> := [0, 0, 0, 0]

  /** What the reference serves to a request stream from an empty cache is what the session writes. */
  lemma LemmaSessionFromEmpty(reqs: seq<Request>, responses: seq<seq<Byte>>, final: Store)
    requires forall i :: 0 <= i < |reqs| ==> WellFormed(reqs[i])
    requires Serve(reqs, map[]) == Served(responses, final)
    ensures Run(EncodeAll(reqs), map[]) == Trace(Flatten(responses), final, EndOfStream)
  {
    LemmaRunOnRequestStream(reqs, map[]);
  }

  /** Serving one request in front of others. */
  lemma LemmaServeFront(req: Request, reqs: seq<Request>, store: Store)
    requires WellFormed(req) && forall i :: 0 <= i < |reqs| ==> WellFormed(reqs[i])
    ensures var applied := Apply(req, store);
      var rest := Serve(reqs, applied.1);
      Serve([req] + reqs, store) == Served([ReplyBytes(applied.0)] + rest.responses, rest.store)
  {
    assert ([req] + reqs)[0] == req;
    assert ([req] + reqs)[1..] == reqs;
  }

  /** A hit on 4 flag bytes and a 5-byte value, on the wire. */
  lemma LemmaHitBytes(flags: seq<Byte>, value: seq<Byte>)
    requires |flags| == 4 && |value| == 5
    ensures ReplyBytes(Hit(flags + value)) == ResponseHeader(StatusNoError, 4, 9) + flags + value
    ensures ReplyBytes(Stored) == ResponseHeader(StatusNoError, 0, 0)
  {
    assert |flags + value| == 9;
  }

  /** SET "key" = "value" with zero flags, then GET "key": an empty success, then the flags and the value. */
  lemma LemmaSetThenGet()
    ensures var reqs := [SetRequest(NoFlags, Key, Value), GetRequest([], Key)];
      && (forall i :: 0 <= i < |reqs| ==> WellFormed(reqs[i]))
      && Run(EncodeAll(reqs), map[]) ==
         Trace(Flatten([ResponseHeader(StatusNoError, 0, 0),
                        ResponseHeader(StatusNoError, 4, 9) + NoFlags + Value]),
               map[Key := NoFlags + Value], EndOfStream)
  {
    var reqs := [SetRequest(NoFlags, Key, Value), GetRequest([], Key)];
    var s1 := map[Key := NoFlags + Value];
    assert Serve(reqs, map[]) == Served([ReplyBytes(Stored), ReplyBytes(Hit(NoFlags + Value))], s1) by {
      assert Apply(reqs[0], map[]) == (Stored, s1) by {
        assert NoFlags[..4] == NoFlags;
      }
      assert Apply(reqs[1], s1) == (Hit(NoFlags + Value), s1);
      LemmaServeFront(reqs[1], [], s1);
      LemmaServeFront(reqs[0], [reqs[1]], map[]);
      assert reqs == [reqs[0]] + [reqs[1]];
    }
    LemmaSessionFromEmpty(reqs, [ReplyBytes(Stored), ReplyBytes(Hit(NoFlags + Value))], s1);
    LemmaHitBytes(NoFlags, Value);
  }

  /**
    The extras of a SET from a standard client are 8 bytes, flags then
    expiration: the key is found after all 8, and only the 4 flag bytes are kept.
   */
  lemma LemmaSetWithExpiration()
    ensures var flags: seq<Byte> := [0xDE, 0xAD, 0xBE, 0xEF];
      var reqs := [SetRequest(flags + [0, 0, 0x0E, 0x10], Key, Value), GetRequest([], Key)];
      && (forall i :: 0 <= i < |reqs| ==> WellFormed(reqs[i]))
      && Run(EncodeAll(reqs), map[]) ==
         Trace(Flatten([ResponseHeader(StatusNoError, 0, 0),
                        ResponseHeader(StatusNoError, 4, 9) + flags + Value]),
               map[Key := flags + Value], EndOfStream)
  {
    var flags: seq<Byte> := [0xDE, 0xAD, 0xBE, 0xEF];
    var reqs := [SetRequest(flags + [0, 0, 0x0E, 0x10], Key, Value), GetRequest([], Key)];
    var s1 := map[Key := flags + Value];
    assert Serve(reqs, map[]) == Served([ReplyBytes(Stored), ReplyBytes(Hit(flags + Value))], s1) by {
      assert Apply(reqs[0], map[]) == (Stored, s1) by {
        assert (flags + [0, 0, 0x0E, 0x10])[..4] == flags;
      }
      assert Apply(reqs[1], s1) == (Hit(flags + Value), s1);
      LemmaServeFront(reqs[1], [], s1);
      LemmaServeFront(reqs[0], [reqs[1]], map[]);
      assert reqs == [reqs[0]] + [reqs[1]];
    }
    LemmaSessionFromEmpty(reqs, [ReplyBytes(Stored), ReplyBytes(Hit(flags + Value))], s1);
    LemmaHitBytes(flags, Value);
  }

  /**
    GET "missing" on an empty cache: status 1 and "Not found". The length
    field says 0 although 9 bytes follow the header.
   */
  lemma LemmaGetMissing()
    ensures var reqs := [GetRequest([], Missing)];
      && (forall i :: 0 <= i < |reqs| ==> WellFormed(reqs[i]))
      && var t := Run(EncodeAll(reqs), map[]);
      && t == Trace(ResponseHeader(StatusKeyNotFound, 0, 0) + NotFoundBody, map[], EndOfStream)
      && |t.output| == HeaderLength + 9
      && Be32(t.output[8..12]) == 0
  {
    var reqs := [GetRequest([], Missing)];
    assert Serve(reqs, map[]) == Served([ReplyBytes(Miss)], map[]) by {
      LemmaServeFront(reqs[0], [], map[]);
      assert reqs == [reqs[0]] + [];
    }
    LemmaSessionFromEmpty(reqs, [ReplyBytes(Miss)], map[]);
    LemmaMissBytes();
  }

  /** A miss on the wire: 24 header bytes announcing length 0, then the 9 bytes of "Not found". */
  lemma LemmaMissBytes()
    ensures var out := ResponseHeader(StatusKeyNotFound, 0, 0) + NotFoundBody;
      && Flatten([ReplyBytes(Miss)]) == out
      && |out| == HeaderLength + 9
      && Be32(out[8..12]) == 0
  {
    var out := ResponseHeader(StatusKeyNotFound, 0, 0) + NotFoundBody;
    assert out[8..12] == ToBe32(0);
    assert Flatten([ReplyBytes(Miss)]) == out + [];
  }

  /** The two SET/GET pairs below, as the reference serves them. */
  lemma LemmaOverwriteServed()
    ensures var reqs := [SetRequest(NoFlags, Key, Value), GetRequest([], Key),
                         SetRequest(NoFlags, Key, Other), GetRequest([], Key)];
      && (forall i :: 0 <= i < |reqs| ==> WellFormed(reqs[i]))
      && Serve(reqs, map[]) ==
         Served([ReplyBytes(Stored), ReplyBytes(Hit(NoFlags + Value)),
                 ReplyBytes(Stored), ReplyBytes(Hit(NoFlags + Other))],
                map[Key := NoFlags + Other])
  {
    var reqs := [SetRequest(NoFlags, Key, Value), GetRequest([], Key),
                 SetRequest(NoFlags, Key, Other), GetRequest([], Key)];
    var s1 := map[Key := NoFlags + Value];
    var s2 := map[Key := NoFlags + Other];
    assert NoFlags[..4] == NoFlags;
    assert Apply(reqs[0], map[]) == (Stored, s1);
    assert Apply(reqs[1], s1) == (Hit(NoFlags + Value), s1);
    assert Apply(reqs[2], s1) == (Stored, s2) by {
      assert Put(s1, Key, NoFlags + Other) == s2;
    }
    assert Apply(reqs[3], s2) == (Hit(NoFlags + Other), s2);
    LemmaServeFront(reqs[3], [], s2);
    LemmaServeFront(reqs[2], [reqs[3]], s1);
    LemmaServeFront(reqs[1], [reqs[2], reqs[3]], s1);
    LemmaServeFront(reqs[0], [reqs[1], reqs[2], reqs[3]], map[]);
    assert reqs == [reqs[0]] + [reqs[1], reqs[2], reqs[3]];
    assert [reqs[1], reqs[2], reqs[3]] == [reqs[1]] + [reqs[2], reqs[3]];
    assert [reqs[2], reqs[3]] == [reqs[2]] + [reqs[3]];
  }

  /** Two SET/GET pairs on one key over one connection: the second GET sees only the second value. */
  lemma LemmaOverwriteOnOneConnection()
    ensures var reqs := [SetRequest(NoFlags, Key, Value), GetRequest([], Key),
                         SetRequest(NoFlags, Key, Other), GetRequest([], Key)];
      && (forall i :: 0 <= i < |reqs| ==> WellFormed(reqs[i]))
      && Run(EncodeAll(reqs), map[]) ==
         Trace(Flatten([ResponseHeader(StatusNoError, 0, 0),
                        ResponseHeader(StatusNoError, 4, 9) + NoFlags + Value,
                        ResponseHeader(StatusNoError, 0, 0),
                        ResponseHeader(StatusNoError, 4, 9) + NoFlags + Other]),
               map[Key := NoFlags + Other], EndOfStream)
  {
    var reqs := [SetRequest(NoFlags, Key, Value), GetRequest([], Key),
                 SetRequest(NoFlags, Key, Other), GetRequest([], Key)];
    LemmaOverwriteServed();
    LemmaSessionFromEmpty(reqs, [ReplyBytes(Stored), ReplyBytes(Hit(NoFlags + Value)),
                                 ReplyBytes(Stored), ReplyBytes(Hit(NoFlags + Other))],
                          map[Key := NoFlags + Other]);
    LemmaHitBytes(NoFlags, Value);
    LemmaHitBytes(NoFlags, Other);
  }

  /** A header with opcode 0x02 is dropped: nothing is written and the store is untouched. */
  lemma LemmaUnknownOpcodeDropped(store: Store, more: seq<Byte>)
    ensures var input := [RequestMagic, 0x02] + Zeros(22) + more;
      Run(input, store) == Trace([], store, Rejected)
  {
    var input := [RequestMagic, 0x02] + Zeros(22) + more;
    assert input[..HeaderLength][1] == 0x02;
    LemmaRejectedHeaderWritesNothing(input, store);
  }

  /** A response magic where a request is due is dropped the same way. */
  lemma LemmaWrongMagicDropped(store: Store, more: seq<Byte>)
    ensures var input := [ResponseMagic, OpGet] + Zeros(22) + more;
      Run(input, store) == Trace([], store, Rejected)
  {
    var input := [ResponseMagic, OpGet] + Zeros(22) + more;
    assert input[..HeaderLength][0] == ResponseMagic;
    LemmaRejectedHeaderWritesNothing(input, store);
  }

  /** A GET announcing a 3-byte key in an empty body reads past the body: the session stops there. */
  lemma LemmaKeyPastBodyStops(store: Store, more: seq<Byte>)
    ensures var input := [RequestMagic, OpGet, 0, 3] + Zeros(20) + more;
      Run(input, store) == Trace([], store, UndefinedBody)
  {
    var input := [RequestMagic, OpGet, 0, 3] + Zeros(20) + more;
    var h := input[..HeaderLength];
    assert h[8..12] == [0, 0, 0, 0];
    assert KeyLength(h) == 3 && ExtraLength(h) == 0 && BodySize(h) == 0;
  }

  /**
    A GET announcing 2^31 body bytes (bytes 8-11 = 80 00 00 00) ends the
    session with nothing written, however many bytes follow.
   */
  lemma LemmaOversizedGetStops(store: Store, more: seq<Byte>)
    ensures var input := [RequestMagic, OpGet, 0, 0, 0, 0, 0, 0, 0x80] + Zeros(15) + more;
      Run(input, store) == Trace([], store, Oversized)
  {
    var input := [RequestMagic, OpGet, 0, 0, 0, 0, 0, 0, 0x80] + Zeros(15) + more;
    var h := input[..HeaderLength];
    assert h[8..12] == [0x80, 0, 0, 0];
    LemmaOversizedWritesNothing(input, store);
  }

  /** A header with magic 0x00 is refused with nothing written, whatever follows. */
  lemma LemmaZeroMagicDropped(store: Store, more: seq<Byte>)
    ensures var input := [0x00, OpSet] + Zeros(22) + more;
      Run(input, store) == Trace([], store, Rejected)
  {
    var input := [0x00, OpSet] + Zeros(22) + more;
    assert input[..HeaderLength][0] == 0x00;
    LemmaRejectedHeaderWritesNothing(input, store);
  }

  /**
    A SET with no extras still takes its flags from the first 4 body bytes,
    which here are the key "key" and the first value byte "v".
   */
  lemma LemmaSetWithoutExtras(store: Store, more: seq<Byte>)
    ensures var input := RequestHeader(OpSet, 3, 0, 8) + Key + Value + more;
      Step(input, store) ==
        Responded(ResponseHeader(StatusNoError, 0, 0),
                  Put(store, Key, [0x6B, 0x65, 0x79, 0x76] + Value), more)
  {
    var h := RequestHeader(OpSet, 3, 0, 8);
    var input := h + Key + Value + more;
    assert input[..HeaderLength] == h;
    assert input[HeaderLength..HeaderLength + 8] == Key + Value;
    assert input[HeaderLength + 8..] == more;
    var body := Key + Value;
    assert body[..4] == [0x6B, 0x65, 0x79, 0x76];
    assert body[0..3] == Key && body[3..] == Value;
    var o := DoSet(h, body, store);
    assert o.store == Put(store, Key, [0x6B, 0x65, 0x79, 0x76] + Value);
  }
}
