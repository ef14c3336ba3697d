/**
 * The replication wire protocol of replicator/connectors.go: message framing,
 * the reconnection backoff, the master's per-slave session, the slave's
 * classification of the master's reply to a dump request and the slave's
 * connection attempts.
 *
 * A connection is modelled by the bytes the peer sends before it stops,
 * together with whether it then closed the connection (end of stream) or
 * merely went quiet (the read deadline fires). Sending never fails in the
 * master's session; where the slave's sends can fail, the failure is an input.
 */
module Connectors {
  import opened Wrappers
  import opened Algo

  const RECONN_MAX_ATTEMPTS: nat := 10
  const RECONN_MAX_WAIT: int := 60 * SECOND

  const MSG_TYPE_AUTH_REQ: byte := 1
  const MSG_TYPE_AUTH_OK: byte := 2
  const MSG_TYPE_AUTH_DENY: byte := 3
  const MSG_TYPE_GET_DUMP: byte := 10
  const MSG_TYPE_DUMP: byte := 11
  const MSG_TYPE_ERR: byte := 255

  const TWO_32: nat := 0x1_0000_0000
  /** The largest value of the 4-byte length prefix. */
  const MAX_MSG_SIZE: nat := 4294967295

  /** "unsupported command" as bytes. */
  const UNSUPPORTED_COMMAND: Bytes :=
    [0x75, 0x6e, 0x73, 0x75, 0x70, 0x70, 0x6f, 0x72, 0x74, 0x65, 0x64, 0x20, 0x63, 0x6f, 0x6d, 0x6d, 0x61, 0x6e, 0x64]

  /** `ServiceMsg`. */
  datatype ServiceMsg = ServiceMsg(msgType: byte, payload: Bytes)

  /**
   * Why a receive failed: the peer closed before the first byte of a read
   * (EOF) or in its middle (UnexpectedEOF), the read deadline fired, or the
   * length prefix was out of range.
   */
  datatype RecvError = EOF | UnexpectedEOF | Timeout | TooLarge | WrongLength

  // ---------------------------------------------------------------------------
  // Framing
  // ---------------------------------------------------------------------------

  /** A 4-byte big-endian unsigned number. */
  function BigEndian32(b: Bytes): (n: nat)
    requires |b| == 4
    ensures n < TWO_32
  {
    ((b[0] as int * 256 + b[1] as int) * 256 + b[2] as int) * 256 + b[3] as int
  }

  /** The 4-byte big-endian form of n, as `binary.Write` puts a uint32. */
  function Uint32Bytes(n: nat): (b: Bytes)
    requires n < TWO_32
    ensures |b| == 4 && BigEndian32(b) == n
  {
    [(n / 0x100_0000) as byte, (n / 0x1_0000 % 256) as byte, (n / 0x100 % 256) as byte, (n % 256) as byte]
  }

  /** Reading four bytes as a number and writing it back gives the same bytes. */
  lemma Uint32BytesOfBigEndian(b: Bytes)
    requires |b| == 4
    ensures Uint32Bytes(BigEndian32(b)) == b
  {
    var n := BigEndian32(b);
    assert n / 0x100 == (b[0] as int * 256 + b[1] as int) * 256 + b[2] as int;
    assert n / 0x1_0000 == b[0] as int * 256 + b[1] as int;
    assert n / 0x100_0000 == b[0] as int;
  }

  /**
   * `SendMsg`: the length prefix len(payload) + 1, converted to a uint32
   * (so it wraps modulo 2^32), then the type byte, then the payload.
   */
  function EncodeMsg(m: ServiceMsg): (s: Bytes)
    ensures |s| == 5 + |m.payload|
    ensures BigEndian32(s[..4]) == (|m.payload| + 1) % TWO_32
    ensures s[4] == m.msgType && s[5..] == m.payload
  {
    Uint32Bytes((|m.payload| + 1) % TWO_32) + [m.msgType] + m.payload
  }

  /**
   * `io.ReadFull` of n bytes from a peer that sent s: the first n bytes if
   * there are enough; otherwise a timeout if the peer is still connected, EOF
   * if it closed before sending any, and UnexpectedEOF if it closed midway.
   */
  function ReadFull(s: Bytes, n: nat, closed: bool): Result<Bytes, RecvError> {
    if n <= |s| then Ok(s[..n])
    else if !closed then Err(Timeout)
    else if |s| == 0 then Err(EOF)
    else Err(UnexpectedEOF)
  }

  /**
   * `ReceiveMsg` on a peer that sent s: the message, which took its five
   * header bytes and its payload from the stream.
   */
  function ReceiveMsg(s: Bytes, closed: bool): (r: Result<ServiceMsg, RecvError>)
    ensures r.Ok? ==> 5 + |r.value.payload| <= |s|
  {
    match ReadFull(s, 4, closed)
    case Err(e) => Err(e)
    case Ok(lengthBytes) =>
      var n := BigEndian32(lengthBytes);
      if n > MAX_MSG_SIZE then Err(TooLarge)
      else if n < 1 then Err(WrongLength)
      else
        match ReadFull(s[4..], 1, closed)
        case Err(e) => Err(e)
        case Ok(t) =>
          match ReadFull(s[5..], n - 1, closed)
          case Err(e) => Err(e)
          case Ok(p) => Ok(ServiceMsg(t[0], p))
  }

  /** What ReceiveMsg takes from the stream is exactly the encoding of the message it returns. */
  lemma ReceivedIsEncoding(s: Bytes, closed: bool)
    requires ReceiveMsg(s, closed).Ok?
    ensures s[..5 + |ReceiveMsg(s, closed).value.payload|] == EncodeMsg(ReceiveMsg(s, closed).value)
  {
    var m := ReceiveMsg(s, closed).value;
    var lengthBytes := s[..4];
    Uint32BytesOfBigEndian(lengthBytes);
    assert s[..5 + |m.payload|] == lengthBytes + [m.msgType] + m.payload;
  }

  /** The length-limit check never fires: no uint32 exceeds MAX_MSG_SIZE. */
  lemma ReceiveNeverTooLarge(s: Bytes, closed: bool)
    ensures ReceiveMsg(s, closed) != Err(TooLarge)
  {
    if |s| >= 4 {
      assert BigEndian32(s[..4]) < TWO_32;
    }
  }

  /** Fewer than five bytes never make a message, and a zero length prefix is rejected. */
  lemma ReceiveRejects(s: Bytes, closed: bool)
    ensures |s| < 5 ==> ReceiveMsg(s, closed).Err?
    ensures |s| >= 4 && BigEndian32(s[..4]) == 0 ==> ReceiveMsg(s, closed) == Err(WrongLength)
  {
  }

  /**
   * Receiving what was sent gives back the message and takes exactly its
   * encoding, whatever follows it, for every payload shorter than
   * MAX_MSG_SIZE.
   */
  lemma ReceiveSent(m: ServiceMsg, rest: Bytes, closed: bool)
    requires |m.payload| < MAX_MSG_SIZE
    ensures ReceiveMsg(EncodeMsg(m) + rest, closed) == Ok(m)
  {
    var s := EncodeMsg(m) + rest;
    assert s[..4] == EncodeMsg(m)[..4];
    assert s[4..][..1] == [m.msgType];
    assert s[5..][..|m.payload|] == m.payload;
  }

  /**
   * A payload of exactly MAX_MSG_SIZE bytes is sent with a length prefix of
   * 0, which the receiver rejects.
   */
  lemma PayloadAtLimitUnreadable(m: ServiceMsg, rest: Bytes, closed: bool)
    requires |m.payload| == MAX_MSG_SIZE
    ensures ReceiveMsg(EncodeMsg(m) + rest, closed) == Err(WrongLength)
  {
    var s := EncodeMsg(m) + rest;
    assert s[..4] == EncodeMsg(m)[..4];
  }

  /**
   * A message cut short is an error: a timeout while the peer stays
   * connected; once it closed, EOF when the cut falls before the length
   * prefix, the type byte or the payload, and UnexpectedEOF inside one.
   */
  lemma ReceiveTruncated(m: ServiceMsg, k: nat, closed: bool)
    requires |m.payload| < MAX_MSG_SIZE && k < 5 + |m.payload|
    ensures ReceiveMsg(EncodeMsg(m)[..k], closed) ==
      Err(if !closed then Timeout else if k == 0 || k == 4 || k == 5 then EOF else UnexpectedEOF)
  {
    var s := EncodeMsg(m)[..k];
    if k >= 4 {
      assert s[..4] == EncodeMsg(m)[..4];
    }
  }

  // ---------------------------------------------------------------------------
  // Backoff
  // ---------------------------------------------------------------------------

  /**
   * `backoff` as written: (2^attempt - 1) seconds, capped at maxWait, with
   * Go's int64 wrap-around in the power, the subtraction and the
   * multiplication by a second.
   */
  function Backoff(attempt: int, maxWait: int): (w: int)
    ensures w <= maxWait
  {
    var wait := Int64(Int64(PowResult(2, attempt) - 1) * SECOND);
    if wait > maxWait then maxWait else wait
  }

  /** (2^attempt - 1) seconds capped at maxWait, on unbounded integers; 0 for attempt <= 0. */
  function BackoffSaturating(attempt: int, maxWait: int): (w: int)
    ensures w <= maxWait
    ensures maxWait >= 0 ==> w >= 0
    ensures attempt <= 0 ==> w == (if maxWait < 0 then maxWait else 0)
  {
    var wait := if attempt <= 0 then 0 else (Power(2, attempt) - 1) * SECOND;
    PowerOfTwoPositive(if attempt <= 0 then 0 else attempt);
    if wait > maxWait then maxWait else wait
  }

  lemma {:induction false} PowerOfTwoPositive(n: nat)
    ensures Power(2, n) >= 1
  {
    if n > 0 {
      PowerOfTwoPositive(n - 1);
    }
  }

  lemma {:induction false} PowerOfTwoMonotone(m: nat, n: nat)
    requires m <= n
    ensures Power(2, m) <= Power(2, n)
    decreases n
  {
    if m < n {
      PowerOfTwoMonotone(m, n - 1);
      PowerOfTwoPositive(n - 1);
    }
  }

  lemma PowerOfTwoValues()
    ensures Power(2, 1) == 2 && Power(2, 3) == 8 && Power(2, 10) == 1024
    ensures Power(2, 32) == TWO_32 && Power(2, 33) == 2 * TWO_32 && Power(2, 64) == TWO_64
  {
    assert Power(2, 8) == 256;
    PowerAdd(2, 8, 8);
    PowerAdd(2, 16, 16);
    PowerAdd(2, 32, 1);
    PowerAdd(2, 32, 32);
  }

  /** The wait never shrinks as attempts go on. */
  lemma BackoffSaturatingMonotone(a: int, b: int, maxWait: int)
    requires a <= b
    ensures BackoffSaturating(a, maxWait) <= BackoffSaturating(b, maxWait)
  {
    if a > 0 {
      PowerOfTwoMonotone(a, b);
    } else {
      PowerOfTwoPositive(if b <= 0 then 0 else b);
    }
  }

  /**
   * Up to attempt 33, where (2^attempt - 1) seconds still fits an int64, the
   * backoff as written is the intended one.
   */
  lemma BackoffAgreesBelowOverflow(attempt: int, maxWait: int)
    requires attempt <= 33
    ensures Backoff(attempt, maxWait) == BackoffSaturating(attempt, maxWait)
  {
    if attempt > 0 {
      PowerOfTwoMonotone(attempt, 33);
      PowerOfTwoPositive(attempt);
      PowerOfTwoValues();
      Int64Identity(Power(2, attempt));
      Int64Identity(Power(2, attempt) - 1);
      Int64Identity((Power(2, attempt) - 1) * SECOND);
    } else {
      Int64Identity(0);
    }
  }

  /** The source's table test of `backoff`, for both definitions. */
  lemma BackoffExamples()
    ensures Backoff(0, MINUTE) == 0 && Backoff(1, MINUTE) == SECOND
    ensures Backoff(3, MINUTE) == 7 * SECOND && Backoff(10, MINUTE) == MINUTE
    ensures BackoffSaturating(0, MINUTE) == 0 && BackoffSaturating(1, MINUTE) == SECOND
    ensures BackoffSaturating(3, MINUTE) == 7 * SECOND && BackoffSaturating(10, MINUTE) == MINUTE
  {
    PowerOfTwoValues();
    BackoffAgreesBelowOverflow(0, MINUTE);
    BackoffAgreesBelowOverflow(1, MINUTE);
    BackoffAgreesBelowOverflow(3, MINUTE);
    BackoffAgreesBelowOverflow(10, MINUTE);
  }

  /** At attempt 64 the power wraps to 0 and the backoff as written is minus one second. */
  lemma BackoffOverflows()
    ensures Backoff(64, RECONN_MAX_WAIT) == -SECOND
    ensures BackoffSaturating(64, RECONN_MAX_WAIT) == RECONN_MAX_WAIT
  {
    PowerOfTwoValues();
    PowerOfTwoPositive(64);
  }

  // ---------------------------------------------------------------------------
  // Master side: one slave connection
  // ---------------------------------------------------------------------------

  /** How a slave session ends. */
  datatype SessionEnd =
    | AuthReceiveFailed(error: RecvError)  // no reply is sent
    | AuthRejected                         // after AUTH_DENY
    | SlaveDisconnected                    // end of stream between requests
    | IdleSlaveClosed(error: RecvError)    // any other receive error: the master closes

  const AUTH_OK_MSG: ServiceMsg := ServiceMsg(MSG_TYPE_AUTH_OK, [])
  const AUTH_DENY_MSG: ServiceMsg := ServiceMsg(MSG_TYPE_AUTH_DENY, [])

  /** The first message admits the slave: an AUTH_REQ carrying the secret hash. */
  predicate Admits(auth: ServiceMsg, secretHash: Bytes) {
    auth.msgType == MSG_TYPE_AUTH_REQ && auth.payload == secretHash
  }

  /** The serving loop's answer to one request. */
  function Respond(request: ServiceMsg, dump: Bytes): (reply: ServiceMsg)
    ensures reply.msgType == MSG_TYPE_DUMP <==> request.msgType == MSG_TYPE_GET_DUMP
    ensures reply.msgType == MSG_TYPE_DUMP ==> reply.payload == dump
    ensures reply.msgType != MSG_TYPE_DUMP ==> reply == ServiceMsg(MSG_TYPE_ERR, UNSUPPORTED_COMMAND)
  {
    if request.msgType == MSG_TYPE_GET_DUMP then ServiceMsg(MSG_TYPE_DUMP, dump)
    else ServiceMsg(MSG_TYPE_ERR, UNSUPPORTED_COMMAND)
  }

  /** The replies to a run of requests, one each, in order. */
  function Responses(requests: seq<ServiceMsg>, dump: Bytes): (replies: seq<ServiceMsg>)
    ensures |replies| == |requests|
    ensures forall i :: 0 <= i < |requests| ==> replies[i] == Respond(requests[i], dump)
  {
    if |requests| == 0 then [] else [Respond(requests[0], dump)] + Responses(requests[1..], dump)
  }

  /**
   * The requests a peer that sent s gets through: messages received one
   * after another, up to the receive error that stops the loop.
   */
  function Requests(s: Bytes, closed: bool): (r: (seq<ServiceMsg>, RecvError))
    ensures r.1 != TooLarge
    decreases |s|
  {
    match ReceiveMsg(s, closed)
    case Err(e) => ReceiveNeverTooLarge(s, closed); ([], e)
    case Ok(m) =>
      var rest := Requests(s[5 + |m.payload|..], closed);
      ([m] + rest.0, rest.1)
  }

  /** The messages sent one after another. */
  function EncodeAll(ms: seq<ServiceMsg>): (s: Bytes)
    ensures |ms| == 0 ==> s == []
  {
    if |ms| == 0 then [] else EncodeMsg(ms[0]) + EncodeAll(ms[1..])
  }

  /**
   * Messages sent back to back are received one by one, in order; the loop
   * then stops at end of stream if the peer closed, and on a timeout if not.
   */
  lemma {:induction false} RequestsOfSent(ms: seq<ServiceMsg>, closed: bool)
    requires forall i :: 0 <= i < |ms| ==> |ms[i].payload| < MAX_MSG_SIZE
    ensures Requests(EncodeAll(ms), closed) == (ms, if closed then EOF else Timeout)
    decreases |ms|
  {
    if |ms| > 0 {
      ReceiveSent(ms[0], EncodeAll(ms[1..]), closed);
      var s := EncodeAll(ms);
      assert s[5 + |ms[0].payload|..] == EncodeAll(ms[1..]);
      RequestsOfSent(ms[1..], closed);
      assert [ms[0]] + ms[1..] == ms;
    }
  }

  /** How a receive error ends the serving loop. */
  function ServingEnd(e: RecvError): SessionEnd {
    if e == EOF then SlaveDisconnected else IdleSlaveClosed(e)
  }

  /**
   * The whole session with a slave that sent s: the replies, in order, and
   * how the session ends. A receive error on the first message ends it with
   * no reply; a first message that does not admit the slave gets AUTH_DENY;
   * otherwise AUTH_OK, then one reply per request.
   */
  function Session(s: Bytes, closed: bool, secretHash: Bytes, dump: Bytes): (r: (seq<ServiceMsg>, SessionEnd))
    ensures |r.0| > 0 && r.0[0] == AUTH_OK_MSG <==>
      ReceiveMsg(s, closed).Ok? && Admits(ReceiveMsg(s, closed).value, secretHash)
    ensures forall i :: 1 <= i < |r.0| ==>
      (r.0[i] == ServiceMsg(MSG_TYPE_DUMP, dump) || r.0[i] == ServiceMsg(MSG_TYPE_ERR, UNSUPPORTED_COMMAND))
    ensures r.1 == AuthRejected <==> r.0 == [AUTH_DENY_MSG]
    ensures ReceiveMsg(s, closed).Err? ==> r == ([], AuthReceiveFailed(ReceiveMsg(s, closed).error))
    ensures ReceiveMsg(s, closed).Ok? && !Admits(ReceiveMsg(s, closed).value, secretHash) ==>
      r == ([AUTH_DENY_MSG], AuthRejected)
    ensures ReceiveMsg(s, closed).Ok? && Admits(ReceiveMsg(s, closed).value, secretHash) ==>
      var requests := Requests(s[5 + |ReceiveMsg(s, closed).value.payload|..], closed);
      && |r.0| == 1 + |requests.0|
      && (forall i :: 0 <= i < |requests.0| ==> r.0[i + 1] == Respond(requests.0[i], dump))
      && r.1 == ServingEnd(requests.1)
  {
    match ReceiveMsg(s, closed)
    case Err(e) => ([], AuthReceiveFailed(e))
    case Ok(auth) =>
      if !Admits(auth, secretHash) then ([AUTH_DENY_MSG], AuthRejected)
      else
        var requests := Requests(s[5 + |auth.payload|..], closed);
        ([AUTH_OK_MSG] + Responses(requests.0, dump), ServingEnd(requests.1))
  }

  /**
   * `handleSlaveConn` on a slave that sent s and then closed (or went
   * quiet): the replies the master sends and how the session ends, as
   * Session describes. The cached dump is read once per request; it is the
   * same dump throughout here.
   */
  method HandleSlaveConn(s: Bytes, closed: bool, secretHash: Bytes, dump: Bytes)
    returns (replies: seq<ServiceMsg>, end: SessionEnd)
    ensures (replies, end) == Session(s, closed, secretHash, dump)
  {
    var first := ReceiveMsg(s, closed);
    if first.Err? {
      return [], AuthReceiveFailed(first.error);
    }
    var auth := first.value;
    var same := CompareByteSlices(auth.payload, secretHash);
    if auth.msgType != MSG_TYPE_AUTH_REQ || !same {
      return [AUTH_DENY_MSG], AuthRejected;
    }
    var served;
    served, end := ServeRequests(s[5 + |auth.payload|..], closed, dump);
    replies := [AUTH_OK_MSG] + served;
  }

  /**
   * The serving loop of `handleSlaveConn` on the bytes after the
   * authentication message: one reply per request received, until a
   * receive error ends it.
   */
  method ServeRequests(s: Bytes, closed: bool, dump: Bytes) returns (replies: seq<ServiceMsg>, end: SessionEnd)
    ensures replies == Responses(Requests(s, closed).0, dump)
    ensures end == ServingEnd(Requests(s, closed).1)
  {
    replies := [];
    var rest := s;
    ghost var served: seq<ServiceMsg> := [];
    var next := ReceiveMsg(rest, closed);
    assert served + Requests(rest, closed).0 == Requests(s, closed).0;
    while next.Ok?
      invariant next == ReceiveMsg(rest, closed)
      invariant Requests(s, closed).0 == served + Requests(rest, closed).0
      invariant Requests(s, closed).1 == Requests(rest, closed).1
      invariant replies == Responses(served, dump)
      decreases |rest|
    {
      var msg := next.value;
      replies := replies + [Respond(msg, dump)];
      ServeStep(s, rest, served, closed, dump);
      served := served + [msg];
      rest := rest[5 + |msg.payload|..];
      next := ReceiveMsg(rest, closed);
    }
    RequestsStop(s, rest, served, closed);
    end := ServingEnd(next.error);
  }

  /** One unfolding of Requests on a stream that starts with a message. */
  lemma RequestsCons(s: Bytes, closed: bool)
    requires ReceiveMsg(s, closed).Ok?
    ensures var m := ReceiveMsg(s, closed).value;
      && Requests(s, closed).0 == [m] + Requests(s[5 + |m.payload|..], closed).0
      && Requests(s, closed).1 == Requests(s[5 + |m.payload|..], closed).1
  {
  }

  /** The serving loop's invariant survives receiving one more request. */
  lemma ServeStep(s: Bytes, rest: Bytes, served: seq<ServiceMsg>, closed: bool, dump: Bytes)
    requires ReceiveMsg(rest, closed).Ok?
    requires Requests(s, closed).0 == served + Requests(rest, closed).0
    requires Requests(s, closed).1 == Requests(rest, closed).1
    ensures var m := ReceiveMsg(rest, closed).value;
      var rest' := rest[5 + |m.payload|..];
      && Requests(s, closed).0 == (served + [m]) + Requests(rest', closed).0
      && Requests(s, closed).1 == Requests(rest', closed).1
      && Responses(served + [m], dump) == Responses(served, dump) + [Respond(m, dump)]
  {
    var m := ReceiveMsg(rest, closed).value;
    var tail := Requests(rest[5 + |m.payload|..], closed).0;
    RequestsCons(rest, closed);
    ResponsesAppend(served, m, dump);
    assert served + ([m] + tail) == (served + [m]) + tail;
  }

  /** When the next receive fails, the requests served so far are all of them. */
  lemma RequestsStop(s: Bytes, rest: Bytes, served: seq<ServiceMsg>, closed: bool)
    requires ReceiveMsg(rest, closed).Err?
    requires Requests(s, closed).0 == served + Requests(rest, closed).0
    requires Requests(s, closed).1 == Requests(rest, closed).1
    ensures Requests(s, closed).0 == served && Requests(s, closed).1 == ReceiveMsg(rest, closed).error
  {
    assert Requests(rest, closed).0 == [];
    assert served + [] == served;
  }

  /** Responding to one more request appends its reply. */
  lemma ResponsesAppend(requests: seq<ServiceMsg>, m: ServiceMsg, dump: Bytes)
    ensures Responses(requests + [m], dump) == Responses(requests, dump) + [Respond(m, dump)]
  {
  }

  /**
   * A slave that authenticates with the right hash and asks for the dump
   * gets AUTH_OK and then the dump; when it then disconnects, the session
   * ends cleanly.
   */
  lemma SessionServesDump(secretHash: Bytes, dump: Bytes)
    requires |secretHash| < MAX_MSG_SIZE
    ensures Session(EncodeAll([ServiceMsg(MSG_TYPE_AUTH_REQ, secretHash), ServiceMsg(MSG_TYPE_GET_DUMP, [])]),
      true, secretHash, dump) == ([AUTH_OK_MSG, ServiceMsg(MSG_TYPE_DUMP, dump)], SlaveDisconnected)
  {
    var auth := ServiceMsg(MSG_TYPE_AUTH_REQ, secretHash);
    var requests := [ServiceMsg(MSG_TYPE_GET_DUMP, [])];
    var s := EncodeAll([auth] + requests);
    assert s == EncodeMsg(auth) + EncodeAll(requests);
    ReceiveSent(auth, EncodeAll(requests), true);
    assert s[5 + |secretHash|..] == EncodeAll(requests);
    assert [auth] + requests == [auth, ServiceMsg(MSG_TYPE_GET_DUMP, [])];
    assert ReceiveMsg(s, true) == Ok(auth);
    RequestsOfSent(requests, true);
    assert Requests(s[5 + |auth.payload|..], true) == (requests, EOF);
    assert Responses(requests, dump) == [ServiceMsg(MSG_TYPE_DUMP, dump)];
    assert Session(s, true, secretHash, dump) == ([AUTH_OK_MSG] + Responses(requests, dump), ServingEnd(EOF));
    assert [AUTH_OK_MSG] + [ServiceMsg(MSG_TYPE_DUMP, dump)] == [AUTH_OK_MSG, ServiceMsg(MSG_TYPE_DUMP, dump)];
  }

  /** A slave that authenticates with a wrong hash gets only AUTH_DENY. */
  lemma SessionDeniesWrongHash(secretHash: Bytes, wrongHash: Bytes, dump: Bytes)
    requires |wrongHash| < MAX_MSG_SIZE && wrongHash != secretHash
    ensures Session(EncodeAll([ServiceMsg(MSG_TYPE_AUTH_REQ, wrongHash), ServiceMsg(MSG_TYPE_GET_DUMP, [])]),
      true, secretHash, dump) == ([AUTH_DENY_MSG], AuthRejected)
  {
    var auth := ServiceMsg(MSG_TYPE_AUTH_REQ, wrongHash);
    var requests := [ServiceMsg(MSG_TYPE_GET_DUMP, [])];
    assert [auth] + requests == [auth, ServiceMsg(MSG_TYPE_GET_DUMP, [])];
    assert EncodeAll([auth] + requests) == EncodeMsg(auth) + EncodeAll(requests);
    ReceiveSent(auth, EncodeAll(requests), true);
  }

  // ---------------------------------------------------------------------------
  // Slave side
  // ---------------------------------------------------------------------------

  /** Why `GetMasterDump` failed. */
  datatype DumpError = SendError | ReceiveError(error: RecvError) | MasterError(text: Bytes) | UnexpectedResponse

  /**
   * `GetMasterDump`: after the GET_DUMP request was sent (or failed to be),
   * the master's reply read from s: DUMP gives its payload, ERR an error
   * carrying its text, and any other type "unexpected master response".
   */
  function GetMasterDump(sent: bool, s: Bytes, closed: bool): (r: Result<Bytes, DumpError>)
    ensures r.Ok? <==> sent && ReceiveMsg(s, closed).Ok? && ReceiveMsg(s, closed).value.msgType == MSG_TYPE_DUMP
    ensures r.Ok? ==> r.value == ReceiveMsg(s, closed).value.payload
    ensures !sent ==> r == Err(SendError)
    ensures sent && ReceiveMsg(s, closed).Err? ==> r == Err(ReceiveError(ReceiveMsg(s, closed).error))
    ensures sent && ReceiveMsg(s, closed).Ok? && ReceiveMsg(s, closed).value.msgType == MSG_TYPE_ERR ==>
      r == Err(MasterError(ReceiveMsg(s, closed).value.payload))
    ensures (sent && ReceiveMsg(s, closed).Ok? &&
      ReceiveMsg(s, closed).value.msgType != MSG_TYPE_DUMP && ReceiveMsg(s, closed).value.msgType != MSG_TYPE_ERR) ==>
      r == Err(UnexpectedResponse)
  {
    if !sent then Err(SendError)
    else
      match ReceiveMsg(s, closed)
      case Err(e) => Err(ReceiveError(e))
      case Ok(resp) =>
        if resp.msgType == MSG_TYPE_DUMP then Ok(resp.payload)
        else if resp.msgType == MSG_TYPE_ERR then Err(MasterError(resp.payload))
        else Err(UnexpectedResponse)
  }

  /**
   * The master/slave exchange of the source's test: whatever the master
   * answers to a request, GetMasterDump reads it back; for GET_DUMP that is
   * the master's cached dump, byte for byte, and for anything else the error
   * "unsupported command".
   */
  lemma GetMasterDumpFromSession(request: ServiceMsg, dump: Bytes, closed: bool)
    requires |dump| < MAX_MSG_SIZE
    ensures request.msgType == MSG_TYPE_GET_DUMP ==>
      GetMasterDump(true, EncodeMsg(Respond(request, dump)), closed) == Ok(dump)
    ensures request.msgType != MSG_TYPE_GET_DUMP ==>
      GetMasterDump(true, EncodeMsg(Respond(request, dump)), closed) == Err(MasterError(UNSUPPORTED_COMMAND))
  {
    var reply := Respond(request, dump);
    ReceiveSent(reply, [], closed);
    assert EncodeMsg(reply) + [] == EncodeMsg(reply);
  }

  /** The exchange on a dialled connection: the AUTH_REQ send, then the reply. */
  datatype AuthExchange = AuthSendFailed | AuthReceiveError(error: RecvError) | AuthReply(reply: ServiceMsg)

  /** One dial attempt: refused, or connected with the exchange that followed. */
  datatype Dial = DialFailed | Dialled(exchange: AuthExchange)

  /** How `ConnectMaster` ends: with a connection, or with the panic it raises. */
  datatype ConnectOutcome =
    | Connected(attempts: nat)
    | AuthorizationFailure        // "master node authorization failure"
    | UnexpectedReply(text: Bytes) // the reply's payload as the panic message
    | TransportPanic(exchange: AuthExchange)
    | CannotConnect               // "cannot connect to master node"

  /** The outcome of attempt number `attempt` (from 0); dials beyond the list fail. */
  function DialAt(dials: seq<Dial>, attempt: nat): Dial {
    if attempt < |dials| then dials[attempt] else DialFailed
  }

  /** How the exchange after a successful dial ends ConnectMaster. */
  function AuthOutcome(x: AuthExchange, attempts: nat): (r: ConnectOutcome)
    ensures r.Connected? <==> x.AuthReply? && x.reply.msgType == MSG_TYPE_AUTH_OK
    ensures r == AuthorizationFailure <==> x.AuthReply? && x.reply.msgType == MSG_TYPE_AUTH_DENY
    ensures r.Connected? ==> r.attempts == attempts
  {
    match x
    case AuthReply(reply) =>
      if reply.msgType == MSG_TYPE_AUTH_OK then Connected(attempts)
      else if reply.msgType == MSG_TYPE_AUTH_DENY then AuthorizationFailure
      else UnexpectedReply(reply.payload)
    case _ => TransportPanic(x)
  }

  /** The first successful dial at or after attempt `from`, or RECONN_MAX_ATTEMPTS if none. */
  function FirstDialled(dials: seq<Dial>, from: nat): (k: nat)
    requires from <= RECONN_MAX_ATTEMPTS
    ensures from <= k <= RECONN_MAX_ATTEMPTS
    ensures forall i :: from <= i < k ==> DialAt(dials, i) == DialFailed
    ensures k < RECONN_MAX_ATTEMPTS ==> DialAt(dials, k).Dialled?
    decreases RECONN_MAX_ATTEMPTS - from
  {
    if from == RECONN_MAX_ATTEMPTS || DialAt(dials, from).Dialled? then from
    else FirstDialled(dials, from + 1)
  }

  /**
   * `ConnectMaster`: at most RECONN_MAX_ATTEMPTS dials. The first dial that
   * connects decides the outcome (AUTH_OK returns the connection, anything
   * else panics); after each refused dial the slave waits the backoff for
   * that attempt. Refused every time, it gives up.
   */
  method ConnectMaster(dials: seq<Dial>) returns (outcome: ConnectOutcome, waits: seq<int>)
    ensures FirstDialled(dials, 0) == RECONN_MAX_ATTEMPTS ==> outcome == CannotConnect
    ensures FirstDialled(dials, 0) < RECONN_MAX_ATTEMPTS ==>
      outcome == AuthOutcome(DialAt(dials, FirstDialled(dials, 0)).exchange, FirstDialled(dials, 0) + 1)
    ensures |waits| == FirstDialled(dials, 0) <= RECONN_MAX_ATTEMPTS
    ensures forall i :: 0 <= i < |waits| ==> waits[i] == Backoff(i, RECONN_MAX_WAIT)
    ensures forall i :: 0 <= i < |waits| ==> 0 <= waits[i] == BackoffSaturating(i, RECONN_MAX_WAIT)
    ensures outcome.Connected? ==> 1 <= outcome.attempts <= RECONN_MAX_ATTEMPTS
  {
    waits := [];
    var attempt := 0;
    while attempt < RECONN_MAX_ATTEMPTS
      invariant 0 <= attempt <= RECONN_MAX_ATTEMPTS
      invariant FirstDialled(dials, 0) == FirstDialled(dials, attempt)
      invariant |waits| == attempt
      invariant forall i :: 0 <= i < attempt ==> waits[i] == Backoff(i, RECONN_MAX_WAIT)
      invariant forall i :: 0 <= i < attempt ==> 0 <= waits[i] == BackoffSaturating(i, RECONN_MAX_WAIT)
    {
      var dial := DialAt(dials, attempt);
      if dial.Dialled? {
        return AuthOutcome(dial.exchange, attempt + 1), waits;
      }
      BackoffAgreesBelowOverflow(attempt, RECONN_MAX_WAIT);
      waits := waits + [Backoff(attempt, RECONN_MAX_WAIT)];
      attempt := attempt + 1;
    }
    return CannotConnect, waits;
  }

  /** Two refused dials, then AUTH_OK: connected on the third attempt after waiting 0s and 1s. */
  method ConnectScenario() returns (outcome: ConnectOutcome, waits: seq<int>)
    ensures outcome == Connected(3) && waits == [0, SECOND]
  {
    outcome, waits := ConnectMaster([DialFailed, DialFailed, Dialled(AuthReply(AUTH_OK_MSG))]);
    assert Power(2, 1) == 2;
  }
}
